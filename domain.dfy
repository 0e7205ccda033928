/**
 * The repository identity record (`RepositoryConfig`) and the pull-request
 * value every connector produces (`PullRequest`).
 */
module Domain {

  /** `RepositoryHostingTypes`: which connector variant serves a repository. */
  datatype RepositoryHostingType = Bitbucket | Github

  /**
   * The `java.net.URL` of the hosting platform, reduced to the two strings
   * the record reads from it: `getHost()` and `toString()`.
   */
  datatype HostUrl = HostUrl(hostName: string, text: string)

  /** An immutable record; datatype equality is field-wise over all seven fields, as `@Value` makes it. */
  datatype RepositoryConfig = RepositoryConfig(
    hostingType: RepositoryHostingType,
    host: HostUrl,
    team: string,
    repo: string,
    user: string,
    pass: string,
    masterBranch: string)
  {
    /** The log form, `Repo [ host/team/repo ]`. */
    function ToString(): (r: string)
      ensures |r| == |host.hostName| + |team| + |repo| + 11
      ensures r[..7] == "Repo [ " && r[|r| - 2..] == " ]"
      ensures r[7..|r| - 2] == host.hostName + "/" + team + "/" + repo
    {
      "Repo [ " + host.hostName + "/" + team + "/" + repo + " ]"
    }

    /** The identity key of the repository: host name, team and repository name, in that order. */
    function Qualifiers(): (r: seq<string>)
      ensures |r| == 3 && r[0] == host.hostName && r[1] == team && r[2] == repo
    {
      [host.hostName, team, repo]
    }

    /** The clone URL: the full host URL, then `/team/repo.git`. */
    function Url(): (r: string)
      ensures |r| == |host.text| + |team| + |repo| + 6
      ensures r[..|host.text|] == host.text && r[|host.text|] == '/'
      ensures r[|host.text| + 1..|r| - 4] == team + "/" + repo
      ensures r[|r| - 4..] == ".git"
    {
      host.text + "/" + team + "/" + repo + ".git"
    }
  }

  /** Two configurations have the same identity key exactly when host name, team and repository agree. */
  lemma QualifiersIdentify(c: RepositoryConfig, d: RepositoryConfig)
    ensures c.Qualifiers() == d.Qualifiers()
            <==> c.host.hostName == d.host.hostName && c.team == d.team && c.repo == d.repo
  {
    if c.Qualifiers() == d.Qualifiers() {
      assert c.Qualifiers()[0] == d.Qualifiers()[0];
      assert c.Qualifiers()[1] == d.Qualifiers()[1];
      assert c.Qualifiers()[2] == d.Qualifiers()[2];
    }
  }

  /**
   * Hosting type, credentials, master branch and the rest of the URL do not
   * enter the identity key or the log form: neither reveals `user` or `pass`.
   */
  lemma IdentityIgnoresOtherFields(c: RepositoryConfig, d: RepositoryConfig)
    requires c.host.hostName == d.host.hostName && c.team == d.team && c.repo == d.repo
    ensures c.Qualifiers() == d.Qualifiers()
    ensures c.ToString() == d.ToString()
  {
  }

  /**
   * The clone URL uses the whole URL text where the identity key uses only
   * the host name: configurations that differ only in that text (another
   * scheme or port) share their key but not their clone URL.
   */
  lemma UrlNotDeterminedByQualifiers(c: RepositoryConfig, text: string)
    requires text != c.host.text
    ensures c.(host := c.host.(text := text)).Qualifiers() == c.Qualifiers()
    ensures c.(host := c.host.(text := text)).Url() != c.Url()
  {
    var d := c.(host := c.host.(text := text));
    var suffix := "/" + c.team + "/" + c.repo + ".git";
    assert c.Url() == c.host.text + suffix;
    assert d.Url() == text + suffix;
    if |text| == |c.host.text| {
      var i :| 0 <= i < |text| && text[i] != c.host.text[i];
      assert d.Url()[i] != c.Url()[i];
    }
  }

  predicate NoSlash(s: string) {
    forall i :: 0 <= i < |s| ==> s[i] != '/'
  }

  /** The position of the first `/` in `s`, or `|s|` when there is none. */
  function FirstSlash(s: string): (k: nat)
    ensures k <= |s|
  {
    if s == [] || s[0] == '/' then 0 else 1 + FirstSlash(s[1..])
  }

  lemma {:induction false} FirstSlashAfterName(a: string, b: string)
    requires NoSlash(a)
    ensures FirstSlash(a + "/" + b) == |a|
  {
    if a != [] {
      assert (a + "/" + b)[1..] == a[1..] + "/" + b;
      FirstSlashAfterName(a[1..], b);
    }
  }

  /** A name without `/`, then `/`: the first `/` marks where the name ends. */
  lemma SplitAtFirstSlash(a: string, b: string, c: string, e: string)
    requires NoSlash(a) && NoSlash(c)
    requires a + "/" + b == c + "/" + e
    ensures a == c && b == e
  {
    var w := a + "/" + b;
    FirstSlashAfterName(a, b);
    FirstSlashAfterName(c, e);
    assert a == w[..|a|] == c;
    assert b == w[|a| + 1..] == e;
  }

  /**
   * Under one host URL, a clone URL names exactly one repository when team
   * and repository names contain no `/`.
   */
  lemma UrlDeterminesRepository(c: RepositoryConfig, d: RepositoryConfig)
    requires c.host.text == d.host.text
    requires NoSlash(c.team) && NoSlash(c.repo) && NoSlash(d.team) && NoSlash(d.repo)
    ensures c.Url() == d.Url() <==> c.team == d.team && c.repo == d.repo
  {
    if c.Url() == d.Url() {
      var u := c.Url();
      var n := |c.host.text| + 1;
      assert u[n..] == c.team + "/" + (c.repo + ".git");
      assert u[n..] == d.team + "/" + (d.repo + ".git");
      SplitAtFirstSlash(c.team, c.repo + ".git", d.team, d.repo + ".git");
      assert c.repo == (c.repo + ".git")[..|c.repo|];
      assert d.repo == (d.repo + ".git")[..|d.repo|];
    }
  }

  /**
   * A pull request as the connectors report it; `lastUpdate` is an absolute
   * instant in seconds since 1970-01-01T00:00:00Z.
   */
  datatype PullRequest = PullRequest(id: int, source: string, destination: string, lastUpdate: int)
}
