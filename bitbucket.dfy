/**
 * `BitbucketConnector`: the decisions it takes on already-read responses of
 * the Bitbucket REST API. Each response is reduced to the fields the
 * connector reads.
 */
module BitbucketConnector {
  import opened Wrappers
  import opened Rfc3339
  import opened Domain

  /**
   * One element of `values` in the open pull-request listing: `id`,
   * `source.branch.name`, `destination.branch.name`, `updated_on`.
   */
  datatype PullValue = PullValue(id: int, sourceBranchName: string, destinationBranchName: string, updatedOn: string)

  /** One element of the pull request's `participants`: its `approved` flag. */
  datatype Participant = Participant(approved: bool)

  /** One element of `values` in the head commit's build statuses: its `state`. */
  datatype BuildStatus = BuildStatus(state: string)

  const Successful := "SUCCESSFUL"

  /** `isApproved`: some participant has approved; no participants means not approved. */
  function IsApproved(participants: seq<Participant>): (r: bool)
    ensures r <==> exists i :: 0 <= i < |participants| && participants[i].approved
  {
    if participants == [] then false
    else participants[0].approved || IsApproved(participants[1..])
  }

  /**
   * `greenBuildExists`: at least one build status, and every one in state
   * `SUCCESSFUL`. One `FAILED` or `INPROGRESS` status makes the build not
   * green, and so does a commit no build has reported on.
   */
  function GreenBuildExists(statuses: seq<BuildStatus>): (r: bool)
    ensures r <==> statuses != [] && forall i :: 0 <= i < |statuses| ==> statuses[i].state == Successful
  {
    if statuses == [] then false
    else statuses[0].state == Successful && (|statuses| == 1 || GreenBuildExists(statuses[1..]))
  }

  /**
   * `getLatestUpdate`: the pull request with `lastUpdate` set to the instant
   * of its own `updated_on`, nothing else consulted; the other fields are kept.
   */
  function GetLatestUpdate(pr: PullRequest, updatedOn: string): (r: Result<PullRequest>)
    ensures r.Ok? <==> Parse(updatedOn).Ok?
    ensures r.Ok? ==> r.value == pr.(lastUpdate := EpochSeconds(Parse(updatedOn).value))
  {
    var updated :- ParseInstant(updatedOn);
    Ok(pr.(lastUpdate := updated))
  }

  /** The `updated_on` of every listing entry, in order. */
  function UpdatedOns(values: seq<PullValue>): (r: seq<string>)
    ensures |r| == |values| && forall i :: 0 <= i < |values| ==> r[i] == values[i].updatedOn
  {
    seq(|values|, i requires 0 <= i < |values| => values[i].updatedOn)
  }

  /** `getAllPullRequests`: one pull request per listing entry, in listing order. */
  function GetAllPullRequests(values: seq<PullValue>): (r: Result<seq<PullRequest>>)
    ensures r.Ok? <==> forall i :: 0 <= i < |values| ==> ParseInstant(values[i].updatedOn).Ok?
    ensures r.Ok? ==> |r.value| == |values|
    ensures r.Ok? ==> forall i :: 0 <= i < |values| ==>
      ParseInstant(values[i].updatedOn).Ok? &&
      r.value[i] == PullRequest(values[i].id, values[i].sourceBranchName, values[i].destinationBranchName,
                                ParseInstant(values[i].updatedOn).value)
  {
    var instants :- ParseInstants(UpdatedOns(values));
    Ok(seq(|values|, i requires 0 <= i < |values| =>
      PullRequest(values[i].id, values[i].sourceBranchName, values[i].destinationBranchName, instants[i])))
  }

  /**
   * The connector's last update is the instant written in `updated_on`: the
   * pull request printed with that date-time gets exactly that instant.
   */
  lemma LatestUpdateIsUpdatedOn(pr: PullRequest, t: DateTime)
    requires Valid(t)
    ensures GetLatestUpdate(pr, Format(t)) == Ok(pr.(lastUpdate := EpochSeconds(t)))
  {
    ParseFormat(t);
  }
}
