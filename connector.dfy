/**
 * The decision both connector variants (`RepositoryConnector`) share: a pull
 * request needs a rebase when its branch head is not the commit the
 * destination last shared with it. The GitHub variant reads that commit as the
 * "last common commit", the Bitbucket variant as the "last parent commit".
 */
module RepositoryConnector {

  /** `rebaseNeeded`: false exactly when the head of the branch is the shared commit. */
  function RebaseNeeded(headOfBranch: string, lastCommonCommitId: string): (r: bool)
    ensures !r <==> headOfBranch == lastCommonCommitId
  {
    headOfBranch != lastCommonCommitId
  }
}
