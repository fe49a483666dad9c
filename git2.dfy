/**
 * What the model needs of the `git2` crate: the repository states, an opened
 * repository, its error type and `Repository::open`, which is an oracle here.
 */
module GitRepo {
  import opened Wrappers
  import opened Names

  /** `git2::RepositoryState`: the twelve states a repository can be observed in. */
  datatype RepositoryState =
    | Clean
    | Merge
    | Revert
    | RevertSequence
    | CherryPick
    | CherryPickSequence
    | Bisect
    | Rebase
    | RebaseInteractive
    | RebaseMerge
    | ApplyMailbox
    | ApplyMailboxOrRebase

  /** A failure reported by the library (`git2::Error`), kept as its message. */
  datatype GitError = GitError(message: string)

  /**
   * An opened repository (`git2::Repository`): its path and the state `state()`
   * reports for it, taken as a snapshot.
   */
  datatype Repository = Repository(path: Path, state: RepositoryState)

  /** `Repository::open`: any function from a path to an opened repository or an error. */
  type Opener = Path -> Result<Repository, GitError>
}
