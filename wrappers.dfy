/** Option and Result, the two shapes the Rust code uses for "maybe" and "or an error". */
module Wrappers {

  datatype Option<+T> = None | Some(value: T)

  datatype Result<+R, +E> = Success(value: R) | Failure(error: E)
}

/**
 * What the git library hands to the core: the commits of a walked range, each
 * with its object id and its message. `git2::Commit::message` gives `None` when
 * the message is not valid UTF-8, so that is what a missing message means here.
 */
module Revwalk {
  import opened Wrappers

  /** An object id, in the hexadecimal form `Oid::to_string` displays. */
  type Oid = string

  datatype WalkedCommit = WalkedCommit(oid: Oid, message: Option<string>)
}

/**
 * The commit record of the `conventional` crate, as far as the changelog and
 * version commands read it (through its `Simple` trait): the type, the
 * description and whether it is breaking.
 */
module Conventional {

  datatype Commit = Commit(typ: string, description: string, breaking: bool)
}
