/**
  The types of the `difference` crate that the matchers consume. Its diff
  algorithm, `Changeset::new`, is not part of this model: callers of
  `Matchers.DiffStr` pass it in as a function.
 */
module Difference {

  /** One run of text that both inputs share, that only the edit has, or that only the base has. */
  datatype Difference = Same(text: string) | Add(text: string) | Rem(text: string)

  /** What `Changeset::new(base, edit, splitter)` produces. */
  datatype Changeset = Changeset(diffs: seq<Difference>, distance: int)
}
