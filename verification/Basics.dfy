/** What several modules share: optional values, error numbers, and lists without repetitions. */
module Basics {

  datatype Option<T> = None | Some(value: T)

  const ENOENT := 2
  const EAGAIN := 11
  const EFAULT := 14
  const EINVAL := 22

  /** No element twice. */
  ghost predicate Distinct<T>(s: seq<T>) {
    forall i, j :: 0 <= i < j < |s| ==> s[i] != s[j]
  }
}
