/** The nullable references of the source (a selected node, a parent, a drag
    source or target) become `Option` values; `Distinct` says a list holds no
    element twice (sibling lists, the Narrator view, the character list). */
module Wrappers {
  datatype Option<+T> = None | Some(value: T)

  ghost predicate Distinct<T>(s: seq<T>) {
    forall i, j :: 0 <= i < j < |s| ==> s[i] != s[j]
  }
}
