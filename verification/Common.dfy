/** common.h, and what several parts need. */
module Common {

  const PAGE_SIZE: nat := 4096

  datatype Option<T> = None | Some(value: T)

  ghost predicate Distinct<T>(s: seq<T>) {
    forall i, j :: 0 <= i < j < |s| ==> s[i] != s[j]
  }

  /** `s` with `x` after place `i`. */
  function Inserted<T>(s: seq<T>, i: nat, x: T): seq<T>
    requires i < |s|
  {
    s[..i + 1] + [x] + s[i + 1..]
  }

  /** `s` without place `i`. */
  function Removed<T>(s: seq<T>, i: nat): seq<T>
    requires i < |s|
  {
    s[..i] + s[i + 1..]
  }
}
