/**
  The two slice and iterator operations of Rust's standard library that the
  completers are built from.
*/
module Slices {
  import opened Wrappers

  /** `<[T]>::starts_with`: `needle` is no longer than `s` and equals its head. */
  predicate StartsWith<T(==)>(s: seq<T>, needle: seq<T>): (b: bool)
    ensures b <==> |needle| <= |s| && forall k :: 0 <= k < |needle| ==> s[k] == needle[k]
  {
    |needle| <= |s| && s[..|needle|] == needle
  }

  /** `s` starts with `needle` exactly when `s` is `needle` followed by something. */
  lemma StartsWithIffConcat<T>(s: seq<T>, needle: seq<T>)
    ensures StartsWith(s, needle) <==> exists tail :: s == needle + tail
  {
    if StartsWith(s, needle) {
      assert s == needle + s[|needle|..];
    }
    if tail :| s == needle + tail {
      assert s[..|needle|] == needle;
    }
  }

  /**
    `Iterator::find` over a slice, given by the index of the element it
    yields: the first `i` with `p(xs[i])`, or None when no element satisfies `p`.
  */
  function FindIndex<T>(xs: seq<T>, p: T -> bool): (r: Option<nat>)
    ensures r.Some? ==> r.value < |xs| && p(xs[r.value])
    ensures r.Some? ==> forall j :: 0 <= j < r.value ==> !p(xs[j])
    ensures r.None? ==> forall j :: 0 <= j < |xs| ==> !p(xs[j])
  {
    if xs == [] then None
    else if p(xs[0]) then Some(0)
    else
      match FindIndex(xs[1..], p)
      case None => None
      case Some(i) => Some(i + 1)
  }

  /** `i` is the first position of `options` whose entry starts with `buffer`. */
  ghost predicate IsFirstPrefixed<T>(options: seq<seq<T>>, buffer: seq<T>, i: int) {
    && 0 <= i < |options|
    && StartsWith(options[i], buffer)
    && forall j :: 0 <= j < i ==> !StartsWith(options[j], buffer)
  }

  /** At most one position is the first match. */
  lemma FirstPrefixedUnique<T>(options: seq<seq<T>>, buffer: seq<T>, i: int, k: int)
    requires IsFirstPrefixed(options, buffer, i) && IsFirstPrefixed(options, buffer, k)
    ensures i == k
  {
  }
}
