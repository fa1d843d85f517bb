/**
 Sequence facts stated once for any element type: slicing, and the
 in-order concatenation of what a function makes of each element.
 */
module Seqs {

  /** Dropping the last element of a non-empty second part drops it from the whole. */
  lemma DropLastAppend<T>(xs: seq<T>, ys: seq<T>)
    requires |ys| > 0
    ensures (xs + ys)[..|xs + ys| - 1] == xs + ys[..|ys| - 1]
  {
  }

  /** A prefix of a prefix is a prefix. */
  lemma TakeTake<T>(xs: seq<T>, i: nat)
    requires i < |xs|
    ensures xs[..i + 1][..i] == xs[..i]
  {
  }

  /** The whole sequence is its longest prefix. */
  lemma TakeAll<T>(xs: seq<T>)
    ensures xs[..|xs|] == xs
  {
  }

  // ---------------------------------------------------------------------
  // Concatenating images
  // ---------------------------------------------------------------------

  /** `f(xs[0]) + f(xs[1]) + ...`: each element's image, in order, duplicates kept. */
  function ConcatMap<T, U>(xs: seq<T>, f: T --> seq<U>): seq<U>
    requires forall k :: 0 <= k < |xs| ==> f.requires(xs[k])
  {
    if |xs| == 0 then [] else ConcatMap(xs[..|xs| - 1], f) + f(xs[|xs| - 1])
  }

  /** Concatenating two lists' images one after the other is concatenating the joined list's images. */
  lemma {:induction false} ConcatMapAppend<T, U>(xs: seq<T>, ys: seq<T>, f: T --> seq<U>)
    requires forall k :: 0 <= k < |xs| ==> f.requires(xs[k])
    requires forall k :: 0 <= k < |ys| ==> f.requires(ys[k])
    ensures ConcatMap(xs + ys, f) == ConcatMap(xs, f) + ConcatMap(ys, f)
    decreases |ys|
  {
    if |ys| == 0 {
      assert xs + ys == xs;
    } else {
      var n := |ys| - 1;
      ConcatMapAppend(xs, ys[..n], f);
      DropLastAppend(xs, ys);
    }
  }

  /** One more element adds its image at the end. */
  lemma ConcatMapSnoc<T, U>(xs: seq<T>, i: nat, f: T --> seq<U>)
    requires i < |xs| && forall k :: 0 <= k < |xs| ==> f.requires(xs[k])
    ensures ConcatMap(xs[..i + 1], f) == ConcatMap(xs[..i], f) + f(xs[i])
  {
    TakeTake(xs, i);
  }

  /** When every image has `c` elements, the concatenation has `c` per element. */
  lemma {:induction false} ConcatMapUniform<T, U>(xs: seq<T>, f: T --> seq<U>, c: nat)
    requires forall k :: 0 <= k < |xs| ==> f.requires(xs[k]) && |f(xs[k])| == c
    ensures |ConcatMap(xs, f)| == |xs| * c
    decreases |xs|
  {
    if |xs| > 0 {
      ConcatMapUniform(xs[..|xs| - 1], f, c);
    }
  }

  /** With no image empty, the concatenation is empty exactly when the list is. */
  lemma ConcatMapEmpty<T, U>(xs: seq<T>, f: T --> seq<U>)
    requires forall k :: 0 <= k < |xs| ==> f.requires(xs[k]) && |f(xs[k])| > 0
    ensures |ConcatMap(xs, f)| == 0 <==> |xs| == 0
  {
    if |xs| > 0 {
      assert |ConcatMap(xs, f)| >= |f(xs[|xs| - 1])|;
    }
  }

  /** A value is in the concatenation exactly when it is in some element's image. */
  lemma {:induction false} ConcatMapMembers<T, U>(xs: seq<T>, f: T --> seq<U>, y: U)
    requires forall k :: 0 <= k < |xs| ==> f.requires(xs[k])
    ensures y in ConcatMap(xs, f) <==> exists k :: 0 <= k < |xs| && y in f(xs[k])
    decreases |xs|
  {
    if |xs| > 0 {
      var n := |xs| - 1;
      var init := xs[..n];
      ConcatMapMembers(init, f, y);
      if exists k :: 0 <= k < n && y in f(init[k]) {
        var k :| 0 <= k < n && y in f(init[k]);
        assert y in f(xs[k]);
      }
      if exists k :: 0 <= k < |xs| && y in f(xs[k]) {
        var k :| 0 <= k < |xs| && y in f(xs[k]);
        if k < n {
          assert y in f(init[k]);
        }
      }
    }
  }

  lemma AppendAssoc<T>(a: seq<T>, b: seq<T>, c: seq<T>)
    ensures a + (b + c) == a + b + c
  {
  }

  /** Slicing a suffix `s[i..]` is slicing `s` further along. */
  lemma SliceOfSuffix<T>(s: seq<T>, t: seq<T>, i: nat, j: nat, k: nat)
    requires i <= |s| && t == s[i..] && j <= k <= |t|
    ensures t[j..k] == s[i + j..i + k] && t[j..] == s[i + j..] && t[..k] == s[i..i + k]
  {
  }

  /** A prefix of a suffix of `s` is a slice of `s`. */
  lemma PrefixOfSuffix<T>(s: seq<T>, t: seq<T>, r: seq<T>)
    requires |t| <= |s| && t == s[|s| - |t|..] && |r| <= |t| && r == t[..|r|]
    ensures r == s[|s| - |t|..|s| - |t| + |r|]
  {
  }

  /** A sequence of at least two elements is its first, its middle and its last. */
  lemma Frame<T>(xs: seq<T>)
    requires |xs| >= 2
    ensures xs == [xs[0]] + xs[1..|xs| - 1] + [xs[|xs| - 1]]
  {
  }

  /**
   Two appends where one of the appended parts is empty commute: if `lhs`
   is `w + a` followed by `b` and `rhs` is `w + b`, then `lhs` is `rhs`
   followed by `a`.
   */
  lemma SwapEmpty<T>(lhs: seq<T>, rhs: seq<T>, w: seq<T>, a: seq<T>, b: seq<T>)
    requires a == [] || b == []
    requires lhs == (w + a) + b && rhs == w + b
    ensures lhs == rhs + a
  {
    if a == [] {
      assert w + a == w && rhs + a == rhs;
    } else {
      assert w + b == w && lhs == w + a;
    }
  }

  /** The sequences one after the other. */
  function Flatten<T>(xss: seq<seq<T>>): seq<T> {
    if |xss| == 0 then [] else Flatten(xss[..|xss| - 1]) + xss[|xss| - 1]
  }

  /** One more piece is appended at the end. */
  lemma FlattenSnoc<T>(xss: seq<seq<T>>, i: nat)
    requires i < |xss|
    ensures Flatten(xss[..i + 1]) == Flatten(xss[..i]) + xss[i]
  {
    TakeTake(xss, i);
  }

  /**
   Appends the images of the elements in order until the first element
   flagged in `fails`. Returns the index of that element, or the length
   when none is flagged, and the images appended before it.
   */
  method ConcatUntil<T, U>(xs: seq<T>, f: T --> seq<U>, fails: seq<bool>) returns (stop: nat, all: seq<U>)
    requires |fails| == |xs| && forall k :: 0 <= k < |xs| ==> f.requires(xs[k])
    ensures stop <= |xs|
    ensures forall j :: 0 <= j < stop ==> !fails[j]
    ensures stop < |xs| ==> fails[stop]
    ensures all == ConcatMap(xs[..stop], f)
  {
    stop, all := 0, [];
    while stop < |xs| && !fails[stop]
      invariant stop <= |xs|
      invariant forall j :: 0 <= j < stop ==> !fails[j]
      invariant all == ConcatMap(xs[..stop], f)
    {
      ConcatMapSnoc(xs, stop, f);
      all := all + f(xs[stop]);
      stop := stop + 1;
    }
  }
}
