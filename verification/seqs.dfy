/** Searching and splicing sequences: the scans the modelled transpilers write
    as `for` loops over a `List<T>`, and `List.Insert` of a block. */
module Seqs {
  import opened Wrappers

  /** Index of the first element of `s[lo..hi]` satisfying `p`, scanning upward. */
  function FindFirst<T>(s: seq<T>, lo: nat, hi: nat, p: T -> bool): (r: Option<nat>)
    requires hi <= |s|
    ensures r.Some? ==> lo <= r.value < hi && p(s[r.value])
    ensures r.Some? ==> forall k :: lo <= k < r.value ==> !p(s[k])
    ensures r.None? ==> forall k :: lo <= k < hi ==> !p(s[k])
    decreases hi - lo
  {
    if lo >= hi then None
    else if p(s[lo]) then Some(lo)
    else FindFirst(s, lo + 1, hi, p)
  }

  /** Index of the last element of `s[lo..hi]` satisfying `p`: a downward scan
      from `hi - 1` that gives up after inspecting index `lo`. */
  function FindLast<T>(s: seq<T>, lo: nat, hi: nat, p: T -> bool): (r: Option<nat>)
    requires hi <= |s|
    ensures r.Some? ==> lo <= r.value < hi && p(s[r.value])
    ensures r.Some? ==> forall k :: r.value < k < hi ==> !p(s[k])
    ensures r.None? ==> forall k :: lo <= k < hi ==> !p(s[k])
    decreases hi
  {
    if lo >= hi then None
    else if p(s[hi - 1]) then Some(hi - 1)
    else FindLast(s, lo, hi - 1, p)
  }

  /** `FindFirst` is determined by its contract: a witness with no earlier match is the answer. */
  lemma FindFirstIs<T>(s: seq<T>, lo: nat, hi: nat, p: T -> bool, t: nat)
    requires hi <= |s| && lo <= t < hi && p(s[t])
    requires forall k :: lo <= k < t ==> !p(s[k])
    ensures FindFirst(s, lo, hi, p) == Some(t)
  {
  }

  /** `FindLast` likewise: a witness with no later match is the answer. */
  lemma FindLastIs<T>(s: seq<T>, lo: nat, hi: nat, p: T -> bool, t: nat)
    requires hi <= |s| && lo <= t < hi && p(s[t])
    requires forall k :: t < k < hi ==> !p(s[k])
    ensures FindLast(s, lo, hi, p) == Some(t)
  {
  }

  /** `List.Insert` of each element of `block` in turn, starting at position `at`. */
  function InsertAt<T>(s: seq<T>, at: nat, block: seq<T>): (r: seq<T>)
    requires at <= |s|
    ensures |r| == |s| + |block|
  {
    s[..at] + block + s[at..]
  }

  /** The insertion leaves the prefix before `at` in place, puts `block` at
      `at`, and shifts the rest of `s` up by `|block|`. */
  lemma InsertAtParts<T>(s: seq<T>, at: nat, block: seq<T>)
    requires at <= |s|
    ensures var r := InsertAt(s, at, block);
      && r[..at] == s[..at] && r[at + |block|..] == s[at..]
      && r[at..at + |block|] == block
  {
    var r := InsertAt(s, at, block);
    assert r[..at] == s[..at];
    assert r[at..at + |block|] == block;
    assert r[at + |block|..] == s[at..];
  }

  /** Where an element of `s` lands after `block` is inserted at `at`. */
  function Shifted(t: nat, at: nat, width: nat): nat {
    if t < at then t else t + width
  }

  /** Insertion keeps every original element, in its original relative order. */
  lemma InsertKeepsOrder<T>(s: seq<T>, at: nat, block: seq<T>)
    requires at <= |s|
    ensures forall t :: 0 <= t < |s| ==> InsertAt(s, at, block)[Shifted(t, at, |block|)] == s[t]
    ensures forall t, u :: 0 <= t < u < |s| ==> Shifted(t, at, |block|) < Shifted(u, at, |block|)
  {
    var r := InsertAt(s, at, block);
    forall t | 0 <= t < |s|
      ensures r[Shifted(t, at, |block|)] == s[t]
    {
      if t < at {
        assert r[..at][t] == s[..at][t];
      } else {
        assert r[at + |block|..][t - at] == s[at..][t - at];
      }
    }
  }

  /** Number of elements of `s` satisfying `p`. */
  function CountWhere<T>(s: seq<T>, p: T -> bool): (n: nat)
    ensures n <= |s|
    ensures n == 0 <==> forall k :: 0 <= k < |s| ==> !p(s[k])
  {
    if |s| == 0 then 0
    else (if p(s[0]) then 1 else 0) + CountWhere(s[1..], p)
  }

  lemma {:induction false} CountWhereAppend<T>(a: seq<T>, b: seq<T>, p: T -> bool)
    ensures CountWhere(a + b, p) == CountWhere(a, p) + CountWhere(b, p)
    decreases |a|
  {
    if |a| == 0 {
      assert a + b == b;
    } else {
      assert (a + b)[1..] == a[1..] + b;
      CountWhereAppend(a[1..], b, p);
    }
  }

  /** The elements of `s` satisfying `p`, in order. */
  function Filter<T>(s: seq<T>, p: T -> bool): (r: seq<T>)
    ensures |r| == CountWhere(s, p)
    ensures forall k :: 0 <= k < |r| ==> p(r[k])
  {
    if |s| == 0 then []
    else (if p(s[0]) then [s[0]] else []) + Filter(s[1..], p)
  }

  /** `Filter` keeps exactly the elements satisfying `p`. */
  lemma {:induction false} FilterMembers<T>(s: seq<T>, p: T -> bool)
    ensures forall x :: x in Filter(s, p) <==> x in s && p(x)
    decreases |s|
  {
    if |s| > 0 {
      FilterMembers(s[1..], p);
      assert s == [s[0]] + s[1..];
    }
  }

  /** Filtering distributes over concatenation. */
  lemma {:induction false} FilterAppend<T>(a: seq<T>, b: seq<T>, p: T -> bool)
    ensures Filter(a + b, p) == Filter(a, p) + Filter(b, p)
    decreases |a|
  {
    if |a| > 0 {
      assert (a + b)[1..] == a[1..] + b;
      FilterAppend(a[1..], b, p);
    } else {
      assert a + b == b;
    }
  }

  /** A sequence whose every element passes the filter passes whole. */
  lemma {:induction false} FilterAll<T>(s: seq<T>, p: T -> bool)
    requires forall k :: 0 <= k < |s| ==> p(s[k])
    ensures Filter(s, p) == s
    decreases |s|
  {
    if |s| > 0 {
      FilterAll(s[1..], p);
      assert s == [s[0]] + s[1..];
    }
  }

  /** Concatenation of a sequence of sequences. */
  function Flatten<T>(ss: seq<seq<T>>): seq<T> {
    if |ss| == 0 then [] else ss[0] + Flatten(ss[1..])
  }
}
