/** Facts about laying a sequence of chains of slots end to end, used for the traversal order
    of the hash map: ascending bucket index, then front to back within a chain. */
module Chains {
  import opened Wrappers

  /** Chains `lo` to `hi - 1` laid end to end, lowest index first. */
  function Concat(cs: seq<seq<nat>>, lo: nat, hi: nat): seq<nat>
    requires lo <= hi <= |cs|
    decreases hi - lo
  {
    if lo == hi then [] else Concat(cs, lo, hi - 1) + cs[hi - 1]
  }

  /** All chains laid end to end. */
  function Flatten(cs: seq<seq<nat>>): seq<nat>
  {
    Concat(cs, 0, |cs|)
  }

  /** Cutting a run of chains at `m` cuts its concatenation. */
  lemma {:induction false} ConcatSplit(cs: seq<seq<nat>>, lo: nat, m: nat, hi: nat)
    requires lo <= m <= hi <= |cs|
    ensures Concat(cs, lo, hi) == Concat(cs, lo, m) + Concat(cs, m, hi)
    decreases hi - m
  {
    if m < hi {
      ConcatSplit(cs, lo, m, hi - 1);
    }
  }

  /** A concatenation depends on the chains of its own range only. */
  lemma {:induction false} ConcatFrame(cs: seq<seq<nat>>, ds: seq<seq<nat>>, lo: nat, hi: nat)
    requires lo <= hi <= |cs| && hi <= |ds|
    requires forall x :: lo <= x < hi ==> cs[x] == ds[x]
    ensures Concat(cs, lo, hi) == Concat(ds, lo, hi)
    decreases hi - lo
  {
    if lo < hi {
      ConcatFrame(cs, ds, lo, hi - 1);
    }
  }

  /** A concatenation is empty exactly when every chain in its range is. */
  lemma {:induction false} ConcatEmpty(cs: seq<seq<nat>>, lo: nat, hi: nat)
    requires lo <= hi <= |cs|
    ensures Concat(cs, lo, hi) == [] <==> forall x :: lo <= x < hi ==> cs[x] == []
    decreases hi - lo
  {
    if lo < hi {
      ConcatEmpty(cs, lo, hi - 1);
    }
  }

  /** Chain `b` sits between the chains before it and the chains after it. */
  lemma FlattenSplit(cs: seq<seq<nat>>, b: nat)
    requires b < |cs|
    ensures Flatten(cs) == Concat(cs, 0, b) + cs[b] + Concat(cs, b + 1, |cs|)
  {
    ConcatSplit(cs, 0, b, |cs|);
    ConcatSplit(cs, b, b + 1, |cs|);
    assert Concat(cs, b, b + 1) == cs[b];
  }

  /** Replacing chain `b` replaces its part of the traversal. */
  lemma FlattenUpdate(cs: seq<seq<nat>>, b: nat, x: seq<nat>)
    requires b < |cs|
    ensures Flatten(cs[b := x]) == Concat(cs, 0, b) + x + Concat(cs, b + 1, |cs|)
  {
    FlattenSplit(cs[b := x], b);
    ConcatFrame(cs[b := x], cs, 0, b);
    ConcatFrame(cs[b := x], cs, b + 1, |cs|);
  }

  /** The traversal is empty exactly when every chain is. */
  lemma FlattenEmpty(cs: seq<seq<nat>>)
    ensures Flatten(cs) == [] <==> forall x :: 0 <= x < |cs| ==> cs[x] == []
  {
    ConcatEmpty(cs, 0, |cs|);
  }

  /** Element `j` of chain `b` sits at offset `|Concat(cs, 0, b)| + j` of the traversal. */
  lemma FlattenAt(cs: seq<seq<nat>>, b: nat, j: nat)
    requires b < |cs| && j < |cs[b]|
    ensures |Concat(cs, 0, b)| + j < |Flatten(cs)|
    ensures Flatten(cs)[|Concat(cs, 0, b)| + j] == cs[b][j]
  {
    FlattenSplit(cs, b);
  }

  /** Empty chains add nothing to the chains before them. */
  lemma ConcatSkipEmpty(cs: seq<seq<nat>>, b: nat, b': nat)
    requires b <= b' <= |cs|
    requires forall x :: b <= x < b' ==> cs[x] == []
    ensures Concat(cs, 0, b') == Concat(cs, 0, b)
  {
    ConcatSplit(cs, 0, b, b');
    ConcatEmpty(cs, b, b');
  }

  /** When every chain before `fb` is empty and chain `fb` is not, the traversal starts with
      the front of chain `fb`. */
  lemma FlattenFirst(cs: seq<seq<nat>>, fb: nat)
    requires fb < |cs| && cs[fb] != []
    requires forall x :: 0 <= x < fb ==> cs[x] == []
    ensures Flatten(cs) != [] && Flatten(cs)[0] == cs[fb][0]
  {
    ConcatEmpty(cs, 0, fb);
    FlattenAt(cs, fb, 0);
  }

  /** Every offset of a concatenation belongs to some element of some chain of its range. */
  lemma {:induction false} ConcatLocate(cs: seq<seq<nat>>, hi: nat, p: nat) returns (b: nat, j: nat)
    requires hi <= |cs| && p < |Concat(cs, 0, hi)|
    ensures b < hi && j < |cs[b]| && p == |Concat(cs, 0, b)| + j
    decreases hi
  {
    if p < |Concat(cs, 0, hi - 1)| {
      b, j := ConcatLocate(cs, hi - 1, p);
    } else {
      b, j := hi - 1, p - |Concat(cs, 0, hi - 1)|;
    }
  }

  /** Every offset of the traversal belongs to some element of some chain. */
  lemma FlattenLocate(cs: seq<seq<nat>>, p: nat) returns (b: nat, j: nat)
    requires p < |Flatten(cs)|
    ensures b < |cs| && j < |cs[b]| && p == |Concat(cs, 0, b)| + j
  {
    b, j := ConcatLocate(cs, |cs|, p);
  }

  /** The traversal successor of element `j` of chain `b`: the next element of the same chain
      if there is one, else the front of the next non-empty chain `b'`, else nothing. */
  lemma FlattenNextInChain(cs: seq<seq<nat>>, b: nat, j: nat)
    requires b < |cs| && j + 1 < |cs[b]|
    ensures |Concat(cs, 0, b)| + j + 1 < |Flatten(cs)|
    ensures Flatten(cs)[|Concat(cs, 0, b)| + j + 1] == cs[b][j + 1]
  {
    FlattenAt(cs, b, j + 1);
  }

  lemma FlattenNextChain(cs: seq<seq<nat>>, b: nat, b': nat)
    requires b < b' < |cs| && cs[b'] != []
    requires forall x :: b < x < b' ==> cs[x] == []
    ensures |Concat(cs, 0, b)| + |cs[b]| < |Flatten(cs)|
    ensures Flatten(cs)[|Concat(cs, 0, b)| + |cs[b]|] == cs[b'][0]
  {
    ConcatSkipEmpty(cs, b + 1, b');
    ConcatSplit(cs, 0, b, b + 1);
    assert Concat(cs, b, b + 1) == cs[b];
    FlattenAt(cs, b', 0);
  }

  lemma FlattenNextNone(cs: seq<seq<nat>>, b: nat)
    requires b < |cs|
    requires forall x :: b < x < |cs| ==> cs[x] == []
    ensures |Concat(cs, 0, b)| + |cs[b]| == |Flatten(cs)|
  {
    FlattenSplit(cs, b);
    ConcatEmpty(cs, b + 1, |cs|);
  }

  /** Runs of chains of equal lengths have concatenations of equal length. */
  lemma {:induction false} ConcatLength(cs: seq<seq<nat>>, ds: seq<seq<nat>>, hi: nat)
    requires hi <= |cs| && hi <= |ds|
    requires forall x :: 0 <= x < hi ==> |cs[x]| == |ds[x]|
    ensures |Concat(cs, 0, hi)| == |Concat(ds, 0, hi)|
    decreases hi
  {
    if hi > 0 {
      ConcatLength(cs, ds, hi - 1);
    }
  }

  /** Cutting `pre + c + post` inside `c`. */
  lemma CutInside(pre: seq<nat>, c: seq<nat>, post: seq<nat>, j: nat)
    requires j <= |c|
    ensures (pre + c + post)[..|pre| + j] == pre + c[..j]
    ensures (pre + c + post)[|pre| + j..] == c[j..] + post
  {
    var t := pre + c + post;
    assert t[..|pre| + j] == pre + c[..j] by {
      forall k | 0 <= k < |pre| + j ensures t[k] == (pre + c[..j])[k] { }
    }
    assert t[|pre| + j..] == c[j..] + post by {
      forall k | 0 <= k < |t| - |pre| - j ensures t[|pre| + j..][k] == (c[j..] + post)[k] { }
    }
  }

  /** Inserting inside the middle part of `pre + c + post`. */
  lemma InsertInside(pre: seq<nat>, c: seq<nat>, post: seq<nat>, j: nat, s: nat)
    requires j <= |c|
    ensures var t, p := pre + c + post, |pre| + j;
      pre + (c[..j] + [s] + c[j..]) + post == t[..p] + [s] + t[p..]
  {
    CutInside(pre, c, post, j);
  }

  /** Removing inside the middle part of `pre + c + post`. */
  lemma RemoveInside(pre: seq<nat>, c: seq<nat>, post: seq<nat>, j: nat)
    requires j < |c|
    ensures var t, p := pre + c + post, |pre| + j;
      pre + (c[..j] + c[j + 1..]) + post == t[..p] + t[p + 1..]
  {
    CutInside(pre, c, post, j);
    CutInside(pre, c, post, j + 1);
  }

  /** Putting `s` at index `j` of chain `b` puts it at the matching offset of the traversal
      and shifts everything after it by one. */
  lemma FlattenInsertAt(cs: seq<seq<nat>>, b: nat, j: nat, s: nat)
    requires b < |cs| && j <= |cs[b]|
    ensures |Concat(cs, 0, b)| + j <= |Flatten(cs)|
    ensures var p := |Concat(cs, 0, b)| + j;
      Flatten(cs[b := cs[b][..j] + [s] + cs[b][j..]]) == Flatten(cs)[..p] + [s] + Flatten(cs)[p..]
  {
    FlattenSplit(cs, b);
    FlattenUpdate(cs, b, cs[b][..j] + [s] + cs[b][j..]);
    InsertInside(Concat(cs, 0, b), cs[b], Concat(cs, b + 1, |cs|), j, s);
  }

  /** Dropping index `j` of chain `b` drops the matching offset of the traversal. */
  lemma FlattenRemoveAt(cs: seq<seq<nat>>, b: nat, j: nat)
    requires b < |cs| && j < |cs[b]|
    ensures |Concat(cs, 0, b)| + j < |Flatten(cs)|
    ensures var p := |Concat(cs, 0, b)| + j;
      Flatten(cs[b := cs[b][..j] + cs[b][j + 1..]]) == Flatten(cs)[..p] + Flatten(cs)[p + 1..]
  {
    FlattenSplit(cs, b);
    FlattenUpdate(cs, b, cs[b][..j] + cs[b][j + 1..]);
    RemoveInside(Concat(cs, 0, b), cs[b], Concat(cs, b + 1, |cs|), j);
  }

  /** The consecutive slots `lo` to `hi - 1`. */
  function Range(lo: nat, hi: nat): (r: seq<nat>)
    requires lo <= hi
    ensures |r| == hi - lo && forall k :: 0 <= k < |r| ==> r[k] == lo + k
  {
    seq(hi - lo, k requires 0 <= k < hi - lo => lo + k)
  }

  /** Consecutive ranges join. */
  lemma RangeJoin(lo: nat, mid: nat, hi: nat)
    requires lo <= mid <= hi
    ensures Range(lo, mid) + Range(mid, hi) == Range(lo, hi)
  {
  }

  /** A range grows by its next number. */
  lemma RangeSnoc(lo: nat, hi: nat)
    requires lo <= hi
    ensures Range(lo, hi) + [hi] == Range(lo, hi + 1)
  {
  }

  /** Filling chain `b` when it and every chain after it are empty appends to the traversal. */
  lemma FlattenFillLast(cs: seq<seq<nat>>, b: nat, x: seq<nat>)
    requires b < |cs|
    requires forall y :: b <= y < |cs| ==> cs[y] == []
    ensures Flatten(cs[b := x]) == Flatten(cs) + x
  {
    FlattenUpdate(cs, b, x);
    ConcatEmpty(cs, b + 1, |cs|);
    ConcatSkipEmpty(cs, b, |cs|);
  }

  /** The front of the last non-empty chain below `hi`, if any. */
  function LastFront(cs: seq<seq<nat>>, hi: nat): (r: Option<nat>)
    requires hi <= |cs|
    ensures r.None? <==> forall x :: 0 <= x < hi ==> cs[x] == []
    ensures r.Some? ==> exists x :: 0 <= x < hi && cs[x] != [] && r.value == cs[x][0]
  {
    if hi == 0 then None
    else if cs[hi - 1] != [] then Some(cs[hi - 1][0])
    else LastFront(cs, hi - 1)
  }

  /** `LastFront` below `hi` ignores the chains from `hi` on. */
  lemma {:induction false} LastFrontUpdate(cs: seq<seq<nat>>, b: nat, x: seq<nat>, hi: nat)
    requires hi <= b < |cs|
    ensures LastFront(cs[b := x], hi) == LastFront(cs, hi)
    decreases hi
  {
    if hi > 0 {
      LastFrontUpdate(cs, b, x, hi - 1);
    }
  }
}
