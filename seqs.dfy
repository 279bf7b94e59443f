/** Generic facts about sequences: element-wise mapping, shared by the
    loader's column cleaning and the normalizer's per-token translation, and
    the regrouping steps the string and table proofs use. */
module Seqs {

  /** f applied to every element, in order. */
  function MapSeq<A, B>(s: seq<A>, f: A -> B): (r: seq<B>)
    ensures |r| == |s|
    ensures forall k :: 0 <= k < |s| ==> r[k] == f(s[k])
  {
    seq(|s|, k requires 0 <= k < |s| => f(s[k]))
  }

  lemma {:induction false} MapSeqSnoc<A, B>(s: seq<A>, x: A, f: A -> B)
    ensures MapSeq(s + [x], f) == MapSeq(s, f) + [f(x)]
  {
    var a, b := MapSeq(s + [x], f), MapSeq(s, f) + [f(x)];
    forall k | 0 <= k < |a| ensures a[k] == b[k] {
      if k < |s| {
        assert (s + [x])[k] == s[k];
      }
    }
  }

  lemma {:induction false} MapSeqAppend<A, B>(s: seq<A>, t: seq<A>, f: A -> B)
    ensures MapSeq(s + t, f) == MapSeq(s, f) + MapSeq(t, f)
  {
    var a, b := MapSeq(s + t, f), MapSeq(s, f) + MapSeq(t, f);
    forall k | 0 <= k < |a| ensures a[k] == b[k] {
      if k < |s| {
        assert (s + t)[k] == s[k];
      } else {
        assert (s + t)[k] == t[k - |s|];
      }
    }
  }

  lemma {:induction false} MapSeqPrefix<A, B>(s: seq<A>, i: nat, f: A -> B)
    requires i < |s|
    ensures MapSeq(s[..i + 1], f) == MapSeq(s[..i], f) + [f(s[i])]
  {
    assert s[..i + 1] == s[..i] + [s[i]];
    MapSeqSnoc(s[..i], s[i], f);
  }

  lemma {:induction false} MapSeqUnchanged<A>(s: seq<A>, f: A -> A)
    requires forall k :: 0 <= k < |s| ==> f(s[k]) == s[k]
    ensures MapSeq(s, f) == s
  {
  }

  /** r is made of the elements of s at the strictly increasing positions idx. */
  ghost predicate PicksAt<T>(s: seq<T>, r: seq<T>, idx: seq<int>) {
    |idx| == |r| &&
    (forall k :: 0 <= k < |idx| ==> 0 <= idx[k] < |s| && r[k] == s[idx[k]]) &&
    (forall k, l :: 0 <= k < l < |idx| ==> idx[k] < idx[l])
  }

  /** Picks survive appending to the source, and the appended element can be
      picked after all of them. */
  lemma {:induction false} PicksAtSnoc<T>(s: seq<T>, r: seq<T>, idx: seq<int>, x: T)
    requires PicksAt(s, r, idx)
    ensures PicksAt(s + [x], r, idx)
    ensures PicksAt(s + [x], r + [x], idx + [|s|])
  {
    assert forall k :: 0 <= k < |idx| ==> (s + [x])[idx[k]] == s[idx[k]];
    var idx', r' := idx + [|s|], r + [x];
    assert forall k :: 0 <= k < |idx| ==> idx'[k] == idx[k] && r'[k] == r[k];
  }

  lemma LastSplit<T>(s: seq<T>)
    requires s != []
    ensures s == s[..|s| - 1] + [s[|s| - 1]]
  {
  }

  lemma AppendAssoc<T>(a: seq<T>, b: seq<T>, c: seq<T>)
    ensures a + (b + c) == (a + b) + c
  {
  }

  lemma AppendEmpty<T>(s: seq<T>)
    ensures s + [] == s
  {
  }

  lemma TakeDrop<T>(s: seq<T>, k: nat)
    requires k <= |s|
    ensures s[..k] + s[k..] == s
  {
  }

  lemma Regroup<T>(p: seq<T>, t: seq<T>, m: seq<T>, b: seq<T>)
    ensures (p + t) + m + b == p + (t + m + b)
  {
  }

  lemma PairAppend<T>(a: T, b: T)
    ensures [a] + [b] == [a, b]
  {
  }

  lemma ConsTail<T>(s: seq<T>)
    requires s != []
    ensures [s[0]] + s[1..] == s
  {
  }
}
