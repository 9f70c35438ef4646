/** Generic facts about sequences and multisets used by the ordering proofs. */
module Sequences {

  /** The images of the elements of `s` under `f`, position by position. */
  function MapSeq<T, K>(s: seq<T>, f: T -> K): (r: seq<K>)
    ensures |r| == |s|
  {
    if s == [] then [] else [f(s[0])] + MapSeq(s[1..], f)
  }

  lemma {:induction false} MapSeqAt<T, K>(s: seq<T>, f: T -> K, i: int)
    requires 0 <= i < |s|
    ensures MapSeq(s, f)[i] == f(s[i])
  {
    if i > 0 {
      MapSeqAt(s[1..], f, i - 1);
    }
  }

  lemma {:induction false} MapSeqConcat<T, K>(a: seq<T>, b: seq<T>, f: T -> K)
    ensures MapSeq(a + b, f) == MapSeq(a, f) + MapSeq(b, f)
  {
    if a == [] {
      assert a + b == b;
    } else {
      assert (a + b)[1..] == a[1..] + b;
      MapSeqConcat(a[1..], b, f);
    }
  }

  /** Dropping the head removes one copy of it. */
  lemma MultisetTail<T>(s: seq<T>)
    requires |s| > 0
    ensures multiset(s[1..]) == multiset(s) - multiset{s[0]}
  {
    assert s == [s[0]] + s[1..];
  }

  /** Removing the element at `p` removes one copy of it. */
  lemma MultisetRemoveAt<T>(t: seq<T>, p: int)
    requires 0 <= p < |t|
    ensures multiset(t[..p] + t[p + 1..]) == multiset(t) - multiset{t[p]}
  {
    assert t == t[..p] + [t[p]] + t[p + 1..];
    assert multiset(t) == multiset(t[..p]) + multiset{t[p]} + multiset(t[p + 1..]);
  }

  /** Reordering the elements reorders their images the same way. */
  lemma {:induction false} MapSeqPreservesMultiset<T, K>(s: seq<T>, t: seq<T>, f: T -> K)
    requires multiset(s) == multiset(t)
    ensures multiset(MapSeq(s, f)) == multiset(MapSeq(t, f))
    decreases |s|
  {
    if s == [] {
      assert |t| == |multiset(t)| == 0;
    } else {
      assert s[0] in multiset(s);
      var p := IndexOf(s[0], t);
      var before, after := t[..p], t[p + 1..];
      RemoveMatching(s, t, p);
      var x, ms, mb, ma := f(s[0]), MapSeq(s[1..], f), MapSeq(before, f), MapSeq(after, f);
      MapSeqPreservesMultiset(s[1..], before + after, f);
      MapSeqConcat(before, after, f);
      SplitAt(t, p);
      MapSeqConcat(before, [s[0]] + after, f);
      assert MapSeq([s[0]] + after, f) == [x] + ma;
      MultisetInsert(x, ms, mb, ma, MapSeq(s, f), MapSeq(t, f));
    }
  }

  /** A sequence is its prefix, the element at `p` and its suffix. */
  lemma SplitAt<T>(t: seq<T>, p: int)
    requires 0 <= p < |t|
    ensures t == t[..p] + ([t[p]] + t[p + 1..])
  {
  }

  /** A position of an element known to occur in `t`. */
  lemma IndexOf<T>(x: T, t: seq<T>) returns (p: int)
    requires x in multiset(t)
    ensures 0 <= p < |t| && t[p] == x
  {
    assert x in t;
    p :| 0 <= p < |t| && t[p] == x;
  }

  /** Putting the same element in front of one sequence and between the
      two halves of another keeps equal multisets equal. */
  lemma MultisetInsert<K>(x: K, ms: seq<K>, mb: seq<K>, ma: seq<K>, u: seq<K>, v: seq<K>)
    requires multiset(ms) == multiset(mb + ma)
    requires u == [x] + ms && v == mb + ([x] + ma)
    ensures multiset(u) == multiset(v)
  {
  }

  /** Taking the head off `s` and its copy at `p` off `t` keeps the
      multisets equal. */
  lemma RemoveMatching<T>(s: seq<T>, t: seq<T>, p: int)
    requires |s| > 0 && 0 <= p < |t| && t[p] == s[0] && multiset(s) == multiset(t)
    ensures multiset(s[1..]) == multiset(t[..p] + t[p + 1..])
  {
    MultisetTail(s);
    MultisetRemoveAt(t, p);
  }

}
