/** Generic facts about sequences used by the note engine: first-occurrence
    search, duplicate-freedom, order-preserving subsequences and the
    first-occurrence de-duplication that `[...new Set(xs)]` performs. */
module Seqs {

  /** No element occurs twice. */
  predicate NoDup<T(==)>(s: seq<T>) {
    forall i, j :: 0 <= i < j < |s| ==> s[i] != s[j]
  }

  /** Index of the first occurrence of `x` in `s` (`Array.prototype.indexOf`). */
  function IndexOf<T(==)>(s: seq<T>, x: T): (k: nat)
    requires x in s
    ensures k < |s| && s[k] == x && x !in s[..k]
  {
    if s[0] == x then 0 else
      var k := IndexOf(s[1..], x);
      assert s[1..][..k] == s[1..k + 1];
      k + 1
  }

  /** `sub` is `s` with some elements removed, the rest in their original order. */
  predicate IsSubseq<T(==)>(sub: seq<T>, s: seq<T>)
    decreases |s|
  {
    if sub == [] then true
    else if s == [] then false
    else if sub[0] == s[0] then IsSubseq(sub[1..], s[1..])
    else IsSubseq(sub, s[1..])
  }

  lemma SubseqSkip<T>(r: seq<T>, es: seq<T>)
    requires es != [] && IsSubseq(r, es[1..])
    ensures IsSubseq(r, es)
    decreases |es|, 1
  {
    if r != [] && r[0] == es[0] {
      SubseqTail(r, es[1..]);
    }
  }

  lemma {:induction false} SubseqTail<T>(r: seq<T>, s: seq<T>)
    requires r != [] && IsSubseq(r, s)
    ensures IsSubseq(r[1..], s)
    decreases |s|, 2
  {
    if s != [] {
      if r[0] == s[0] {
        SubseqSkip(r[1..], s);
      } else {
        SubseqTail(r, s[1..]);
        SubseqSkip(r[1..], s);
      }
    }
  }

  /** `[...new Set(s)]`: every distinct element once, in order of first occurrence. */
  function Dedupe<T(==)>(s: seq<T>): (r: seq<T>)
    ensures NoDup(r)
    ensures forall i :: 0 <= i < |r| ==> r[i] in s
    ensures forall i :: 0 <= i < |s| ==> s[i] in r
  {
    if s == [] then []
    else
      var d := Dedupe(s[..|s| - 1]);
      var x := s[|s| - 1];
      assert s == s[..|s| - 1] + [x];
      if x in d then d else d + [x]
  }

  lemma {:induction false} IndexOfPrefix<T>(s: seq<T>, n: nat, x: T)
    requires n <= |s| && x in s[..n]
    ensures x in s && IndexOf(s, x) == IndexOf(s[..n], x)
  {
    var k := IndexOf(s[..n], x);
    assert s[k] == x;
    assert s[..n][..k] == s[..k];
  }

  /** Dedupe keeps first-occurrence order: an earlier element of the result
      already occurs in `s` before the first occurrence of a later one. */
  lemma {:induction false} DedupeFirstOccurrenceOrder<T>(s: seq<T>, i: nat, j: nat)
    requires i < j < |Dedupe(s)|
    ensures Dedupe(s)[i] in s && Dedupe(s)[j] in s
    ensures IndexOf(s, Dedupe(s)[i]) < IndexOf(s, Dedupe(s)[j])
  {
    var p := s[..|s| - 1];
    var x := s[|s| - 1];
    var d := Dedupe(p);
    assert s == p + [x];
    assert s[..|s| - 1] == p;
    var r := Dedupe(s);
    if x in d {
      assert r == d;
      DedupeFirstOccurrenceOrder(p, i, j);
      IndexOfPrefix(s, |s| - 1, d[i]);
      IndexOfPrefix(s, |s| - 1, d[j]);
    } else {
      assert r == d + [x];
      assert d[i] in p;
      IndexOfPrefix(s, |s| - 1, d[i]);
      if j < |d| {
        DedupeFirstOccurrenceOrder(p, i, j);
        IndexOfPrefix(s, |s| - 1, d[j]);
      } else {
        assert r[j] == x;
        assert x !in s[..|s| - 1];
      }
    }
  }

  /** De-duplicating a duplicate-free sequence changes nothing (so Dedupe is idempotent). */
  lemma {:induction false} DedupeOfNoDup<T>(s: seq<T>)
    requires NoDup(s)
    ensures Dedupe(s) == s
  {
    if s != [] {
      var p := s[..|s| - 1];
      assert NoDup(p) by {
        forall i, j | 0 <= i < j < |p| ensures p[i] != p[j] {
          assert p[i] == s[i] && p[j] == s[j];
        }
      }
      DedupeOfNoDup(p);
      assert s[|s| - 1] !in p by {
        forall k | 0 <= k < |p| ensures p[k] != s[|s| - 1] {
          assert p[k] == s[k];
        }
      }
      assert s == p + [s[|s| - 1]];
    }
  }

  lemma DedupeIdempotent<T>(s: seq<T>)
    ensures Dedupe(Dedupe(s)) == Dedupe(s)
  {
    DedupeOfNoDup(Dedupe(s));
  }

  lemma SplitAt<T>(s: seq<T>, k: nat)
    requires k <= |s|
    ensures s == s[..k] + s[k..]
  {
  }

  lemma SplitAround<T>(s: seq<T>, k: nat)
    requires k < |s|
    ensures s == s[..k] + [s[k]] + s[k + 1..]
  {
  }

  lemma MultisetCons<T>(s: seq<T>)
    requires s != []
    ensures multiset(s) == multiset{s[0]} + multiset(s[1..])
  {
    assert s == [s[0]] + s[1..];
  }

  lemma Singleton<T>(s: seq<T>)
    requires |s| == 1
    ensures s == [s[0]]
  {
  }

  lemma SeqAssoc<T>(x: seq<T>, y: seq<T>, z: seq<T>)
    ensures x + (y + z) == (x + y) + z
  {
  }

  lemma ThreeParts<T>(x: seq<T>, y: seq<T>, z: seq<T>)
    ensures |x + y + z| == |x| + |y| + |z|
    ensures (x + y + z)[..|x|] == x
    ensures (x + y + z)[|x + y + z| - |z|..] == z
    ensures y == [] ==> x + y + z == x + z
  {
    assert (x + y + z)[..|x|] == x;
    assert y == [] ==> x + y == x;
  }

  lemma SwapEmpty<T>(a: seq<T>, b: seq<T>, z: seq<T>)
    requires a == [] || b == []
    ensures b + (a + z) == a + (b + z)
  {
  }
}
