/**
 Multisets accumulated over a set of addresses.

 The source iterates over Python sets, whose order is unspecified, and over the
 insertion order of dictionaries.  Results are therefore specified as multisets:
 `SumOver` folds a per-address multiset over a set, and `SumOverEnumeration` shows
 that folding along any duplicate-free listing of the set gives the same multiset.
 */
module Bags {
  import opened Graphs

  /** `e` lists every element of `s` exactly once. */
  ghost predicate Enumerates(e: seq<Address>, s: set<Address>)
  {
    && (forall i, j :: 0 <= i < j < |e| ==> e[i] != e[j])
    && (forall x :: x in e <==> x in s)
  }

  /** A fixed choice of element, shared by every fold over a set. */
  ghost function Pick(s: set<Address>): (x: Address)
    requires s != {}
    ensures x in s
  {
    var x :| x in s; x
  }

  /** The multiset sum of `f(x)` over the elements `x` of `s`. */
  ghost function SumOver(f: Address -> multiset<nat>, s: set<Address>): multiset<nat>
    decreases s
  {
    if s == {} then multiset{} else SumOver(f, s - {Pick(s)}) + f(Pick(s))
  }

  /** The multiset sum of `f(e[i])` along the sequence `e`. */
  ghost function SumSeq(f: Address -> multiset<nat>, e: seq<Address>): multiset<nat>
  {
    if e == [] then multiset{} else f(e[0]) + SumSeq(f, e[1..])
  }

  /** A natural-number sum of `f(x)` over the elements `x` of `s`. */
  ghost function CountOver(f: Address -> nat, s: set<Address>): nat
    decreases s
  {
    if s == {} then 0 else CountOver(f, s - {Pick(s)}) + f(Pick(s))
  }

  lemma {:induction false} SumSeqAppend(f: Address -> multiset<nat>, a: seq<Address>, b: seq<Address>)
    ensures SumSeq(f, a + b) == SumSeq(f, a) + SumSeq(f, b)
    decreases |a|
  {
    if a == [] {
      assert a + b == b;
    } else {
      assert (a + b)[1..] == a[1..] + b;
      SumSeqAppend(f, a[1..], b);
    }
  }

  /** Folding along any duplicate-free listing of `s` gives `SumOver(f, s)`. */
  lemma {:induction false} SumOverEnumeration(f: Address -> multiset<nat>, s: set<Address>, e: seq<Address>)
    requires Enumerates(e, s)
    ensures SumSeq(f, e) == SumOver(f, s)
    decreases s
  {
    if s == {} {
      EnumerationLength(e, s);
    } else {
      var x := Pick(s);
      assert x in e;
      var i :| 0 <= i < |e| && e[i] == x;
      EnumerationRemove(e, s, i);
      SumOverEnumeration(f, s - {x}, e[..i] + e[i + 1..]);
      SumSeqRemove(f, e, i);
    }
  }

  /** Taking the entry at `i` out of a fold. */
  lemma SumSeqRemove(f: Address -> multiset<nat>, e: seq<Address>, i: nat)
    requires i < |e|
    ensures SumSeq(f, e) == SumSeq(f, e[..i] + e[i + 1..]) + f(e[i])
  {
    var before, x, after := e[..i], e[i], e[i + 1..];
    assert e == (before + [x]) + after;
    SumSeqAppend(f, before + [x], after);
    SumSeqAppend(f, before, [x]);
    SumSeqAppend(f, before, after);
    assert SumSeq(f, [x]) == f(x);
    var sb, sa := SumSeq(f, before), SumSeq(f, after);
    assert SumSeq(f, e) == sb + f(x) + sa;
    assert sb + f(x) + sa == sb + sa + f(x);
  }

  /** Listing one more element `x` of `whole` after a listing of `done`. */
  lemma EnumerationExtend(e: seq<Address>, whole: set<Address>, remaining: set<Address>, x: Address)
    requires Enumerates(e, whole - remaining) && remaining <= whole && x in remaining
    ensures Enumerates(e + [x], whole - (remaining - {x}))
  {
    var e' := e + [x];
    assert forall j :: 0 <= j < |e| ==> e'[j] == e[j];
    assert whole - (remaining - {x}) == (whole - remaining) + ({x} * whole);
    assert forall y :: y in e' <==> y in e || y == x;
  }

  /** Deleting the entry at `i` from a listing of `s` lists `s` without that entry. */
  lemma EnumerationRemove(e: seq<Address>, s: set<Address>, i: nat)
    requires Enumerates(e, s) && i < |e|
    ensures Enumerates(e[..i] + e[i + 1..], s - {e[i]})
  {
    var x := e[i];
    var rest := e[..i] + e[i + 1..];
    assert forall j :: 0 <= j < |rest| ==> rest[j] == if j < i then e[j] else e[j + 1];
    forall y | y in s - {x}
      ensures y in rest
    {
      var j :| 0 <= j < |e| && e[j] == y;
      if j < i {
        assert rest[j] == y;
      } else {
        assert rest[j - 1] == y;
      }
    }
  }

  /** A duplicate-free listing of `s` has `|s|` entries. */
  lemma {:induction false} EnumerationLength(e: seq<Address>, s: set<Address>)
    requires Enumerates(e, s)
    ensures |e| == |s|
    decreases |e|
  {
    if e != [] {
      var rest := e[1..];
      assert forall j :: 0 <= j < |rest| ==> rest[j] == e[j + 1];
      assert forall y :: y in rest <==> y in s - {e[0]};
      EnumerationLength(rest, s - {e[0]});
    } else {
      assert forall y :: y !in s;
      assert s == {};
    }
  }

  /** The size of a fold is the fold of the sizes. */
  lemma {:induction false} SumOverSize(f: Address -> multiset<nat>, c: Address -> nat, s: set<Address>)
    requires forall x :: x in s ==> |f(x)| == c(x)
    ensures |SumOver(f, s)| == CountOver(c, s)
    decreases s
  {
    if s != {} {
      SumOverSize(f, c, s - {Pick(s)});
    }
  }

  /** An element of a fold comes from one of the summands, and every summand is included. */
  lemma {:induction false} SumOverMembers(f: Address -> multiset<nat>, s: set<Address>, n: nat)
    ensures n in SumOver(f, s) <==> exists x :: x in s && n in f(x)
    decreases s
  {
    if s != {} {
      var x := Pick(s);
      SumOverMembers(f, s - {x}, n);
      if exists y :: y in s && n in f(y) {
        var y :| y in s && n in f(y);
        if y != x {
          assert y in s - {x};
        }
      }
    }
  }
}
