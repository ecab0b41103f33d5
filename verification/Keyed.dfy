/** Lists sorted by a string key, and what it means that one is a stable sort of another. */
module Keyed {
  import opened Order

  predicate Sorted<T(!new)>(key: T -> string, l: seq<T>) {
    forall i, j :: 0 <= i < j < |l| ==> Le(key(l[i]), key(l[j]))
  }

  /** The entries with key k, in order. */
  function OfKey<T(!new)>(key: T -> string, l: seq<T>, k: string): seq<T> {
    if l == [] then []
    else OfKey(key, l[..|l| - 1], k) + (if key(l[|l| - 1]) == k then [l[|l| - 1]] else [])
  }

  /** `out` holds the entries of `l` sorted by key, entries of one key in their old order. */
  ghost predicate StableSort<T(!new)>(key: T -> string, l: seq<T>, out: seq<T>) {
    Sorted(key, out) && forall k :: OfKey(key, out, k) == OfKey(key, l, k)
  }

  lemma {:induction false} OfKeyConcat<T(!new)>(key: T -> string, a: seq<T>, b: seq<T>, k: string)
    ensures OfKey(key, a + b, k) == OfKey(key, a, k) + OfKey(key, b, k)
    decreases |b|
  {
    if b == [] {
      assert a + b == a;
    } else {
      var last := |b| - 1;
      assert (a + b)[..|a + b| - 1] == a + b[..last];
      OfKeyConcat(key, a, b[..last], k);
    }
  }

  lemma {:induction false} OfKeyNone<T(!new)>(key: T -> string, l: seq<T>, k: string)
    requires forall i :: 0 <= i < |l| ==> key(l[i]) != k
    ensures OfKey(key, l, k) == []
  {
    if l != [] { OfKeyNone(key, l[..|l| - 1], k); }
  }

  lemma {:induction false} OfKeyMember<T(!new)>(key: T -> string, l: seq<T>, k: string, e: T)
    ensures e in OfKey(key, l, k) <==> e in l && key(e) == k
  {
    if l != [] {
      var last := |l| - 1;
      OfKeyMember(key, l[..last], k, e);
      assert l == l[..last] + [l[last]];
    }
  }

  /** e goes in at position p, behind everything not above it. */
  predicate Fits<T(!new)>(key: T -> string, l: seq<T>, e: T, p: nat) {
    && p <= |l|
    && (forall i :: 0 <= i < p ==> Le(key(l[i]), key(e)))
    && (forall i :: p <= i < |l| ==> Lt(key(e), key(l[i])))
  }

  lemma FitsKeepsSorted<T(!new)>(key: T -> string, l: seq<T>, e: T, p: nat)
    requires Sorted(key, l) && Fits(key, l, e, p)
    ensures Sorted(key, l[..p] + [e] + l[p..])
  {
    var m := l[..p] + [e] + l[p..];
    forall i, j | 0 <= i < j < |m|
      ensures Le(key(m[i]), key(m[j]))
    {
      assert m[i] == if i < p then l[i] else if i == p then e else l[i - 1];
      assert m[j] == if j < p then l[j] else if j == p then e else l[j - 1];
      LeTotal(key(m[i]), key(m[j]));
    }
  }

  /** Inserting there is appending, as far as the entries of each key are concerned. */
  lemma {:induction false} FitsAppends<T(!new)>(key: T -> string, l: seq<T>, e: T, p: nat, k: string)
    requires Fits(key, l, e, p)
    ensures OfKey(key, l[..p] + [e] + l[p..], k) == OfKey(key, l + [e], k)
  {
    OfKeyConcat(key, l[..p] + [e], l[p..], k);
    OfKeyConcat(key, l[..p], [e], k);
    OfKeyConcat(key, l, [e], k);
    OfKeyConcat(key, l[..p], l[p..], k);
    assert l == l[..p] + l[p..];
    if key(e) == k {
      LeReflexive(k);
      OfKeyNone(key, l[p..], k);
    } else {
      OfKeyNone(key, [e], k);
    }
  }

  /** A stable sort is unique. */
  lemma {:induction false} StableSortUnique<T(!new)>(key: T -> string, a: seq<T>, b: seq<T>)
    requires Sorted(key, a) && Sorted(key, b)
    requires forall k :: OfKey(key, a, k) == OfKey(key, b, k)
    ensures a == b
    decreases |a|
  {
    if a == [] || b == [] {
      if a != [] { OfKeyMember(key, a, key(a[0]), a[0]); }
      if b != [] { OfKeyMember(key, b, key(b[0]), b[0]); }
    } else {
      var x, y := a[|a| - 1], b[|b| - 1];
      LastIsGreatest(key, a, b, y);
      LastIsGreatest(key, b, a, x);
      LeAntisymmetric(key(x), key(y));
      var a', b' := a[..|a| - 1], b[..|b| - 1];
      assert OfKey(key, a, key(x)) == OfKey(key, a', key(x)) + [x];
      assert OfKey(key, b, key(x)) == OfKey(key, b', key(x)) + [y];
      forall k
        ensures OfKey(key, a', k) == OfKey(key, b', k)
      {
        assert OfKey(key, a, k) == OfKey(key, b, k);
        if k == key(x) {
          assert OfKey(key, a', k) == OfKey(key, a, k)[..|OfKey(key, a, k)| - 1];
          assert OfKey(key, b', k) == OfKey(key, b, k)[..|OfKey(key, b, k)| - 1];
        } else {
          assert OfKey(key, a, k) == OfKey(key, a', k) + [] == OfKey(key, a', k);
          assert OfKey(key, b, k) == OfKey(key, b', k) + [] == OfKey(key, b', k);
        }
      }
      StableSortUnique(key, a', b');
      assert x == OfKey(key, a, key(x))[|OfKey(key, a, key(x))| - 1];
      assert a == a' + [x] && b == b' + [y];
    }
  }

  lemma {:induction false} LastIsGreatest<T(!new)>(key: T -> string, a: seq<T>, b: seq<T>, y: T)
    requires Sorted(key, a) && a != [] && y in b
    requires forall k :: OfKey(key, a, k) == OfKey(key, b, k)
    ensures Le(key(y), key(a[|a| - 1]))
  {
    OfKeyMember(key, b, key(y), y);
    assert OfKey(key, a, key(y)) == OfKey(key, b, key(y));
    OfKeyMember(key, a, key(y), y);
    var i :| 0 <= i < |a| && a[i] == y;
    LeReflexive(key(y));
  }

  /** The entries that occur for the first time. */
  function Dedup<T(==)>(l: seq<T>): seq<T> {
    if l == [] then []
    else
      var d := Dedup(l[..|l| - 1]);
      if l[|l| - 1] in l[..|l| - 1] then d else d + [l[|l| - 1]]
  }

  lemma {:induction false} DedupMembers<T>(l: seq<T>, e: T)
    ensures e in Dedup(l) <==> e in l
  {
    if l != [] {
      DedupMembers(l[..|l| - 1], e);
      assert l == l[..|l| - 1] + [l[|l| - 1]];
    }
  }

  predicate Distinct<T(==)>(l: seq<T>) {
    forall i, j :: 0 <= i < j < |l| ==> l[i] != l[j]
  }

  lemma {:induction false} DedupDistinct<T>(l: seq<T>)
    ensures Distinct(Dedup(l))
    ensures Distinct(l) ==> Dedup(l) == l
  {
    if l != [] {
      DedupDistinct(l[..|l| - 1]);
      DedupMembers(l[..|l| - 1], l[|l| - 1]);
      assert l == l[..|l| - 1] + [l[|l| - 1]];
    }
  }

  /** Of equal entries the first is the one that stays, so what comes later changes nothing before
      it. */
  lemma {:induction false} DedupKeepsFirst<T>(l: seq<T>, k: nat)
    requires k <= |l|
    ensures Dedup(l[..k]) <= Dedup(l)
  {
    if k == |l| {
      assert l[..k] == l;
    } else {
      assert l[..|l| - 1][..k] == l[..k];
      DedupKeepsFirst(l[..|l| - 1], k);
    }
  }

  /* ----- a stable sort is a permutation ----- */

  lemma {:induction false} OfKeyCount<T(!new)>(key: T -> string, l: seq<T>, e: T)
    ensures multiset(OfKey(key, l, key(e)))[e] == multiset(l)[e]
  {
    if l != [] {
      OfKeyCount(key, l[..|l| - 1], e);
      assert l == l[..|l| - 1] + [l[|l| - 1]];
    }
  }

  lemma StableSortPermutes<T(!new)>(key: T -> string, l: seq<T>, out: seq<T>)
    requires StableSort(key, l, out)
    ensures multiset(out) == multiset(l)
  {
    hide OfKey, Sorted;
    forall e ensures multiset(out)[e] == multiset(l)[e] {
      OfKeyCount(key, l, e);
      OfKeyCount(key, out, e);
      assert OfKey(key, out, key(e)) == OfKey(key, l, key(e));
    }
  }

  lemma {:induction false} DistinctCount<T>(l: seq<T>)
    ensures Distinct(l) <==> forall e :: multiset(l)[e] <= 1
  {
    if l != [] {
      var init, last := l[..|l| - 1], l[|l| - 1];
      assert l == init + [last];
      DistinctCount(init);
      if Distinct(l) {
        assert last !in init;
      } else if Distinct(init) {
        assert last in init;
        assert multiset(l)[last] >= 2;
      } else {
        var e :| multiset(init)[e] > 1;
        assert multiset(l)[e] > 1;
      }
    }
  }

  lemma StableSortDistinct<T(!new)>(key: T -> string, l: seq<T>, out: seq<T>)
    requires StableSort(key, l, out)
    ensures |out| == |l| && (Distinct(out) <==> Distinct(l))
    ensures forall e :: e in out <==> e in l
  {
    hide Distinct, StableSort;
    StableSortPermutes(key, l, out);
    DistinctCount(l);
    DistinctCount(out);
    assert |multiset(out)| == |out| && |multiset(l)| == |l|;
    forall e ensures e in out <==> e in l {
      assert e in out <==> multiset(out)[e] > 0;
      assert e in l <==> multiset(l)[e] > 0;
    }
  }
}
