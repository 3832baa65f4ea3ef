/** Order-preserving list operations that the planning steps of the encoder are
    built from: keeping the elements that are (or are not) in another list, and
    keeping the first element for every key. */
module Sequences {
  import opened Wrappers

  /** `a` is obtained from `b` by deleting elements, so `a` lists some of `b`'s
      elements in `b`'s order. */
  predicate Subseq<T(==)>(a: seq<T>, b: seq<T>)
  {
    if b == [] then a == []
    else (a != [] && Last(a) == Last(b) && Subseq(DropLast(a), DropLast(b))) || Subseq(a, DropLast(b))
  }

  /** Every element of a subsequence is an element of the whole. */
  lemma {:induction false} SubseqMembers<T>(a: seq<T>, b: seq<T>)
    requires Subseq(a, b)
    ensures forall i :: 0 <= i < |a| ==> a[i] in b
  {
    if b != [] {
      if a != [] && Last(a) == Last(b) && Subseq(DropLast(a), DropLast(b)) {
        SubseqMembers(DropLast(a), DropLast(b));
        assert forall i :: 0 <= i < |a| - 1 ==> a[i] == DropLast(a)[i];
      } else {
        SubseqMembers(a, DropLast(b));
      }
    }
  }

  // ---------------------------------------------------------------------------
  // Selecting by membership

  /** The elements `x` of `s` for which `x in among` is `inside`, in order. */
  function Select<T(==)>(s: seq<T>, among: seq<T>, inside: bool): seq<T>
  {
    if s == [] then []
    else if (Last(s) in among) == inside then Select(DropLast(s), among, inside) + [Last(s)]
    else Select(DropLast(s), among, inside)
  }

  /** Selection keeps exactly the elements on the asked side. */
  lemma {:induction false} SelectMembers<T>(s: seq<T>, among: seq<T>, inside: bool)
    ensures forall x :: x in Select(s, among, inside) <==> x in s && (x in among) == inside
    ensures forall i :: 0 <= i < |Select(s, among, inside)| ==>
      Select(s, among, inside)[i] in s && (Select(s, among, inside)[i] in among) == inside
  {
    if s != [] {
      SelectMembers(DropLast(s), among, inside);
      assert s == DropLast(s) + [Last(s)];
    }
  }

  /** Selection keeps the order of the input. */
  lemma {:induction false} SelectSubseq<T>(s: seq<T>, among: seq<T>, inside: bool)
    ensures Subseq(Select(s, among, inside), s)
  {
    if s != [] {
      SelectSubseq(DropLast(s), among, inside);
      var r := Select(s, among, inside);
      if (Last(s) in among) == inside {
        assert DropLast(r) == Select(DropLast(s), among, inside);
      }
    }
  }

  /** The two sides of a selection together are the input, element for element. */
  lemma {:induction false} SelectPartition<T>(s: seq<T>, among: seq<T>)
    ensures multiset(Select(s, among, true)) + multiset(Select(s, among, false)) == multiset(s)
  {
    if s != [] {
      SelectPartition(DropLast(s), among);
      assert s == DropLast(s) + [Last(s)];
    }
  }

  /** Nothing is on the inside exactly when everything is on the outside. */
  lemma {:induction false} SelectOneSide<T>(s: seq<T>, among: seq<T>)
    ensures Select(s, among, true) == [] <==> Select(s, among, false) == s
  {
    SelectPartition(s, among);
    assert |Select(s, among, true)| + |Select(s, among, false)| == |s| by {
      assert |multiset(Select(s, among, true))| + |multiset(Select(s, among, false))| == |multiset(s)|;
    }
    if s != [] && Select(s, among, true) == [] {
      SelectOneSide(DropLast(s), among);
      assert s == DropLast(s) + [Last(s)];
    }
  }

  // ---------------------------------------------------------------------------
  // Keeping the first element for every key

  /** The set of keys of the elements of `s`. */
  function KeySet<T, K>(s: seq<T>, key: T -> K): set<K>
  {
    if s == [] then {} else KeySet(DropLast(s), key) + {key(Last(s))}
  }

  lemma {:induction false} KeySetMembers<T, K>(s: seq<T>, key: T -> K)
    ensures forall i :: 0 <= i < |s| ==> key(s[i]) in KeySet(s, key)
    ensures forall k :: k in KeySet(s, key) ==> exists i :: 0 <= i < |s| && key(s[i]) == k
  {
    if s != [] {
      KeySetMembers(DropLast(s), key);
      assert forall i :: 0 <= i < |s| - 1 ==> DropLast(s)[i] == s[i];
    }
  }

  /** The elements of `s`, keeping only the first element with each key. */
  function UniqBy<T, K(==)>(s: seq<T>, key: T -> K): seq<T>
  {
    if s == [] then []
    else
      var u := UniqBy(DropLast(s), key);
      if key(Last(s)) in KeySet(u, key) then u else u + [Last(s)]
  }

  /** Index of the first element of `s` with key `k`. */
  function FirstIndex<T, K(==)>(s: seq<T>, key: T -> K, k: K): (i: nat)
    requires k in KeySet(s, key)
    ensures i < |s| && key(s[i]) == k && k !in KeySet(s[..i], key)
  {
    var init := DropLast(s);
    if k in KeySet(init, key) then
      var i := FirstIndex(init, key, k);
      assert s[..i] == init[..i];
      i
    else
      assert s[..|s| - 1] == init;
      |s| - 1
  }

  /** Every key occurs at most once. */
  ghost predicate DistinctKeys<T, K>(s: seq<T>, key: T -> K)
  {
    forall i, j :: 0 <= i < j < |s| ==> key(s[i]) != key(s[j])
  }

  /** One more element of a prefix. */
  lemma UniqByStep<T, K>(s: seq<T>, i: nat, key: T -> K)
    requires i < |s|
    ensures UniqBy(s[..i + 1], key) ==
      if key(s[i]) in KeySet(UniqBy(s[..i], key), key) then UniqBy(s[..i], key) else UniqBy(s[..i], key) + [s[i]]
  {
    assert DropLast(s[..i + 1]) == s[..i] && Last(s[..i + 1]) == s[i];
  }

  /** The result of UniqBy has pairwise-distinct keys and the same keys as the input. */
  lemma {:induction false} UniqByKeys<T, K>(s: seq<T>, key: T -> K)
    ensures DistinctKeys(UniqBy(s, key), key)
    ensures KeySet(UniqBy(s, key), key) == KeySet(s, key)
  {
    if s != [] {
      var u0 := UniqBy(DropLast(s), key);
      UniqByKeys(DropLast(s), key);
      if key(Last(s)) !in KeySet(u0, key) {
        KeySetMembers(u0, key);
        assert DropLast(UniqBy(s, key)) == u0;
      }
    }
  }

  /** Each element UniqBy keeps is the first element of the input with its key. */
  lemma {:induction false} UniqByFirst<T, K>(s: seq<T>, key: T -> K)
    ensures forall i :: 0 <= i < |UniqBy(s, key)| ==>
      key(UniqBy(s, key)[i]) in KeySet(s, key) &&
      UniqBy(s, key)[i] == s[FirstIndex(s, key, key(UniqBy(s, key)[i]))]
  {
    if s != [] {
      var init := DropLast(s);
      var u0 := UniqBy(init, key);
      var u := UniqBy(s, key);
      UniqByFirst(init, key);
      UniqByKeys(init, key);
      forall i | 0 <= i < |u|
        ensures key(u[i]) in KeySet(s, key) && u[i] == s[FirstIndex(s, key, key(u[i]))]
      {
        if i < |u0| {
          assert u[i] == u0[i];
        } else {
          assert u[i] == Last(s);
        }
      }
    }
  }

  /** UniqBy lists the kept elements in the order of their first occurrences. */
  lemma {:induction false} UniqByOrder<T, K>(s: seq<T>, key: T -> K)
    ensures forall i, j :: 0 <= i < j < |UniqBy(s, key)| ==>
      key(UniqBy(s, key)[i]) in KeySet(s, key) && key(UniqBy(s, key)[j]) in KeySet(s, key) &&
      FirstIndex(s, key, key(UniqBy(s, key)[i])) < FirstIndex(s, key, key(UniqBy(s, key)[j]))
  {
    if s != [] {
      var init := DropLast(s);
      var u0 := UniqBy(init, key);
      var u := UniqBy(s, key);
      UniqByOrder(init, key);
      UniqByKeys(init, key);
      KeySetMembers(u0, key);
      KeySetMembers(u, key);
      forall i, j | 0 <= i < j < |u|
        ensures key(u[i]) in KeySet(s, key) && key(u[j]) in KeySet(s, key) &&
          FirstIndex(s, key, key(u[i])) < FirstIndex(s, key, key(u[j]))
      {
        assert u[i] == u0[i];
        assert key(u0[i]) in KeySet(init, key);
        var fi := FirstIndex(init, key, key(u0[i]));
        assert FirstIndex(s, key, key(u[i])) == fi;
        if j == |u0| {
          assert u[j] == Last(s);
          assert key(Last(s)) !in KeySet(init, key);
          assert FirstIndex(s, key, key(u[j])) == |s| - 1;
        } else {
          assert u[j] == u0[j];
          assert key(u0[j]) in KeySet(init, key);
          assert FirstIndex(s, key, key(u[j])) == FirstIndex(init, key, key(u0[j]));
        }
      }
      assert u == UniqBy(s, key);
    } else {
      assert UniqBy(s, key) == [];
    }
  }

  /** UniqBy keeps the order of the input. */
  lemma {:induction false} UniqBySubseq<T, K>(s: seq<T>, key: T -> K)
    ensures Subseq(UniqBy(s, key), s)
  {
    if s != [] {
      UniqBySubseq(DropLast(s), key);
      var u := UniqBy(s, key);
      if u != UniqBy(DropLast(s), key) {
        assert DropLast(u) == UniqBy(DropLast(s), key);
      }
    }
  }

  /** A list whose keys are already distinct is its own UniqBy. */
  lemma {:induction false} UniqByDistinct<T, K>(s: seq<T>, key: T -> K)
    requires DistinctKeys(s, key)
    ensures UniqBy(s, key) == s
  {
    if s != [] {
      var init := DropLast(s);
      assert DistinctKeys(init, key);
      UniqByDistinct(init, key);
      assert key(Last(s)) !in KeySet(init, key) by {
        KeySetMembers(init, key);
        forall i | 0 <= i < |init| ensures key(init[i]) != key(Last(s)) {
          assert init[i] == s[i];
        }
      }
    }
  }

  /** Applying UniqBy twice gives the same result as applying it once. */
  lemma UniqByIdempotent<T, K>(s: seq<T>, key: T -> K)
    ensures UniqBy(UniqBy(s, key), key) == UniqBy(s, key)
  {
    UniqByKeys(s, key);
    UniqByDistinct(UniqBy(s, key), key);
  }

  /** Selecting from a list with distinct keys gives a list with distinct keys. */
  lemma {:induction false} SelectKeepsDistinctKeys<T, K>(s: seq<T>, among: seq<T>, inside: bool, key: T -> K)
    requires DistinctKeys(s, key)
    ensures DistinctKeys(Select(s, among, inside), key)
  {
    if s != [] {
      var init := DropLast(s);
      assert DistinctKeys(init, key);
      SelectKeepsDistinctKeys(init, among, inside, key);
      if (Last(s) in among) == inside {
        var r0 := Select(init, among, inside);
        SelectMembers(init, among, inside);
        forall i | 0 <= i < |r0| ensures key(r0[i]) != key(Last(s)) {
          assert r0[i] in init;
          var j :| 0 <= j < |init| && init[j] == r0[i];
          assert s[j] == init[j];
        }
      }
    }
  }

  /** When no key of `b` occurs in `a`, deduplicating `a + b` deduplicates
      each part on its own, `a`'s survivors first. */
  lemma {:induction false} UniqByAppend<T, K>(a: seq<T>, b: seq<T>, key: T -> K)
    requires KeySet(a, key) !! KeySet(b, key)
    ensures UniqBy(a + b, key) == UniqBy(a, key) + UniqBy(b, key)
  {
    if b == [] {
      assert a + b == a;
    } else {
      var bi := DropLast(b);
      var x := Last(b);
      assert KeySet(b, key) == KeySet(bi, key) + {key(x)};
      UniqByAppend(a, bi, key);
      var ua, ub := UniqBy(a, key), UniqBy(bi, key);
      assert UniqBy(a + b, key) == if key(x) in KeySet(ua + ub, key) then ua + ub else (ua + ub) + [x] by {
        assert DropLast(a + b) == a + bi && Last(a + b) == x;
      }
      assert key(x) in KeySet(ua + ub, key) <==> key(x) in KeySet(ub, key) by {
        UniqByKeys(a, key);
        KeySetAppend(ua, ub, key);
      }
      if key(x) !in KeySet(ub, key) {
        assert (ua + ub) + [x] == ua + (ub + [x]);
      }
    }
  }

  lemma {:induction false} KeySetAppend<T, K>(a: seq<T>, b: seq<T>, key: T -> K)
    ensures KeySet(a + b, key) == KeySet(a, key) + KeySet(b, key)
  {
    if b == [] {
      assert a + b == a;
    } else {
      KeySetAppend(a, DropLast(b), key);
      assert DropLast(a + b) == a + DropLast(b);
    }
  }
}
