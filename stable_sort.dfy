/** Python's `list.sort(key=...)` on the pairs it sorts internally: each
    element decorated with its key. The sort is stable, so the result is
    determined: Sort below is the one sorted arrangement that keeps the
    relative order of equal keys (SortCharacterized). */
module StableSort {
  import opened PyValues
  import opened Order

  /** Keys never decrease from left to right. */
  ghost predicate Sorted<T>(s: seq<(Value, T)>)
  {
    forall i, j :: 0 <= i < j < |s| ==> KeyLe(s[i].0, s[j].0)
  }

  /** Inserts `x` before the first element whose key is not below x's key,
      so that x ends up ahead of every element with an equal key. */
  function Insert<T>(x: (Value, T), s: seq<(Value, T)>): seq<(Value, T)>
  {
    if s == [] || KeyLe(x.0, s[0].0) then [x] + s else [s[0]] + Insert(x, s[1..])
  }

  /** Insertion sort: the reference definition of a stable sort by key. */
  function Sort<T>(s: seq<(Value, T)>): seq<(Value, T)>
  {
    if s == [] then [] else Insert(s[0], Sort(s[1..]))
  }

  /** The elements whose key is `k`, in their order in `s`. */
  function WithKey<T>(s: seq<(Value, T)>, k: Value): seq<(Value, T)>
  {
    if s == [] then []
    else (if s[0].0 == k then [s[0]] else []) + WithKey(s[1..], k)
  }

  /** The undecorated elements, in order. */
  function Items<T>(s: seq<(Value, T)>): (r: seq<T>)
    ensures |r| == |s|
    ensures forall i :: 0 <= i < |s| ==> r[i] == s[i].1
  {
    if s == [] then [] else [s[0].1] + Items(s[1..])
  }

  lemma {:induction false} InsertPermutes<T>(x: (Value, T), s: seq<(Value, T)>)
    ensures multiset(Insert(x, s)) == multiset(s) + multiset{x}
  {
    if s != [] && !KeyLe(x.0, s[0].0) {
      InsertPermutes(x, s[1..]);
      assert s == [s[0]] + s[1..];
    }
  }

  lemma {:induction false} InsertPermutesItems<T>(x: (Value, T), s: seq<(Value, T)>)
    ensures multiset(Items(Insert(x, s))) == multiset(Items(s)) + multiset{x.1}
  {
    if s != [] && !KeyLe(x.0, s[0].0) {
      InsertPermutesItems(x, s[1..]);
      assert Items(Insert(x, s)) == [s[0].1] + Items(Insert(x, s[1..]));
      assert Items(s) == [s[0].1] + Items(s[1..]);
    } else {
      assert Items(Insert(x, s)) == [x.1] + Items(s);
    }
  }

  /** Sorting only rearranges: the result is a permutation of the input. */
  lemma {:induction false} SortPermutes<T>(s: seq<(Value, T)>)
    ensures multiset(Sort(s)) == multiset(s)
  {
    if s != [] {
      SortPermutes(s[1..]);
      InsertPermutes(s[0], Sort(s[1..]));
      assert s == [s[0]] + s[1..];
    }
  }

  /** The same, for the undecorated items. */
  lemma {:induction false} SortPermutesItems<T>(s: seq<(Value, T)>)
    ensures multiset(Items(Sort(s))) == multiset(Items(s))
  {
    if s != [] {
      SortPermutesItems(s[1..]);
      InsertPermutesItems(s[0], Sort(s[1..]));
      assert Items(s) == [s[0].1] + Items(s[1..]);
    }
  }

  lemma SortedCons<T>(h: (Value, T), t: seq<(Value, T)>)
    requires Sorted(t)
    requires forall e :: e in t ==> KeyLe(h.0, e.0)
    ensures Sorted([h] + t)
  {
    forall i, j | 0 <= i < j < |t| + 1
      ensures KeyLe(([h] + t)[i].0, ([h] + t)[j].0)
    {
      assert ([h] + t)[j] == t[j - 1];
    }
  }

  lemma {:induction false} InsertSorted<T>(x: (Value, T), s: seq<(Value, T)>)
    requires Sorted(s)
    ensures Sorted(Insert(x, s))
  {
    if s == [] {
    } else if KeyLe(x.0, s[0].0) {
      forall e | e in s
        ensures KeyLe(x.0, e.0)
      {
        var m :| 0 <= m < |s| && s[m] == e;
        if m == 0 { } else { KeyLeTransitive(x.0, s[0].0, e.0); }
      }
      SortedCons(x, s);
    } else {
      var t := s[1..];
      assert Sorted(t) by {
        forall i, j | 0 <= i < j < |t| ensures KeyLe(t[i].0, t[j].0) {
          assert t[i] == s[i + 1] && t[j] == s[j + 1];
        }
      }
      InsertSorted(x, t);
      InsertPermutes(x, t);
      KeyLeTotal(x.0, s[0].0);
      forall e | e in Insert(x, t)
        ensures KeyLe(s[0].0, e.0)
      {
        assert e in multiset(Insert(x, t));
        if e != x {
          assert e in multiset(t);
          var m :| 0 <= m < |t| && t[m] == e;
          assert s[m + 1] == e;
        }
      }
      SortedCons(s[0], Insert(x, t));
    }
  }

  /** The result of sorting has non-decreasing keys. */
  lemma {:induction false} SortSorted<T>(s: seq<(Value, T)>)
    ensures Sorted(Sort(s))
  {
    if s != [] {
      SortSorted(s[1..]);
      InsertSorted(s[0], Sort(s[1..]));
    }
  }

  lemma {:induction false} InsertWithKey<T>(x: (Value, T), s: seq<(Value, T)>, k: Value)
    ensures WithKey(Insert(x, s), k) == (if x.0 == k then [x] else []) + WithKey(s, k)
  {
    if s == [] || KeyLe(x.0, s[0].0) {
      assert ([x] + s)[1..] == s;
    } else {
      KeyLeReflexive(x.0);
      InsertWithKey(x, s[1..], k);
      assert ([s[0]] + Insert(x, s[1..]))[1..] == Insert(x, s[1..]);
    }
  }

  /** Stability: for every key, the elements carrying it keep their
      relative order. */
  lemma {:induction false} SortStable<T>(s: seq<(Value, T)>, k: Value)
    ensures WithKey(Sort(s), k) == WithKey(s, k)
  {
    if s != [] {
      SortStable(s[1..], k);
      InsertWithKey(s[0], Sort(s[1..]), k);
    }
  }

  /** Sorting an already sorted sequence changes nothing. */
  lemma {:induction false} SortOfSorted<T>(s: seq<(Value, T)>)
    requires Sorted(s)
    ensures Sort(s) == s
  {
    if s != [] {
      assert Sorted(s[1..]) by {
        forall i, j | 0 <= i < j < |s[1..]| ensures KeyLe(s[1..][i].0, s[1..][j].0) {
          assert s[1..][i] == s[i + 1] && s[1..][j] == s[j + 1];
        }
      }
      SortOfSorted(s[1..]);
      assert s == [s[0]] + s[1..];
    }
  }

  /** Sorting twice is sorting once. */
  lemma SortIdempotent<T>(s: seq<(Value, T)>)
    ensures Sort(Sort(s)) == Sort(s)
  {
    SortSorted(s);
    SortOfSorted(Sort(s));
  }

  lemma {:induction false} WithKeyMember<T>(s: seq<(Value, T)>, k: Value, x: (Value, T))
    requires x in WithKey(s, k)
    ensures x in s && x.0 == k
  {
    if s != [] && !(s[0].0 == k && x == s[0]) {
      WithKeyMember(s[1..], k, x);
    }
  }

  lemma WithKeyOfFirst<T>(s: seq<(Value, T)>)
    ensures s != [] ==> WithKey(s, s[0].0) != [] && WithKey(s, s[0].0)[0] == s[0]
  {
  }

  lemma SortedTail<T>(a: seq<(Value, T)>)
    requires Sorted(a) && a != []
    ensures Sorted(a[1..])
  {
    forall i, j | 0 <= i < j < |a[1..]| ensures KeyLe(a[1..][i].0, a[1..][j].0) {
      assert a[1..][i] == a[i + 1] && a[1..][j] == a[j + 1];
    }
  }

  /** Two sorted sequences that agree key by key start with the same
      element: each side holds the other's first key, so neither first key
      is below the other. */
  lemma SortedSameHead<T>(a: seq<(Value, T)>, b: seq<(Value, T)>)
    requires Sorted(a) && Sorted(b) && a != [] && b != []
    requires forall k :: WithKey(a, k) == WithKey(b, k)
    ensures a[0] == b[0]
  {
    var ka, kb := a[0].0, b[0].0;
    WithKeyOfFirst(a);
    WithKeyOfFirst(b);
    assert WithKey(a, ka) == WithKey(b, ka);
    WithKeyMember(b, ka, WithKey(b, ka)[0]);
    var j :| 0 <= j < |b| && b[j] == WithKey(b, ka)[0];
    if j == 0 { KeyLeReflexive(kb); }
    assert WithKey(b, kb) == WithKey(a, kb);
    WithKeyMember(a, kb, WithKey(a, kb)[0]);
    var i :| 0 <= i < |a| && a[i] == WithKey(a, kb)[0];
    if i == 0 { KeyLeReflexive(ka); }
    KeyLeAntisymmetric(ka, kb);
  }

  /** Dropping a common first element keeps the key-by-key agreement. */
  lemma WithKeyTails<T>(a: seq<(Value, T)>, b: seq<(Value, T)>)
    requires a != [] && b != [] && a[0] == b[0]
    requires forall k :: WithKey(a, k) == WithKey(b, k)
    ensures forall k :: WithKey(a[1..], k) == WithKey(b[1..], k)
  {
    forall k
      ensures WithKey(a[1..], k) == WithKey(b[1..], k)
    {
      var p := if a[0].0 == k then [a[0]] else [];
      assert WithKey(a, k) == p + WithKey(a[1..], k);
      assert WithKey(b, k) == p + WithKey(b[1..], k);
      assert (p + WithKey(a[1..], k))[|p|..] == WithKey(a[1..], k);
      assert (p + WithKey(b[1..], k))[|p|..] == WithKey(b[1..], k);
    }
  }

  /** Two sorted sequences that agree, key by key, on the order of the
      elements carrying that key are the same sequence. */
  lemma {:induction false} SortedUnique<T>(a: seq<(Value, T)>, b: seq<(Value, T)>)
    requires Sorted(a) && Sorted(b)
    requires forall k :: WithKey(a, k) == WithKey(b, k)
    ensures a == b
    decreases |a| + |b|
  {
    // the first element of a non-empty side has a key the other side lacks
    WithKeyOfFirst(a);
    WithKeyOfFirst(b);
    if a == [] || b == [] {
    } else {
      SortedSameHead(a, b);
      WithKeyTails(a, b);
      SortedTail(a);
      SortedTail(b);
      SortedUnique(a[1..], b[1..]);
      assert a == [a[0]] + a[1..];
      assert b == [b[0]] + b[1..];
    }
  }

  /** Any arrangement that is sorted and keeps equal keys in their original
      order -- what a stable `list.sort` returns -- is exactly Sort(s). */
  lemma SortCharacterized<T>(s: seq<(Value, T)>, r: seq<(Value, T)>)
    requires Sorted(r)
    requires forall k :: WithKey(r, k) == WithKey(s, k)
    ensures r == Sort(s)
  {
    SortSorted(s);
    forall k
      ensures WithKey(r, k) == WithKey(Sort(s), k)
    {
      SortStable(s, k);
    }
    SortedUnique(r, Sort(s));
  }
}
