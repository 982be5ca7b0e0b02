/** The order in which `list.sort` compares sort keys: Python's `<` on two
    strings (lexicographic by code point) and on two floats. */
module Order {
  import opened PyValues

  /** `s <= t` on Python strings: the first differing code point decides,
      and a proper prefix is smaller. (Dafny's own `<` on sequences means
      "proper prefix", so the order is written out.) */
  predicate LexLe(s: string, t: string)
  {
    s == [] || (t != [] && (s[0] < t[0] || (s[0] == t[0] && LexLe(s[1..], t[1..]))))
  }

  /** The textbook definition of Python's string order, stated without recursion. */
  ghost predicate LexLeSpec(s: string, t: string)
  {
    (|s| <= |t| && s == t[..|s|])
    || exists k :: 0 <= k < |s| && k < |t| && s[..k] == t[..k] && s[k] < t[k]
  }

  /** The recursive order is exactly the textbook one, in both directions. */
  lemma {:induction false} LexLeMeansSpec(s: string, t: string)
    ensures LexLe(s, t) <==> LexLeSpec(s, t)
  {
    if s == [] {
    } else if t == [] {
      assert !LexLeSpec(s, t);
    } else if s[0] < t[0] {
      assert s[..0] == t[..0];
    } else if s[0] > t[0] {
      // every common prefix of length at least one already differs at 0
      forall k | 0 < k <= |s| && k <= |t|
        ensures s[..k] != t[..k]
      {
        assert s[..k][0] != t[..k][0];
      }
    } else {
      LexLeMeansSpec(s[1..], t[1..]);
      if LexLe(s[1..], t[1..]) {
        if |s[1..]| <= |t[1..]| && s[1..] == t[1..][..|s[1..]|] {
          assert s == t[..|s|];
        } else {
          var k :| 0 <= k < |s[1..]| && k < |t[1..]| && s[1..][..k] == t[1..][..k] && s[1..][k] < t[1..][k];
          assert s[..k + 1] == [s[0]] + s[1..][..k];
          assert t[..k + 1] == [t[0]] + t[1..][..k];
        }
      }
      if LexLeSpec(s, t) {
        if |s| <= |t| && s == t[..|s|] {
          assert s[1..] == t[1..][..|s[1..]|];
        } else {
          var k :| 0 <= k < |s| && k < |t| && s[..k] == t[..k] && s[k] < t[k];
          assert k != 0;
          assert s[1..][..k - 1] == s[..k][1..];
          assert t[1..][..k - 1] == t[..k][1..];
        }
      }
    }
  }

  lemma {:induction false} LexLeReflexive(s: string)
    ensures LexLe(s, s)
  {
    if s != [] {
      LexLeReflexive(s[1..]);
    }
  }

  lemma {:induction false} LexLeTotal(s: string, t: string)
    ensures LexLe(s, t) || LexLe(t, s)
  {
    if s != [] && t != [] && s[0] == t[0] {
      LexLeTotal(s[1..], t[1..]);
    }
  }

  lemma {:induction false} LexLeAntisymmetric(s: string, t: string)
    requires LexLe(s, t) && LexLe(t, s)
    ensures s == t
  {
    if s != [] && t != [] {
      LexLeAntisymmetric(s[1..], t[1..]);
      assert s == [s[0]] + s[1..];
      assert t == [t[0]] + t[1..];
    }
  }

  lemma {:induction false} LexLeTransitive(s: string, t: string, u: string)
    requires LexLe(s, t) && LexLe(t, u)
    ensures LexLe(s, u)
  {
    if s != [] && t != [] && u != [] && s[0] == t[0] == u[0] {
      LexLeTransitive(s[1..], t[1..], u[1..]);
    }
  }

  /** Orders values of different kinds; used only to make KeyLe total, since
      Python raises TypeError before two such keys could be compared. */
  function Rank(v: Value): nat
  {
    match v
    case PyNone => 0
    case PyFloat(_) => 1
    case PyStr(_) => 2
  }

  /** The order on sort keys: Python's `<=` on two floats and on two
      strings; keys of different kinds are ranked None < float < str. */
  predicate KeyLe(a: Value, b: Value)
  {
    if a.PyFloat? && b.PyFloat? then a.x <= b.x
    else if a.PyStr? && b.PyStr? then LexLe(a.s, b.s)
    else Rank(a) <= Rank(b)
  }

  lemma KeyLeReflexive(a: Value)
    ensures KeyLe(a, a)
  {
    if a.PyStr? {
      LexLeReflexive(a.s);
    }
  }

  lemma KeyLeTotal(a: Value, b: Value)
    ensures KeyLe(a, b) || KeyLe(b, a)
  {
    if a.PyStr? && b.PyStr? {
      LexLeTotal(a.s, b.s);
    }
  }

  /** KeyLe is a total order, not just a preorder: equal keys are equal values. */
  lemma KeyLeAntisymmetric(a: Value, b: Value)
    requires KeyLe(a, b) && KeyLe(b, a)
    ensures a == b
  {
    if a.PyStr? && b.PyStr? {
      LexLeAntisymmetric(a.s, b.s);
    }
  }

  lemma KeyLeTransitive(a: Value, b: Value, c: Value)
    requires KeyLe(a, b) && KeyLe(b, c)
    ensures KeyLe(a, c)
  {
    if a.PyStr? && b.PyStr? && c.PyStr? {
      LexLeTransitive(a.s, b.s, c.s);
    }
  }
}
