/** The lexicographic order of strings, as std::set and std::map keep their keys. */
module StringOrder {

  predicate Less(a: string, b: string) {
    b != [] && (a == [] || a[0] < b[0] || (a[0] == b[0] && Less(a[1..], b[1..])))
  }

  /** At the first place where two strings differ the one with the smaller character comes first; a
      string comes before all that go on after it. */
  lemma {:induction false} LessMeaning(a: string, b: string)
    ensures Less(a, b) <==>
              exists k :: 0 <= k <= |a| && k < |b| && a[..k] == b[..k] && (k == |a| || a[k] < b[k])
  {
    if a != [] && b != [] && a[0] == b[0] {
      var x, y := a[1..], b[1..];
      LessMeaning(x, y);
      if k :| 0 <= k <= |x| && k < |y| && x[..k] == y[..k] && (k == |x| || x[k] < y[k]) {
        assert a[..k + 1] == [a[0]] + x[..k] && b[..k + 1] == [b[0]] + y[..k];
        assert a[..k + 1] == b[..k + 1] && (k + 1 == |a| || a[k + 1] < b[k + 1]);
      }
      if k :| 0 <= k <= |a| && k < |b| && a[..k] == b[..k] && (k == |a| || a[k] < b[k]) {
        if k > 0 {
          assert x[..k - 1] == a[..k][1..] && y[..k - 1] == b[..k][1..];
          assert x[..k - 1] == y[..k - 1] && (k - 1 == |x| || x[k - 1] < y[k - 1]);
        }
      }
    } else if a != [] && b != [] {
      assert a[..0] == b[..0];
      assert forall k :: 0 < k <= |a| && k < |b| ==> a[..k][0] == a[0] && b[..k][0] == b[0];
    } else if b != [] {
      assert a[..0] == b[..0];
    }
  }

  lemma {:induction false} Irreflexive(a: string)
    ensures !Less(a, a)
  {
    if a != [] {
      Irreflexive(a[1..]);
    }
  }

  lemma {:induction false} Total(a: string, b: string)
    ensures Less(a, b) || a == b || Less(b, a)
  {
    if a != [] && b != [] && a[0] == b[0] {
      Total(a[1..], b[1..]);
      assert a == [a[0]] + a[1..] && b == [b[0]] + b[1..];
    }
  }

  lemma {:induction false} Transitive(a: string, b: string, c: string)
    requires Less(a, b) && Less(b, c)
    ensures Less(a, c)
  {
    if a != [] && a[0] == b[0] == c[0] {
      Transitive(a[1..], b[1..], c[1..]);
    }
  }

  lemma Asymmetric(a: string, b: string)
    requires Less(a, b)
    ensures !Less(b, a) && a != b
  {
    Irreflexive(a);
    if Less(b, a) {
      Transitive(a, b, a);
    }
  }

  /** A proper prefix comes first. */
  lemma {:induction false} PrefixLess(p: string, s: string)
    requires p < s
    ensures Less(p, s)
  {
    if p != [] {
      PrefixLess(p[1..], s[1..]);
    }
  }

  /** Everything between a prefix and one of its extensions has that prefix. */
  lemma {:induction false} Between(p: string, m: string, s: string)
    requires p <= s
    requires p == m || Less(p, m)
    requires m == s || Less(m, s)
    ensures p <= m
  {
    if p != [] {
      if p == m || m == s {
      } else {
        assert m[0] == p[0] == s[0];
        assert p == [p[0]] + p[1..] && m == [m[0]] + m[1..] && s == [s[0]] + s[1..];
        Between(p[1..], m[1..], s[1..]);
      }
    }
  }

  /** Strictly increasing: how a set of strings is laid out. */
  ghost predicate Sorted(a: seq<string>) {
    forall i, j :: 0 <= i < j < |a| ==> Less(a[i], a[j])
  }

  lemma SortedDistinct(a: seq<string>)
    requires Sorted(a)
    ensures forall i, j :: 0 <= i < j < |a| ==> a[i] != a[j]
  {
    forall i, j | 0 <= i < j < |a| ensures a[i] != a[j] {
      Irreflexive(a[i]);
    }
  }

  /** Index of the first element not below `s`. */
  method LowerBound(a: seq<string>, s: string) returns (i: nat)
    requires Sorted(a)
    ensures i <= |a|
    ensures forall k :: 0 <= k < i ==> Less(a[k], s)
    ensures forall k :: i <= k < |a| ==> !Less(a[k], s)
  {
    i := 0;
    while i < |a| && Less(a[i], s)
      invariant i <= |a|
      invariant forall k :: 0 <= k < i ==> Less(a[k], s)
    {
      i := i + 1;
    }
    forall k | i <= k < |a| ensures !Less(a[k], s) {
      if Less(a[k], s) && i < k {
        Transitive(a[i], a[k], s);
      }
    }
  }

  /** The keys of a map in the order in which it is traversed. */
  ghost predicate Lists(a: seq<string>, keys: set<string>) {
    Sorted(a) && forall k :: k in a <==> k in keys
  }

  ghost predicate IsLeast(m: string, keys: set<string>) {
    m in keys && forall k :: k in keys ==> k == m || Less(m, k)
  }

  /** The first key in traversal order. */
  lemma {:induction false} Least(keys: set<string>) returns (m: string)
    requires keys != {}
    ensures IsLeast(m, keys)
  {
    hide Less;
    m :| m in keys;
    var rest := keys - {m};
    if rest == {} {
      assert keys == {m};
    } else {
      var l := Least(rest);
      Total(m, l);
      if Less(l, m) {
        m := l;
      } else {
        forall k | k in rest ensures Less(m, k) {
          if k != l {
            Transitive(m, l, k);
          }
        }
        assert forall k :: k in keys ==> k == m || k in rest;
      }
    }
  }

  /** Every set of keys has its list. */
  lemma {:induction false} ListOf(keys: set<string>) returns (a: seq<string>)
    ensures Lists(a, keys)
  {
    hide Less;
    if keys == {} {
      a := [];
    } else {
      var m := Least(keys);
      var rest := ListOf(keys - {m});
      a := [m] + rest;
      forall k ensures k in a <==> k in keys {
        assert k in a <==> k == m || k in rest;
      }
      assert forall j :: 0 <= j < |rest| ==> rest[j] in keys - {m};
    }
  }

  /** The key at which a traversal begins. */
  method First(keys: set<string>) returns (m: string)
    requires keys != {}
    ensures IsLeast(m, keys)
  {
    ghost var least := Least(keys);
    assert exists m :: m in keys && forall k :: k in keys ==> k == m || Less(m, k) by {
      assert IsLeast(least, keys);
    }
    m :| m in keys && forall k :: k in keys ==> k == m || Less(m, k);
  }

  /** Traverses a set of keys in order. */
  method InOrder(keys: set<string>) returns (a: seq<string>)
    ensures Lists(a, keys)
  {
    a := [];
    var rest := keys;
    while rest != {}
      invariant Sorted(a) && rest <= keys
      invariant forall k :: k in a <==> k in keys - rest
      invariant forall i, k :: 0 <= i < |a| && k in rest ==> Less(a[i], k)
      decreases rest
    {
      var m := First(rest);
      a := a + [m];
      rest := rest - {m};
    }
  }
}
