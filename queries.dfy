/** What the repository queries return when a table is a map from id to
    record: the rows that satisfy a condition, listed once each in increasing
    id order, and the same rows sorted by name. */
module Queries {
  import opened Domain

  predicate Increasing(s: seq<int>) {
    forall i, j :: 0 <= i < j < |s| ==> s[i] < s[j]
  }

  predicate Distinct<T(==)>(s: seq<T>) {
    forall i, j :: 0 <= i < j < |s| ==> s[i] != s[j]
  }

  /** No two keys hold the same record. */
  predicate Injective<T(==)>(m: map<Id, T>) {
    forall a, b :: a in m && b in m && a != b ==> m[a] != m[b]
  }

  /** The condition every row satisfies. */
  function All<T>(x: T): bool { true }

  /** `findByIdOrNull`. */
  function Get<T>(m: map<Id, T>, k: Id): (r: Option<T>)
    ensures r.Some? <==> k in m
    ensures r.Some? ==> r.value == m[k]
  {
    if k in m then Some(m[k]) else None
  }

  /** A set of ids is empty or has a least element. */
  lemma {:induction false} LeastExists(s: set<Id>)
    ensures s == {} || exists k :: k in s && forall j :: j in s ==> k <= j
    decreases |s|
  {
    if forall x :: x !in s {
      assert forall x :: x in s <==> x in {};
    } else {
      var x :| x in s;
      var rest := s - {x};
      LeastExists(rest);
      if rest == {} {
        assert forall j :: j in s ==> j == x || j in rest;
      } else {
        var k :| k in rest && forall j :: j in rest ==> k <= j;
        var least := if x < k then x else k;
        assert least in s;
        forall j | j in s ensures least <= j {
          if j != x { assert j in rest; }
        }
      }
    }
  }

  function Least(s: set<Id>): (k: Id)
    requires s != {}
    ensures k in s && forall j :: j in s ==> k <= j
  {
    LeastExists(s);
    var k :| k in s && forall j :: j in s ==> k <= j; k
  }

  /** The keys of `s` in increasing order. */
  function SortedKeys(s: set<Id>): (r: seq<Id>)
    ensures |r| == |s| && Increasing(r)
    ensures forall k :: k in r <==> k in s
  {
    if s == {} then []
    else
      var k := Least(s);
      var rest := SortedKeys(s - {k});
      assert forall j :: 0 <= j < |rest| ==> rest[j] in s - {k};
      [k] + rest
  }

  /** The keys of `ks`, in their order, whose record satisfies `p`. */
  function FilterKeys<T>(m: map<Id, T>, ks: seq<Id>, p: T -> bool): (r: seq<Id>)
    requires forall k :: k in ks ==> k in m
    ensures forall k :: k in r <==> k in ks && p(m[k])
    ensures Increasing(ks) ==> Increasing(r)
  {
    if ks == [] then []
    else
      var k := ks[0];
      assert k in ks;
      assert forall j :: j in ks[1..] ==> j in ks;
      var rest := FilterKeys(m, ks[1..], p);
      if p(m[k]) then
        KeepHead(ks, rest);
        [k] + rest
      else
        assert Increasing(ks) ==> Increasing(ks[1..]);
        rest
  }

  /** Keeping the head of an increasing sequence in front of a selection of
      its tail keeps the order increasing. */
  lemma KeepHead(ks: seq<Id>, rest: seq<Id>)
    requires ks != []
    requires forall j :: j in rest ==> j in ks[1..]
    requires Increasing(ks[1..]) ==> Increasing(rest)
    ensures Increasing(ks) ==> Increasing([ks[0]] + rest)
  {
    if Increasing(ks) {
      assert Increasing(ks[1..]);
      var r := [ks[0]] + rest;
      forall i, j | 0 <= i < j < |r| ensures r[i] < r[j] {
        var y := rest[j - 1];
        assert y in rest;
        if i > 0 {
          assert r[i] == rest[i - 1];
        } else {
          var n :| 0 <= n < |ks[1..]| && ks[1..][n] == y;
          assert ks[n + 1] == y;
        }
      }
    }
  }

  /** The keys of the rows satisfying `p`, in increasing order. */
  function KeysWhere<T>(m: map<Id, T>, p: T -> bool): (r: seq<Id>)
    ensures Increasing(r)
    ensures forall k :: k in r <==> k in m && p(m[k])
  {
    FilterKeys(m, SortedKeys(m.Keys), p)
  }

  /** The records at the keys `ks`, in that order. */
  function At<T>(m: map<Id, T>, ks: seq<Id>): (r: seq<T>)
    requires forall i :: 0 <= i < |ks| ==> ks[i] in m
    ensures |r| == |ks| && forall i :: 0 <= i < |r| ==> r[i] == m[ks[i]]
  {
    seq(|ks|, i requires 0 <= i < |ks| => m[ks[i]])
  }

  /** The rows satisfying `p`, in increasing id order: every such row is
      listed, nothing else is, and no row is listed twice. */
  function ValuesWhere<T(==, !new)>(m: map<Id, T>, p: T -> bool): (r: seq<T>)
    ensures forall k :: k in m && p(m[k]) ==> m[k] in r
    ensures forall x :: x in r ==> p(x) && x in m.Values
    ensures Injective(m) ==> Distinct(r)
  {
    var ks := KeysWhere(m, p);
    AtMembers(m, ks, p);
    At(m, ks)
  }

  lemma AtMembers<T(!new)>(m: map<Id, T>, ks: seq<Id>, p: T -> bool)
    requires Increasing(ks)
    requires forall k :: k in ks <==> k in m && p(m[k])
    ensures forall i :: 0 <= i < |ks| ==> ks[i] in m
    ensures forall k :: k in m && p(m[k]) ==> m[k] in At(m, ks)
    ensures forall x :: x in At(m, ks) ==> p(x) && x in m.Values
    ensures Injective(m) ==> Distinct(At(m, ks))
  {
    forall i | 0 <= i < |ks| ensures ks[i] in m {
      var k := ks[i];
      assert k in ks;
    }
    var r := At(m, ks);
    forall k | k in m && p(m[k]) ensures m[k] in r {
      assert k in ks;
      var i :| 0 <= i < |ks| && ks[i] == k;
      assert r[i] == m[k];
    }
    forall x | x in r ensures p(x) && x in m.Values {
      var i :| 0 <= i < |r| && r[i] == x;
      assert ks[i] in m && m[ks[i]] == x;
    }
  }

  /** A property every row of the table has, every row a query lists has. */
  lemma ValuesWhereInherit<T(!new)>(m: map<Id, T>, p: T -> bool, q: T -> bool)
    requires forall k :: k in m ==> q(m[k])
    ensures forall x :: x in ValuesWhere(m, p) ==> q(x)
  {
    var ks := KeysWhere(m, p);
    var r := At(m, ks);
    forall x | x in r ensures q(x) {
      var i :| 0 <= i < |r| && r[i] == x;
      var k := ks[i];
      assert k in ks;
    }
  }

  /** An increasing sequence has as many elements as the set it lists. */
  lemma {:induction false} IncreasingCard(ks: seq<Id>, keys: set<Id>)
    requires Increasing(ks)
    requires forall k :: k in ks <==> k in keys
    ensures |keys| == |ks|
  {
    if ks == [] {
      assert keys == {} by {
        assert forall k :: k in keys <==> k in {};
      }
    } else {
      var first := ks[0];
      assert first in ks;
      var rest := keys - {first};
      forall k ensures k in ks[1..] <==> k in rest {
        if k in ks[1..] {
          var n :| 0 <= n < |ks[1..]| && ks[1..][n] == k;
          assert ks[n + 1] == k;
        }
        if k in ks && k != ks[0] {
          var n :| 0 <= n < |ks| && ks[n] == k;
          assert ks[1..][n - 1] == k;
        }
      }
      IncreasingCard(ks[1..], rest);
    }
  }

  /** The keys whose row satisfies `p`. */
  ghost function Matching<T>(m: map<Id, T>, p: T -> bool): set<Id> {
    set k | k in m && p(m[k])
  }

  /** As many keys satisfy `p` as the key query lists. */
  lemma CountKeys<T>(m: map<Id, T>, p: T -> bool)
    ensures |KeysWhere(m, p)| == |Matching(m, p)|
  {
    IncreasingCard(KeysWhere(m, p), Matching(m, p));
  }

  /** A query lists as many rows as the table has keys satisfying `p`: this
      is what `.size` of a query result counts. */
  lemma CountWhere<T(!new)>(m: map<Id, T>, p: T -> bool)
    ensures |ValuesWhere(m, p)| == |Matching(m, p)|
  {
    assert |ValuesWhere(m, p)| == |KeysWhere(m, p)|;
    CountKeys(m, p);
  }

  // ---- Ordering by name ----

  /** Lexicographic order on names, character by character. */
  predicate NameLeq(a: string, b: string) {
    a == [] || (b != [] && (a[0] < b[0] || (a[0] == b[0] && NameLeq(a[1..], b[1..]))))
  }

  lemma {:induction false} NameLeqTotal(a: string, b: string)
    ensures NameLeq(a, b) || NameLeq(b, a)
  {
    if a != [] && b != [] && a[0] == b[0] {
      NameLeqTotal(a[1..], b[1..]);
    }
  }

  lemma {:induction false} NameLeqTransitive(a: string, b: string, c: string)
    requires NameLeq(a, b) && NameLeq(b, c)
    ensures NameLeq(a, c)
  {
    if a != [] && a[0] == b[0] && b[0] == c[0] {
      NameLeqTransitive(a[1..], b[1..], c[1..]);
    }
  }

  /** Non-decreasing order of name. */
  predicate SortedBy<T>(s: seq<T>, name: T -> string) {
    forall i, j :: 0 <= i < j < |s| ==> NameLeq(name(s[i]), name(s[j]))
  }

  lemma SortedCons<T>(x: T, s: seq<T>, name: T -> string)
    requires SortedBy(s, name)
    requires forall y :: y in s ==> NameLeq(name(x), name(y))
    ensures SortedBy([x] + s, name)
  {
    var r := [x] + s;
    forall i, j | 0 <= i < j < |r| ensures NameLeq(name(r[i]), name(r[j])) {
      if i == 0 {
        assert r[j] == s[j - 1];
      } else {
        assert r[i] == s[i - 1] && r[j] == s[j - 1];
      }
    }
  }

  /** A name no greater than the first of a sorted sequence is no greater
      than any of them. */
  lemma BelowFirst<T>(s: seq<T>, x: T, name: T -> string)
    requires SortedBy(s, name) && s != [] && NameLeq(name(x), name(s[0]))
    ensures forall y :: y in s ==> NameLeq(name(x), name(y))
  {
    forall y | y in s ensures NameLeq(name(x), name(y)) {
      var j :| 0 <= j < |s| && s[j] == y;
      if j > 0 { NameLeqTransitive(name(x), name(s[0]), name(y)); }
    }
  }

  /** The first of a sorted sequence is no greater than anything in the rest
      with a larger name inserted. */
  lemma FirstBelowInserted<T>(s: seq<T>, x: T, rest: seq<T>, name: T -> string)
    requires SortedBy(s, name) && s != [] && !NameLeq(name(x), name(s[0]))
    requires multiset(rest) == multiset(s[1..]) + multiset{x}
    ensures forall y :: y in rest ==> NameLeq(name(s[0]), name(y))
  {
    forall y | y in rest ensures NameLeq(name(s[0]), name(y)) {
      assert y in multiset(rest);
      if y == x {
        NameLeqTotal(name(x), name(s[0]));
      } else {
        assert y in multiset(s[1..]);
        var j :| 0 <= j < |s[1..]| && s[1..][j] == y;
        assert s[j + 1] == y;
      }
    }
  }

  function InsertBy<T(==)>(s: seq<T>, x: T, name: T -> string): (r: seq<T>)
    requires SortedBy(s, name)
    ensures SortedBy(r, name)
    ensures multiset(r) == multiset(s) + multiset{x}
    ensures Distinct(s) && x !in s ==> Distinct(r)
  {
    if s == [] then
      [x]
    else if NameLeq(name(x), name(s[0])) then
      BelowFirst(s, x, name);
      SortedCons(x, s, name);
      [x] + s
    else
      var rest := InsertBy(s[1..], x, name);
      InsertAfterFirst(s, x, rest, name);
      [s[0]] + rest
  }

  /** Putting the first of `s` back in front of the rest with `x` inserted
      keeps the order, the contents and distinctness. */
  lemma InsertAfterFirst<T>(s: seq<T>, x: T, rest: seq<T>, name: T -> string)
    requires SortedBy(s, name) && s != [] && !NameLeq(name(x), name(s[0]))
    requires SortedBy(rest, name)
    requires multiset(rest) == multiset(s[1..]) + multiset{x}
    requires Distinct(s[1..]) && x !in s[1..] ==> Distinct(rest)
    ensures SortedBy([s[0]] + rest, name)
    ensures multiset([s[0]] + rest) == multiset(s) + multiset{x}
    ensures Distinct(s) && x !in s ==> Distinct([s[0]] + rest)
  {
    assert s == [s[0]] + s[1..];
    FirstBelowInserted(s, x, rest, name);
    SortedCons(s[0], rest, name);
    if Distinct(s) && x !in s {
      assert Distinct(s[1..]) && x !in s[1..];
      assert s[0] !in s[1..];
      assert s[0] !in multiset(rest);
      ConsDistinct(s[0], rest);
    }
  }

  lemma ConsDistinct<T>(a: T, rest: seq<T>)
    requires Distinct(rest) && a !in rest
    ensures Distinct([a] + rest)
  {
    var r := [a] + rest;
    forall i, j | 0 <= i < j < |r| ensures r[i] != r[j] {
      assert r[j] == rest[j - 1];
      if i > 0 {
        assert r[i] == rest[i - 1];
      }
    }
  }

  /** `ORDER BY name`: the same rows, sorted by name. The model sorts by
      insertion, so rows with equal names keep the order they came in; the
      database promises no order among them. */
  function SortBy<T(==)>(s: seq<T>, name: T -> string): (r: seq<T>)
    ensures SortedBy(r, name)
    ensures multiset(r) == multiset(s)
    ensures Distinct(s) ==> Distinct(r)
  {
    if s == [] then []
    else
      var rest := SortBy(s[1..], name);
      assert s == [s[0]] + s[1..];
      assert Distinct(s) ==> s[0] !in multiset(s[1..]);
      InsertBy(rest, s[0], name)
  }
}
