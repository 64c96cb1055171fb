/**
 * Row-level building blocks shared by both tables: the collation that
 * `ORDER BY name ASC` uses, the stable sort that realises it, the filter
 * that a `WHERE` clause realises, and the choice of a fresh primary key.
 */
module Rows {

  /** SQLite's default BINARY collation on text: character by character,
      a proper prefix sorting first. */
  predicate NameLe(a: string, b: string)
  {
    a == [] || (b != [] && (a[0] < b[0] || (a[0] == b[0] && NameLe(a[1..], b[1..]))))
  }

  lemma {:induction false} NameLeReflexive(a: string)
    ensures NameLe(a, a)
  {
    if a != [] {
      NameLeReflexive(a[1..]);
    }
  }

  lemma {:induction false} NameLeTotal(a: string, b: string)
    ensures NameLe(a, b) || NameLe(b, a)
  {
    if a != [] && b != [] && a[0] == b[0] {
      NameLeTotal(a[1..], b[1..]);
    }
  }

  lemma {:induction false} NameLeTransitive(a: string, b: string, c: string)
    requires NameLe(a, b) && NameLe(b, c)
    ensures NameLe(a, c)
  {
    if a != [] && a[0] == b[0] && b[0] == c[0] {
      NameLeTransitive(a[1..], b[1..], c[1..]);
    }
  }

  lemma {:induction false} NameLeAntisymmetric(a: string, b: string)
    requires NameLe(a, b) && NameLe(b, a)
    ensures a == b
  {
    if a != [] && b != [] {
      NameLeAntisymmetric(a[1..], b[1..]);
      assert a == [a[0]] + a[1..] && b == [b[0]] + b[1..];
    }
  }

  /** No two rows share a key. */
  predicate KeysUnique<T>(s: seq<T>, key: T -> int)
  {
    forall i, j :: 0 <= i < j < |s| ==> key(s[i]) != key(s[j])
  }

  /** Every row's name is at most the name of every later row. */
  predicate SortedBy<T>(s: seq<T>, name: T -> string)
  {
    forall i, j :: 0 <= i < j < |s| ==> NameLe(name(s[i]), name(s[j]))
  }

  /** Places `x` before the first row whose name is not below its own. */
  function InsertSorted<T>(x: T, s: seq<T>, name: T -> string): seq<T>
  {
    if s == [] then [x]
    else if NameLe(name(x), name(s[0])) then [x] + s
    else [s[0]] + InsertSorted(x, s[1..], name)
  }

  /** Stable insertion sort by name: rows with equal names keep their table order. */
  function SortBy<T>(s: seq<T>, name: T -> string): seq<T>
  {
    if s == [] then [] else InsertSorted(s[0], SortBy(s[1..], name), name)
  }

  /** The rows that `keep` accepts, in table order. */
  function Filter<T>(s: seq<T>, keep: T -> bool): seq<T>
  {
    if s == [] then [] else (if keep(s[0]) then [s[0]] else []) + Filter(s[1..], keep)
  }

  lemma {:induction false} InsertSortedPermutes<T>(x: T, s: seq<T>, name: T -> string)
    ensures multiset(InsertSorted(x, s, name)) == multiset(s) + multiset{x}
  {
    if s != [] && !NameLe(name(x), name(s[0])) {
      InsertSortedPermutes(x, s[1..], name);
      assert s == [s[0]] + s[1..];
    }
  }

  lemma {:induction false} InsertSortedSorted<T>(x: T, s: seq<T>, name: T -> string)
    requires SortedBy(s, name)
    ensures SortedBy(InsertSorted(x, s, name), name)
  {
    var r := InsertSorted(x, s, name);
    if s == [] {
    } else if NameLe(name(x), name(s[0])) {
      forall i, j | 0 <= i < j < |r| ensures NameLe(name(r[i]), name(r[j])) {
        if i == 0 && j > 1 {
          NameLeTransitive(name(x), name(s[0]), name(s[j - 1]));
        }
      }
    } else {
      var t := s[1..];
      InsertSortedSorted(x, t, name);
      InsertSortedPermutes(x, t, name);
      NameLeTotal(name(x), name(s[0]));
      forall j | 0 < j < |r| ensures NameLe(name(s[0]), name(r[j])) {
        var y := r[j];
        assert y in multiset(InsertSorted(x, t, name));
        assert y in multiset(t) + multiset{x};
        if y != x {
          var k :| 0 <= k < |t| && t[k] == y;
          assert s[k + 1] == y;
        }
      }
    }
  }

  /** Sorting yields a name-ordered permutation of its input. */
  lemma {:induction false} SortBySpec<T>(s: seq<T>, name: T -> string)
    ensures SortedBy(SortBy(s, name), name)
    ensures multiset(SortBy(s, name)) == multiset(s)
    ensures |SortBy(s, name)| == |s|
  {
    if s != [] {
      SortBySpec(s[1..], name);
      InsertSortedSorted(s[0], SortBy(s[1..], name), name);
      InsertSortedPermutes(s[0], SortBy(s[1..], name), name);
      assert s == [s[0]] + s[1..];
    }
  }

  /** A row is kept exactly when it is in the input and accepted; no row is duplicated. */
  lemma {:induction false} FilterSpec<T>(s: seq<T>, keep: T -> bool)
    ensures forall x :: x in Filter(s, keep) <==> x in s && keep(x)
    ensures multiset(Filter(s, keep)) <= multiset(s)
    ensures |Filter(s, keep)| <= |s|
  {
    if s != [] {
      FilterSpec(s[1..], keep);
      assert s == [s[0]] + s[1..];
    }
  }

  lemma FilteredFrom<T>(s: seq<T>, keep: T -> bool, y: T)
    requires y in Filter(s, keep)
    ensures y in s && keep(y)
  {
    FilterSpec(s, keep);
  }

  /** Filtering keeps everything when every row is accepted. */
  lemma {:induction false} FilterAll<T>(s: seq<T>, keep: T -> bool)
    requires forall x :: x in s ==> keep(x)
    ensures Filter(s, keep) == s
  {
    if s != [] {
      FilterAll(s[1..], keep);
      assert s == [s[0]] + s[1..];
    }
  }

  lemma SortedHeadBelow<T>(x: T, s: seq<T>, name: T -> string)
    requires SortedBy(s, name) && s != [] && NameLe(name(x), name(s[0]))
    ensures forall y :: y in s ==> NameLe(name(x), name(y))
  {
    forall y | y in s ensures NameLe(name(x), name(y)) {
      var k :| 0 <= k < |s| && s[k] == y;
      if k > 0 {
        NameLeTransitive(name(x), name(s[0]), name(s[k]));
      }
    }
  }

  lemma InsertBeforeAll<T>(x: T, s: seq<T>, name: T -> string)
    requires forall y :: y in s ==> NameLe(name(x), name(y))
    ensures InsertSorted(x, s, name) == [x] + s
  {
    if s != [] {
      assert s[0] in s;
    }
  }

  lemma {:induction false} FilterConcat<T>(a: seq<T>, b: seq<T>, keep: T -> bool)
    ensures Filter(a + b, keep) == Filter(a, keep) + Filter(b, keep)
  {
    if a != [] {
      FilterConcat(a[1..], b, keep);
      assert (a + b)[0] == a[0] && (a + b)[1..] == a[1..] + b;
    } else {
      assert a + b == b;
    }
  }

  /** Striking rows out never makes two remaining rows share a key. */
  lemma {:induction false} FilterKeysUnique<T>(s: seq<T>, key: T -> int, keep: T -> bool)
    requires KeysUnique(s, key)
    ensures KeysUnique(Filter(s, keep), key)
  {
    if s != [] {
      var t := s[1..];
      FilterKeysUnique(t, key, keep);
      var f := Filter(t, keep);
      if keep(s[0]) {
        var r := [s[0]] + f;
        forall i, j | 0 <= i < j < |r| ensures key(r[i]) != key(r[j]) {
          if i == 0 {
            FilteredFrom(t, keep, r[j]);
            var k :| 0 <= k < |t| && t[k] == r[j];
            assert s[k + 1] == r[j];
          } else {
            assert r[i] == f[i - 1] && r[j] == f[j - 1];
          }
        }
      }
    }
  }

  lemma {:induction false} FilterInsertSorted<T>(x: T, s: seq<T>, name: T -> string, keep: T -> bool)
    requires SortedBy(s, name)
    ensures Filter(InsertSorted(x, s, name), keep)
         == if keep(x) then InsertSorted(x, Filter(s, keep), name) else Filter(s, keep)
  {
    if s == [] {
    } else if NameLe(name(x), name(s[0])) {
      var r := InsertSorted(x, s, name);
      assert r == [x] + s;
      assert r[0] == x && r[1..] == s;
      assert Filter(r, keep) == (if keep(x) then [x] else []) + Filter(s, keep);
      if keep(x) {
        SortedHeadBelow(x, s, name);
        forall y | y in Filter(s, keep) ensures NameLe(name(x), name(y)) {
          FilteredFrom(s, keep, y);
        }
        InsertBeforeAll(x, Filter(s, keep), name);
      }
    } else {
      var r := InsertSorted(x, s, name);
      assert r == [s[0]] + InsertSorted(x, s[1..], name);
      assert r[0] == s[0] && r[1..] == InsertSorted(x, s[1..], name);
      FilterInsertSorted(x, s[1..], name, keep);
      if keep(s[0]) {
        assert Filter(s, keep) == [s[0]] + Filter(s[1..], keep);
      } else {
        assert Filter(s, keep) == Filter(s[1..], keep);
      }
    }
  }

  /** Filtering commutes with the stable sort: a sorted query with a `WHERE`
      clause is the sorted query without it, with the other rows struck out. */
  lemma {:induction false} SortByFilter<T>(s: seq<T>, name: T -> string, keep: T -> bool)
    ensures SortBy(Filter(s, keep), name) == Filter(SortBy(s, name), keep)
  {
    if s != [] {
      SortByFilter(s[1..], name, keep);
      SortBySpec(s[1..], name);
      FilterInsertSorted(s[0], SortBy(s[1..], name), name, keep);
      if keep(s[0]) {
        assert Filter(s, keep) == [s[0]] + Filter(s[1..], keep);
      } else {
        assert Filter(s, keep) == Filter(s[1..], keep);
      }
    }
  }

  /** No two rows of the bag share a name, and no row occurs twice. */
  predicate NamesDistinct<T>(m: multiset<T>, name: T -> string)
  {
    (forall x | x in m :: m[x] == 1)
    && (forall x, y | x in m && y in m :: name(x) == name(y) ==> x == y)
  }

  /** Part of a bag with distinct names has distinct names. */
  lemma NamesDistinctPart<T>(m: multiset<T>, part: multiset<T>, name: T -> string)
    requires NamesDistinct(m, name) && part <= m
    ensures NamesDistinct(part, name)
  {
  }

  /** When no two rows share a name, `ORDER BY name` leaves no choice: two name-ordered
      listings of the same rows are the same list. */
  lemma {:induction false} SortedByDistinctNamesUnique<T>(a: seq<T>, b: seq<T>, name: T -> string)
    requires SortedBy(a, name) && SortedBy(b, name)
    requires multiset(a) == multiset(b) && NamesDistinct(multiset(a), name)
    ensures a == b
    decreases |a|
  {
    if a == [] {
      assert |b| == |multiset(b)| == 0;
    } else {
      SortedHeadsEqual(a, b, name);
      TailKeepsOrder(a, name);
      TailKeepsOrder(b, name);
      TailKeepsDistinct(a, name);
      TailsSameRows(a, b);
      SortedByDistinctNamesUnique(a[1..], b[1..], name);
      assert a == [a[0]] + a[1..] && b == [b[0]] + b[1..];
    }
  }

  lemma TailsSameRows<T>(a: seq<T>, b: seq<T>)
    requires a != [] && b != [] && a[0] == b[0] && multiset(a) == multiset(b)
    ensures multiset(a[1..]) == multiset(b[1..])
  {
    assert a == [a[0]] + a[1..] && b == [b[0]] + b[1..];
    assert multiset(a) == multiset{a[0]} + multiset(a[1..]);
    assert multiset(b) == multiset{b[0]} + multiset(b[1..]);
    forall x ensures multiset(a[1..])[x] == multiset(b[1..])[x] {
      assert multiset(a)[x] == multiset{a[0]}[x] + multiset(a[1..])[x];
      assert multiset(b)[x] == multiset{b[0]}[x] + multiset(b[1..])[x];
    }
  }

  /** Two name-ordered listings of the same rows with distinct names start with the same row. */
  lemma SortedHeadsEqual<T>(a: seq<T>, b: seq<T>, name: T -> string)
    requires SortedBy(a, name) && SortedBy(b, name) && a != []
    requires multiset(a) == multiset(b) && NamesDistinct(multiset(a), name)
    ensures b != [] && a[0] == b[0]
  {
    assert a[0] in multiset(a);
    assert b != [];
    assert b[0] in multiset(b);
    var j :| 0 <= j < |a| && a[j] == b[0];
    var m :| 0 <= m < |b| && b[m] == a[0];
    NameLeReflexive(name(a[0]));
    NameLeReflexive(name(b[0]));
    assert NameLe(name(a[0]), name(a[j]));
    assert NameLe(name(b[0]), name(b[m]));
    NameLeAntisymmetric(name(a[0]), name(b[0]));
  }

  lemma TailKeepsOrder<T>(s: seq<T>, name: T -> string)
    requires SortedBy(s, name) && s != []
    ensures SortedBy(s[1..], name)
  {
    var t := s[1..];
    forall i, k | 0 <= i < k < |t| ensures NameLe(name(t[i]), name(t[k])) {
      assert t[i] == s[i + 1] && t[k] == s[k + 1];
    }
  }

  lemma TailKeepsDistinct<T>(s: seq<T>, name: T -> string)
    requires NamesDistinct(multiset(s), name) && s != []
    ensures NamesDistinct(multiset(s[1..]), name)
  {
    assert s == [s[0]] + s[1..];
    assert multiset(s[1..]) <= multiset(s);
  }

  /** The key a record holds before auto-generation has assigned one. */
  const UNASSIGNED_KEY: int := 0

  /** What an insert did: the key the new row got, or the constraint failure
      raised when an explicitly given key is already taken. */
  datatype InsertOutcome = Inserted(id: int) | ConstraintViolation

  function KeysOf<T>(s: seq<T>, key: T -> int): set<int>
  {
    set i | 0 <= i < |s| :: key(s[i])
  }

  /** A table's key integrity: keys are unique and none is the unassigned key. */
  predicate KeysWellFormed<T>(s: seq<T>, key: T -> int)
  {
    KeysUnique(s, key) && forall i :: 0 <= i < |s| ==> key(s[i]) != UNASSIGNED_KEY
  }

  /** An insert of a record holding key `requested`: the unassigned key asks for a
      fresh one; a key already in use is rejected (the default abort strategy). */
  function InsertOutcomeOf<T>(s: seq<T>, key: T -> int, requested: int): (o: InsertOutcome)
    ensures o.ConstraintViolation? <==> requested != UNASSIGNED_KEY && requested in KeysOf(s, key)
    ensures o.Inserted? ==> o.id != UNASSIGNED_KEY && o.id !in KeysOf(s, key)
    ensures o.Inserted? && requested != UNASSIGNED_KEY ==> o.id == requested
  {
    if requested == UNASSIGNED_KEY then
      var k := FreshKey(s, key);
      assert k !in KeysOf(s, key) by {
        forall i | 0 <= i < |s| ensures key(s[i]) != k {
          assert s[i] in s;
        }
      }
      Inserted(k)
    else if requested in KeysOf(s, key) then ConstraintViolation
    else Inserted(requested)
  }

  /** Appending a row under an unused, assigned key keeps the keys well formed. */
  lemma AppendKeepsKeysWellFormed<T>(s: seq<T>, key: T -> int, x: T)
    requires KeysWellFormed(s, key) && key(x) != UNASSIGNED_KEY && key(x) !in KeysOf(s, key)
    ensures KeysWellFormed(s + [x], key)
  {
    var r := s + [x];
    forall i, j | 0 <= i < j < |r| ensures key(r[i]) != key(r[j]) {
      if j == |s| {
        assert r[i] == s[i] && key(s[i]) in KeysOf(s, key);
      } else {
        assert r[i] == s[i] && r[j] == s[j];
      }
    }
    forall i | 0 <= i < |r| ensures key(r[i]) != UNASSIGNED_KEY {
      if i < |s| {
        assert r[i] == s[i];
      }
    }
  }

  lemma KeyAtUnique<T>(s: seq<T>, key: T -> int, i: int, k: int)
    requires KeysUnique(s, key) && 0 <= i < |s| && 0 <= k < |s| && i != k
    ensures key(s[i]) != key(s[k])
  {
    if i < k {
      assert key(s[i]) != key(s[k]);
    } else {
      assert key(s[k]) != key(s[i]);
    }
  }

  /** Accepts the rows whose key is not `k`: the `WHERE` of a delete by key, negated. */
  function KeyOtherThan<T>(key: T -> int, k: int): T -> bool
  {
    (x: T) => key(x) != k
  }

  /** Deleting by a key the table holds removes exactly that row and keeps the rest in order. */
  lemma DeleteKeyRemovesRow<T>(s: seq<T>, key: T -> int, k: int)
    requires KeysUnique(s, key) && 0 <= k < |s|
    ensures Filter(s, KeyOtherThan(key, key(s[k]))) == s[..k] + s[k + 1..]
  {
    OthersKept(s, key, k, 0, k);
    OthersKept(s, key, k, k + 1, |s|);
    assert s[0..k] == s[..k] && s[k + 1..|s|] == s[k + 1..];
    FilterDropsOne(s, KeyOtherThan(key, key(s[k])), k);
  }

  lemma FilterDropsOne<T>(s: seq<T>, keep: T -> bool, k: int)
    requires 0 <= k < |s| && !keep(s[k])
    requires Filter(s[..k], keep) == s[..k] && Filter(s[k + 1..], keep) == s[k + 1..]
    ensures Filter(s, keep) == s[..k] + s[k + 1..]
  {
    var a, b := s[..k], s[k + 1..];
    assert s == a + [s[k]] + b;
    calc {
      Filter(s, keep);
      Filter(a + [s[k]] + b, keep);
      { FilterConcat(a + [s[k]], b, keep); }
      Filter(a + [s[k]], keep) + Filter(b, keep);
      { FilterConcat(a, [s[k]], keep); }
      Filter(a, keep) + Filter([s[k]], keep) + Filter(b, keep);
      { assert Filter([s[k]], keep) == []; }
      a + b;
    }
  }

  /** Rows `lo..hi`, none of which is row `k`, all survive a delete by row `k`'s key. */
  lemma OthersKept<T>(s: seq<T>, key: T -> int, k: int, lo: int, hi: int)
    requires KeysUnique(s, key) && 0 <= k < |s| && 0 <= lo <= hi <= |s| && !(lo <= k < hi)
    ensures Filter(s[lo..hi], KeyOtherThan(key, key(s[k]))) == s[lo..hi]
  {
    var part := s[lo..hi];
    forall x | x in part ensures KeyOtherThan(key, key(s[k]))(x) {
      var i :| 0 <= i < |part| && part[i] == x;
      KeyAtUnique(s, key, lo + i, k);
    }
    FilterAll(part, KeyOtherThan(key, key(s[k])));
  }

  /** Deleting by a key the table does not hold changes nothing. */
  lemma DeleteKeyAbsentIsNoop<T>(s: seq<T>, key: T -> int, k: int)
    requires k !in KeysOf(s, key)
    ensures Filter(s, KeyOtherThan(key, k)) == s
  {
    forall x | x in s ensures KeyOtherThan(key, k)(x) {
      var i :| 0 <= i < |s| && s[i] == x;
      assert key(s[i]) in KeysOf(s, key);
    }
    FilterAll(s, KeyOtherThan(key, k));
  }

  /** Deleting by key keeps the remaining keys well formed. */
  lemma DeleteKeyKeepsKeysWellFormed<T>(s: seq<T>, key: T -> int, k: int)
    requires KeysWellFormed(s, key)
    ensures KeysWellFormed(Filter(s, KeyOtherThan(key, k)), key)
  {
    FilterKeysUnique(s, key, KeyOtherThan(key, k));
    var f := Filter(s, KeyOtherThan(key, k));
    forall i | 0 <= i < |f| ensures key(f[i]) != UNASSIGNED_KEY {
      FilteredFrom(s, KeyOtherThan(key, k), f[i]);
      var j :| 0 <= j < |s| && s[j] == f[i];
    }
  }

  /** A key auto-generation may give a new row: positive and above every key in use.
      SQLite's AUTOINCREMENT also never gives the key of a deleted row again, which
      this choice does not ensure, so only the two properties stated here are used. */
  function FreshKey<T>(s: seq<T>, key: T -> int): (k: int)
    ensures k > 0
    ensures forall x :: x in s ==> key(x) < k
  {
    if s == [] then 1
    else
      var rest := FreshKey(s[1..], key);
      assert forall x :: x in s ==> x == s[0] || x in s[1..];
      if key(s[0]) < rest then rest else key(s[0]) + 1
  }

}
