/** `sorted(cinits, key=lambda f: cinits[f])` of py/newt/config.py:90: the
    init names ordered by their resolved values with Python's `<`, stably.
    Python's sort is a merge sort; any stable sort gives the same sequence,
    and the model uses insertion, which is stable by construction. The entries
    are `(name, resolved value)` pairs in the dict's insertion order. */
module Order {
  import opened Values

  predicate Numeric(v: Value) {
    v.Int? || v.Bool?
  }

  /** An int, or a bool as the int Python compares it as. */
  function Num(v: Value): int
    requires Numeric(v)
  {
    if v.Int? then v.i else if v.b then 1 else 0
  }

  /** `a < b` on str: code points compared left to right, a proper prefix
      first. */
  predicate StrLess(a: string, b: string)
    decreases |a|
  {
    if a == [] then b != []
    else if b == [] then false
    else a[0] < b[0] || (a[0] == b[0] && StrLess(a[1..], b[1..]))
  }

  lemma {:induction false} StrLessIrreflexive(a: string)
    ensures !StrLess(a, a)
  {
    if a != [] {
      StrLessIrreflexive(a[1..]);
    }
  }

  lemma {:induction false} StrLessTransitive(a: string, b: string, c: string)
    requires StrLess(a, b) && StrLess(b, c)
    ensures StrLess(a, c)
    decreases |a|
  {
    if a != [] && a[0] == b[0] && b[0] == c[0] {
      StrLessTransitive(a[1..], b[1..], c[1..]);
    }
  }

  lemma {:induction false} StrLessTotal(a: string, b: string)
    ensures a == b || StrLess(a, b) || StrLess(b, a)
    decreases |a|
  {
    if a != [] && b != [] && a[0] == b[0] {
      StrLessTotal(a[1..], b[1..]);
      if a[1..] == b[1..] {
        assert a == [a[0]] + a[1..] && b == [b[0]] + b[1..];
      }
    }
  }

  /** The class of a sort key: 0 for numbers, 1 for strings, 2 for what
      cannot be ordered against anything (None, lists, dicts). Python's `<`
      raises TypeError across classes. */
  function Class(v: Value): nat {
    if Numeric(v) then 0 else if v.Str? then 1 else 2
  }

  /** Python's `x < y`, for two keys of one class. */
  predicate Less(x: Value, y: Value) {
    if x.Str? && y.Str? then StrLess(x.s, y.s)
    else Numeric(x) && Numeric(y) && Num(x) < Num(y)
  }

  /** Neither is less than the other: the sort keeps such entries in order. */
  predicate Tie(x: Value, y: Value) {
    !Less(x, y) && !Less(y, x)
  }

  lemma LessAsymmetric(x: Value, y: Value)
    requires Less(x, y)
    ensures !Less(y, x)
  {
    if x.Str? && y.Str? {
      if StrLess(y.s, x.s) {
        StrLessTransitive(x.s, y.s, x.s);
        StrLessIrreflexive(x.s);
      }
    }
  }

  /** `x < y <= z` gives `x < z` within one orderable class. */
  lemma LessThenNotLess(x: Value, y: Value, z: Value)
    requires Class(x) == Class(y) == Class(z) < 2
    requires Less(x, y) && !Less(z, y)
    ensures Less(x, z)
  {
    if x.Str? {
      StrLessTotal(y.s, z.s);
      if y.s != z.s {
        StrLessTransitive(x.s, y.s, z.s);
      }
    }
  }

  /** `x ~ y < z` gives `x < z` within one orderable class. */
  lemma TieThenLess(x: Value, y: Value, z: Value)
    requires Class(x) == Class(y) == Class(z) < 2
    requires Tie(x, y) && Less(y, z)
    ensures Less(x, z)
  {
    if x.Str? {
      StrLessTotal(x.s, y.s);
    }
  }

  predicate AllIn(t: Entries, c: nat) {
    forall e | e in t :: Class(e.1) == c
  }

  /** The keys `sorted` can order without raising: at most one entry, or all
      numbers, or all strings. */
  predicate Orderable(t: Entries) {
    |t| <= 1 || AllIn(t, 0) || AllIn(t, 1)
  }

  predicate SortedByValue(t: Entries) {
    forall i, j | 0 <= i < j < |t| :: !Less(t[j].1, t[i].1)
  }

  /** `x` placed before the first entry whose key is greater than its own. */
  function Insert(x: (string, Value), t: Entries): (r: Entries)
    ensures |r| == |t| + 1
  {
    if t == [] then [x]
    else if Less(x.1, t[0].1) then [x] + t
    else [t[0]] + Insert(x, t[1..])
  }

  /** Insertion sort, entries taken in order. */
  function SortByValue(s: Entries): (r: Entries)
    ensures |r| == |s|
  {
    if s == [] then [] else Insert(s[|s| - 1], SortByValue(s[..|s| - 1]))
  }

  /** The names of the entries, in order. */
  function Names(t: Entries): (ns: seq<string>)
    ensures |ns| == |t|
    ensures forall i | 0 <= i < |t| :: ns[i] == t[i].0
  {
    if t == [] then [] else [t[0].0] + Names(t[1..])
  }

  lemma {:induction false} InsertPermutation(x: (string, Value), t: Entries)
    ensures multiset(Insert(x, t)) == multiset(t) + multiset{x}
  {
    if t != [] && !Less(x.1, t[0].1) {
      InsertPermutation(x, t[1..]);
      assert t == [t[0]] + t[1..];
    }
  }

  /** The sort returns a permutation of its input. */
  lemma {:induction false} SortPermutation(s: Entries)
    ensures multiset(SortByValue(s)) == multiset(s)
  {
    if s != [] {
      var init := s[..|s| - 1];
      SortPermutation(init);
      InsertPermutation(s[|s| - 1], SortByValue(init));
      assert s == init + [s[|s| - 1]];
    }
  }

  /** Every entry of the sorted sequence comes from the input. */
  lemma SortMember(s: Entries, e: (string, Value))
    requires e in SortByValue(s)
    ensures e in s
  {
    SortPermutation(s);
    assert e in multiset(SortByValue(s));
  }

  lemma SameElements(t: Entries, u: Entries, c: nat)
    requires multiset(t) == multiset(u)
    requires AllIn(u, c)
    ensures AllIn(t, c)
  {
    forall e | e in t ensures Class(e.1) == c {
      assert e in multiset(t);
    }
  }

  lemma {:induction false} InsertSorted(x: (string, Value), t: Entries, c: nat)
    requires c < 2 && Class(x.1) == c && AllIn(t, c)
    requires SortedByValue(t)
    ensures SortedByValue(Insert(x, t))
  {
    if t != [] {
      if Less(x.1, t[0].1) {
        InsertSortedFront(x, t, c);
      } else {
        assert AllIn(t[1..], c) by {
          assert forall e | e in t[1..] :: e in t;
        }
        SortedTail(t);
        InsertSorted(x, t[1..], c);
        InsertSortedLater(x, t);
      }
    }
  }

  /** An entry no greater than any of a sorted sequence can go in front. */
  lemma SortedCons(a: (string, Value), u: Entries)
    requires SortedByValue(u)
    requires forall j | 0 <= j < |u| :: !Less(u[j].1, a.1)
    ensures SortedByValue([a] + u)
  {
    var r := [a] + u;
    forall i, j | 0 <= i < j < |r| ensures !Less(r[j].1, r[i].1) {
      assert r[j] == u[j - 1];
      if i > 0 {
        assert r[i] == u[i - 1];
      }
    }
  }

  /** `x` goes first when it is less than the first entry. */
  lemma InsertSortedFront(x: (string, Value), t: Entries, c: nat)
    requires c < 2 && Class(x.1) == c && AllIn(t, c)
    requires SortedByValue(t) && t != [] && Less(x.1, t[0].1)
    ensures SortedByValue(Insert(x, t))
  {
    assert Insert(x, t) == [x] + t;
    forall j | 0 <= j < |t| ensures !Less(t[j].1, x.1) {
      assert t[j] in t && t[0] in t;
      if j > 0 {
        LessThenNotLess(x.1, t[0].1, t[j].1);
      }
      LessAsymmetric(x.1, t[j].1);
    }
    SortedCons(x, t);
  }

  /** `x` goes after the first entry when it is not less than it. */
  lemma InsertSortedLater(x: (string, Value), t: Entries)
    requires SortedByValue(t) && t != [] && !Less(x.1, t[0].1)
    requires SortedByValue(Insert(x, t[1..]))
    ensures SortedByValue(Insert(x, t))
  {
    var rest := Insert(x, t[1..]);
    assert Insert(x, t) == [t[0]] + rest;
    forall j | 0 <= j < |rest| ensures !Less(rest[j].1, t[0].1) {
      InsertMember(x, t[1..], j);
      if rest[j] != x {
        var k :| 0 <= k < |t[1..]| && t[1..][k] == rest[j];
        assert t[k + 1] == rest[j];
      }
    }
    SortedCons(t[0], rest);
  }

  /** Every entry of `Insert(x, t)` is `x` or an entry of `t`. */
  lemma {:induction false} InsertMember(x: (string, Value), t: Entries, i: nat)
    requires i < |Insert(x, t)|
    ensures Insert(x, t)[i] == x || exists k | 0 <= k < |t| :: t[k] == Insert(x, t)[i]
  {
    if t != [] && !Less(x.1, t[0].1) && i > 0 {
      InsertMember(x, t[1..], i - 1);
      if Insert(x, t[1..])[i - 1] != x {
        var k :| 0 <= k < |t[1..]| && t[1..][k] == Insert(x, t[1..])[i - 1];
        assert t[k + 1] == Insert(x, t)[i];
      }
    } else if t != [] && i > 0 && Less(x.1, t[0].1) {
      assert Insert(x, t)[i] == t[i - 1];
    } else if t != [] && i == 0 && !Less(x.1, t[0].1) {
      assert Insert(x, t)[0] == t[0];
    }
  }

  /** The sort orders the entries by key, non-decreasingly. */
  lemma {:induction false} SortSorted(s: Entries)
    requires Orderable(s)
    ensures SortedByValue(SortByValue(s))
  {
    if |s| > 1 {
      var c := if AllIn(s, 0) then 0 else 1;
      SortSortedIn(s, c);
    } else if |s| == 1 {
      assert s[..0] == [];
    }
  }

  lemma {:induction false} SortSortedIn(s: Entries, c: nat)
    requires c < 2 && AllIn(s, c)
    ensures SortedByValue(SortByValue(s))
  {
    if s != [] {
      var init := s[..|s| - 1];
      assert forall e | e in init :: e in s;
      SortSortedIn(init, c);
      SortPermutation(init);
      SameElements(SortByValue(init), init, c);
      assert s[|s| - 1] in s;
      InsertSorted(s[|s| - 1], SortByValue(init), c);
    }
  }

  lemma {:induction false} InsertKeys(x: (string, Value), t: Entries)
    ensures Keys(Insert(x, t)) == Keys(t) + {x.0}
    ensures DistinctKeys(t) && x.0 !in Keys(t) ==> DistinctKeys(Insert(x, t))
  {
    KeysCons([x]);
    if t == [] {
    } else if Less(x.1, t[0].1) {
      KeysAppend([x], t);
      if DistinctKeys(t) && x.0 !in Keys(t) {
        DistinctAppend([x], t);
      }
    } else {
      var rest := t[1..];
      KeysCons(t);
      KeysCons([t[0]]);
      InsertKeys(x, rest);
      assert Insert(x, t) == [t[0]] + Insert(x, rest);
      KeysAppend([t[0]], Insert(x, rest));
      if DistinctKeys(t) && x.0 !in Keys(t) {
        assert DistinctKeys(rest) by {
          forall i, j | 0 <= i < j < |rest| ensures rest[i].0 != rest[j].0 {
            assert rest[i] == t[i + 1] && rest[j] == t[j + 1];
          }
        }
        assert t[0].0 !in Keys(rest) by {
          forall i | 0 <= i < |rest| ensures rest[i].0 != t[0].0 {
            assert rest[i] == t[i + 1];
          }
        }
        DistinctAppend([t[0]], Insert(x, rest));
      }
    }
  }

  /** The sort keeps the names, and a dict's names stay distinct. */
  lemma {:induction false} SortKeys(s: Entries)
    ensures Keys(SortByValue(s)) == Keys(s)
    ensures DistinctKeys(s) ==> DistinctKeys(SortByValue(s))
  {
    if s != [] {
      var init := s[..|s| - 1];
      var x := s[|s| - 1];
      assert s == init + [x];
      SortKeys(init);
      InsertKeys(x, SortByValue(init));
      KeysAppend(init, [x]);
      KeysCons([x]);
      if DistinctKeys(s) {
        assert DistinctKeys(init);
        assert x.0 !in Keys(init) by {
          forall i | 0 <= i < |init| ensures init[i].0 != x.0 {
            assert init[i] == s[i];
          }
        }
      }
    }
  }

  /** The entries whose key ties with `v`, in order. */
  function Ties(t: Entries, v: Value): (r: Entries)
    ensures |r| <= |t|
  {
    if t == [] then []
    else (if Tie(t[0].1, v) then [t[0]] else []) + Ties(t[1..], v)
  }

  lemma {:induction false} TiesAppend(t: Entries, u: Entries, v: Value)
    ensures Ties(t + u, v) == Ties(t, v) + Ties(u, v)
  {
    if t != [] {
      var P: Entries := if Tie(t[0].1, v) then [t[0]] else [];
      assert (t + u)[0] == t[0] && (t + u)[1..] == t[1..] + u;
      TiesAppend(t[1..], u, v);
      assert Ties(t + u, v) == P + (Ties(t[1..], v) + Ties(u, v));
      ConcatAssoc(P, Ties(t[1..], v), Ties(u, v));
    } else {
      assert t + u == u;
    }
  }

  lemma {:induction false} NoTiesAbove(x: (string, Value), t: Entries, c: nat, v: Value)
    requires c < 2 && Class(x.1) == c && AllIn(t, c) && Class(v) == c
    requires SortedByValue(t) && t != [] && Less(x.1, t[0].1) && Tie(x.1, v)
    ensures Ties(t, v) == []
  {
    assert t[0] in t;
    TieThenLess(v, x.1, t[0].1);
    LessAsymmetric(v, t[0].1);
    if |t| > 1 {
      var rest := t[1..];
      assert forall e | e in rest :: e in t;
      forall i | 0 <= i < |rest| ensures !Less(rest[i].1, t[0].1) {
        assert rest[i] == t[i + 1];
      }
      assert rest[0] == t[1] && t[1] in t;
      LessThenNotLess(x.1, t[0].1, rest[0].1);
      assert SortedByValue(rest) by {
        forall i, j | 0 <= i < j < |rest| ensures !Less(rest[j].1, rest[i].1) {
          assert rest[i] == t[i + 1] && rest[j] == t[j + 1];
        }
      }
      NoTiesAbove(x, rest, c, v);
    }
  }

  lemma SortedTail(t: Entries)
    requires SortedByValue(t) && t != []
    ensures SortedByValue(t[1..])
  {
    var rest := t[1..];
    forall i, j | 0 <= i < j < |rest| ensures !Less(rest[j].1, rest[i].1) {
      assert rest[i] == t[i + 1] && rest[j] == t[j + 1];
    }
  }

  lemma TiesCons(a: (string, Value), u: Entries, v: Value)
    ensures Ties([a] + u, v) == (if Tie(a.1, v) then [a] else []) + Ties(u, v)
  {
    assert ([a] + u)[0] == a && ([a] + u)[1..] == u;
  }

  lemma InsertTiesFront(x: (string, Value), t: Entries, c: nat, v: Value)
    requires c < 2 && Class(x.1) == c && AllIn(t, c) && Class(v) == c
    requires SortedByValue(t) && t != [] && Less(x.1, t[0].1)
    ensures Ties(Insert(x, t), v) == Ties(t, v) + if Tie(x.1, v) then [x] else []
  {
    assert Insert(x, t) == [x] + t;
    TiesCons(x, t, v);
    if Tie(x.1, v) {
      NoTiesAbove(x, t, c, v);
    }
  }

  /** Inserting `x` adds it to its tie class after the entries already
      there. */
  lemma {:induction false} InsertTies(x: (string, Value), t: Entries, c: nat, v: Value)
    requires c < 2 && Class(x.1) == c && AllIn(t, c) && Class(v) == c
    requires SortedByValue(t)
    ensures Ties(Insert(x, t), v) == Ties(t, v) + if Tie(x.1, v) then [x] else []
  {
    if t == [] {
      assert Insert(x, t) == [x] + [];
      TiesCons(x, [], v);
    } else if Less(x.1, t[0].1) {
      InsertTiesFront(x, t, c, v);
    } else {
      var rest := t[1..];
      var X: Entries := if Tie(x.1, v) then [x] else [];
      var P: Entries := if Tie(t[0].1, v) then [t[0]] else [];
      assert AllIn(rest, c) by {
        assert forall e | e in rest :: e in t;
      }
      SortedTail(t);
      InsertTies(x, rest, c, v);
      assert Ties(Insert(x, t), v) == P + Ties(Insert(x, rest), v) by {
        assert Insert(x, t) == [t[0]] + Insert(x, rest);
        TiesCons(t[0], Insert(x, rest), v);
      }
      assert Ties(t, v) == P + Ties(rest, v) by {
        assert t == [t[0]] + rest;
        TiesCons(t[0], rest, v);
      }
      ConcatAssoc(P, Ties(rest, v), X);
    }
  }

  lemma ConcatAssoc(a: Entries, b: Entries, c: Entries)
    ensures a + (b + c) == (a + b) + c
  {
  }

  /** Stability: entries whose keys tie keep their relative order. */
  lemma {:induction false} SortStable(s: Entries, v: Value)
    requires Orderable(s)
    requires exists i | 0 <= i < |s| :: s[i].1 == v
    ensures Ties(SortByValue(s), v) == Ties(s, v)
  {
    if |s| > 1 {
      var c := if AllIn(s, 0) then 0 else 1;
      var i :| 0 <= i < |s| && s[i].1 == v;
      assert s[i] in s;
      SortStableIn(s, c, v);
    } else if |s| == 1 {
      assert s[..0] == [];
    }
  }

  lemma {:induction false} SortStableIn(s: Entries, c: nat, v: Value)
    requires c < 2 && AllIn(s, c) && Class(v) == c
    ensures Ties(SortByValue(s), v) == Ties(s, v)
  {
    if s != [] {
      var init := s[..|s| - 1];
      var x := s[|s| - 1];
      var X: Entries := if Tie(x.1, v) then [x] else [];
      var sorted := SortByValue(init);
      assert AllIn(init, c) && Class(x.1) == c by {
        assert forall e | e in init :: e in s;
        assert x in s;
      }
      SortStableIn(init, c, v);
      assert Ties(SortByValue(s), v) == Ties(init, v) + X by {
        assert SortByValue(s) == Insert(x, sorted);
        SortedInsertTies(init, x, c, v);
      }
      assert Ties(s, v) == Ties(init, v) + X by {
        SplitLast(s);
        TiesSnoc(init, x, v);
      }
    }
  }

  lemma SortedInsertTies(init: Entries, x: (string, Value), c: nat, v: Value)
    requires c < 2 && AllIn(init, c) && Class(x.1) == c && Class(v) == c
    ensures Ties(Insert(x, SortByValue(init)), v) == Ties(SortByValue(init), v) + if Tie(x.1, v) then [x] else []
  {
    var sorted := SortByValue(init);
    SortSortedIn(init, c);
    SortPermutation(init);
    SameElements(sorted, init, c);
    InsertTies(x, sorted, c, v);
  }

  lemma SplitLast(s: Entries)
    requires s != []
    ensures s == s[..|s| - 1] + [s[|s| - 1]]
  {
  }

  lemma TiesSnoc(t: Entries, x: (string, Value), v: Value)
    ensures Ties(t + [x], v) == Ties(t, v) + if Tie(x.1, v) then [x] else []
  {
    TiesAppend(t, [x], v);
    TiesCons(x, [], v);
    assert [x] == [x] + [];
  }
}
