/** `NewtConfigParser.merge_containers` (py/newt/config.py:155-197): an
    asymmetric deep merge that dispatches on the shape of its first operand.
    Python builds the merged dict by iterating over key sets, so its key order
    depends on string hashing; the model fixes one order (shared keys in the
    order of `a`, then keys only in `a`, then keys only in `b`), and every
    property below is stated over key sets and lookups, except where one
    order is forced. */
module Merge {
  import opened Values
  import opened Paths

  /** The strict-mode `ValueError`: the key path from the root to the
      conflict, and the operand `b` found there (a dict was merged with it). */
  datatype MergeError = MergeError(path: seq<string>, other: Value)

  function Digits(n: nat): (s: string)
    ensures |s| >= 1
    ensures forall j | 0 <= j < |s| :: '0' <= s[j] <= '9'
  {
    var d := ['0' + (n % 10) as char];
    if n < 10 then d else Digits(n / 10) + d
  }

  /** `str(i)` for an int. */
  function IntToString(i: int): string {
    if i < 0 then "-" + Digits(-i) else Digits(i)
  }

  /** `desc(obj)` as the f-string of py/newt/config.py:180 prints it: the
      class name of a container, `str()` of anything else. */
  function Describe(v: Value): string {
    match v
    case Null => "None"
    case Bool(b) => if b then "True" else "False"
    case Int(i) => IntToString(i)
    case Str(s) => s
    case List(_) => "list"
    case Dict(_) => "dict"
  }

  /** Each key of the path followed by '.', as py/newt/config.py:191 prefixes
      them while the recursion unwinds. */
  function DottedPrefix(path: seq<string>): string {
    if path == [] then "" else path[0] + "." + DottedPrefix(path[1..])
  }

  /** The text of the raised `ValueError`. */
  function Message(e: MergeError): string {
    DottedPrefix(e.path) + "[dict + " + Describe(e.other) + "]: merge failure"
  }

  /** The entries of `d` whose key is not in `ks`, in order. */
  function Without(d: Entries, ks: set<string>): (r: Entries)
    ensures Keys(r) == Keys(d) - ks
    ensures forall e | e in r :: e in d
    ensures DistinctKeys(d) ==> DistinctKeys(r)
  {
    if d == [] then []
    else
      KeysCons(d);
      var rest := Without(d[1..], ks);
      assert forall e | e in d[1..] :: e in d;
      assert DistinctKeys(d) ==> DistinctKeys(d[1..]) && d[0].0 !in Keys(d[1..]) by {
        if DistinctKeys(d) {
          TailDistinct(d);
          HeadFresh(d);
        }
      }
      if d[0].0 in ks then rest
      else
        var r := [d[0]] + rest;
        KeysCons(r);
        assert r[1..] == rest;
        assert DistinctKeys(d) ==> DistinctKeys(r) by {
          if DistinctKeys(d) {
            ConsDistinct(d[0], rest);
          }
        }
        r
  }

  /** Dropping every key of `d` leaves nothing. */
  lemma {:induction false} WithoutAll(d: Entries, ks: set<string>)
    requires Keys(d) <= ks
    ensures Without(d, ks) == []
  {
    if d != [] {
      KeysCons(d);
      WithoutAll(d[1..], ks);
    }
  }

  /** Dropping no key of `d` leaves `d`. */
  lemma {:induction false} WithoutNone(d: Entries, ks: set<string>)
    requires Keys(d) !! ks
    ensures Without(d, ks) == d
  {
    if d != [] {
      KeysCons(d);
      WithoutNone(d[1..], ks);
      assert [d[0]] + d[1..] == d;
    }
  }

  function MergeContainers(a: Value, b: Value, ignoreError: bool): (r: Result<Value, MergeError>)
    ensures ignoreError ==> r.Ok?
    ensures a.Dict? && r.Ok? ==> r.value.Dict?
    decreases a, 1
  {
    match a
    case List(xs) =>
      Ok(List(xs + if b.List? then b.items else if b.Null? then [] else [b]))
    case Dict(da) =>
      if b.Null? then Ok(a)
      else if !b.Dict? then
        if ignoreError then Ok(a) else Err(MergeError([], b))
      else
        (match MergeShared(a, da, b.entries, ignoreError)
         case Err(e) => Err(e)
         case Ok(shared) =>
           Ok(Dict(shared + Without(da, Keys(b.entries)) + Without(b.entries, Keys(da)))))
    case _ => Ok(b)
  }

  /** The loop over `overlapping_keys` (py/newt/config.py:186-191): each key
      of `da` that `db` also has maps to the merge of the two values; a
      failure below key `k` gets `k` prepended to its path. */
  function MergeShared(ghost parent: Value, da: Entries, db: Entries, ignoreError: bool)
    : (r: Result<Entries, MergeError>)
    requires forall e | e in da :: e.1 < parent
    ensures ignoreError ==> r.Ok?
    ensures r.Ok? ==> Keys(r.value) == Keys(da) * Keys(db)
    decreases parent, 0, |da|
  {
    if da == [] then Ok([])
    else
      KeysCons(da);
      assert forall e | e in da[1..] :: e in da;
      var rest := MergeShared(parent, da[1..], db, ignoreError);
      if da[0].0 in Keys(db) then
        match MergeContainers(da[0].1, Lookup(db, da[0].0).value, ignoreError)
        case Err(e) => Err(MergeError([da[0].0] + e.path, e.other))
        case Ok(m) =>
          (match rest
           case Err(e) => Err(e)
           case Ok(rs) =>
             var r := [(da[0].0, m)] + rs;
             KeysCons(r);
             assert r[1..] == rs;
             Ok(r))
      else rest
  }

  lemma {:induction false} LookupWithout(d: Entries, ks: set<string>, k: string)
    ensures Lookup(Without(d, ks), k) == if k in ks then None else Lookup(d, k)
  {
    if d != [] {
      LookupWithout(d[1..], ks, k);
      if d[0].0 !in ks {
        assert ([d[0]] + Without(d[1..], ks))[1..] == Without(d[1..], ks);
      }
    }
  }

  /** The shared part of a tolerant merge holds, under each shared key, the
      merge of the two values. */
  lemma {:induction false} LookupShared(parent: Value, da: Entries, db: Entries, k: string)
    requires forall e | e in da :: e.1 < parent
    requires DistinctKeys(da)
    ensures Lookup(MergeShared(parent, da, db, true).value, k) ==
      if k in Keys(da) && k in Keys(db)
      then Some(MergeContainers(Lookup(da, k).value, Lookup(db, k).value, true).value)
      else None
    decreases |da|
  {
    if da != [] {
      KeysCons(da);
      assert forall e | e in da[1..] :: e in da;
      TailDistinct(da);
      LookupShared(parent, da[1..], db, k);
      var rs := MergeShared(parent, da[1..], db, true).value;
      if da[0].0 in Keys(db) {
        var m := MergeContainers(da[0].1, Lookup(db, da[0].0).value, true).value;
        assert MergeShared(parent, da, db, true).value == [(da[0].0, m)] + rs;
        LookupCons(da[0].0, m, rs, k);
      }
    }
  }

  /** Two dicts merge into one whose keys are the union of theirs; a key of
      one side only keeps its value, a shared key holds the merge of both
      values (py/newt/config.py:173-196). */
  lemma MergeDictsLookup(da: Entries, db: Entries, k: string)
    requires DistinctKeys(da) && DistinctKeys(db)
    ensures MergeContainers(Dict(da), Dict(db), true).value.Dict?
    ensures Keys(MergeContainers(Dict(da), Dict(db), true).value.entries) == Keys(da) + Keys(db)
    ensures Lookup(MergeContainers(Dict(da), Dict(db), true).value.entries, k) ==
      if k in Keys(da) && k in Keys(db)
      then Some(MergeContainers(Lookup(da, k).value, Lookup(db, k).value, true).value)
      else if k in Keys(da) then Lookup(da, k)
      else Lookup(db, k)
  {
    MergeDictsKeys(da, db);
    MergeDictsValue(da, db, k);
  }

  lemma MergeDictsKeys(da: Entries, db: Entries)
    ensures MergeContainers(Dict(da), Dict(db), true).value.Dict?
    ensures Keys(MergeContainers(Dict(da), Dict(db), true).value.entries) == Keys(da) + Keys(db)
  {
    var shared := MergeShared(Dict(da), da, db, true).value;
    var onlyA := Without(da, Keys(db));
    var onlyB := Without(db, Keys(da));
    assert MergeContainers(Dict(da), Dict(db), true) == Ok(Dict(shared + onlyA + onlyB));
    KeysAppend(shared, onlyA);
    KeysAppend(shared + onlyA, onlyB);
    UnionOfParts(Keys(da), Keys(db));
  }

  /** Shared keys, keys of the first only and keys of the second only make
      up all keys. */
  lemma UnionOfParts(ka: set<string>, kb: set<string>)
    ensures ka * kb + (ka - kb) + (kb - ka) == ka + kb
  {
  }

  lemma MergeDictsValue(da: Entries, db: Entries, k: string)
    requires DistinctKeys(da)
    ensures MergeContainers(Dict(da), Dict(db), true).value.Dict?
    ensures Lookup(MergeContainers(Dict(da), Dict(db), true).value.entries, k) ==
      if k in Keys(da) && k in Keys(db)
      then Some(MergeContainers(Lookup(da, k).value, Lookup(db, k).value, true).value)
      else if k in Keys(da) then Lookup(da, k)
      else Lookup(db, k)
  {
    var shared := MergeShared(Dict(da), da, db, true).value;
    var onlyA := Without(da, Keys(db));
    var onlyB := Without(db, Keys(da));
    assert MergeContainers(Dict(da), Dict(db), true) == Ok(Dict(shared + onlyA + onlyB));
    LookupAppend(shared + onlyA, onlyB, k);
    LookupAppend(shared, onlyA, k);
    LookupShared(Dict(da), da, db, k);
    LookupWithout(da, Keys(db), k);
    LookupWithout(db, Keys(da), k);
  }

  /** A tree without lists: every dict, however deep, holds no list. */
  predicate NoLists(v: Value) {
    match v
    case List(_) => false
    case Dict(d) => forall i | 0 <= i < |d| :: NoLists(d[i].1)
    case _ => true
  }

  /** `merge(t, t) == t` for a tree without lists. */
  lemma {:induction false} MergeIdempotent(t: Value, ignoreError: bool)
    requires WF(t) && NoLists(t)
    ensures MergeContainers(t, t, ignoreError) == Ok(t)
    decreases t, 1
  {
    if t.Dict? {
      var d := t.entries;
      forall i | 0 <= i < |d| ensures Lookup(d, d[i].0) == Some(d[i].1) {
        LookupDistinct(d, i);
      }
      SharedIdempotent(t, d, d, ignoreError);
      WithoutAll(d, Keys(d));
      assert d + [] + [] == d;
    }
  }

  lemma {:induction false} SharedIdempotent(parent: Value, s: Entries, d: Entries, ignoreError: bool)
    requires forall e | e in s :: e.1 < parent
    requires forall i | 0 <= i < |s| :: Lookup(d, s[i].0) == Some(s[i].1) && WF(s[i].1) && NoLists(s[i].1)
    ensures MergeShared(parent, s, d, ignoreError) == Ok(s)
    decreases parent, 0, |s|
  {
    if s != [] {
      assert forall e | e in s[1..] :: e in s;
      assert forall i | 0 <= i < |s[1..]| :: s[1..][i] == s[i + 1];
      SharedIdempotent(parent, s[1..], d, ignoreError);
      MergeIdempotent(s[0].1, ignoreError);
      assert s == [s[0]] + s[1..];
    }
  }

  /** With no key in common, two dicts merge into their concatenation. */
  lemma {:induction false} MergeDisjoint(da: Entries, db: Entries, ignoreError: bool)
    requires Keys(da) !! Keys(db)
    ensures MergeContainers(Dict(da), Dict(db), ignoreError) == Ok(Dict(da + db))
  {
    var onlyA, onlyB := Without(da, Keys(db)), Without(db, Keys(da));
    assert MergeContainers(Dict(da), Dict(db), ignoreError) == Ok(Dict([] + onlyA + onlyB)) by {
      SharedDisjoint(Dict(da), da, db, ignoreError);
    }
    assert onlyA == da by {
      WithoutNone(da, Keys(db));
    }
    assert onlyB == db by {
      WithoutNone(db, Keys(da));
    }
    assert [] + da + db == da + db;
  }

  lemma {:induction false} SharedDisjoint(parent: Value, da: Entries, db: Entries, ignoreError: bool)
    requires forall e | e in da :: e.1 < parent
    requires Keys(da) !! Keys(db)
    ensures MergeShared(parent, da, db, ignoreError) == Ok([])
    decreases |da|
  {
    if da != [] {
      KeysCons(da);
      assert forall e | e in da[1..] :: e in da;
      SharedDisjoint(parent, da[1..], db, ignoreError);
    }
  }

  /** On dicts with pairwise disjoint key sets the merge is associative. */
  lemma MergeAssociativeDisjoint(da: Entries, db: Entries, dc: Entries, ignoreError: bool)
    requires Keys(da) !! Keys(db) && Keys(db) !! Keys(dc) && Keys(da) !! Keys(dc)
    ensures MergeContainers(Dict(da), Dict(db), ignoreError).Ok?
    ensures MergeContainers(Dict(db), Dict(dc), ignoreError).Ok?
    ensures MergeContainers(MergeContainers(Dict(da), Dict(db), ignoreError).value, Dict(dc), ignoreError)
         == MergeContainers(Dict(da), MergeContainers(Dict(db), Dict(dc), ignoreError).value, ignoreError)
  {
    MergeLeftFirst(da, db, dc, ignoreError);
    MergeRightFirst(da, db, dc, ignoreError);
  }

  lemma MergeLeftFirst(da: Entries, db: Entries, dc: Entries, ignoreError: bool)
    requires Keys(da) !! Keys(db) && Keys(db) !! Keys(dc) && Keys(da) !! Keys(dc)
    ensures MergeContainers(Dict(da), Dict(db), ignoreError) == Ok(Dict(da + db))
    ensures MergeContainers(Dict(da + db), Dict(dc), ignoreError) == Ok(Dict(da + db + dc))
  {
    MergeDisjoint(da, db, ignoreError);
    KeysAppend(da, db);
    MergeDisjoint(da + db, dc, ignoreError);
  }

  lemma MergeRightFirst(da: Entries, db: Entries, dc: Entries, ignoreError: bool)
    requires Keys(da) !! Keys(db) && Keys(db) !! Keys(dc) && Keys(da) !! Keys(dc)
    ensures MergeContainers(Dict(db), Dict(dc), ignoreError) == Ok(Dict(db + dc))
    ensures MergeContainers(Dict(da), Dict(db + dc), ignoreError) == Ok(Dict(da + db + dc))
  {
    MergeDisjoint(db, dc, ignoreError);
    KeysAppend(db, dc);
    MergeDisjoint(da, db + dc, ignoreError);
    assert da + (db + dc) == da + db + dc;
  }

  /** Somewhere along the keys both trees share, a dict meets a value that
      is neither a dict nor None. */
  predicate Conflicts(a: Value, b: Value)
    decreases a
  {
    a.Dict? && !b.Null? &&
    (!b.Dict? ||
     exists i | 0 <= i < |a.entries| ::
       a.entries[i].0 in Keys(b.entries) &&
       Conflicts(a.entries[i].1, Lookup(b.entries, a.entries[i].0).value))
  }

  predicate SharedConflict(da: Entries, db: Entries) {
    exists i | 0 <= i < |da| :: da[i].0 in Keys(db) && Conflicts(da[i].1, Lookup(db, da[i].0).value)
  }

  /** The strict merge raises exactly when the trees conflict somewhere. */
  lemma {:induction false} StrictFailsIff(a: Value, b: Value)
    ensures MergeContainers(a, b, false).Err? <==> Conflicts(a, b)
    decreases a, 1
  {
    if a.Dict? && b.Dict? {
      SharedFailsIff(a, a.entries, b.entries);
      assert Conflicts(a, b) <==> SharedConflict(a.entries, b.entries);
    }
  }

  lemma {:induction false} SharedFailsIff(parent: Value, da: Entries, db: Entries)
    requires forall e | e in da :: e.1 < parent
    ensures MergeShared(parent, da, db, false).Err? <==> SharedConflict(da, db)
    decreases parent, 0, |da|
  {
    if da != [] {
      assert forall e | e in da[1..] :: e in da;
      SharedFailsIff(parent, da[1..], db);
      if da[0].0 in Keys(db) {
        StrictFailsIff(da[0].1, Lookup(db, da[0].0).value);
      }
      SharedConflictCons(da, db);
    }
  }

  lemma SharedConflictCons(da: Entries, db: Entries)
    requires da != []
    ensures SharedConflict(da, db) <==>
      (da[0].0 in Keys(db) && Conflicts(da[0].1, Lookup(db, da[0].0).value)) || SharedConflict(da[1..], db)
  {
    assert forall i | 0 <= i < |da[1..]| :: da[1..][i] == da[i + 1];
    if SharedConflict(da, db) {
      var i :| 0 <= i < |da| && da[i].0 in Keys(db) && Conflicts(da[i].1, Lookup(db, da[i].0).value);
      if i > 0 {
        assert da[1..][i - 1] == da[i];
      }
    }
  }

  /** A strict merge that succeeds gives what the tolerant merge gives. */
  lemma {:induction false} StrictAgreesWithTolerant(a: Value, b: Value)
    requires MergeContainers(a, b, false).Ok?
    ensures MergeContainers(a, b, false) == MergeContainers(a, b, true)
    decreases a, 1
  {
    if a.Dict? && b.Dict? {
      SharedAgrees(a, a.entries, b.entries);
    }
  }

  lemma {:induction false} SharedAgrees(parent: Value, da: Entries, db: Entries)
    requires forall e | e in da :: e.1 < parent
    requires MergeShared(parent, da, db, false).Ok?
    ensures MergeShared(parent, da, db, false) == MergeShared(parent, da, db, true)
    decreases parent, 0, |da|
  {
    if da != [] {
      assert forall e | e in da[1..] :: e in da;
      SharedAgrees(parent, da[1..], db);
      if da[0].0 in Keys(db) {
        StrictAgreesWithTolerant(da[0].1, Lookup(db, da[0].0).value);
      }
    }
  }

  /** The path of a strict-mode error is present in both trees and leads,
      in `a`, to a dict and, in `b`, to the value that is neither a dict nor
      None which it met. */
  lemma {:induction false} ErrorLocatesConflict(a: Value, b: Value)
    requires WF(a)
    requires MergeContainers(a, b, false).Err?
    ensures var e := MergeContainers(a, b, false).error;
      && Reaches(a, e.path) && Reaches(b, e.path)
      && Walk(a, e.path).Ok? && Walk(a, e.path).value.Dict?
      && Walk(b, e.path) == Ok(e.other)
      && !e.other.Dict? && !e.other.Null?
    decreases a, 1
  {
    if a.Dict? && b.Dict? {
      SharedErrorLocates(a, a.entries, b.entries);
    }
  }

  lemma {:induction false} SharedErrorLocates(parent: Value, da: Entries, db: Entries)
    requires forall e | e in da :: e.1 < parent
    requires WF(Dict(da))
    requires MergeShared(parent, da, db, false).Err?
    ensures var e := MergeShared(parent, da, db, false).error;
      && e.path != [] && e.path[0] in Keys(da)
      && Reaches(Dict(da), e.path) && Reaches(Dict(db), e.path)
      && Walk(Dict(da), e.path).Ok? && Walk(Dict(da), e.path).value.Dict?
      && Walk(Dict(db), e.path) == Ok(e.other)
      && !e.other.Dict? && !e.other.Null?
    decreases parent, 0, |da|
  {
    assert da != [];
    var k := da[0].0;
    var e := MergeShared(parent, da, db, false).error;
    if k in Keys(db) && MergeContainers(da[0].1, Lookup(db, k).value, false).Err? {
      LookupDistinct(da, 0);
      ErrorLocatesConflict(da[0].1, Lookup(db, k).value);
      assert e.path[0] == k && e.path[1..] == MergeContainers(da[0].1, Lookup(db, k).value, false).error.path;
    } else {
      assert forall e | e in da[1..] :: e in da;
      TailWF(da);
      SharedErrorLocates(parent, da[1..], db);
      assert e == MergeShared(parent, da[1..], db, false).error;
      WalkTail(da, e.path);
    }
  }

  /** A path whose first key is not the first entry's walks the same way
      without that entry. */
  lemma WalkTail(da: Entries, path: seq<string>)
    requires DistinctKeys(da) && da != []
    requires path != [] && path[0] in Keys(da[1..])
    ensures path[0] in Keys(da)
    ensures Walk(Dict(da), path) == Walk(Dict(da[1..]), path)
    ensures Reaches(Dict(da), path) == Reaches(Dict(da[1..]), path)
  {
    HeadFresh(da);
    KeysCons(da);
    assert Lookup(da, path[0]) == Lookup(da[1..], path[0]);
  }

  /** Merging preserves well-formedness: every dict of the result has
      distinct keys. */
  lemma {:induction false} MergeWF(a: Value, b: Value, ignoreError: bool)
    requires WF(a) && WF(b)
    requires MergeContainers(a, b, ignoreError).Ok?
    ensures WF(MergeContainers(a, b, ignoreError).value)
    decreases a, 1
  {
    match a
    case List(xs) =>
      var ys := if b.List? then b.items else if b.Null? then [] else [b];
      assert forall i | 0 <= i < |ys| :: WF(ys[i]);
      assert forall i | |xs| <= i < |xs + ys| :: (xs + ys)[i] == ys[i - |xs|];
    case Dict(da) =>
      if b.Dict? {
        var db := b.entries;
        var shared := MergeShared(a, da, db, ignoreError).value;
        var onlyA := Without(da, Keys(db));
        var onlyB := Without(db, Keys(da));
        SharedWF(a, da, db, ignoreError);
        WithoutWF(da, Keys(db));
        WithoutWF(db, Keys(da));
        AppendWF(shared, onlyA);
        AppendWF(shared + onlyA, onlyB);
      }
    case _ =>
  }

  /** Dropping keys keeps a dict well formed. */
  lemma WithoutWF(d: Entries, ks: set<string>)
    requires WF(Dict(d))
    ensures WF(Dict(Without(d, ks)))
  {
    var r := Without(d, ks);
    forall i | 0 <= i < |r| ensures WF(r[i].1) {
      assert r[i] in r;
    }
  }

  lemma {:induction false} SharedWF(parent: Value, da: Entries, db: Entries, ignoreError: bool)
    requires forall e | e in da :: e.1 < parent
    requires WF(Dict(da)) && WF(Dict(db))
    requires MergeShared(parent, da, db, ignoreError).Ok?
    ensures WF(Dict(MergeShared(parent, da, db, ignoreError).value))
    decreases parent, 0, |da|
  {
    if da != [] {
      assert forall e | e in da[1..] :: e in da;
      TailWF(da);
      SharedWF(parent, da[1..], db, ignoreError);
      var rs := MergeShared(parent, da[1..], db, ignoreError).value;
      if da[0].0 in Keys(db) {
        LookupWF(db, da[0].0);
        MergeWF(da[0].1, Lookup(db, da[0].0).value, ignoreError);
        var m := MergeContainers(da[0].1, Lookup(db, da[0].0).value, ignoreError).value;
        HeadFresh(da);
        ConsWF(da[0].0, m, rs);
      }
    }
  }

  /** A list first operand never fails, in either mode: the result is a list
      that starts with the first list, followed by the items of a second
      list, by nothing for None, or by any other value as one more item. */
  lemma MergeListAppends(xs: seq<Value>, b: Value, ignoreError: bool)
    ensures MergeContainers(List(xs), b, ignoreError).Ok?
    ensures var r := MergeContainers(List(xs), b, ignoreError).value;
      && r.List? && |xs| <= |r.items| && r.items[..|xs|] == xs
      && (b.List? ==> r.items[|xs|..] == b.items)
      && (b.Null? ==> r.items == xs)
      && (!b.List? && !b.Null? ==> r.items[|xs|..] == [b])
  {
    var tail := if b.List? then b.items else if b.Null? then [] else [b];
    assert (xs + tail)[..|xs|] == xs;
    assert (xs + tail)[|xs|..] == tail;
  }

  /** `merge([1, 2], [1, 2]) == [1, 2, 1, 2]`: lists concatenate, so the
      merge is not idempotent on them. */
  lemma MergeListsConcatenate()
    ensures MergeContainers(List([Int(1), Int(2)]), List([Int(1), Int(2)]), true)
         == Ok(List([Int(1), Int(2), Int(1), Int(2)]))
  {
    assert [Int(1), Int(2)] + [Int(1), Int(2)] == [Int(1), Int(2), Int(1), Int(2)];
  }

  /** A scalar merged with a dict is no conflict: the dict wins, in both
      modes. */
  lemma MergeScalarThenDict(ignoreError: bool)
    ensures MergeContainers(Dict([("x", Int(1))]), Dict([("x", Dict([("y", Int(2))]))]), ignoreError)
         == Ok(Dict([("x", Dict([("y", Int(2))]))]))
  {
    var a := [("x", Int(1))];
    var y := Dict([("y", Int(2))]);
    var b := [("x", y)];
    KeysCons(a);
    KeysCons(b);
    assert a[1..] == [];
    assert MergeShared(Dict(a), a[1..], b, ignoreError) == Ok([]);
    assert MergeContainers(Int(1), y, ignoreError) == Ok(y);
    assert [("x", y)] + [] == b;
    assert MergeShared(Dict(a), a, b, ignoreError) == Ok(b);
    assert b + [] + [] == b;
  }

  /** A dict merged with a scalar under the same key is the conflict: the
      tolerant merge keeps the dict ... */
  lemma MergeDictThenScalarTolerant()
    ensures MergeContainers(Dict([("x", Dict([("y", Int(2))]))]), Dict([("x", Int(1))]), true)
         == Ok(Dict([("x", Dict([("y", Int(2))]))]))
  {
    var a := [("x", Int(1))];
    var y := Dict([("y", Int(2))]);
    var b := [("x", y)];
    KeysCons(a);
    KeysCons(b);
    assert b[1..] == [];
    assert MergeShared(Dict(b), b[1..], a, true) == Ok([]);
    assert MergeContainers(y, Int(1), true) == Ok(y);
    assert [("x", y)] + [] == b;
    assert MergeShared(Dict(b), b, a, true) == Ok(b);
    assert b + [] + [] == b;
  }

  /** ... and the strict merge raises, naming the key path and the scalar. */
  lemma MergeDictThenScalarStrict()
    ensures MergeContainers(Dict([("x", Dict([("y", Int(2))]))]), Dict([("x", Int(1))]), false)
         == Err(MergeError(["x"], Int(1)))
  {
    var a := [("x", Int(1))];
    var y := Dict([("y", Int(2))]);
    var b := [("x", y)];
    KeysCons(a);
    assert MergeContainers(y, Int(1), false) == Err(MergeError([], Int(1)));
    assert ["x"] + [] == ["x"];
  }

  lemma ConflictMessage()
    ensures Message(MergeError(["x"], Int(1))) == "x.[dict + 1]: merge failure"
  {
    OneDigit();
    assert DottedPrefix(["x"]) == "x." by {
      assert ["x"][1..] == [];
    }
    ConflictText();
  }

  lemma ConflictText()
    ensures "x." + "[dict + " + "1" + "]: merge failure" == "x.[dict + 1]: merge failure"
  {
  }

  lemma OneDigit()
    ensures Describe(Int(1)) == "1"
  {
    assert Digits(1) == "1";
  }
}
