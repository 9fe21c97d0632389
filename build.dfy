/** `NewtConfigParser._build` (py/newt/config.py:128-154): every top-level
    value is cleaned by the `cleanup` closure and the cleaned values are
    folded together with the tolerant merge, starting from `{}`. */
module Build {
  import opened Values
  import opened Macro
  import opened Merge

  /** A dict holding exactly one entry, under the key "value": the form the
      cleanup replaces by the entry's value. */
  predicate IsWrapper(v: Value) {
    v.Dict? && |v.entries| == 1 && v.entries[0].0 == "value"
  }

  /** `value.pop('value')` for a wrapper, the value itself otherwise. */
  function Unwrap(c: Value): Value {
    if IsWrapper(c) then c.entries[0].1 else c
  }

  /** What py/newt/config.py:140-146 does to a cleaned child that is not
      None: unwrap it, then rewrite a non-empty string with `NEWT_CRE`. */
  function Finish(c: Value): Value {
    var u := Unwrap(c);
    if u.Str? && u.s != [] then Str(Normalize(u.s)) else u
  }

  predicate HasKeyword(keywords: seq<string>, d: Entries) {
    exists j | 0 <= j < |keywords| :: keywords[j] in Keys(d)
  }

  /** `cleanup(obj)`: a non-dict is returned unchanged, a dict holding one of
      the keywords is pruned to None, any other dict is rebuilt from its
      cleaned children. */
  function Clean(keywords: seq<string>, v: Value): (r: Value)
    ensures !v.Dict? ==> r == v
    ensures v.Dict? ==> (r.Null? <==> HasKeyword(keywords, v.entries))
    ensures r.Dict? ==> v.Dict? && Keys(r.entries) <= Keys(v.entries)
    decreases v, 1
  {
    match v
    case Dict(d) =>
      if HasKeyword(keywords, d) then Null
      else Dict(CleanEntries(keywords, v, d))
    case _ => v
  }

  /** The child that `cleanup` stores under key `k` for the original child
      `v`, or None when it stores nothing. */
  function CleanEntry(keywords: seq<string>, k: string, v: Value): Option<Value>
    decreases v, 2
  {
    if k == "description" then None
    else
      var c := Clean(keywords, v);
      if c.Null? then None else Some(Finish(c))
  }

  /** The loop of py/newt/config.py:137-147 over the entries of `d`, in
      order, storing each kept child with `cobj[okey] = value`. */
  function CleanEntries(keywords: seq<string>, parent: Value, d: Entries): (r: Entries)
    requires forall e | e in d :: e.1 < parent
    ensures Keys(r) <= Keys(d)
    decreases parent, 0, |d|
  {
    if d == [] then []
    else
      var init := d[..|d| - 1];
      var last := d[|d| - 1];
      assert forall e | e in init :: e in d;
      assert last in d;
      var acc := CleanEntries(keywords, parent, init);
      KeysAppend(init, [last]);
      KeysCons([last]);
      match CleanEntry(keywords, last.0, last.1)
      case None => acc
      case Some(c) => Set(acc, last.0, c)
  }

  /** Every dict of a cleaned tree, as deep as dicts nest, has no
      "description" entry, no keyword entry, no None child and no wrapper
      child. Lists are not entered: the cleanup passes them through. */
  predicate Cleaned(keywords: seq<string>, v: Value) {
    v.Dict? ==>
      forall e | e in v.entries ::
        && e.0 != "description"
        && e.0 !in keywords
        && !e.1.Null?
        && !IsWrapper(e.1)
        && Cleaned(keywords, e.1)
  }

  /** What the cleanup of a dict stores under key `k`. */
  function CleanedAt(keywords: seq<string>, d: Entries, k: string): Option<Value> {
    match Lookup(d, k)
    case None => None
    case Some(v) => CleanEntry(keywords, k, v)
  }

  /** A cleaned dict has, under each key, exactly the finished cleanup of
      the original child; "description" and children that clean to None
      are gone. */
  lemma {:induction false} CleanLookup(keywords: seq<string>, d: Entries, k: string)
    requires DistinctKeys(d)
    requires !HasKeyword(keywords, d)
    ensures Clean(keywords, Dict(d)).Dict?
    ensures Lookup(Clean(keywords, Dict(d)).entries, k) == CleanedAt(keywords, d, k)
  {
    CleanEntriesLookup(keywords, Dict(d), d, k);
  }

  lemma {:induction false} CleanEntriesLookup(keywords: seq<string>, parent: Value, d: Entries, k: string)
    requires forall e | e in d :: e.1 < parent
    requires DistinctKeys(d)
    ensures Lookup(CleanEntries(keywords, parent, d), k) == CleanedAt(keywords, d, k)
    decreases |d|
  {
    if d != [] {
      var init := d[..|d| - 1];
      var last := d[|d| - 1];
      assert forall e | e in init :: e in d;
      LookupLast(d, k);
      CleanEntriesLookup(keywords, parent, init, k);
      var acc := CleanEntries(keywords, parent, init);
      assert Lookup(acc, k) == CleanedAt(keywords, init, k);
      match CleanEntry(keywords, last.0, last.1)
      case None =>
        assert CleanEntries(keywords, parent, d) == acc;
      case Some(c) =>
        assert CleanEntries(keywords, parent, d) == Set(acc, last.0, c);
    }
  }

  /** The cleanup's result is a cleaned tree. */
  lemma {:induction false} CleanIsCleaned(keywords: seq<string>, v: Value)
    ensures Cleaned(keywords, Clean(keywords, v))
    decreases v, 1
  {
    if v.Dict? && !HasKeyword(keywords, v.entries) {
      CleanEntriesCleaned(keywords, v, v.entries);
    }
  }

  /** The entry kept for a child is neither None nor a wrapper, and is
      itself cleaned. */
  lemma {:induction false} CleanEntryCleaned(keywords: seq<string>, k: string, v: Value)
    requires CleanEntry(keywords, k, v).Some?
    ensures var c := CleanEntry(keywords, k, v).value;
      !c.Null? && !IsWrapper(c) && Cleaned(keywords, c)
    decreases v, 2
  {
    var c := Clean(keywords, v);
    CleanIsCleaned(keywords, v);
    if IsWrapper(c) {
      assert c.entries[0] in c.entries;
    }
  }

  lemma {:induction false} CleanEntriesCleaned(keywords: seq<string>, parent: Value, d: Entries)
    requires forall e | e in d :: e.1 < parent
    requires !HasKeyword(keywords, d)
    ensures Cleaned(keywords, Dict(CleanEntries(keywords, parent, d)))
    decreases parent, 0, |d|
  {
    if d != [] {
      var init := d[..|d| - 1];
      var last := d[|d| - 1];
      assert forall e | e in init :: e in d;
      assert last in d;
      KeysAppend(init, [last]);
      KeysCons([last]);
      assert !HasKeyword(keywords, init);
      CleanEntriesCleaned(keywords, parent, init);
      var acc := CleanEntries(keywords, parent, init);
      match CleanEntry(keywords, last.0, last.1)
      case None =>
      case Some(c) =>
        CleanEntryCleaned(keywords, last.0, last.1);
        assert last.0 !in keywords by {
          assert last.0 in Keys(d);
          forall j | 0 <= j < |keywords| ensures keywords[j] != last.0 {
            assert keywords[j] !in Keys(d);
          }
        }
    }
  }

  /** The cleanup keeps every dict a Python dict. */
  lemma {:induction false} CleanWF(keywords: seq<string>, v: Value)
    requires WF(v)
    ensures WF(Clean(keywords, v))
    decreases v, 1
  {
    if v.Dict? && !HasKeyword(keywords, v.entries) {
      CleanEntriesWF(keywords, v, v.entries);
    }
  }

  lemma {:induction false} CleanEntryWF(keywords: seq<string>, k: string, v: Value)
    requires WF(v)
    requires CleanEntry(keywords, k, v).Some?
    ensures WF(CleanEntry(keywords, k, v).value)
    decreases v, 2
  {
    var c := Clean(keywords, v);
    CleanWF(keywords, v);
    if IsWrapper(c) {
      assert c.entries[0] in c.entries;
    }
  }

  lemma {:induction false} CleanEntriesWF(keywords: seq<string>, parent: Value, d: Entries)
    requires forall e | e in d :: e.1 < parent
    requires forall e | e in d :: WF(e.1)
    ensures WF(Dict(CleanEntries(keywords, parent, d)))
    decreases parent, 0, |d|
  {
    if d != [] {
      var init := d[..|d| - 1];
      var last := d[|d| - 1];
      assert forall e | e in init :: e in d;
      assert last in d;
      CleanEntriesWF(keywords, parent, init);
      var acc := CleanEntries(keywords, parent, init);
      match CleanEntry(keywords, last.0, last.1)
      case None =>
      case Some(c) =>
        CleanEntryWF(keywords, last.0, last.1);
        assert forall i | 0 <= i < |acc| :: acc[i] in acc;
        SetWF(acc, last.0, c);
    }
  }

  /** `cleanup({"k": {"value": 5, "description": "d"}})` is `{"k": 5}`. */
  lemma CleanUnwrapsValue()
    ensures Clean([], Dict([("k", Dict([("value", Int(5)), ("description", Str("d"))]))]))
         == Dict([("k", Int(5))])
  {
    var inner := [("value", Int(5)), ("description", Str("d"))];
    var parent := Dict(inner);
    assert !HasKeyword([], inner);
    assert inner[..1] == [("value", Int(5))] && inner[..1][..0] == [];
    assert CleanEntries([], parent, inner[..1][..0]) == [];
    assert CleanEntry([], "value", Int(5)) == Some(Int(5));
    assert CleanEntries([], parent, inner[..1]) == [("value", Int(5))];
    assert CleanEntry([], "description", Str("d")) == None;
    assert Clean([], parent) == Dict([("value", Int(5))]);
    assert IsWrapper(Dict([("value", Int(5))]));
    var outer := [("k", parent)];
    assert !HasKeyword([], outer);
    assert outer[..0] == [];
    assert CleanEntry([], "k", parent) == Some(Int(5));
  }

  /** With the keyword "deprecated", a child holding that key disappears. */
  lemma CleanPrunesKeyword()
    ensures Clean(["deprecated"], Dict([("a", Int(1)), ("b", Dict([("deprecated", Bool(true))]))]))
         == Dict([("a", Int(1))])
  {
    var kw := ["deprecated"];
    var inner := [("deprecated", Bool(true))];
    KeysCons(inner);
    assert kw[0] in Keys(inner);
    assert Clean(kw, Dict(inner)) == Null;
    var d := [("a", Int(1)), ("b", Dict(inner))];
    KeysCons(d);
    KeysCons(d[1..]);
    assert Keys(d) == {"a", "b"};
    assert !HasKeyword(kw, d);
    assert d[..1] == [("a", Int(1))] && d[..1][..0] == [];
    assert CleanEntry(kw, "a", Int(1)) == Some(Int(1));
    assert CleanEntries(kw, Dict(d), d[..1]) == [("a", Int(1))];
    assert CleanEntry(kw, "b", Dict(inner)) == None;
  }

  /** A child `{value: s}` with a non-empty string is stored as `s`
      rewritten twice: the inner cleanup rewrites `s`, the wrapper is
      unwrapped, and the result is rewritten again. */
  lemma CleanWrapped(keywords: seq<string>, k: string, s: string)
    requires k != "description" && "value" !in keywords
    requires s != []
    ensures CleanEntry(keywords, k, Dict([("value", Str(s))])) == Some(Str(Normalize(Normalize(s))))
  {
    var inner := [("value", Str(s))];
    KeysCons(inner);
    assert !HasKeyword(keywords, inner);
    assert inner[..0] == [];
    assert CleanEntry(keywords, "value", Str(s)) == Some(Str(Normalize(s)));
    assert CleanEntries(keywords, Dict(inner), inner) == [("value", Str(Normalize(s)))];
  }

  /** When the first rewrite leaves no `MYNEWT_VAL`, the second changes
      nothing: the wrapped string is stored as `s` rewritten once. */
  lemma CleanWrappedString(keywords: seq<string>, k: string, s: string)
    requires k != "description" && "value" !in keywords
    requires s != [] && !HasPrefix(Normalize(s))
    ensures CleanEntry(keywords, k, Dict([("value", Str(s))])) == Some(Str(Normalize(s)))
  {
    CleanWrapped(keywords, k, s);
    NormalizeWithoutMacro(Normalize(s));
  }

  /** The double rewrite shows on nested references:
      `{value: MYNEWT_VAL(MYNEWT_VAL_N)}` is stored as `N`, while the plain
      child `MYNEWT_VAL(MYNEWT_VAL_N)` is stored as `MYNEWT_VAL_N`. */
  lemma CleanNestedReference(keywords: seq<string>, k: string, n: string)
    requires k != "description" && "value" !in keywords
    requires NoNewline(n)
    ensures var m := Prefix + "_" + n;
      && CleanEntry(keywords, k, Dict([("value", Str(Prefix + "(" + m + ")"))])) == Some(Str(n))
      && CleanEntry(keywords, k, Str(Prefix + "(" + m + ")")) == Some(Str(m))
  {
    var m := Prefix + "_" + n;
    assert NoNewline(m) by {
      forall j | 0 <= j < |m| ensures m[j] != '\n' {
        if j > |Prefix| { assert m[j] == n[j - |Prefix| - 1]; }
      }
    }
    assert m[0] == 'M';
    NormalizeParenthesised(m);
    NormalizeUnderscore(n);
    CleanWrapped(keywords, k, Prefix + "(" + m + ")");
  }

  /** A setting given as `{value: MYNEWT_VAL(N)}` is stored as `N`, less a
      leading `_`. */
  lemma CleanParenthesisedValue(keywords: seq<string>, k: string, n: string)
    requires k != "description" && "value" !in keywords
    requires NoNewline(n)
    requires !HasPrefix(if n != [] && n[0] == '_' then n[1..] else n)
    ensures CleanEntry(keywords, k, Dict([("value", Str(Prefix + "(" + n + ")"))]))
         == Some(Str(if n != [] && n[0] == '_' then n[1..] else n))
  {
    NormalizeParenthesised(n);
    CleanWrappedString(keywords, k, Prefix + "(" + n + ")");
  }

  /** A setting given as `{value: MYNEWT_VAL_N}` is stored as `N`. */
  lemma CleanUnderscoreValue(keywords: seq<string>, k: string, n: string)
    requires k != "description" && "value" !in keywords
    requires NoNewline(n) && !HasPrefix(n)
    ensures CleanEntry(keywords, k, Dict([("value", Str(Prefix + "_" + n))])) == Some(Str(n))
  {
    NormalizeUnderscore(n);
    CleanWrappedString(keywords, k, Prefix + "_" + n);
  }

  lemma KeysOnlyValue(d: Entries)
    requires DistinctKeys(d)
    ensures Keys(d) == {"value"} ==> IsWrapper(Dict(d))
  {
    DistinctCard(d);
    if Keys(d) == {"value"} {
      assert d[0].0 in Keys(d);
    }
  }

  lemma WrapperKeys(d: Entries)
    ensures IsWrapper(Dict(d)) ==> Keys(d) == {"value"}
  {
    if IsWrapper(Dict(d)) {
      assert d[0].0 in Keys(d);
      forall k | k in Keys(d) ensures k == "value" {
        var i :| 0 <= i < |d| && d[i].0 == k;
      }
    }
  }

  /** Merging two dicts neither of which is a wrapper gives no wrapper: the
      key set of the result is the union of theirs. */
  lemma NoWrapperFromUnion(da: Entries, db: Entries, r: Entries)
    requires DistinctKeys(da) && DistinctKeys(db) && DistinctKeys(r)
    requires !IsWrapper(Dict(da)) && !IsWrapper(Dict(db))
    requires Keys(r) == Keys(da) + Keys(db)
    ensures !IsWrapper(Dict(r))
  {
    KeysOnlyValue(da);
    KeysOnlyValue(db);
    WrapperKeys(r);
  }

  /** The tolerant merge of cleaned trees is a cleaned tree, and merging
      two children that are neither None nor wrappers gives such a child. */
  lemma {:induction false} MergeCleaned(keywords: seq<string>, a: Value, b: Value)
    requires WF(a) && WF(b)
    requires Cleaned(keywords, a) && Cleaned(keywords, b)
    ensures Cleaned(keywords, MergeContainers(a, b, true).value)
    ensures !a.Null? && !b.Null? && !IsWrapper(a) && !IsWrapper(b) ==>
      var m := MergeContainers(a, b, true).value;
      !m.Null? && !IsWrapper(m)
    decreases a, 1
  {
    if a.Dict? && b.Dict? {
      var da := a.entries;
      var db := b.entries;
      var shared := MergeShared(a, da, db, true).value;
      var onlyA := Without(da, Keys(db));
      var onlyB := Without(db, Keys(da));
      var r := shared + onlyA + onlyB;
      assert MergeContainers(a, b, true) == Ok(Dict(r));
      SharedCleaned(keywords, a, da, db);
      forall e | e in r
        ensures && e.0 != "description" && e.0 !in keywords && !e.1.Null?
                && !IsWrapper(e.1) && Cleaned(keywords, e.1)
      {
        if e in shared {
        } else if e in onlyA {
          assert e in da;
        } else {
          assert e in onlyB;
          assert e in db;
        }
      }
      MergeWF(a, b, true);
      if !IsWrapper(a) && !IsWrapper(b) {
        MergeDictsLookup(da, db, "value");
        NoWrapperFromUnion(da, db, r);
      }
    }
  }

  lemma {:induction false} SharedCleaned(keywords: seq<string>, parent: Value, da: Entries, db: Entries)
    requires forall e | e in da :: e.1 < parent
    requires WF(Dict(da)) && WF(Dict(db))
    requires Cleaned(keywords, Dict(da)) && Cleaned(keywords, Dict(db))
    ensures Cleaned(keywords, Dict(MergeShared(parent, da, db, true).value))
    decreases parent, 0, |da|
  {
    if da != [] {
      assert forall e | e in da[1..] :: e in da;
      assert forall i | 0 <= i < |da[1..]| :: da[1..][i] == da[i + 1];
      assert WF(Dict(da[1..]));
      SharedCleaned(keywords, parent, da[1..], db);
      var k := da[0].0;
      assert da[0] in da;
      if k in Keys(db) {
        var vb := Lookup(db, k).value;
        LookupIn(db, k);
        LookupWF(db, k);
        MergeCleaned(keywords, da[0].1, vb);
        var rs := MergeShared(parent, da[1..], db, true).value;
        var m := MergeContainers(da[0].1, vb, true).value;
        assert MergeShared(parent, da, db, true).value == [(k, m)] + rs;
      }
    }
  }

  /** `items.values()`, in insertion order. */
  function ValuesOf(items: Entries): (vs: seq<Value>)
    ensures |vs| == |items|
    ensures forall i | 0 <= i < |items| :: vs[i] == items[i].1
  {
    if items == [] then [] else [items[0].1] + ValuesOf(items[1..])
  }

  /** The value of `output` after the loop of py/newt/config.py:150-153 has
      taken the values `vals`, in order. */
  function Built(keywords: seq<string>, vals: seq<Value>): (r: Value)
    ensures r.Dict?
  {
    if vals == [] then Dict([])
    else MergeContainers(Built(keywords, vals[..|vals| - 1]), Clean(keywords, vals[|vals| - 1]), true).value
  }

  /** One more pass of the loop merges in the next cleaned value. */
  lemma BuiltStep(keywords: seq<string>, vals: seq<Value>, i: nat)
    requires i < |vals|
    ensures Built(keywords, vals[..i + 1])
         == MergeContainers(Built(keywords, vals[..i]), Clean(keywords, vals[i]), true).value
  {
    assert vals[..i + 1][..i] == vals[..i];
  }

  /** `v` is a dict holding the key `k`. */
  predicate DictHas(v: Value, k: string) {
    v.Dict? && k in Keys(v.entries)
  }

  /** A key of the built dict is a key of some cleaned value that is a dict,
      and every such key is in the built dict. */
  lemma {:induction false} BuiltKeys(keywords: seq<string>, vals: seq<Value>, k: string)
    requires forall i | 0 <= i < |vals| :: WF(vals[i])
    ensures DictHas(Built(keywords, vals), k) <==>
      exists i | 0 <= i < |vals| :: DictHas(Clean(keywords, vals[i]), k)
  {
    if vals != [] {
      var init := vals[..|vals| - 1];
      var last := vals[|vals| - 1];
      assert forall i | 0 <= i < |init| :: init[i] == vals[i];
      BuiltKeys(keywords, init, k);
      BuiltWF(keywords, init);
      CleanWF(keywords, last);
      MergeKeys(Built(keywords, init), Clean(keywords, last), k);
      assert (exists i | 0 <= i < |vals| :: DictHas(Clean(keywords, vals[i]), k)) <==>
        (exists i | 0 <= i < |init| :: DictHas(Clean(keywords, init[i]), k)) || DictHas(Clean(keywords, last), k)
      by {
        forall i | 0 <= i < |vals| && DictHas(Clean(keywords, vals[i]), k)
          ensures (exists j | 0 <= j < |init| :: DictHas(Clean(keywords, init[j]), k)) || DictHas(Clean(keywords, last), k)
        {
          if i < |init| { assert init[i] == vals[i]; }
        }
      }
    }
  }

  /** The tolerant merge into a dict holds the dict's keys and, when the
      other value is a dict, its keys too. */
  lemma MergeKeys(a: Value, c: Value, k: string)
    requires a.Dict? && WF(a) && WF(c)
    ensures DictHas(MergeContainers(a, c, true).value, k) <==> DictHas(a, k) || DictHas(c, k)
  {
    if c.Dict? {
      MergeDictsLookup(a.entries, c.entries, k);
    }
  }

  /** The built dict is well formed when the inputs are. */
  lemma {:induction false} BuiltWF(keywords: seq<string>, vals: seq<Value>)
    requires forall i | 0 <= i < |vals| :: WF(vals[i])
    ensures WF(Built(keywords, vals))
  {
    if vals != [] {
      var init := vals[..|vals| - 1];
      assert forall i | 0 <= i < |init| :: init[i] == vals[i];
      BuiltWF(keywords, init);
      CleanWF(keywords, vals[|vals| - 1]);
      MergeWF(Built(keywords, init), Clean(keywords, vals[|vals| - 1]), true);
    }
  }

  /** The built dict is a cleaned tree: no "description", no keyword, no
      None and no wrapper anywhere along its dicts. */
  lemma {:induction false} BuiltCleaned(keywords: seq<string>, vals: seq<Value>)
    requires forall i | 0 <= i < |vals| :: WF(vals[i])
    ensures Cleaned(keywords, Built(keywords, vals))
  {
    if vals != [] {
      var init := vals[..|vals| - 1];
      assert forall i | 0 <= i < |init| :: init[i] == vals[i];
      BuiltCleaned(keywords, init);
      BuiltWF(keywords, init);
      CleanWF(keywords, vals[|vals| - 1]);
      CleanIsCleaned(keywords, vals[|vals| - 1]);
      MergeCleaned(keywords, Built(keywords, init), Clean(keywords, vals[|vals| - 1]));
    }
  }
}
