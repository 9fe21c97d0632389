/** Configuration trees as the YAML loader hands them over: null, scalars,
    lists and dictionaries.  A dictionary is an association list, so the
    model keeps Python's insertion order, which decides the tie-break of the
    initializer sort. */
module Values {

  datatype Option<+T> = None | Some(value: T)

  datatype Result<+T, +E> = Ok(value: T) | Err(error: E)

  datatype Value =
    | Null
    | Str(s: string)
    | Int(i: int)
    | Bool(b: bool)
    | List(items: seq<Value>)
    | Dict(entries: seq<(string, Value)>)

  /** The entries of one dictionary, in insertion order. */
  type Entries = seq<(string, Value)>

  /** `isinstance(v, (list, dict))`. */
  predicate IsContainer(v: Value) {
    v.List? || v.Dict?
  }

  function Keys(d: Entries): set<string> {
    set i | 0 <= i < |d| :: d[i].0
  }

  /** No key occurs twice: what every Python dict guarantees. */
  predicate DistinctKeys(d: Entries) {
    forall i, j | 0 <= i < j < |d| :: d[i].0 != d[j].0
  }

  /** Every dictionary in the tree, however deep, has distinct keys. */
  predicate WF(v: Value) {
    match v
    case List(xs) => forall i | 0 <= i < |xs| :: WF(xs[i])
    case Dict(d) => DistinctKeys(d) && forall i | 0 <= i < |d| :: WF(d[i].1)
    case _ => true
  }

  lemma KeysCons(d: Entries)
    requires d != []
    ensures Keys(d) == {d[0].0} + Keys(d[1..])
  {
    forall k | k in Keys(d) ensures k in {d[0].0} + Keys(d[1..]) {
      var i :| 0 <= i < |d| && d[i].0 == k;
      if i > 0 { assert d[1..][i - 1] == d[i]; }
    }
    forall k | k in Keys(d[1..]) ensures k in Keys(d) {
      var i :| 0 <= i < |d[1..]| && d[1..][i].0 == k;
      assert d[i + 1] == d[1..][i];
    }
  }

  /** `d[k]`, with `None` for a missing key. */
  function Lookup(d: Entries, k: string): (r: Option<Value>)
    ensures r.Some? <==> k in Keys(d)
  {
    if d == [] then None
    else
      KeysCons(d);
      if d[0].0 == k then Some(d[0].1) else Lookup(d[1..], k)
  }

  lemma {:induction false} LookupIn(d: Entries, k: string)
    requires k in Keys(d)
    ensures (k, Lookup(d, k).value) in d
  {
    KeysCons(d);
    if d[0].0 != k {
      LookupIn(d[1..], k);
    }
  }

  /** `d[k] = v`: an existing key keeps its position, a new key goes last. */
  function Set(d: Entries, k: string, v: Value): (r: Entries)
    ensures Keys(r) == Keys(d) + {k}
    ensures Lookup(r, k) == Some(v)
    ensures forall k' | k' != k :: Lookup(r, k') == Lookup(d, k')
    ensures DistinctKeys(d) ==> DistinctKeys(r)
    ensures forall e | e in r :: e == (k, v) || e in d
  {
    if d == [] then
      var r := [(k, v)];
      KeysCons(r);
      r
    else if d[0].0 == k then
      var r := [(k, v)] + d[1..];
      KeysCons(d);
      KeysCons(r);
      assert r[1..] == d[1..];
      assert forall e | e in d[1..] :: e in d;
      assert DistinctKeys(d) ==> DistinctKeys(r) by {
        if DistinctKeys(d) {
          TailDistinct(d);
          HeadFresh(d);
          ConsDistinct((k, v), d[1..]);
        }
      }
      r
    else
      var rest := Set(d[1..], k, v);
      var r := [d[0]] + rest;
      KeysCons(d);
      KeysCons(r);
      assert r[1..] == rest;
      assert forall e | e in d[1..] :: e in d;
      assert DistinctKeys(d) ==> DistinctKeys(r) by {
        if DistinctKeys(d) {
          TailDistinct(d);
          HeadFresh(d);
          ConsDistinct(d[0], rest);
        }
      }
      r
  }

  /** Dropping the first entry keeps the keys distinct. */
  lemma TailDistinct(d: Entries)
    requires d != [] && DistinctKeys(d)
    ensures DistinctKeys(d[1..])
  {
    assert forall i | 0 <= i < |d[1..]| :: d[1..][i] == d[i + 1];
  }

  /** A fresh key in front of distinct keys keeps them distinct. */
  lemma ConsDistinct(e: (string, Value), rest: Entries)
    requires DistinctKeys(rest) && e.0 !in Keys(rest)
    ensures DistinctKeys([e] + rest)
  {
    var r := [e] + rest;
    forall i, j | 0 <= i < j < |r| ensures r[i].0 != r[j].0 {
      assert r[j] == rest[j - 1];
      if i > 0 { assert r[i] == rest[i - 1]; }
    }
  }

  /** Looking up in a dict with one more entry in front. */
  lemma LookupCons(k: string, v: Value, rest: Entries, k': string)
    ensures Lookup([(k, v)] + rest, k') == if k' == k then Some(v) else Lookup(rest, k')
  {
    assert ([(k, v)] + rest)[1..] == rest;
  }

  lemma {:induction false} LookupDistinct(d: Entries, i: nat)
    requires DistinctKeys(d)
    requires i < |d|
    ensures Lookup(d, d[i].0) == Some(d[i].1)
  {
    if i > 0 {
      assert d[1..][i - 1] == d[i];
      LookupDistinct(d[1..], i - 1);
    }
  }

  lemma {:induction false} LookupWF(d: Entries, k: string)
    requires WF(Dict(d))
    requires k in Keys(d)
    ensures WF(Lookup(d, k).value)
  {
    LookupIn(d, k);
  }

  lemma {:induction false} SetWF(d: Entries, k: string, v: Value)
    requires WF(Dict(d)) && WF(v)
    ensures WF(Dict(Set(d, k, v)))
  {
    var r := Set(d, k, v);
    forall i | 0 <= i < |r| ensures WF(r[i].1) {
      assert r[i] in r;
      if r[i] != (k, v) {
        var j :| 0 <= j < |d| && d[j] == r[i];
      }
    }
  }

  /** Looking up in a dict is looking at its last entry, then at the
      entries before it. */
  lemma LookupLast(d: Entries, k: string)
    requires d != [] && DistinctKeys(d)
    ensures DistinctKeys(d[..|d| - 1])
    ensures d[|d| - 1].0 !in Keys(d[..|d| - 1])
    ensures Lookup(d, k) ==
      if k == d[|d| - 1].0 then Some(d[|d| - 1].1) else Lookup(d[..|d| - 1], k)
  {
    var init := d[..|d| - 1];
    var last := d[|d| - 1];
    assert d == init + [last];
    LookupAppend(init, [last], k);
    KeysCons([last]);
    forall i | 0 <= i < |init| ensures init[i].0 != last.0 {
      assert init[i] == d[i];
    }
  }

  lemma {:induction false} LookupAppend(x: Entries, y: Entries, k: string)
    ensures Lookup(x + y, k) == if k in Keys(x) then Lookup(x, k) else Lookup(y, k)
  {
    if x != [] {
      KeysCons(x);
      assert (x + y)[0] == x[0] && (x + y)[1..] == x[1..] + y;
      LookupAppend(x[1..], y, k);
    } else {
      assert x + y == y;
    }
  }

  lemma {:induction false} KeysAppend(x: Entries, y: Entries)
    ensures Keys(x + y) == Keys(x) + Keys(y)
  {
    forall k ensures k in Keys(x + y) <==> k in Keys(x) + Keys(y) {
      LookupAppend(x, y, k);
    }
  }

  lemma DistinctAppend(x: Entries, y: Entries)
    requires DistinctKeys(x) && DistinctKeys(y)
    requires Keys(x) !! Keys(y)
    ensures DistinctKeys(x + y)
  {
    var z := x + y;
    forall i, j | 0 <= i < j < |z| ensures z[i].0 != z[j].0 {
      if j < |x| {
      } else if i >= |x| {
        assert z[i] == y[i - |x|] && z[j] == y[j - |x|];
      } else {
        assert z[i].0 in Keys(x);
        assert z[j] == y[j - |x|];
        assert z[j].0 in Keys(y);
      }
    }
  }

  /** Dropping the first entry keeps a dict well formed. */
  lemma TailWF(d: Entries)
    requires d != [] && WF(Dict(d))
    ensures WF(Dict(d[1..]))
  {
    assert forall i | 0 <= i < |d[1..]| :: d[1..][i] == d[i + 1];
  }

  /** The first key of a dict does not recur after it. */
  lemma HeadFresh(d: Entries)
    requires d != [] && DistinctKeys(d)
    ensures d[0].0 !in Keys(d[1..])
  {
    forall j | 0 <= j < |d[1..]| ensures d[1..][j].0 != d[0].0 {
      assert d[1..][j] == d[j + 1];
    }
  }

  /** Putting a fresh key in front of a well-formed dict keeps it well
      formed. */
  lemma ConsWF(k: string, v: Value, rest: Entries)
    requires WF(v) && WF(Dict(rest)) && k !in Keys(rest)
    ensures WF(Dict([(k, v)] + rest))
  {
    var r := [(k, v)] + rest;
    forall i | 0 <= i < |r| ensures WF(r[i].1) {
      if i > 0 { assert r[i] == rest[i - 1]; }
    }
    DistinctAppend([(k, v)], rest);
  }

  /** Two well-formed dicts with no key in common join into one. */
  lemma AppendWF(x: Entries, y: Entries)
    requires WF(Dict(x)) && WF(Dict(y)) && Keys(x) !! Keys(y)
    ensures WF(Dict(x + y))
    ensures Keys(x + y) == Keys(x) + Keys(y)
  {
    var r := x + y;
    DistinctAppend(x, y);
    KeysAppend(x, y);
    forall i | 0 <= i < |r| ensures WF(r[i].1) {
      if i >= |x| { assert r[i] == y[i - |x|]; }
    }
  }

  /** A dict has as many entries as keys. */
  lemma {:induction false} DistinctCard(d: Entries)
    requires DistinctKeys(d)
    ensures |Keys(d)| == |d|
  {
    if d != [] {
      KeysCons(d);
      assert forall i | 0 <= i < |d[1..]| :: d[1..][i] == d[i + 1];
      DistinctCard(d[1..]);
      assert d[0].0 !in Keys(d[1..]);
    }
  }

  /** Setting the only key of a dict, or any key of `{}`, leaves just that
      entry. */
  lemma SetOnly(d: Entries, k: string, v: Value)
    requires d == [] || (|d| == 1 && d[0].0 == k)
    ensures Set(d, k, v) == [(k, v)]
  {
    if d != [] {
      assert d[1..] == [];
    }
  }

  /** Setting a key the dict does not hold appends it. */
  lemma {:induction false} SetNew(d: Entries, k: string, v: Value)
    requires k !in Keys(d)
    ensures Set(d, k, v) == d + [(k, v)]
  {
    if d != [] {
      KeysCons(d);
      assert d[0].0 != k;
      assert Set(d, k, v) == [d[0]] + Set(d[1..], k, v);
      SetNew(d[1..], k, v);
      HeadThenRest(d, [(k, v)]);
    }
  }

  lemma HeadThenRest(d: Entries, e: Entries)
    requires d != []
    ensures [d[0]] + (d[1..] + e) == d + e
  {
    assert [d[0]] + d[1..] == d;
  }

  /** `d.update(e)`: the entries of `e` set one by one, in order. */
  function Update(d: Entries, e: Entries): (r: Entries)
    ensures Keys(r) == Keys(d) + Keys(e)
    ensures DistinctKeys(d) ==> DistinctKeys(r)
    decreases |e|
  {
    if e == [] then d
    else
      KeysCons(e);
      Update(Set(d, e[0].0, e[0].1), e[1..])
  }

  /** After `d.update(e)` a key of `e` maps to its value in `e`; any other
      key keeps its value in `d`. */
  lemma {:induction false} LookupUpdate(d: Entries, e: Entries, k: string)
    requires DistinctKeys(e)
    ensures Lookup(Update(d, e), k) == if k in Keys(e) then Lookup(e, k) else Lookup(d, k)
    decreases |e|
  {
    if e != [] {
      KeysCons(e);
      assert DistinctKeys(e[1..]) by {
        forall i, j | 0 <= i < j < |e[1..]| ensures e[1..][i].0 != e[1..][j].0 {
          assert e[1..][i] == e[i + 1] && e[1..][j] == e[j + 1];
        }
      }
      assert e[0].0 !in Keys(e[1..]) by {
        forall i | 0 <= i < |e[1..]| ensures e[1..][i].0 != e[0].0 {
          assert e[1..][i] == e[i + 1];
        }
      }
      LookupUpdate(Set(d, e[0].0, e[0].1), e[1..], k);
    }
  }
}
