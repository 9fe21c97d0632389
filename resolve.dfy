/** What `NewtConfigParser._resolve` (py/newt/config.py:117-126) computes.
    The loop never reassigns `value`, so every step is a lookup of the
    current name in the flat `_defs` table. The loop has no cycle guard, so
    the result is specified with a step budget: `ResolveWithin` gives up
    when the budget runs out, and a name is `Resolvable` when some budget
    suffices. */
module Resolve {
  import opened Values

  /** `name not in value` raised TypeError: a list or dict is not hashable. */
  datatype ResolveError = Unhashable(name: Value)

  /** Whether the loop goes on from `name`: `_defs` is a dict and holds
      `name` as a key. Keys are strings, so a name that is not a string is
      never found; a list or dict reached by a step stops the loop as well. */
  predicate Steps(defs: Value, name: Value) {
    defs.Dict? && name.Str? && name.s in Keys(defs.entries)
  }

  /** One pass of the loop: `name = value[name]`. */
  function Step(defs: Value, name: Value): (r: Value)
    requires Steps(defs, name)
    ensures (name.s, r) in defs.entries
  {
    LookupIn(defs.entries, name.s);
    Lookup(defs.entries, name.s).value
  }

  /** The name the loop ends with when it stops within `fuel` steps. */
  function ResolveWithin(defs: Value, name: Value, fuel: nat): (r: Option<Value>)
    ensures r.Some? ==> !Steps(defs, r.value)
    decreases fuel
  {
    if !Steps(defs, name) then Some(name)
    else if fuel == 0 then None
    else ResolveWithin(defs, Step(defs, name), fuel - 1)
  }

  /** The loop stops when started from `name`. */
  ghost predicate Resolvable(defs: Value, name: Value) {
    exists fuel: nat :: ResolveWithin(defs, name, fuel).Some?
  }

  /** A larger budget does not change a result already reached. */
  lemma {:induction false} ResolveFuel(defs: Value, name: Value, fuel: nat, more: nat)
    requires ResolveWithin(defs, name, fuel).Some?
    requires fuel <= more
    ensures ResolveWithin(defs, name, more) == ResolveWithin(defs, name, fuel)
    decreases fuel
  {
    if Steps(defs, name) {
      ResolveFuel(defs, Step(defs, name), fuel - 1, more - 1);
    }
  }

  /** `_resolve(name)`, for a name from which the loop stops. */
  ghost function Resolved(defs: Value, name: Value): (r: Value)
    requires Resolvable(defs, name)
    ensures !Steps(defs, r)
  {
    var fuel: nat :| ResolveWithin(defs, name, fuel).Some?;
    ResolveWithin(defs, name, fuel).value
  }

  /** Any budget that suffices gives the one result. */
  lemma ResolvedWithin(defs: Value, name: Value, fuel: nat)
    requires ResolveWithin(defs, name, fuel).Some?
    ensures Resolvable(defs, name)
    ensures Resolved(defs, name) == ResolveWithin(defs, name, fuel).value
  {
    var f: nat :| ResolveWithin(defs, name, f).Some? && Resolved(defs, name) == ResolveWithin(defs, name, f).value;
    if f <= fuel {
      ResolveFuel(defs, name, f, fuel);
    } else {
      ResolveFuel(defs, name, fuel, f);
    }
  }

  /** A name that is not a key of `_defs` (or a `_defs` that is not a dict)
      is returned as it is. */
  lemma ResolvedAbsent(defs: Value, name: Value)
    requires !Steps(defs, name)
    ensures Resolvable(defs, name)
    ensures Resolved(defs, name) == name
  {
    ResolvedWithin(defs, name, 0);
  }

  /** A name that is a key resolves as the value it maps to. */
  lemma ResolvedStep(defs: Value, name: Value)
    requires Steps(defs, name)
    requires Resolvable(defs, name)
    ensures Resolvable(defs, Step(defs, name))
    ensures Resolved(defs, Step(defs, name)) == Resolved(defs, name)
  {
    var fuel: nat :| ResolveWithin(defs, name, fuel).Some?;
    ResolvedWithin(defs, name, fuel);
    ResolvedWithin(defs, Step(defs, name), fuel - 1);
  }

  /** `{"A": "B", "B": "C", "C": 7}` resolves "A" to 7. */
  lemma ResolveChain()
    ensures var defs := Dict([("A", Str("B")), ("B", Str("C")), ("C", Int(7))]);
      Resolvable(defs, Str("A")) && Resolved(defs, Str("A")) == Int(7)
  {
    var d := [("A", Str("B")), ("B", Str("C")), ("C", Int(7))];
    var defs := Dict(d);
    KeysCons(d);
    KeysCons(d[1..]);
    KeysCons(d[2..]);
    assert Keys(d) == {"A", "B", "C"};
    assert Step(defs, Str("A")) == Str("B");
    assert Step(defs, Str("B")) == Str("C");
    assert Step(defs, Str("C")) == Int(7);
    assert ResolveWithin(defs, Int(7), 0) == Some(Int(7));
    assert ResolveWithin(defs, Str("C"), 1) == Some(Int(7));
    assert ResolveWithin(defs, Str("B"), 2) == Some(Int(7));
    assert ResolveWithin(defs, Str("A"), 3) == Some(Int(7));
    ResolvedWithin(defs, Str("A"), 3);
  }

  /** `{"A": "A"}`: the loop never stops from "A". */
  lemma ResolveCycle()
    ensures !Resolvable(Dict([("A", Str("A"))]), Str("A"))
  {
    var defs := Dict([("A", Str("A"))]);
    KeysCons(defs.entries);
    forall fuel: nat ensures ResolveWithin(defs, Str("A"), fuel) == None {
      CycleSpins(defs, Str("A"), Str("A"), fuel);
    }
  }

  /** `{"A": "B", "B": "A"}`: the loop never stops from either name. */
  lemma ResolveTwoCycle()
    ensures var defs := Dict([("A", Str("B")), ("B", Str("A"))]);
      !Resolvable(defs, Str("A")) && !Resolvable(defs, Str("B"))
  {
    var d := [("A", Str("B")), ("B", Str("A"))];
    var defs := Dict(d);
    KeysCons(d);
    KeysCons(d[1..]);
    assert Step(defs, Str("A")) == Str("B");
    assert Step(defs, Str("B")) == Str("A");
    forall fuel: nat ensures ResolveWithin(defs, Str("A"), fuel) == None
      && ResolveWithin(defs, Str("B"), fuel) == None {
      CycleSpins(defs, Str("A"), Str("B"), fuel);
    }
  }

  /** Two names that step to each other (or one name that steps to itself)
      never stop, whatever the budget. */
  lemma {:induction false} CycleSpins(defs: Value, a: Value, b: Value, fuel: nat)
    requires Steps(defs, a) && Step(defs, a) == b
    requires Steps(defs, b) && Step(defs, b) == a
    ensures ResolveWithin(defs, a, fuel) == None
    ensures ResolveWithin(defs, b, fuel) == None
  {
    if fuel > 0 {
      CycleSpins(defs, a, b, fuel - 1);
    }
  }

  /** A ranking of the keys of `defs` that every step from one key to another
      key lowers: the lookups of the table form no cycle. */
  predicate Ranked(defs: Value, rank: map<string, nat>) {
    && defs.Dict?
    && (forall k | k in Keys(defs.entries) :: k in rank)
    && forall k | k in Keys(defs.entries) ::
         var n := Step(defs, Str(k));
         Steps(defs, n) ==> k in rank && n.s in rank && rank[n.s] < rank[k]
  }

  /** Without a cycle, the loop stops from every name, within one step more
      than the name's rank. */
  lemma {:induction false} RankedResolves(defs: Value, rank: map<string, nat>, name: Value)
    requires Ranked(defs, rank)
    ensures Steps(defs, name) ==> name.s in rank && ResolveWithin(defs, name, rank[name.s] + 1).Some?
    ensures Resolvable(defs, name)
    decreases if Steps(defs, name) && name.s in rank then rank[name.s] + 1 else 0
  {
    if Steps(defs, name) {
      var f := rank[name.s] + 1;
      var n := Step(defs, name);
      if Steps(defs, n) {
        RankedResolves(defs, rank, n);
        ResolveFuel(defs, n, rank[n.s] + 1, f - 1);
      }
      assert ResolveWithin(defs, name, f) == ResolveWithin(defs, n, f - 1);
      ResolvedWithin(defs, name, f);
    } else {
      ResolvedAbsent(defs, name);
    }
  }

  /** With ranks below the size of the table (as a longest lookup chain
      gives), a budget of one step per entry always suffices. */
  lemma RankedWithinSize(defs: Value, rank: map<string, nat>, name: Value)
    requires Ranked(defs, rank)
    requires forall k | k in rank :: rank[k] < |defs.entries|
    ensures ResolveWithin(defs, name, |defs.entries|).Some?
  {
    if Steps(defs, name) {
      RankedResolves(defs, rank, name);
      ResolveFuel(defs, name, rank[name.s] + 1, |defs.entries|);
    }
  }

  /** `f` is the least budget that suffices from `name`. */
  ghost predicate IsLeast(defs: Value, name: Value, f: nat) {
    && ResolveWithin(defs, name, f).Some?
    && forall h: nat | h < f :: ResolveWithin(defs, name, h).None?
  }

  /** The least budget that suffices from a name the loop stops from. */
  ghost function Least(defs: Value, name: Value): (f: nat)
    requires Resolvable(defs, name)
    ensures IsLeast(defs, name, f)
  {
    var fuel: nat :| ResolveWithin(defs, name, fuel).Some?;
    LeastExists(defs, name, fuel);
    var f: nat :| IsLeast(defs, name, f);
    f
  }

  lemma {:induction false} LeastExists(defs: Value, name: Value, fuel: nat)
    requires ResolveWithin(defs, name, fuel).Some?
    ensures exists f: nat :: IsLeast(defs, name, f)
    decreases fuel
  {
    if fuel > 0 && ResolveWithin(defs, name, fuel - 1).Some? {
      LeastExists(defs, name, fuel - 1);
    } else {
      forall h: nat | h < fuel ensures ResolveWithin(defs, name, h).None? {
        if ResolveWithin(defs, name, h).Some? {
          ResolveFuel(defs, name, h, fuel - 1);
        }
      }
      assert IsLeast(defs, name, fuel);
    }
  }

  /** Conversely, when the loop stops from every key, the least budgets rank
      the keys: a table the loop always leaves has no lookup cycle. */
  lemma ResolvableRanked(defs: Value)
    requires defs.Dict?
    requires forall k | k in Keys(defs.entries) :: Resolvable(defs, Str(k))
    ensures exists rank :: Ranked(defs, rank)
  {
    var rank := map k | k in Keys(defs.entries) :: Least(defs, Str(k));
    forall k | k in Keys(defs.entries)
      ensures var n := Step(defs, Str(k));
        Steps(defs, n) ==> k in rank && n.s in rank && rank[n.s] < rank[k]
    {
      var n := Step(defs, Str(k));
      if Steps(defs, n) {
        var g := Least(defs, Str(k));
        assert g > 0;
        assert ResolveWithin(defs, n, g - 1).Some?;
        ResolvedStep(defs, Str(k));
        var g' := Least(defs, n);
        assert g' <= g - 1;
      }
    }
    assert Ranked(defs, rank);
  }
}
