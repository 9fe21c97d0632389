/** The state of `NewtConfigParser` (py/newt/config.py:20-33) and the
    operations that fill it: the two dicts collected from the YAML files,
    the built syscfg tree and its `defs` table, and the ordered list of
    init functions. */
module Config {
  import opened Values
  import opened Paths
  import opened Merge
  import opened Build
  import opened Resolve
  import opened Order

  /** Why `_build_pkg` raised. */
  datatype PkgError =
    | InitPath(path: PathError)                // `_get` hit a value it cannot subscript
    | InitsNotDict(found: Value)               // `inits.items()`: AttributeError
    | InitUnhashable(name: string, value: Value) // `_resolve`: TypeError on `in`
    | Unorderable                              // `sorted`: TypeError on `<`

  /** The names of the entries of `d` whose value is not a dict. */
  function NonDictKeys(d: Entries): set<string> {
    set i | 0 <= i < |d| && !d[i].1.Dict? :: d[i].0
  }

  ghost predicate InitsResolvable(defs: Value, d: Entries) {
    forall e | e in d :: Resolvable(defs, e.1)
  }

  /** `cinits` after the loop of py/newt/config.py:85-89 has run over the
      entries of `d`, in order, or the error it raised. */
  ghost function CInits(defs: Value, d: Entries): (r: Result<Entries, PkgError>)
    requires InitsResolvable(defs, d)
    ensures r.Ok? ==> DistinctKeys(r.value) && Keys(r.value) == NonDictKeys(d)
  {
    if d == [] then Ok([])
    else
      var init := d[..|d| - 1];
      var (name, value) := d[|d| - 1];
      assert forall e | e in init :: e in d;
      assert d[|d| - 1] in d;
      assert NonDictKeys(d) == NonDictKeys(init) + (if value.Dict? then {} else {name}) by {
        forall i | 0 <= i < |init| ensures init[i] == d[i] { }
      }
      match CInits(defs, init)
      case Err(e) => Err(e)
      case Ok(acc) =>
        if value.Dict? then Ok(acc)
        else if defs.Dict? && value.List? then Err(InitUnhashable(name, value))
        else Ok(Set(acc, name, Resolved(defs, value)))
  }

  /** The non-dict entries of `d`, in order, each with its resolved value. */
  ghost function NonDictResolved(defs: Value, d: Entries): Entries
    requires InitsResolvable(defs, d)
  {
    if d == [] then []
    else
      var init := d[..|d| - 1];
      var last := d[|d| - 1];
      assert forall e | e in init :: e in d;
      assert last in d;
      NonDictResolved(defs, init) + if last.1.Dict? then [] else [(last.0, Resolved(defs, last.1))]
  }

  /** `_get(self._syscfg, 'syscfg.defs')`, with the path already split. */
  function SyscfgDefs(syscfg: Value): Result<Value, PathError> {
    Walk(syscfg, ["syscfg", "defs"])
  }

  /** `_get(self._build(self._pkgs), 'pkg.init')`, with the path already
      split. */
  function PkgInit(pkgs: Entries): Result<Value, PathError> {
    Walk(Built([], ValuesOf(pkgs)), ["pkg", "init"])
  }

  /** The two paths split as written. */
  lemma SplitPaths(v: Value)
    ensures SyscfgDefs(v) == Get(v, "syscfg.defs")
    ensures Walk(v, ["pkg", "init"]) == Get(v, "pkg.init")
  {
    SplitSyscfgDefs();
    SplitPkgInit();
  }

  lemma SplitSyscfgDefs()
    ensures Split("syscfg.defs") == ["syscfg", "defs"]
  {
    assert "syscfg.defs" == Join(["syscfg", "defs"]);
    SplitJoin(["syscfg", "defs"]);
  }

  lemma SplitPkgInit()
    ensures Split("pkg.init") == ["pkg", "init"]
  {
    assert "pkg.init" == Join(["pkg", "init"]);
    SplitJoin(["pkg", "init"]);
  }

  /** Every name `_build_pkg` hands to `_resolve` resolves. */
  ghost predicate PkgsResolvable(defs: Value, pkgs: Entries) {
    PkgInit(pkgs).Ok? && PkgInit(pkgs).value.Dict? ==> InitsResolvable(defs, PkgInit(pkgs).value.entries)
  }

  /** A `_defs` table without lookup cycles (or one that is not a dict)
      lets every init name resolve. */
  lemma RankedPkgsResolvable(defs: Value, rank: map<string, nat>, pkgs: Entries)
    requires !defs.Dict? || Ranked(defs, rank)
    ensures PkgsResolvable(defs, pkgs)
  {
    forall v: Value ensures Resolvable(defs, v) {
      if defs.Dict? {
        RankedResolves(defs, rank, v);
      } else {
        ResolvedAbsent(defs, v);
      }
    }
  }

  /** When the package dicts are Python dicts, so is the `pkg.init` dict
      found in the built tree: its names are distinct. */
  lemma PkgInitDistinct(pkgs: Entries)
    requires forall i | 0 <= i < |pkgs| :: WF(pkgs[i].1)
    ensures PkgInit(pkgs).Ok? && PkgInit(pkgs).value.Dict? ==> DistinctKeys(PkgInit(pkgs).value.entries)
  {
    var vals := ValuesOf(pkgs);
    BuiltWF([], vals);
    if PkgInit(pkgs).Ok? {
      WalkWF(Built([], vals), ["pkg", "init"]);
    }
  }

  /** `cinits` as `_build_pkg` computes it from the package dicts, or the
      error it raised before clearing `_inits`. */
  ghost function PkgCInits(defs: Value, pkgs: Entries): Result<Entries, PkgError>
    requires PkgsResolvable(defs, pkgs)
  {
    match PkgInit(pkgs)
    case Err(e) => Err(InitPath(e))
    case Ok(v) =>
      if !v.Dict? then Err(InitsNotDict(v)) else CInits(defs, v.entries)
  }

  /** Once the loop has raised, later entries do not matter. */
  lemma {:induction false} CInitsErrStays(defs: Value, d: Entries, j: nat)
    requires InitsResolvable(defs, d)
    requires j <= |d|
    requires InitsResolvable(defs, d[..j]) && CInits(defs, d[..j]).Err?
    ensures CInits(defs, d) == CInits(defs, d[..j])
  {
    if j < |d| {
      var init := d[..|d| - 1];
      assert forall e | e in init :: e in d;
      assert init[..j] == d[..j];
      CInitsErrStays(defs, init, j);
    } else {
      assert d[..j] == d;
    }
  }

  /** `d[i]` is the first entry of `d` whose value is a list. */
  predicate FirstList(d: Entries, i: int) {
    0 <= i < |d| && d[i].1.List? && forall j | 0 <= j < i :: !d[j].1.List?
  }

  /** The loop raises exactly when `_defs` is a dict and some entry holds a
      list, and then it names the first such entry. */
  lemma {:induction false} CInitsFails(defs: Value, d: Entries)
    requires InitsResolvable(defs, d)
    ensures CInits(defs, d).Err? <==> defs.Dict? && exists i | 0 <= i < |d| :: d[i].1.List?
    ensures CInits(defs, d).Err? ==>
      exists i | FirstList(d, i) :: CInits(defs, d).error == InitUnhashable(d[i].0, d[i].1)
  {
    if d != [] {
      var init := d[..|d| - 1];
      var last := d[|d| - 1];
      assert forall j | 0 <= j < |init| :: init[j] == d[j];
      assert InitsResolvable(defs, init) by {
        assert forall e | e in init :: e in d;
      }
      assert last in d;
      CInitsFails(defs, init);
      if CInits(defs, init).Err? {
        assert CInits(defs, d) == CInits(defs, init);
        var i :| FirstList(init, i) && CInits(defs, init).error == InitUnhashable(init[i].0, init[i].1);
        assert FirstList(d, i);
      } else if last.1.Dict? || !(defs.Dict? && last.1.List?) {
        assert CInits(defs, d).Ok?;
        if defs.Dict? {
          NoListAfter(init, d);
        }
      } else {
        assert CInits(defs, d) == Err(InitUnhashable(last.0, last.1));
        assert FirstList(d, |d| - 1);
      }
    }
  }

  lemma NoListAfter(init: Entries, d: Entries)
    requires d != [] && init == d[..|d| - 1]
    requires !exists i | 0 <= i < |init| :: init[i].1.List?
    requires !d[|d| - 1].1.List?
    ensures !exists i | 0 <= i < |d| :: d[i].1.List?
  {
    forall i | 0 <= i < |d| ensures !d[i].1.List? {
      if i < |init| {
        assert d[i] == init[i];
      }
    }
  }

  /** With distinct names, the loop lists the non-dict entries in order,
      each with its resolved value. */
  lemma {:induction false} CInitsListing(defs: Value, d: Entries)
    requires InitsResolvable(defs, d)
    requires DistinctKeys(d)
    requires CInits(defs, d).Ok?
    ensures CInits(defs, d).value == NonDictResolved(defs, d)
  {
    if d != [] {
      var init := d[..|d| - 1];
      var last := d[|d| - 1];
      assert forall j | 0 <= j < |init| :: init[j] == d[j];
      assert InitsResolvable(defs, init) by {
        assert forall e | e in init :: e in d;
      }
      assert last in d;
      var acc := CInits(defs, init).value;
      CInitsListing(defs, init);
      if last.1.Dict? {
        assert CInits(defs, d).value == acc;
        assert NonDictResolved(defs, d) == NonDictResolved(defs, init) + [];
      } else {
        var r := Resolved(defs, last.1);
        assert CInits(defs, d).value == Set(acc, last.0, r);
        assert last.0 !in Keys(acc) by {
          assert last.0 !in NonDictKeys(init);
        }
        SetNew(acc, last.0, r);
        assert NonDictResolved(defs, d) == NonDictResolved(defs, init) + [(last.0, r)];
      }
    }
  }

  /** `e` is a non-dict entry of `d` paired with its resolved value. */
  ghost predicate FromInit(defs: Value, d: Entries, e: (string, Value))
    requires InitsResolvable(defs, d)
  {
    exists i | 0 <= i < |d| :: d[i].0 == e.0 && !d[i].1.Dict? && e.1 == Resolved(defs, d[i].1)
  }

  /** Each listed entry is a non-dict entry of `d` with its resolved value. */
  lemma {:induction false} NonDictResolvedFrom(defs: Value, d: Entries, e: (string, Value))
    requires InitsResolvable(defs, d)
    requires e in NonDictResolved(defs, d)
    ensures FromInit(defs, d, e)
  {
    var init := d[..|d| - 1];
    var last := d[|d| - 1];
    assert forall e | e in init :: e in d;
    if e in NonDictResolved(defs, init) {
      NonDictResolvedFrom(defs, init, e);
      var i :| 0 <= i < |init| && init[i].0 == e.0 && !init[i].1.Dict? && e.1 == Resolved(defs, init[i].1);
      assert init[i] == d[i];
    } else {
      assert e == (last.0, Resolved(defs, last.1));
      assert d[|d| - 1] == last;
    }
  }

  /** After `_build_pkg`, `_inits` names each non-dict init entry exactly
      once. */
  lemma InitsOnce(defs: Value, d: Entries)
    requires InitsResolvable(defs, d)
    requires CInits(defs, d).Ok?
    ensures var ns := Names(SortByValue(CInits(defs, d).value));
      && (forall i, j | 0 <= i < j < |ns| :: ns[i] != ns[j])
      && (forall n :: n in ns <==> n in NonDictKeys(d))
  {
    var c := CInits(defs, d).value;
    var t := SortByValue(c);
    SortKeys(c);
    var ns := Names(t);
    forall n ensures n in ns <==> n in NonDictKeys(d) {
      if n in ns {
        var i :| 0 <= i < |ns| && ns[i] == n;
        assert t[i].0 in Keys(t);
      }
      if n in Keys(t) {
        var i :| 0 <= i < |t| && t[i].0 == n;
        assert ns[i] == n;
      }
    }
  }

  /** After `_build_pkg`, `_inits` is in non-decreasing order of resolved
      value, and the value each name is sorted by is its own resolved
      value. */
  lemma InitsSorted(defs: Value, d: Entries)
    requires InitsResolvable(defs, d)
    requires DistinctKeys(d)
    requires CInits(defs, d).Ok? && Orderable(CInits(defs, d).value)
    ensures var t := SortByValue(CInits(defs, d).value);
      SortedByValue(t) && forall i | 0 <= i < |t| :: FromInit(defs, d, t[i])
  {
    var c := CInits(defs, d).value;
    var t := SortByValue(c);
    SortSorted(c);
    CInitsListing(defs, d);
    forall i | 0 <= i < |t| ensures FromInit(defs, d, t[i]) {
      SortMember(c, t[i]);
      NonDictResolvedFrom(defs, d, t[i]);
    }
  }

  /** After `_build_pkg`, names whose resolved values tie appear in the
      order of the `pkg.init` dict. */
  lemma InitsStable(defs: Value, d: Entries, v: Value)
    requires InitsResolvable(defs, d)
    requires DistinctKeys(d)
    requires CInits(defs, d).Ok? && Orderable(CInits(defs, d).value)
    requires exists e | e in CInits(defs, d).value :: e.1 == v
    ensures Ties(SortByValue(CInits(defs, d).value), v) == Ties(NonDictResolved(defs, d), v)
  {
    var c := CInits(defs, d).value;
    assert c == NonDictResolved(defs, d) by {
      CInitsListing(defs, d);
    }
    assert exists i | 0 <= i < |c| :: c[i].1 == v by {
      var e :| e in c && e.1 == v;
      var i :| 0 <= i < |c| && c[i] == e;
      assert c[i].1 == v;
    }
    SortStable(c, v);
  }

  class NewtConfigParser {
    var syscfgs: Entries
    var pkgs: Entries
    var syscfg: Value
    var defs: Value
    var inits: seq<string>

    constructor ()
      ensures syscfgs == [] && pkgs == []
      ensures syscfg == Dict([]) && defs == Dict([]) && inits == []
    {
      syscfgs := [];
      pkgs := [];
      syscfg := Dict([]);
      defs := Dict([]);
      inits := [];
    }

    /** `self._syscfgs.update(self._parse(yfp))` for one `syscfg.yml`. */
    method AddSyscfg(contents: Entries)
      modifies this
      ensures syscfgs == Update(old(syscfgs), contents)
      ensures pkgs == old(pkgs) && syscfg == old(syscfg) && defs == old(defs) && inits == old(inits)
    {
      syscfgs := Update(syscfgs, contents);
    }

    /** `self._pkgs.update(self._parse(yfp))` for one `pkg.yml`. */
    method AddPkg(contents: Entries)
      modifies this
      ensures pkgs == Update(old(pkgs), contents)
      ensures syscfgs == old(syscfgs) && syscfg == old(syscfg) && defs == old(defs) && inits == old(inits)
    {
      pkgs := Update(pkgs, contents);
    }

    /** `_build(items, *keywords)`: the cleaned values of `items`, in
        order, folded with the tolerant merge from `{}`. */
    method BuildTree(items: Entries, keywords: seq<string>) returns (output: Value)
      ensures output == Built(keywords, ValuesOf(items))
    {
      ghost var vals := ValuesOf(items);
      output := Dict([]);
      var i := 0;
      while i < |items|
        invariant 0 <= i <= |items|
        invariant output == Built(keywords, vals[..i])
      {
        var val := Clean(keywords, items[i].1);
        output := MergeContainers(output, val, true).value;
        BuiltStep(keywords, vals, i);
        i := i + 1;
      }
      assert vals[..|items|] == vals;
    }

    /** `_build_syscfg`: the syscfg tree with "deprecated" settings pruned,
        then its `syscfg.defs` table. When `_get` raises, `_syscfg` is
        already replaced and `_defs` is not. */
    method BuildSyscfg() returns (err: Option<PathError>)
      modifies this
      ensures syscfg == Built(["deprecated"], ValuesOf(syscfgs))
      ensures SyscfgDefs(syscfg).Ok? ==> err == None && defs == SyscfgDefs(syscfg).value
      ensures SyscfgDefs(syscfg).Err? ==> err == Some(SyscfgDefs(syscfg).error) && defs == old(defs)
      ensures syscfgs == old(syscfgs) && pkgs == old(pkgs) && inits == old(inits)
    {
      syscfg := BuildTree(syscfgs, ["deprecated"]);
      var got := SyscfgDefs(syscfg);
      if got.Err? {
        err := Some(got.error);
      } else {
        defs := got.value;
        err := None;
      }
    }

    /** `_resolve(name)`: follow `_defs` from `name` while the current name
        is one of its keys. A list or dict name makes the first `in` test
        raise when `_defs` is a dict. */
    method ResolveName(name: Value) returns (r: Result<Value, ResolveError>)
      requires Resolvable(defs, name)
      ensures r == if defs.Dict? && IsContainer(name) then Err(Unhashable(name)) else Ok(Resolved(defs, name))
    {
      var value := defs;
      var n := name;
      ghost var fuel: nat :| ResolveWithin(defs, name, fuel).Some?;
      ghost var hopped := false;
      ResolvedWithin(defs, name, fuel);
      while value.Dict?
        invariant value == defs
        invariant ResolveWithin(defs, n, fuel).Some?
        invariant ResolveWithin(defs, n, fuel).value == Resolved(defs, name)
        invariant !hopped ==> n == name
        invariant hopped ==> !IsContainer(n) && !IsContainer(name)
        decreases fuel
      {
        if IsContainer(n) {
          return Err(Unhashable(n));
        }
        if !(n.Str? && n.s in Keys(value.entries)) {
          break;
        }
        n := Lookup(value.entries, n.s).value;
        fuel := fuel - 1;
        hopped := true;
        if IsContainer(n) {
          break;
        }
      }
      return Ok(n);
    }
    /** The loop of py/newt/config.py:85-89: resolve each non-dict entry
        of `pkg.init`, skipping dicts. */
    method ResolveInits(d: Entries) returns (r: Result<Entries, PkgError>)
      requires InitsResolvable(defs, d)
      ensures r == CInits(defs, d)
    {
      var cinits: Entries := [];
      var i := 0;
      while i < |d|
        invariant 0 <= i <= |d|
        invariant InitsResolvable(defs, d[..i])
        invariant CInits(defs, d[..i]) == Ok(cinits)
      {
        var (name, value) := d[i];
        assert d[..i + 1][..i] == d[..i] && d[..i + 1][i] == d[i];
        assert forall e | e in d[..i + 1] :: e in d;
        if !value.Dict? {
          assert d[i] in d;
          var res := ResolveName(value);
          if res.Err? {
            CInitsErrStays(defs, d, i + 1);
            assert d[..|d|] == d;
            return Err(InitUnhashable(name, value));
          }
          cinits := Set(cinits, name, res.value);
        }
        i := i + 1;
      }
      assert d[..i] == d;
      return Ok(cinits);
    }

    /** py/newt/config.py:90-92: `_inits` cleared, then filled with the
        names in the order `sorted` gives. */
    method FillInits(cinits: Entries) returns (err: Option<PkgError>)
      modifies this
      ensures syscfgs == old(syscfgs) && pkgs == old(pkgs) && syscfg == old(syscfg) && defs == old(defs)
      ensures Orderable(cinits) ==> err == None && inits == Names(SortByValue(cinits))
      ensures !Orderable(cinits) ==> err == Some(Unorderable) && inits == []
    {
      inits := [];
      if !Orderable(cinits) {
        return Some(Unorderable);
      }
      var sorted := SortByValue(cinits);
      var k := 0;
      while k < |sorted|
        invariant 0 <= k <= |sorted|
        invariant inits == Names(sorted[..k])
        invariant syscfgs == old(syscfgs) && pkgs == old(pkgs) && syscfg == old(syscfg) && defs == old(defs)
      {
        inits := inits + [sorted[k].0];
        k := k + 1;
        assert Names(sorted[..k]) == Names(sorted[..k - 1]) + [sorted[k - 1].0];
      }
      assert sorted[..k] == sorted;
      return None;
    }

    /** `_build_pkg` up to the emission of the C file: resolve every
        non-dict `pkg.init` entry, then replace `_inits` by the names sorted
        stably by resolved value. `_inits` is cleared before `sorted` runs,
        so a sort that raises leaves it empty. */
    method BuildPkg() returns (err: Option<PkgError>)
      modifies this
      requires PkgsResolvable(defs, pkgs)
      ensures syscfgs == old(syscfgs) && pkgs == old(pkgs) && syscfg == old(syscfg) && defs == old(defs)
      ensures PkgCInits(defs, pkgs).Err? ==> err == Some(PkgCInits(defs, pkgs).error) && inits == old(inits)
      ensures PkgCInits(defs, pkgs).Ok? && Orderable(PkgCInits(defs, pkgs).value) ==>
        err == None && inits == Names(SortByValue(PkgCInits(defs, pkgs).value))
      ensures PkgCInits(defs, pkgs).Ok? && !Orderable(PkgCInits(defs, pkgs).value) ==>
        err == Some(Unorderable) && inits == []
    {
      var built := BuildTree(pkgs, []);
      var got := Walk(built, ["pkg", "init"]);
      assert got == PkgInit(pkgs);
      if got.Err? {
        return Some(InitPath(got.error));
      }
      var v := got.value;
      if !v.Dict? {
        return Some(InitsNotDict(v));
      }
      var r := ResolveInits(v.entries);
      if r.Err? {
        return Some(r.error);
      }
      err := FillInits(r.value);
    }
  }
}
