/** The dotted-key expander of `NewtConfigParser._parse`
    (py/newt/config.py:53-81): each YAML document is a flat dict whose keys
    may be dotted paths, and it becomes one nested tree per module. */
module Expand {
  import opened Values
  import opened Paths

  /** Why `_parse` gave up: a document that is not a dict (NewtError), or a
      dotted key that had to descend twice through a value that is not a
      dict, where Python's `in` or item assignment raised TypeError. */
  datatype ParseError = MalformedDocument | ScalarDescent(key: string)

  /** One pass of the `while True` loop of py/newt/config.py:66-77 for one
      `(ykey, yval)` pair, written as a path update: descend along the
      segments of `key`, creating `{}` for missing ones; a value that is not
      a dict met one segment before the end is kept under `''` in a new
      dict; met earlier, the descent fails. */
  function Assign(d: Entries, key: string, val: Value): (r: Option<Entries>)
    ensures r.Some? ==> Keys(r.value) == Keys(d) + {Split(key)[0]}
    ensures r.Some? ==> forall k | k != Split(key)[0] :: Lookup(r.value, k) == Lookup(d, k)
    ensures r.Some? && DistinctKeys(d) ==> DistinctKeys(r.value)
    decreases |key|
  {
    var i := FirstDot(key);
    if i == |key| then Some(Set(d, key, val))
    else
      var head, rest := key[..i], key[i + 1..];
      var child := match Lookup(d, head) case None => Dict([]) case Some(c) => c;
      match child
      case Dict(c) =>
        (match Assign(c, rest, val)
         case None => None
         case Some(c') => Some(Set(d, head, Dict(c'))))
      case _ =>
        if FirstDot(rest) == |rest| then Some(Set(d, head, Dict(Set([("", child)], rest, val))))
        else None
  }

  /** All segments of a path but the last. */
  function Parents(segs: seq<string>): seq<string>
    requires |segs| >= 1
  {
    segs[..|segs| - 1]
  }

  lemma {:induction false} SplitParents(key: string)
    ensures FirstDot(key) == |key| ==> Parents(Split(key)) == []
    ensures FirstDot(key) < |key| ==>
      Parents(Split(key)) == [key[..FirstDot(key)]] + Parents(Split(key[FirstDot(key) + 1..]))
  {
  }

  /** After a successful assignment, `_get` along the key finds the value. */
  lemma {:induction false} AssignThenGet(d: Entries, key: string, val: Value)
    requires Assign(d, key, val).Some?
    ensures Get(Dict(Assign(d, key, val).value), key) == Ok(val)
    decreases |key|
  {
    var i := FirstDot(key);
    if i == |key| {
      assert Split(key) == [key] == [key] + [];
      LookupSetSame(d, key, val);
    } else {
      var head, rest := key[..i], key[i + 1..];
      assert Split(key) == [head] + Split(rest);
      var child := match Lookup(d, head) case None => Dict([]) case Some(c) => c;
      if child.Dict? {
        var c' := Assign(child.entries, rest, val).value;
        AssignThenGet(child.entries, rest, val);
        LookupSetSame(d, head, Dict(c'));
      } else {
        var inner := Set([("", child)], rest, val);
        assert Split(rest) == [rest];
        LookupSetSame(d, head, Dict(inner));
        LookupSetSame([("", child)], rest, val);
        assert Assign(d, key, val).value == Set(d, head, Dict(inner));
        assert [rest] + [] == [rest];
        assert Walk(Dict(inner), [rest]) == Ok(val);
      }
    }
  }

  /** The walk one step into a freshly assigned key. */
  lemma LookupSetSame(d: Entries, k: string, v: Value)
    ensures forall segs :: Walk(Dict(Set(d, k, v)), [k] + segs) == Walk(v, segs)
  {
    forall segs ensures Walk(Dict(Set(d, k, v)), [k] + segs) == Walk(v, segs) {
      assert ([k] + segs)[0] == k && ([k] + segs)[1..] == segs;
    }
  }

  /** The assignment fails exactly when the walk to the key's parent meets a
      value that is not a dict with segments still to go. */
  lemma {:induction false} AssignFailsIff(d: Entries, key: string, val: Value)
    ensures Assign(d, key, val).None? <==> Walk(Dict(d), Parents(Split(key))).Err?
    decreases |key|
  {
    var i := FirstDot(key);
    if i < |key| {
      var head, rest := key[..i], key[i + 1..];
      var p := Parents(Split(rest));
      assert key == head + "." + rest;
      AssignDotted(d, head, rest, val);
      WalkParents(d, key);
      ParentsEmpty(rest);
      match Lookup(d, head)
      case None =>
        AssignFailsIff([], rest, val);
        WalkEmptyDict(p);
      case Some(c) =>
        if c.Dict? {
          AssignFailsIff(c.entries, rest, val);
        }
    } else {
      SplitParents(key);
    }
  }

  /** The walk to a dotted key's parent takes its first segment, then walks
      to the parent of the rest. */
  lemma WalkParents(d: Entries, key: string)
    requires FirstDot(key) < |key|
    ensures var head := key[..FirstDot(key)];
      var p := Parents(Split(key[FirstDot(key) + 1..]));
      Walk(Dict(d), Parents(Split(key))) ==
        match Lookup(d, head) case None => Ok(Dict([])) case Some(c) => Walk(c, p)
  {
    var head := key[..FirstDot(key)];
    var p := Parents(Split(key[FirstDot(key) + 1..]));
    SplitParents(key);
    assert ([head] + p)[0] == head && ([head] + p)[1..] == p;
  }

  /** A key has no parent segments exactly when it has no dot. */
  lemma ParentsEmpty(key: string)
    ensures NoDot(key) <==> Parents(Split(key)) == []
  {
    SplitParents(key);
  }

  /** A dotted key that descends into a scalar set by an earlier key keeps
      that scalar under `''` beside the new leaf. */
  lemma KeepsScalarUnderEmptyKey(d: Entries, head: string, rest: string, val: Value)
    requires NoDot(head) && NoDot(rest) && rest != ""
    requires Lookup(d, head).Some? && !Lookup(d, head).value.Dict?
    ensures Assign(d, head + "." + rest, val).Some?
    ensures Walk(Dict(Assign(d, head + "." + rest, val).value), [head, ""]) == Ok(Lookup(d, head).value)
    ensures Walk(Dict(Assign(d, head + "." + rest, val).value), [head, rest]) == Ok(val)
  {
    var child := Lookup(d, head).value;
    var inner := Set([("", child)], rest, val);
    var d' := Set(d, head, Dict(inner));
    AssignDotted(d, head, rest, val);
    assert Assign(d, head + "." + rest, val) == Some(d');
    assert Lookup(d', head) == Some(Dict(inner));
    assert Walk(Dict(d'), [head, ""]) == Walk(Dict(inner), [""]) by {
      assert [head, ""][0] == head && [head, ""][1..] == [""];
    }
    assert Walk(Dict(inner), [""]) == Ok(child) by {
      assert Lookup(inner, "") == Lookup([("", child)], "");
      assert [""][1..] == [];
    }
    assert Walk(Dict(d'), [head, rest]) == Walk(Dict(inner), [rest]) by {
      assert [head, rest][0] == head && [head, rest][1..] == [rest];
    }
    assert Walk(Dict(inner), [rest]) == Ok(val) by {
      assert Lookup(inner, rest) == Some(val);
      assert [rest][1..] == [];
    }
  }

  /** The fold of the `for ykey, yval in ydef.items()` loop over one
      document, from a given partial tree. */
  function ExpandFrom(top: Entries, es: Entries): (r: Result<Entries, ParseError>)
    ensures r.Ok? ==> Keys(top) <= Keys(r.value)
    ensures r.Err? ==> r.error.ScalarDescent? && exists i | 0 <= i < |es| :: es[i].0 == r.error.key
    decreases |es|
  {
    if es == [] then Ok(top)
    else match Assign(top, es[0].0, es[0].1)
      case None => Err(ScalarDescent(es[0].0))
      case Some(t) => ExpandFrom(t, es[1..])
  }

  /** One document's tree: a non-dict document is malformed, a dict one is
      expanded key by key from `{}`. */
  function ExpandDocument(doc: Value): (r: Result<Entries, ParseError>)
    ensures r == Err(MalformedDocument) <==> !doc.Dict?
    ensures r.Err? && r.error.ScalarDescent? ==>
      doc.Dict? && exists i | 0 <= i < |doc.entries| :: doc.entries[i].0 == r.error.key
  {
    if doc.Dict? then ExpandFrom([], doc.entries) else Err(MalformedDocument)
  }

  /** The set of first segments of the keys of a document. */
  function Heads(es: Entries): set<string> {
    set i | 0 <= i < |es| :: Split(es[i].0)[0]
  }

  /** Keys sharing a first segment share one top-level entry: the expanded
      tree has exactly one key per distinct first segment, each once. */
  lemma {:induction false} ExpandHeads(top: Entries, es: Entries)
    requires ExpandFrom(top, es).Ok?
    requires DistinctKeys(top)
    ensures Keys(ExpandFrom(top, es).value) == Keys(top) + Heads(es)
    ensures DistinctKeys(ExpandFrom(top, es).value)
    decreases |es|
  {
    if es != [] {
      var t := Assign(top, es[0].0, es[0].1).value;
      ExpandHeads(t, es[1..]);
      assert Heads(es) == {Split(es[0].0)[0]} + Heads(es[1..]) by {
        forall h | h in Heads(es) ensures h in {Split(es[0].0)[0]} + Heads(es[1..]) {
          var i :| 0 <= i < |es| && Split(es[i].0)[0] == h;
          if i > 0 { assert es[1..][i - 1] == es[i]; }
        }
        forall h | h in Heads(es[1..]) ensures h in Heads(es) {
          var i :| 0 <= i < |es[1..]| && Split(es[1..][i].0)[0] == h;
          assert es[i + 1] == es[1..][i];
        }
      }
    }
  }

  /** The last key of a document is found at its dotted path afterwards. */
  lemma {:induction false} ExpandPlacesLast(top: Entries, es: Entries, r: Entries)
    requires es != []
    requires ExpandFrom(top, es) == Ok(r)
    ensures Get(Dict(r), es[|es| - 1].0) == Ok(es[|es| - 1].1)
    decreases |es|
  {
    ExpandStep(top, es);
    var t := Assign(top, es[0].0, es[0].1).value;
    if |es| == 1 {
      AssignThenGet(top, es[0].0, es[0].1);
    } else {
      LastOfTail(es);
      ExpandPlacesLast(t, es[1..], r);
    }
  }

  lemma LastOfTail(es: Entries)
    requires |es| > 1
    ensures es[1..][|es[1..]| - 1] == es[|es| - 1]
  {
  }

  /** A document that expands assigns its first key, then expands the
      rest. */
  lemma ExpandStep(top: Entries, es: Entries)
    requires es != []
    requires ExpandFrom(top, es).Ok?
    ensures Assign(top, es[0].0, es[0].1).Some?
    ensures ExpandFrom(top, es) == ExpandFrom(Assign(top, es[0].0, es[0].1).value, es[1..])
    ensures |es| == 1 ==> ExpandFrom(top, es) == Ok(Assign(top, es[0].0, es[0].1).value)
  {
    if |es| == 1 {
      assert es[1..] == [];
    }
  }

  /** Paths `p` and `q` agree on their first `j` segments and differ at
      segment `j`. */
  predicate DivergesAt(p: seq<string>, q: seq<string>, j: nat) {
    j < |p| && j < |q| && p[..j] == q[..j] && p[j] != q[j]
  }

  /** Neither path is a prefix of the other: they part at some segment. */
  predicate Diverge(p: seq<string>, q: seq<string>) {
    exists j: nat | j < |p| && j < |q| :: DivergesAt(p, q, j)
  }

  /** Assigning a key leaves alone every path that parts from the key's
      segments, at any depth: `a.b.d` does not disturb `a.b.c`. */
  lemma {:induction false} AssignKeeps(d: Entries, key: string, val: Value, p: seq<string>, j: nat)
    requires Assign(d, key, val).Some?
    requires DivergesAt(p, Split(key), j)
    requires Walk(Dict(d), p).Ok?
    ensures Walk(Dict(Assign(d, key, val).value), p) == Walk(Dict(d), p)
    decreases |key|
  {
    var r := Assign(d, key, val).value;
    if j == 0 {
      WalkSameHead(r, d, p);
    } else {
      var i := FirstDot(key);
      var head, rest := key[..i], key[i + 1..];
      AssignDescent(d, key, val);
      DivergesTail(p, head, Split(rest), j);
      var child := if Lookup(d, head).Some? then Lookup(d, head).value else Dict([]);
      WalkChild(d, p);
      var c' := Assign(child.entries, rest, val).value;
      assert Walk(Dict(c'), p[1..]) == Walk(child, p[1..]) by {
        AssignKeeps(child.entries, rest, val, p[1..], j - 1);
      }
      WalkIntoSet(d, head, Dict(c'), p);
    }
  }

  /** A key of two or more segments: its first segment, and the assignment
      of the rest inside a child that is a dict. */
  lemma AssignDescent(d: Entries, key: string, val: Value)
    requires Assign(d, key, val).Some? && |Split(key)| > 1
    ensures FirstDot(key) < |key|
    ensures var i := FirstDot(key);
      var head, rest := key[..i], key[i + 1..];
      var child := if Lookup(d, head).Some? then Lookup(d, head).value else Dict([]);
      && Split(key) == [head] + Split(rest)
      && (child.Dict? ==>
           && Assign(child.entries, rest, val).Some?
           && Assign(d, key, val).value == Set(d, head, Dict(Assign(child.entries, rest, val).value)))
  {
    SplitDotted(key);
    var i := FirstDot(key);
    var head, rest := key[..i], key[i + 1..];
    var child := if Lookup(d, head).Some? then Lookup(d, head).value else Dict([]);
    if child.Dict? {
      AssignIntoDict(d, key, val, child.entries);
    }
  }

  /** A key that splits into two or more segments has a dot, and its first
      segment comes before it. */
  lemma SplitDotted(key: string)
    ensures |Split(key)| > 1 ==> FirstDot(key) < |key|
    ensures FirstDot(key) < |key| ==>
      Split(key) == [key[..FirstDot(key)]] + Split(key[FirstDot(key) + 1..])
  {
    if FirstDot(key) < |key| {
      SplitAtDot(key);
    } else {
      assert Split(key) == [key];
    }
  }

  /** Assigning a dotted key whose first segment is missing or holds a dict
      `c` assigns the rest of the key inside `c`. */
  lemma AssignIntoDict(d: Entries, key: string, val: Value, c: Entries)
    requires FirstDot(key) < |key| && Assign(d, key, val).Some?
    requires (Lookup(d, key[..FirstDot(key)]).None? && c == [])
          || Lookup(d, key[..FirstDot(key)]) == Some(Dict(c))
    ensures Assign(c, key[FirstDot(key) + 1..], val).Some?
    ensures Assign(d, key, val).value
         == Set(d, key[..FirstDot(key)], Dict(Assign(c, key[FirstDot(key) + 1..], val).value))
  {
  }

  /** A walk of two or more segments that succeeds from a dict descends into
      the child under its first segment, or into `{}` when it is missing; that
      child is a dict. */
  lemma WalkChild(d: Entries, p: seq<string>)
    requires |p| >= 2 && Walk(Dict(d), p).Ok?
    ensures var child := if Lookup(d, p[0]).Some? then Lookup(d, p[0]).value else Dict([]);
      child.Dict? && Walk(Dict(d), p) == Walk(child, p[1..])
  {
    WalkEmptyDict(p[1..]);
  }

  /** Walking into a key just set walks its new value. */
  lemma WalkIntoSet(d: Entries, k: string, v: Value, p: seq<string>)
    requires p != [] && p[0] == k
    ensures Walk(Dict(Set(d, k, v)), p) == Walk(v, p[1..])
  {
    LookupSetSame(d, k, v);
    assert p == [k] + p[1..];
  }

  /** A walk whose first key looks up the same in two dicts walks the same
      in both. */
  lemma WalkSameHead(d1: Entries, d2: Entries, p: seq<string>)
    requires p != [] && Lookup(d1, p[0]) == Lookup(d2, p[0])
    ensures Walk(Dict(d1), p) == Walk(Dict(d2), p)
  {
  }

  lemma DivergesTail(p: seq<string>, head: string, q: seq<string>, j: nat)
    requires j > 0 && DivergesAt(p, [head] + q, j)
    ensures p[0] == head && DivergesAt(p[1..], q, j - 1)
  {
    assert p[..j][0] == p[0];
    assert ([head] + q)[..j][0] == head;
    assert p[1..][..j - 1] == p[..j][1..];
    assert q[..j - 1] == ([head] + q)[..j][1..];
  }

  /** Expanding entries whose keys all part from `p` leaves the walk along
      `p` as it was. */
  lemma {:induction false} ExpandKeeps(top: Entries, es: Entries, p: seq<string>, r: Entries)
    requires ExpandFrom(top, es) == Ok(r)
    requires Walk(Dict(top), p).Ok?
    requires forall k | 0 <= k < |es| :: Diverge(p, Split(es[k].0))
    ensures Walk(Dict(r), p) == Walk(Dict(top), p)
    decreases |es|
  {
    if es == [] {
      assert r == top;
    } else {
      ExpandStep(top, es);
      var t := Assign(top, es[0].0, es[0].1).value;
      assert Diverge(p, Split(es[0].0));
      var j: nat :| j < |p| && j < |Split(es[0].0)| && DivergesAt(p, Split(es[0].0), j);
      AssignKeeps(top, es[0].0, es[0].1, p, j);
      DivergeRest(p, es, 0);
      ExpandKeeps(t, es[1..], p, r);
    }
  }

  /** The divergence facts about the entries after `i`, re-indexed for
      `es[1..]`. */
  lemma DivergeRest(p: seq<string>, es: Entries, i: nat)
    requires es != []
    requires forall k | i <= k < |es| :: Diverge(p, Split(es[k].0))
    ensures forall k | i <= k + 1 < |es| && 0 <= k :: Diverge(p, Split(es[1..][k].0))
  {
    forall k | i <= k + 1 < |es| && 0 <= k ensures Diverge(p, Split(es[1..][k].0)) {
      assert es[1..][k] == es[k + 1];
    }
  }

  /** After a document is expanded, the value of entry `i` is found at the
      path of its key, provided every later key parts from that path. So
      `a.b.c: 1` then `a.b.d: 2` keeps `1` at `a.b.c`. */
  lemma {:induction false} ExpandPlaces(top: Entries, es: Entries, i: nat, r: Entries)
    requires i < |es|
    requires ExpandFrom(top, es) == Ok(r)
    requires forall k | i < k < |es| :: Diverge(Split(es[i].0), Split(es[k].0))
    ensures Get(Dict(r), es[i].0) == Ok(es[i].1)
    decreases |es|
  {
    ExpandStep(top, es);
    var t := Assign(top, es[0].0, es[0].1).value;
    if i == 0 {
      AssignThenGet(top, es[0].0, es[0].1);
      DivergeRest(Split(es[0].0), es, 1);
      ExpandKeeps(t, es[1..], Split(es[0].0), r);
    } else {
      assert es[1..][i - 1] == es[i];
      DivergeRest(Split(es[i].0), es, i + 1);
      ExpandPlaces(t, es[1..], i - 1, r);
    }
  }

  /** When no key's path is a prefix of another's (equal keys included),
      every value of the document is found at the path of its key. */
  lemma ExpandPlacesAll(es: Entries, r: Entries)
    requires ExpandFrom([], es) == Ok(r)
    requires forall i, k | 0 <= i < k < |es| :: Diverge(Split(es[i].0), Split(es[k].0))
    ensures forall i | 0 <= i < |es| :: Get(Dict(r), es[i].0) == Ok(es[i].1)
  {
    forall i | 0 <= i < |es| ensures Get(Dict(r), es[i].0) == Ok(es[i].1) {
      ExpandPlaces([], es, i, r);
    }
  }

  /** A key without a dot is a plain `source[ykey] = yval`. */
  lemma AssignPlain(d: Entries, k: string, val: Value)
    requires NoDot(k)
    ensures Assign(d, k, val) == Some(Set(d, k, val))
  {
    assert FirstDot(k) == |k|;
  }

  /** A key `head.rest` descends one level into `head`. */
  lemma AssignDotted(d: Entries, head: string, rest: string, val: Value)
    requires NoDot(head)
    ensures var child := if Lookup(d, head).Some? then Lookup(d, head).value else Dict([]);
      Assign(d, head + "." + rest, val) ==
        if child.Dict? then
          if Assign(child.entries, rest, val).Some?
          then Some(Set(d, head, Dict(Assign(child.entries, rest, val).value)))
          else None
        else if NoDot(rest) then Some(Set(d, head, Dict(Set([("", child)], rest, val))))
        else None
  {
    DotAfter(head, rest);
    if !NoDot(rest) {
      assert FirstDot(rest) < |rest|;
    }
  }

  lemma AssignFirstExample()
    ensures Assign([], "a.b.c", Int(1)) == Some([("a", Dict([("b", Dict([("c", Int(1))]))]))])
  {
    assert "a.b.c" == "a" + "." + "b.c";
    assert "b.c" == "b" + "." + "c";
    assert NoDot("a") && NoDot("b") && NoDot("c");
    var c1 := [("c", Int(1))];
    AssignPlain([], "c", Int(1));
    AssignDotted([], "b", "c", Int(1));
    AssignDotted([], "a", "b.c", Int(1));
  }

  lemma AssignInnerExample()
    ensures Assign([("b", Dict([("c", Int(1))]))], "b.d", Int(2))
         == Some([("b", Dict([("c", Int(1)), ("d", Int(2))]))])
  {
    assert "b.d" == "b" + "." + "d";
    assert NoDot("b") && NoDot("d");
    var c1 := [("c", Int(1))];
    var c2 := [("c", Int(1)), ("d", Int(2))];
    AssignPlain(c1, "d", Int(2));
    assert Set(c1, "d", Int(2)) == c2;
    var b1 := [("b", Dict(c1))];
    AssignDotted(b1, "b", "d", Int(2));
    assert Lookup(b1, "b") == Some(Dict(c1));
    assert Set(b1, "b", Dict(c2)) == [("b", Dict(c2))];
  }

  lemma AssignSecondExample()
    ensures Assign([("a", Dict([("b", Dict([("c", Int(1))]))]))], "a.b.d", Int(2))
         == Some([("a", Dict([("b", Dict([("c", Int(1)), ("d", Int(2))]))]))])
  {
    assert "a.b.d" == "a" + "." + "b.d";
    assert NoDot("a");
    var b1 := [("b", Dict([("c", Int(1))]))];
    var b2 := [("b", Dict([("c", Int(1)), ("d", Int(2))]))];
    AssignInnerExample();
    var t1 := [("a", Dict(b1))];
    AssignDotted(t1, "a", "b.d", Int(2));
    assert Lookup(t1, "a") == Some(Dict(b1));
    assert Set(t1, "a", Dict(b2)) == [("a", Dict(b2))];
  }

  /** `{"a.b.c": 1, "a.b.d": 2}` expands to `{"a": {"b": {"c": 1, "d": 2}}}`. */
  lemma ExpandSharedPrefix()
    ensures ExpandDocument(Dict([("a.b.c", Int(1)), ("a.b.d", Int(2))]))
         == Ok([("a", Dict([("b", Dict([("c", Int(1)), ("d", Int(2))]))]))])
  {
    var es := [("a.b.c", Int(1)), ("a.b.d", Int(2))];
    var t1 := [("a", Dict([("b", Dict([("c", Int(1))]))]))];
    var t2 := [("a", Dict([("b", Dict([("c", Int(1)), ("d", Int(2))]))]))];
    AssignFirstExample();
    AssignSecondExample();
    ExpandPair([], es[0], es[1]);
  }

  /** Expanding a two-entry document: assign the first key, then the
      second. */
  lemma ExpandPair(top: Entries, e1: (string, Value), e2: (string, Value))
    ensures ExpandFrom(top, [e1, e2]) ==
      match Assign(top, e1.0, e1.1)
      case None => Err(ScalarDescent(e1.0))
      case Some(t) =>
        (match Assign(t, e2.0, e2.1)
         case None => Err(ScalarDescent(e2.0))
         case Some(t2) => Ok(t2))
  {
    assert [e1, e2][1..] == [e2];
    assert [e2][1..] == [];
    match Assign(top, e1.0, e1.1)
    case None =>
    case Some(t) =>
      assert ExpandFrom(top, [e1, e2]) == ExpandFrom(t, [e2]);
      match Assign(t, e2.0, e2.1)
      case None =>
      case Some(t2) =>
        assert ExpandFrom(t, [e2]) == ExpandFrom(t2, []);
  }

  /** `{"a": 1, "a.b": 2}` expands to `{"a": {"": 1, "b": 2}}`. */
  lemma ExpandRewrapsScalar()
    ensures ExpandDocument(Dict([("a", Int(1)), ("a.b", Int(2))]))
         == Ok([("a", Dict([("", Int(1)), ("b", Int(2))]))])
  {
    var es := [("a", Int(1)), ("a.b", Int(2))];
    assert "a.b" == "a" + "." + "b";
    var t1 := [("a", Int(1))];
    assert NoDot("a") && NoDot("b");
    AssignPlain([], "a", Int(1));
    AssignDotted(t1, "a", "b", Int(2));
    assert Lookup(t1, "a") == Some(Int(1));
    var inner := [("", Int(1)), ("b", Int(2))];
    assert Set([("", Int(1))], "b", Int(2)) == inner;
    var t2 := [("a", Dict(inner))];
    assert Set(t1, "a", Dict(inner)) == t2;
    assert Assign(t1, "a.b", Int(2)) == Some(t2);
    ExpandPair([], es[0], es[1]);
  }

  /** `{"a": 1, "a.b.c": 2}` fails: Python tests `'b' in 1`. */
  lemma ExpandDeepScalarFails()
    ensures ExpandDocument(Dict([("a", Int(1)), ("a.b.c", Int(2))])) == Err(ScalarDescent("a.b.c"))
  {
    var es := [("a", Int(1)), ("a.b.c", Int(2))];
    assert "a.b.c" == "a" + "." + "b.c";
    assert "b.c"[1] == '.';
    var t1 := [("a", Int(1))];
    AssignPlain([], "a", Int(1));
    AssignDotted(t1, "a", "b.c", Int(2));
    assert Assign(t1, "a.b.c", Int(2)) == None;
    ExpandPair([], es[0], es[1]);
  }

  predicate Expands(doc: Value) {
    ExpandDocument(doc).Ok?
  }

  /** The `for ykey, yval in ydef.items()` loop of py/newt/config.py:64-77
      over one document's entries, building `top` from `{}`. */
  method ExpandEntries(es: Entries) returns (r: Result<Entries, ParseError>)
    ensures r == ExpandFrom([], es)
  {
    var top: Entries := [];
    var k := 0;
    while k < |es|
      invariant k <= |es|
      invariant ExpandFrom(top, es[k..]) == ExpandFrom([], es)
    {
      var (ykey, yval) := es[k];
      assert es[k..][1..] == es[k + 1..];
      match Assign(top, ykey, yval)
      case None =>
        return Err(ScalarDescent(ykey));
      case Some(t) =>
        top := t;
      k := k + 1;
    }
    assert es[k..] == [];
    r := Ok(top);
  }

  /** `_parse` over the documents of one file for module `modname`. Every
      document is expanded in turn, the first failure aborts, and
      `contents[modname] = top` sits inside the loop, so only the last
      document survives. */
  method Parse(modname: string, docs: seq<Value>) returns (r: Result<Entries, ParseError>)
    ensures r.Ok? <==> forall i | 0 <= i < |docs| :: Expands(docs[i])
    ensures r.Ok? ==> r.value == if docs == [] then [] else [(modname, Dict(ExpandDocument(docs[|docs| - 1]).value))]
    ensures r.Err? ==> exists i | 0 <= i < |docs| ::
      (forall j | 0 <= j < i :: Expands(docs[j])) && ExpandDocument(docs[i]) == Err(r.error)
  {
    var contents: Entries := [];
    var n := 0;
    while n < |docs|
      invariant n <= |docs|
      invariant forall i | 0 <= i < n :: Expands(docs[i])
      invariant contents == if n == 0 then [] else [(modname, Dict(ExpandDocument(docs[n - 1]).value))]
    {
      var ydef := docs[n];
      if !ydef.Dict? {
        FailsAt(docs, n, MalformedDocument);
        return Err(MalformedDocument);
      }
      var top := ExpandEntries(ydef.entries);
      if top.Err? {
        FailsAt(docs, n, top.error);
        return Err(top.error);
      }
      Expanded(docs, n, top.value);
      SetOnly(contents, modname, Dict(top.value));
      contents := Set(contents, modname, Dict(top.value));
      n := n + 1;
    }
    r := Ok(contents);
  }

  /** One more document that expands. */
  lemma Expanded(docs: seq<Value>, n: nat, top: Entries)
    requires n < |docs| && docs[n].Dict?
    requires forall j | 0 <= j < n :: Expands(docs[j])
    requires ExpandFrom([], docs[n].entries) == Ok(top)
    ensures forall j | 0 <= j < n + 1 :: Expands(docs[j])
    ensures ExpandDocument(docs[n]).value == top
  {
  }

  /** The first document that does not expand decides the error. */
  lemma FailsAt(docs: seq<Value>, n: nat, e: ParseError)
    requires n < |docs|
    requires forall j | 0 <= j < n :: Expands(docs[j])
    requires ExpandDocument(docs[n]) == Err(e)
    ensures !(forall i | 0 <= i < |docs| :: Expands(docs[i]))
    ensures exists i | 0 <= i < |docs| ::
      (forall j | 0 <= j < i :: Expands(docs[j])) && ExpandDocument(docs[i]) == Err(e)
  {
    assert !Expands(docs[n]);
  }
}
