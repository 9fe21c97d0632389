/** Dotted key paths: `str.split('.')`, its inverse, and the `_get` walk
    down a tree along such a path (py/newt/config.py:108-115). */
module Paths {
  import opened Values

  /** Index of the first '.', or |s| when there is none. */
  function FirstDot(s: string): (i: nat)
    ensures i <= |s|
    ensures i < |s| ==> s[i] == '.'
    ensures forall j | 0 <= j < i :: s[j] != '.'
  {
    if s == [] || s[0] == '.' then 0 else 1 + FirstDot(s[1..])
  }

  predicate NoDot(s: string) {
    forall j | 0 <= j < |s| :: s[j] != '.'
  }

  /** The first dot of `head + "." + rest` is the one after `head`. */
  lemma DotAfter(head: string, rest: string)
    requires NoDot(head)
    ensures FirstDot(head + "." + rest) == |head|
    ensures (head + "." + rest)[..|head|] == head
    ensures (head + "." + rest)[|head| + 1..] == rest
  {
    var key := head + "." + rest;
    assert key[|head|] == '.';
    assert forall j | 0 <= j < |head| :: key[j] == head[j];
  }

  /** `s.split('.')`: every segment, empty ones included. */
  function Split(s: string): (segs: seq<string>)
    ensures |segs| >= 1
    ensures forall j | 0 <= j < |segs| :: NoDot(segs[j])
    decreases |s|
  {
    var i := FirstDot(s);
    if i == |s| then [s] else [s[..i]] + Split(s[i + 1..])
  }

  /** `'.'.join(segs)`. */
  function Join(segs: seq<string>): string
    requires |segs| >= 1
  {
    if |segs| == 1 then segs[0] else segs[0] + "." + Join(segs[1..])
  }

  lemma {:induction false} JoinSplit(s: string)
    ensures Join(Split(s)) == s
    decreases |s|
  {
    var i := FirstDot(s);
    if i < |s| {
      var rest := s[i + 1..];
      JoinSplit(rest);
      SplitAtDot(s);
      JoinCons(s[..i], Split(rest));
    }
  }

  /** A string with a dot splits into the part before it and the split of
      the part after it. */
  lemma SplitAtDot(s: string)
    requires FirstDot(s) < |s|
    ensures Split(s) == [s[..FirstDot(s)]] + Split(s[FirstDot(s) + 1..])
    ensures s == s[..FirstDot(s)] + "." + s[FirstDot(s) + 1..]
  {
    JoinAt(s, FirstDot(s));
  }

  /** A string is the parts around any of its dots, joined by a dot. */
  lemma JoinAt(s: string, i: nat)
    requires i < |s| && s[i] == '.'
    ensures s == s[..i] + "." + s[i + 1..]
  {
    assert s[i..] == [s[i]] + s[i + 1..];
    assert s == s[..i] + s[i..];
  }

  lemma JoinCons(a: string, segs: seq<string>)
    requires |segs| >= 1
    ensures Join([a] + segs) == a + "." + Join(segs)
  {
    assert ([a] + segs)[0] == a && ([a] + segs)[1..] == segs;
  }

  lemma {:induction false} SplitJoin(segs: seq<string>)
    requires |segs| >= 1
    requires forall j | 0 <= j < |segs| :: NoDot(segs[j])
    ensures Split(Join(segs)) == segs
  {
    if |segs| > 1 {
      var head, tail := segs[0], segs[1..];
      var rest := Join(tail);
      assert forall j | 0 <= j < |tail| :: NoDot(tail[j]) by {
        assert forall j | 0 <= j < |tail| :: tail[j] == segs[j + 1];
      }
      SplitJoin(tail);
      assert Join(segs) == head + "." + rest by {
        assert segs == [head] + tail;
        JoinCons(head, tail);
      }
      DotAfter(head, rest);
      SplitAtDot(head + "." + rest);
      assert [head] + tail == segs;
    } else {
      assert FirstDot(segs[0]) == |segs[0]|;
    }
  }

  /** Why `items[pth]` failed: the walk reached a value that is not a dict
      while segments remained, and Python raised TypeError. */
  datatype PathError = NotSubscriptable(segment: string, found: Value)

  /** The `_get` loop: descend one segment at a time; a missing key ends the
      walk with an empty dict. */
  function Walk(v: Value, segs: seq<string>): (r: Result<Value, PathError>)
    ensures segs != [] && !v.Dict? ==> r.Err?
    ensures r.Err? ==> r.error.segment in segs && !r.error.found.Dict?
    decreases |segs|
  {
    if segs == [] then Ok(v)
    else match v
      case Dict(d) =>
        (match Lookup(d, segs[0])
         case None => Ok(Dict([]))
         case Some(c) => Walk(c, segs[1..]))
      case _ => Err(NotSubscriptable(segs[0], v))
  }

  /** Every segment of the path is present: the walk descends through dicts
      only and never stops early at a missing key. */
  predicate Reaches(v: Value, segs: seq<string>)
    decreases |segs|
  {
    segs == [] ||
    (v.Dict? && segs[0] in Keys(v.entries) && Reaches(Lookup(v.entries, segs[0]).value, segs[1..]))
  }

  /** `_get(items, path)` (py/newt/config.py:109-115). */
  function Get(v: Value, path: string): (r: Result<Value, PathError>)
    ensures !v.Dict? ==> r.Err?
    ensures r.Err? ==> r.error.segment in Split(path)
  {
    Walk(v, Split(path))
  }

  /** Walking along `p + q` is walking along `p`, then along `q`. */
  lemma {:induction false} WalkAppend(v: Value, p: seq<string>, q: seq<string>)
    requires Walk(v, p).Ok?
    ensures Walk(v, p + q) == Walk(Walk(v, p).value, q)
    decreases |p|
  {
    if p != [] {
      assert (p + q)[0] == p[0] && (p + q)[1..] == p[1..] + q;
      match Lookup(v.entries, p[0])
      case None => WalkEmptyDict(q);
      case Some(c) =>
        WalkAppend(c, p[1..], q);
        assert Walk(v, p + q) == Walk(c, p[1..] + q);
    } else {
      assert p + q == q;
    }
  }

  lemma {:induction false} WalkEmptyDict(q: seq<string>)
    ensures Walk(Dict([]), q) == Ok(Dict([]))
  {
  }

  /** `_get` returns the subtree at a path whose every segment is present,
      and `{}` as soon as one segment is missing below a dict. */
  lemma {:induction false} WalkMissing(v: Value, segs: seq<string>, j: nat)
    requires j < |segs|
    requires Walk(v, segs[..j]).Ok? && Walk(v, segs[..j]).value.Dict?
    requires segs[j] !in Keys(Walk(v, segs[..j]).value.entries)
    ensures Walk(v, segs) == Ok(Dict([]))
  {
    assert segs == segs[..j] + segs[j..];
    WalkAppend(v, segs[..j], segs[j..]);
  }

  /** Walking preserves well-formedness: every dict reached is a Python dict. */
  lemma {:induction false} WalkWF(v: Value, segs: seq<string>)
    requires WF(v)
    requires Walk(v, segs).Ok?
    ensures WF(Walk(v, segs).value)
    decreases |segs|
  {
    if segs != [] {
      match Lookup(v.entries, segs[0])
      case None =>
      case Some(c) =>
        LookupWF(v.entries, segs[0]);
        WalkWF(c, segs[1..]);
    }
  }
}
