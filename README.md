# NewtConfigParser configuration trees, in Dafny

This project models the configuration-tree core of `NewtConfigParser`
(py/newt/config.py). That core turns the `syscfg.yml` and `pkg.yml` documents
of a Mynewt source tree into one merged system-configuration tree, a table of
setting definitions, and the ordered list of package init functions. It has
these stages:

- **Expander** (`_parse`): a document whose keys are dotted paths
  (`a.b.c: 1`) becomes a nested tree. A scalar met one segment before the
  end of a path is kept under the empty key `''` of a new dict.
- **Merger** (`merge_containers`): two trees are combined.
  - Lists are concatenated.
  - Dicts merge key by key.
  - For any other first operand, the second operand wins.
  - A dict merged with a non-dict is a conflict. The tolerant mode keeps the
    first dict; the strict mode fails with a `key.key.[dict + x]: merge
    failure` message.
- **Cleaner** (`_build` and its `cleanup` closure): in each collected value,
  - dicts holding a keyword (`deprecated`) are pruned;
  - `description` entries and `None` children are dropped;
  - `{value: x}` wrappers are unwrapped;
  - `MYNEWT_VAL(...)` references are rewritten to the bare setting name.

  The cleaned values are then folded with the tolerant merge.
- **Paths** (`_get`): dotted paths are walked. A missing key yields `{}`, and
  a value that cannot be subscripted is an error.
- **Resolver** (`_resolve`): a name is followed through the `defs` table
  until it is no longer a key.
- **Init ordering** (`_build_pkg`): the `pkg.init` entries are resolved and
  sorted, stably, by their resolved value.

Module layout:

| file | module | models |
|---|---|---|
| `values.dfy` | `Values` | YAML values; dicts as insertion-ordered association lists; `dict.update` |
| `paths.dfy` | `Paths` | `path.split('.')`, `_get` |
| `expand.dfy` | `Expand` | the expansion loop of `_parse` |
| `macro.dfy` | `Macro` | `NEWT_CRE.sub(r'\3', …)` |
| `merge.dfy` | `Merge` | `merge_containers` |
| `build.dfy` | `Build` | `cleanup` and the fold of `_build` |
| `resolve.dfy` | `Resolve` | `_resolve` as a function with a step budget |
| `order.dfy` | `Order` | Python `<` on the sort keys; `sorted` as a stable insertion sort |
| `parser.dfy` | `Config` | the `NewtConfigParser` object and its state-changing methods |

How the source's behaviour is represented:

- **Exceptions** become error results, not preconditions:
  - `_get` on a value that cannot be subscripted;
  - `inits.items()` on a non-dict;
  - `name not in value` on a list or dict name;
  - `<` between values of different kinds;
  - the strict merge failure;
  - a malformed document or a twice-scalar descent in `_parse`.
- **The `_resolve` loop** has no cycle guard. It is specified by
  `ResolveWithin`, which gives up when its step budget runs out. Its callers
  require that some budget suffices (`Resolvable`).

A scalar first operand never conflicts: `merge_containers` returns the
second operand (py/newt/config.py:197). So `merge({"x": 1}, {"x": {"y": 2}})`
gives `{"x": {"y": 2}}` in both modes (`Merge.MergeScalarThenDict`). A
conflict arises only when the first operand is a dict and the second is
neither a dict nor None (py/newt/config.py:177-185):
`Merge.MergeDictThenScalarTolerant` keeps the dict, and
`Merge.MergeDictThenScalarStrict` fails at path `x`, naming `1`.

## Model

| member | source | states |
|---|---|---|
| `Paths.Split` | py/newt/config.py:110 | `path.split('.')` yields at least one segment, none holding a dot; `JoinSplit` and `SplitJoin` make it the inverse of joining with dots |
| `Paths.Walk` | py/newt/config.py:110-115 | subscripting a non-dict fails, and a failure names a segment of the path and the non-dict it met; `WalkMissing` and `WalkAppend` give the rest |
| `Paths.Get` | py/newt/config.py:109-115 | `_get` on a value that is not a dict always fails, since a path has at least one segment; a failure names a segment of the path |
| `Values.Update` | py/newt/config.py:46 | `dict.update`: the keys afterwards are the union of both key sets, and distinct keys stay distinct |
| `Values.LookupUpdate` | py/newt/config.py:49 | after `update`, a key of the new contents maps to its new value; every other key keeps its old value |
| `Values.Set` | py/newt/config.py:147 | `d[k] = v`: adds `k`, maps it to `v`, leaves every other key's value alone, keeps keys distinct |
| `Paths.JoinSplit` | py/newt/config.py:110 | re-joining the segments of `path.split('.')` with dots gives the path back |
| `Paths.SplitJoin` | py/newt/config.py:110 | splitting a dot-joined list of dot-free segments gives the segments back |
| `Paths.WalkMissing` | py/newt/config.py:109-115 | a walk that meets a dict lacking the next segment yields `{}` (the `KeyError` branch), whatever segments follow |
| `Paths.WalkAppend` | py/newt/config.py:110-112 | walking `p + q` is walking `p` and then `q` from where `p` ended |
| `Expand.Assign` | py/newt/config.py:64-77 | storing one dotted key adds only its first segment at top level and leaves every other top-level key's value unchanged |
| `Expand.AssignThenGet` | py/newt/config.py:64-77 | after a dotted key is stored, `_get` of that same path returns the stored value |
| `Expand.AssignFailsIff` | py/newt/config.py:66-77 | storing fails exactly when walking the parent segments meets a value that cannot be subscripted |
| `Expand.KeepsScalarUnderEmptyKey` | py/newt/config.py:68-72 | storing `head.rest` under a scalar at `head` keeps the scalar at `head.''` and puts the value at `head.rest` |
| `Expand.AssignPlain` | py/newt/config.py:67-73 | a key without a dot is a plain dict assignment |
| `Expand.AssignDotted` | py/newt/config.py:74-77 | a dotted key descends into the existing child, or into a new `{}` if the segment is missing |
| `Expand.AssignFirstExample` | py/newt/config.py:64-77 | `a.b.c: 1` into `{}` gives `{a: {b: {c: 1}}}` |
| `Expand.AssignInnerExample` | py/newt/config.py:64-77 | `b.d: 2` into `{b: {c: 1}}` gives `{b: {c: 1, d: 2}}` |
| `Expand.AssignSecondExample` | py/newt/config.py:64-77 | `a.b.d: 2` into `{a: {b: {c: 1}}}` extends the existing inner dict |
| `Expand.ExpandHeads` | py/newt/config.py:62-78 | an expanded document's top-level keys are exactly the first segments of its keys, and they are distinct |
| `Expand.AssignKeeps` | py/newt/config.py:64-77 | storing a key leaves the walk along any path that parts from the key's segments unchanged, at any depth |
| `Expand.ExpandKeeps` | py/newt/config.py:64-78 | expanding a run of keys that all part from a path leaves the walk along that path unchanged |
| `Expand.ExpandPlaces` | py/newt/config.py:64-78 | after expansion, `_get` of a document's key returns its value whenever every later key parts from it |
| `Expand.ExpandPlacesAll` | py/newt/config.py:62-78 | when no key's segments are a prefix of another's, every key of the document leads to its own value in the expanded tree |
| `Expand.ExpandFrom` | py/newt/config.py:64-78 | the loop never removes a top-level key; a failure is always a scalar descent on one of the document's own keys |
| `Expand.ExpandDocument` | py/newt/config.py:58-78 | a document is reported malformed exactly when it is not a dict; any other failure names one of its keys |
| `Expand.ExpandPlacesLast` | py/newt/config.py:64-78 | after a document is expanded, its last key's path leads to its last value |
| `Expand.ExpandSharedPrefix` | py/newt/config.py:62-78 | `{a.b.c: 1, a.b.d: 2}` expands to `{a: {b: {c: 1, d: 2}}}` |
| `Expand.ExpandRewrapsScalar` | py/newt/config.py:69-72 | `{a: 1, a.b: 2}` expands to `{a: {'': 1, b: 2}}` |
| `Expand.ExpandDeepScalarFails` | py/newt/config.py:74-77 | `{a: 1, a.b.c: 2}` fails on key `a.b.c` |
| `Expand.ExpandEntries` | py/newt/config.py:64-78 | the loop over one document's entries returns the fold `ExpandFrom` from `{}`: the expanded tree, or the first key that descends through a scalar |
| `Expand.Parse` | py/newt/config.py:56-79 | the result is Ok exactly when every document expands. It then holds only the module's last document. On failure, the error is that of the first failing document |
| `Macro.MatchAt` | py/newt/config.py:24 | a match covers at least `MYNEWT_VAL`, stays inside the string, and its group 3 lies inside the match |
| `Macro.SubFrom` | py/newt/config.py:146 | replacing each match by its group 3, left to right, never lengthens the rest of the string |
| `Macro.Normalize` | py/newt/config.py:146 | `NEWT_CRE.sub(r'\3', s)` is never longer than `s`; the lemmas below give its result on each form of reference |
| `Macro.NormalizeParenthesised` | py/newt/config.py:24 | `MYNEWT_VAL(n)` becomes `n`, without a leading `_` |
| `Macro.NormalizeUnderscore` | py/newt/config.py:24 | `MYNEWT_VAL_n` becomes `n` |
| `Macro.NormalizeBare` | py/newt/config.py:24 | `MYNEWT_VALn` becomes `n` when `n` starts with neither `(` nor `_` |
| `Macro.NormalizeWithoutMacro` | py/newt/config.py:146 | a string without `MYNEWT_VAL` is left unchanged |
| `Macro.SingleMatch` | py/newt/config.py:146 | a string that is one whole match is replaced by group 3 of that match |
| `Macro.NormalizeParenExample` | py/newt/config.py:24 | `MYNEWT_VAL(FOO_BAR)` gives `FOO_BAR` |
| `Macro.NormalizeUnderscoreExample` | py/newt/config.py:24 | `MYNEWT_VAL_FOO` gives `FOO` |
| `Merge.Without` | py/newt/config.py:192-195 | `keys() - overlapping_keys`: exactly the keys outside the set, drawn from the dict |
| `Merge.MergeContainers` | py/newt/config.py:155-197 | the tolerant merge never fails; merging into a dict yields a dict |
| `Merge.MergeShared` | py/newt/config.py:186-191 | the shared-key loop yields exactly the keys common to both dicts; it never fails in tolerant mode |
| `Merge.LookupWithout` | py/newt/config.py:192-195 | a key removed from a dict looks up as absent; any other key looks up as before |
| `Merge.LookupShared` | py/newt/config.py:186-189 | every shared key holds the merge of its two values |
| `Merge.MergeDictsLookup` | py/newt/config.py:173-196 | the tolerant merge of two dicts has the union of their keys. A key on one side keeps its value; a shared key holds the recursive merge of its two values |
| `Merge.MergeIdempotent` | py/newt/config.py:165-197 | merging a list-free tree with itself gives the tree, in both modes |
| `Merge.MergeListAppends` | py/newt/config.py:165-172 | a list first operand never fails in either mode; the result starts with the first list, followed by a second list's items, by nothing for None, or by any other value as one item |
| `Merge.MergeListsConcatenate` | py/newt/config.py:165-172 | `merge([1, 2], [1, 2]) == [1, 2, 1, 2]`: list merge is not idempotent |
| `Merge.MergeDisjoint` | py/newt/config.py:176-196 | dicts with disjoint keys merge to their concatenation |
| `Merge.MergeAssociativeDisjoint` | py/newt/config.py:176-196 | on pairwise-disjoint dicts, `merge(merge(a, b), c) == merge(a, merge(b, c))` |
| `Merge.StrictFailsIff` | py/newt/config.py:173-191 | the strict merge fails exactly when, at some shared path, the first tree holds a dict and the second holds neither a dict nor None |
| `Merge.SharedFailsIff` | py/newt/config.py:186-191 | the shared-key loop fails exactly when some shared key conflicts |
| `Merge.StrictAgreesWithTolerant` | py/newt/config.py:177-185 | when the strict merge succeeds, its result is the tolerant one |
| `Merge.ErrorLocatesConflict` | py/newt/config.py:180-191 | the strict failure names a path present in both trees, where the first holds a dict and the second holds the offending value |
| `Merge.MergeWF` | py/newt/config.py:155-197 | merging trees with distinct keys keeps keys distinct |
| `Merge.MergeScalarThenDict` | py/newt/config.py:197 | `merge({x: 1}, {x: {y: 2}})` gives `{x: {y: 2}}` in both modes |
| `Merge.MergeDictThenScalarTolerant` | py/newt/config.py:181-183 | `merge({x: {y: 2}}, {x: 1}, True)` keeps `{x: {y: 2}}` |
| `Merge.MergeDictThenScalarStrict` | py/newt/config.py:184-191 | the strict merge of the same fails at path `x`, naming the value `1` |
| `Merge.Describe` | py/newt/config.py:161-164 | `desc`, by definition: lists and dicts by type name, other values as themselves; exemplified by `ConflictMessage` for an int |
| `Merge.Message` | py/newt/config.py:180-191 | the ValueError text, by definition: one `key.` prefix per level of the conflict path, then `[dict + x]: merge failure`; exemplified by `ConflictMessage` |
| `Merge.ConflictMessage` | py/newt/config.py:161-191 | that failure renders as `x.[dict + 1]: merge failure` |
| `Build.Clean` | py/newt/config.py:129-148 | a non-dict is returned unchanged. A dict becomes None exactly when it holds a keyword; otherwise it stays a dict with no new keys |
| `Build.CleanEntryCleaned` | py/newt/config.py:136-147 | a child that is kept is never None and never a `{value: x}` wrapper, and is itself cleaned at every depth |
| `Build.CleanWrapped` | py/newt/config.py:139-146 | a child `{value: s}` with a non-empty string is stored as `s` rewritten by `NEWT_CRE` twice: once by the inner cleanup, once more after unwrapping |
| `Build.CleanWrappedString` | py/newt/config.py:139-146 | when the first rewrite leaves no `MYNEWT_VAL`, the second changes nothing: `{value: s}` is stored as `s` rewritten once |
| `Build.CleanNestedReference` | py/newt/config.py:139-146 | `{value: MYNEWT_VAL(MYNEWT_VAL_N)}` is stored as `N`, while the plain child `MYNEWT_VAL(MYNEWT_VAL_N)` is stored as `MYNEWT_VAL_N` |
| `Build.CleanParenthesisedValue` | py/newt/config.py:139-146 | a child `{value: MYNEWT_VAL(N)}` is stored as the string `N`, less a leading `_`, when that name holds no further `MYNEWT_VAL` |
| `Build.CleanUnderscoreValue` | py/newt/config.py:139-146 | a child `{value: MYNEWT_VAL_N}` is stored as the string `N` when `N` holds no further `MYNEWT_VAL` |
| `Build.CleanEntries` | py/newt/config.py:135-148 | the rebuilt dict has no keys beyond the original's |
| `Build.CleanLookup` | py/newt/config.py:135-148 | each key of a cleaned dict holds the finished, cleaned original child, and dropped children are absent |
| `Build.CleanIsCleaned` | py/newt/config.py:129-148 | a cleaned tree has, at every depth: no `description` key, no keyword key, no None child and no wrapper child |
| `Build.CleanWF` | py/newt/config.py:129-148 | cleaning keeps keys distinct |
| `Build.CleanUnwrapsValue` | py/newt/config.py:136-147 | `{k: {value: 5, description: d}}` cleans to `{k: 5}` |
| `Build.CleanPrunesKeyword` | py/newt/config.py:132-134 | a child dict holding `deprecated` vanishes from its parent's keys |
| `Build.MergeCleaned` | py/newt/config.py:152 | the tolerant merge of two cleaned trees is a cleaned tree |
| `Build.ValuesOf` | py/newt/config.py:150 | `items.values()` in insertion order |
| `Build.Built` | py/newt/config.py:149-153 | the fold of cleaned values through the tolerant merge is always a dict; `BuiltKeys`, `BuiltWF` and `BuiltCleaned` give its keys and shape |
| `Build.BuiltKeys` | py/newt/config.py:149-153 | a key is in the built dict exactly when it is a key of some cleaned collected value |
| `Build.BuiltWF` | py/newt/config.py:149-153 | the built dict has distinct keys |
| `Build.BuiltCleaned` | py/newt/config.py:149-153 | the built dict is a cleaned tree |
| `Resolve.Step` | py/newt/config.py:122 | one step moves to the value stored under the name |
| `Resolve.ResolveWithin` | py/newt/config.py:117-126 | a result the loop reaches is never a key it would follow further |
| `Resolve.Resolved` | py/newt/config.py:117-126 | the resolved name is not a further key of the table |
| `Resolve.ResolvedWithin` | py/newt/config.py:117-126 | every step budget that suffices gives the same result |
| `Resolve.ResolvedAbsent` | py/newt/config.py:119-121 | a name that is not a key (or a table that is not a dict) is returned as it is |
| `Resolve.ResolvedStep` | py/newt/config.py:119-122 | a name that is a key resolves as the value it maps to |
| `Resolve.ResolveChain` | py/newt/config.py:117-126 | `{A: B, B: C, C: 7}` resolves `A` to `7` |
| `Resolve.ResolveCycle` | py/newt/config.py:119-122 | with `{A: A}`, the loop never stops from `A` |
| `Resolve.ResolveTwoCycle` | py/newt/config.py:119-122 | with `{A: B, B: A}`, the loop never stops from `A` or from `B` |
| `Resolve.CycleSpins` | py/newt/config.py:119-122 | two names that step to each other (or one that steps to itself) never stop, whatever the budget |
| `Resolve.RankedResolves` | py/newt/config.py:117-126 | when the table's lookups form no cycle (a ranking that every step lowers), the loop stops from every name, within its rank plus one steps |
| `Resolve.RankedWithinSize` | py/newt/config.py:117-126 | with ranks below the table's size, one step per entry always suffices |
| `Resolve.ResolvableRanked` | py/newt/config.py:117-126 | conversely, when the loop stops from every key, such a ranking exists |
| `Order.Less` | py/newt/config.py:91 | Python `<` on sort keys: numbers by value, strings lexicographically; `LessAsymmetric` and `StrLessTotal` make it a strict order |
| `Order.SortByValue` | py/newt/config.py:91 | `sorted(cinits, key=…)`: `SortPermutation`, `SortSorted` and `SortStable` make it the stable sorted permutation |
| `Order.StrLessTotal` | py/newt/config.py:91 | string `<` is a strict total order (with `StrLessIrreflexive` and `StrLessTransitive`) |
| `Order.LessAsymmetric` | py/newt/config.py:91 | the key order `<` is asymmetric |
| `Order.SortPermutation` | py/newt/config.py:91 | `sorted` returns a permutation of its input |
| `Order.SortSorted` | py/newt/config.py:91 | on keys that Python can compare, the result is sorted by value |
| `Order.SortKeys` | py/newt/config.py:91 | sorting keeps the set of names, and distinct names stay distinct |
| `Order.SortStable` | py/newt/config.py:91 | entries with equal sort keys keep their input order |
| `Order.Names` | py/newt/config.py:91-92 | the appended function names, in sorted order |
| `Config.RankedPkgsResolvable` | py/newt/config.py:84-89 | a `_defs` table without lookup cycles, or one that is not a dict, lets every init name resolve |
| `Config.PkgInitDistinct` | py/newt/config.py:84 | the `pkg.init` dict found in the built tree has distinct names when the package dicts do |
| `Config.CInits` | py/newt/config.py:85-89 | the `cinits` dict has one distinct key per non-dict init entry |
| `Config.CInitsFails` | py/newt/config.py:85-89 | the loop fails exactly when `_defs` is a dict and some init value is a list; the error names the first such entry |
| `Config.CInitsListing` | py/newt/config.py:85-89 | `cinits` lists the non-dict entries in order, each with its resolved value |
| `Config.SplitPaths` | py/newt/config.py:104-106 | the pre-split segments walked by the class are `'syscfg.defs'.split('.')` and `'pkg.init'.split('.')` |
| `Config.InitsOnce` | py/newt/config.py:84-92 | every non-dict init name appears in `_inits` exactly once, and nothing else does |
| `Config.InitsSorted` | py/newt/config.py:85-92 | `_inits` is sorted by resolved value, and each name's key is the resolution of its own `pkg.init` entry |
| `Config.InitsStable` | py/newt/config.py:91 | names whose values resolve equally keep their `pkg.init` order |
| `Config.NewtConfigParser.constructor` | py/newt/config.py:26-33 | every collection starts empty |
| `Config.NewtConfigParser.AddSyscfg` | py/newt/config.py:46 | `_syscfgs.update(contents)`; no other field changes |
| `Config.NewtConfigParser.AddPkg` | py/newt/config.py:49 | `_pkgs.update(contents)`; no other field changes |
| `Config.NewtConfigParser.BuildTree` | py/newt/config.py:149-153 | the loop computes `Built` (whose keys, well-formedness and cleanliness are proved above) |
| `Config.NewtConfigParser.BuildSyscfg` | py/newt/config.py:104-106 | `_syscfg` is the tree built with keyword `deprecated`. `_defs` becomes its `syscfg.defs`, or stays as it was when `_get` raises. Nothing else changes |
| `Config.NewtConfigParser.ResolveName` | py/newt/config.py:117-126 | a list or dict name against a dict table is an error; any other name resolves to `Resolved` |
| `Config.NewtConfigParser.ResolveInits` | py/newt/config.py:85-89 | the loop computes `CInits`, including its error |
| `Config.NewtConfigParser.FillInits` | py/newt/config.py:90-92 | `_inits` is cleared; then it becomes the stably sorted names, or stays empty when the keys cannot be compared |
| `Config.NewtConfigParser.BuildPkg` | py/newt/config.py:83-92 | a `_get` or `_resolve` error leaves `_inits` unchanged. An unorderable key set leaves it empty. Otherwise it holds the init names sorted by resolved value. Other fields do not change |

## Left out

- `scan` (py/newt/config.py:35-51) is not modelled beyond its two `update`
  calls: it walks directories, opens files and picks them by file name. The
  model's callers supply the parsed contents. The `_build_syscfg` and
  `_build_pkg` calls are the class methods `BuildSyscfg` and `BuildPkg`.
- YAML loading is not modelled (py/newt/config.py:54, py/newt/config.py:80-81):
  `yaml_load`, `dirname` and the `ParserError`/`ConstructorError` wrapping.
  - `Parse` takes the items of the loaded value as a sequence of documents.
  - The module name is given as a string.
  - YAML floats, dates and non-string dict keys have no counterpart in the
    value type.
- Logging is not modelled: the logger and `_debug` fields (py/newt/config.py:27-28),
  `log.warning` (py/newt/config.py:124) and `log.error` (py/newt/config.py:182).
  They change no modelled state.
- The printing of the generated C fragment is not modelled
  (py/newt/config.py:93-102): it is output only. `_inits` holds what it
  prints.
- `deepcopy` is not modelled: values are immutable, so a copy is the value
  itself.
- Python's in-place aliasing is not modelled, for the same reason. This
  covers the aliasing through `source`/`prev` in `_parse` and
  `value.pop('value')` in `cleanup`.
- `Merge.MergeContainers`: the order of the keys in a merged dict is not
  modelled. Python builds it from set operations, whose order depends on
  string hashes. The model puts shared keys in the first dict's order, then
  the first dict's own keys, then the second's. Every statement about which
  keys a merged dict holds, and their values, holds for any order. The order
  itself matters in one place, the ties of `_inits` (next lines).
- `Merge.ErrorLocatesConflict`: the model names the first conflicting shared
  key in the first dict's order, because Python's set iteration order is not
  modelled. With several conflicting keys, Python may report a different one
  of them.
- `Config.NewtConfigParser.ResolveName`: requires that the lookup chain from
  the name ends (`Resolvable`). On a cycle such as `{A: A}`, the source loops
  forever (`Resolve.ResolveCycle`). A table with no lookup cycle meets this
  requirement for every name (`Resolve.RankedResolves`,
  `Config.RankedPkgsResolvable`).
- `Config.NewtConfigParser.ResolveInits`: requires the same of every
  non-dict init value.
- `Config.NewtConfigParser.BuildPkg`: requires the same of every non-dict
  init value.
- `Config.NewtConfigParser.BuildPkg`: the exact order of `_inits` is fixed
  only for the model's merge order. When several packages contribute to
  `pkg.init`, Python builds the merged dict from set iteration
  (py/newt/config.py:178, 186, 192-195), whose order follows string hashes
  that change from run to run. Names whose values resolve equally may then
  come out in a different order between runs. Which names appear, and that
  they are sorted by resolved value, hold for every order.
- `Config.InitsStable`: ties keep the order of the `pkg.init` dict as the
  model merges it. In Python that dict's order can change between runs, as
  above, and so can the order of tied names.
- `Config.NewtConfigParser.FillInits`: with two or more resolved values that
  are lists, Python compares the lists element by element. The model reports
  `Unorderable` for any two sort keys that are not both numbers or both
  strings. Lists, None and dicts are all treated so.
- `Order.SortByValue` is an insertion sort rather than Timsort. It is
  proved to be a sorted, stable permutation, which fixes its result.
