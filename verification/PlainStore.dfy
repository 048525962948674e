/**
 The datastore of bitbake/lib/bb/data_smart.py as one plain map of variables and one plain
 index of overrides: what a copy made eagerly would hold. `DataSmart` refines it.
 */
module PlainStore {
  import opened Colons
  import opened Lists
  import opened Options

  /** A flag holds text, or the pending operations under `:append`, `:prepend` and `:remove`. */
  datatype Value = Text(text: string) | Ops(ops: seq<(string, Option<string>)>)
  type FlagMap = map<string, Value>
  /** `[variable, override]` pairs. */
  type Overrides = seq<(string, string)>

  datatype Store = Store(vars: map<string, FlagMap>, index: map<string, Overrides>)

  function FlagsOf(s: Store, v: string): FlagMap {
    if v in s.vars then s.vars[v] else map[]
  }

  // ---- names ----

  /** Where the last colon before `n` is, or -1. */
  function RFind(name: string, n: nat): (r: int)
    requires n <= |name|
    ensures -1 <= r < n
  {
    if n == 0 then -1 else if name[n - 1] == ':' then n - 1 else RFind(name, n - 1)
  }

  /** The override pattern matches from `i` on: there is a lower-case letter or a digit. */
  predicate OverrideLike(name: string, i: nat) {
    i < |name| && ('a' <= name[i] <= 'z' || '0' <= name[i] <= '9')
  }

  /** The colons that the loop of `_setvar_update_overrides` and `delVar` still visits below `n`. */
  function CutsBelow(name: string, n: nat): seq<int>
    requires n <= |name|
  {
    var r := RFind(name, n);
    if r <= 0 || !OverrideLike(name, r + 1) then [] else [r] + CutsBelow(name, r)
  }

  /** All of them. The first `rfind` is not guarded: without a colon the loop cuts at -1. */
  function Cuts(name: string): seq<int> {
    var r := RFind(name, |name|);
    if !OverrideLike(name, r + 1) then [] else [r] + if r < 0 then [] else CutsBelow(name, r)
  }

  /** The name up to the cut; a cut at -1 drops the last character. */
  function Base(name: string, r: int): string
    requires -1 <= r <= |name|
  {
    if r >= 0 then name[..r] else if name == "" then "" else name[..|name| - 1]
  }

  function Override(name: string, r: int): string
    requires -1 <= r < |name|
  {
    name[r + 1..]
  }

  ghost predicate AreCuts(name: string, cuts: seq<int>) {
    forall i :: 0 <= i < |cuts| ==> -1 <= cuts[i] < |name|
  }

  lemma {:induction false} CutsBelowAreCuts(name: string, n: nat)
    requires n <= |name|
    ensures AreCuts(name, CutsBelow(name, n))
  {
    var r := RFind(name, n);
    if r > 0 { CutsBelowAreCuts(name, r); }
  }

  lemma CutsAreCuts(name: string)
    ensures AreCuts(name, Cuts(name))
  {
    var r := RFind(name, |name|);
    if r >= 0 { CutsBelowAreCuts(name, r); }
  }

  predicate Contains(name: string, part: string) {
    exists i :: 0 <= i <= |name| && StartsWith(name[i..], part)
  }

  /** The old override syntax, which `setVar` refuses. */
  predicate OldSyntax(name: string) {
    !StartsWith(name, "__anon_") &&
    (Contains(name, "_append") || Contains(name, "_prepend") || Contains(name, "_remove"))
  }

  predicate NoUpper(s: string) {
    forall i :: 0 <= i < |s| ==> !('A' <= s[i] <= 'Z')
  }

  datatype Operation = Operation(base: string, keyword: string, add: Option<string>)

  /** The operation suffix at position `i`, if the rest of the name is one. */
  function OperationAt(name: string, i: nat, keyword: string): Option<Operation>
    requires i <= |name|
  {
    if !StartsWith(name[i..], keyword) then None
    else
      var rest := name[i + |keyword|..];
      if rest == "" then Some(Operation(name[..i], keyword, None))
      else if rest[0] == ':' && NoUpper(rest[1..]) then Some(Operation(name[..i], keyword, Some(rest[1..])))
      else None
  }

  const APPEND := ":append"
  const PREPEND := ":prepend"
  const REMOVE := ":remove"

  /** `__setvar_regexp__`: the shortest base, from position `i` on. */
  function ParseFrom(name: string, i: nat): Option<Operation>
    requires i <= |name|
    decreases |name| - i
  {
    if OperationAt(name, i, APPEND).Some? then OperationAt(name, i, APPEND)
    else if OperationAt(name, i, PREPEND).Some? then OperationAt(name, i, PREPEND)
    else if OperationAt(name, i, REMOVE).Some? then OperationAt(name, i, REMOVE)
    else if i == |name| then None
    else ParseFrom(name, i + 1)
  }

  function ParseOperation(name: string): Option<Operation> {
    ParseFrom(name, 0)
  }

  /** An override is active when it, or every part of it, is in OVERRIDES. */
  predicate Active(o: string, overrides: set<string>) {
    o in overrides || (':' in o && forall p :: p in Split(o) ==> p in overrides)
  }

  // ---- the index ----

  function IndexAdd(index: map<string, Overrides>, name: string, r: int): map<string, Overrides>
    requires -1 <= r < |name|
  {
    var base, o := Base(name, r), Override(name, r);
    var list := if base in index then index[base] else [];
    index[base := if (name, o) in list then list else list + [(name, o)]]
  }

  /** `IndexAdd` for the first `i` cuts. */
  function IndexAddAll(index: map<string, Overrides>, name: string, cuts: seq<int>, i: nat): map<string, Overrides>
    requires AreCuts(name, cuts) && i <= |cuts|
  {
    if i == 0 then index else IndexAdd(IndexAddAll(index, name, cuts, i - 1), name, cuts[i - 1])
  }

  function IndexRemove(index: map<string, Overrides>, name: string, r: int): map<string, Overrides>
    requires -1 <= r < |name|
  {
    var base, o := Base(name, r), Override(name, r);
    if base in index then index[base := RemoveFirst(index[base], (name, o))] else index
  }

  /** `IndexRemove` for the first `i` cuts. */
  function IndexRemoveAll(index: map<string, Overrides>, name: string, cuts: seq<int>, i: nat): map<string, Overrides>
    requires AreCuts(name, cuts) && i <= |cuts|
  {
    if i == 0 then index else IndexRemove(IndexRemoveAll(index, name, cuts, i - 1), name, cuts[i - 1])
  }

  function Indexed(index: map<string, Overrides>, name: string): map<string, Overrides> {
    CutsAreCuts(name);
    IndexAddAll(index, name, Cuts(name), |Cuts(name)|)
  }

  function Unindexed(index: map<string, Overrides>, name: string): map<string, Overrides> {
    CutsAreCuts(name);
    IndexRemoveAll(index, name, Cuts(name), |Cuts(name)|)
  }

  // ---- updates ----

  function UpdateOverrides(s: Store, name: string): Store {
    s.(index := Indexed(s.index, name))
  }

  function SetFlag(s: Store, v: string, flag: string, value: Value): Store {
    var s1 := s.(vars := s.vars[v := FlagsOf(s, v)[flag := value]]);
    if flag == "_defaultval" && ':' in v then UpdateOverrides(s1, v) else s1
  }

  function DelFlag(s: Store, v: string, flag: string): Store {
    if v in s.vars then s.(vars := s.vars[v := s.vars[v] - {flag}]) else s
  }

  /** A deleted variable stays in the map with no flags, hiding any older value. */
  function DelVar(s: Store, v: string): Store {
    var index := s.index - {v};
    Store(s.vars[v := map[]], if ':' in v then Unindexed(index, v) else index)
  }

  function DelVars(s: Store, vs: seq<string>, i: nat): Store
    requires i <= |vs|
  {
    if i == 0 then s else DelVar(DelVars(s, vs, i - 1), vs[i - 1])
  }

  function ActiveNames(list: Overrides, overrides: set<string>): seq<string> {
    if list == [] then []
    else (if Active(list[0].1, overrides) then [list[0].0] else []) + ActiveNames(list[1..], overrides)
  }

  /** Outside parsing, an assignment drops pending operations and active overrides. */
  function Overwrite(s: Store, v: string, overrides: set<string>): Store {
    var s1 := s.(vars := s.vars[v := FlagsOf(s, v) - {APPEND, PREPEND, REMOVE}]);
    if v in s1.index then
      var active := ActiveNames(s1.index[v], overrides);
      var s2 := DelVars(s1, active, |active|);
      s2.(index := s2.index - {v})
    else s1
  }

  function OpsOf(flags: FlagMap, keyword: string): seq<(string, Option<string>)> {
    if keyword in flags && flags[keyword].Ops? then flags[keyword].ops else []
  }

  /** What `setVar` makes of a name. */
  datatype NameKind = Refused | Queued(op: Operation) | Plain

  function KindOf(name: string): NameKind {
    if OldSyntax(name) then Refused
    else match ParseOperation(name)
      case Some(op) => Queued(op)
      case None => Plain
  }

  function Queue(s: Store, op: Operation, value: string): Store {
    var l := OpsOf(FlagsOf(s, op.base), op.keyword) + [(value, op.add)];
    UpdateOverrides(SetFlag(s, op.base, op.keyword, Ops(l)), op.base)
  }

  function Assign(s: Store, v: string, value: string, parsing: bool, overrides: set<string>): Store {
    var s1 := s.(vars := s.vars[v := FlagsOf(s, v)]);
    var s2 := if parsing then s1 else Overwrite(s1, v, overrides);
    var s3 := if ':' in v then UpdateOverrides(s2, v) else s2;
    s3.(vars := s3.vars[v := FlagsOf(s3, v)["_content" := Text(value)]])
  }

  function SetVar(s: Store, v: string, kind: NameKind, value: string, parsing: bool, overrides: set<string>): Store {
    match kind
    case Refused => s
    case Queued(op) => Queue(s, op, value)
    case Plain => Assign(s, v, value, parsing, overrides)
  }

  datatype Update =
    | Set(v: string, value: string, parsing: bool, overrides: set<string>)
    | SetF(v: string, flag: string, val: Value)
    | DelF(v: string, flag: string)
    | Del(v: string)

  function Apply(s: Store, u: Update): Store {
    match u
    case Set(v, value, parsing, overrides) => SetVar(s, v, KindOf(v), value, parsing, overrides)
    case SetF(v, flag, val) => SetFlag(s, v, flag, val)
    case DelF(v, flag) => DelFlag(s, v, flag)
    case Del(v) => DelVar(s, v)
  }

  function ApplyAll(s: Store, us: seq<Update>): Store {
    if us == [] then s else Apply(ApplyAll(s, us[..|us| - 1]), us[|us| - 1])
  }
}
