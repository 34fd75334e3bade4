/**
 `variable_placeholder_substitute`: two passes over the configuration, with
 `${var}` substitution kept as an arbitrary pure function and the mounted secret
 files as another.
 */
module ConfigExpand {
  import opened Wrappers
  import opened Decimal
  import opened Placeholder

  datatype Value = Str(s: string) | Table(entries: seq<Entry>) | Array(items: seq<Value>) | Other

  datatype Entry = Entry(name: string, value: Value)

  type Vars = map<string, string>

  datatype ExpandError =
    | File(key: string, error: PlaceholderError)
    | SubstituteFailed(key: string)
    | Unresolved(key: string)
    | SetOverrideFailed(key: string)

  /** `envsubst::substitute`, `envsubst::is_templated`, `str::trim`, and whether the builder takes a key. */
  datatype Library = Library(
    substitute: (string, Vars) -> Option<string>,
    isTemplated: string -> bool,
    trim: string -> string,
    settable: string -> bool)

  /** What `read_to_string` answers for a path: the content, or the reason it fails. */
  type Files = string -> Result<string, string>

  // --------------------------------------------------------------- one value

  /** One trailing newline is dropped, with the carriage return in front of it. */
  function StripNewline(s: string): string {
    if s != "" && s[|s| - 1] == '\n' then
      var t := s[..|s| - 1];
      if t != "" && t[|t| - 1] == '\r' then t[..|t| - 1] else t
    else s
  }

  /** `read_file_secret`. */
  function ReadSecret(lib: Library, files: Files): Replacement {
    path => match files(lib.trim(path))
            case Ok(content) => Ok(StripNewline(content))
            case Err(reason) => Err(ReadFailed(lib.trim(path), reason))
  }

  function Blanked(): Replacement { path => Ok("") }

  datatype Expanded = Expanded(value: string, fromFile: bool)

  predicate HasFile(raw: string) { Contains(raw, FILE_PREFIX) }

  /** `expand_value`. */
  function ExpandValue(lib: Library, files: Files, key: string, raw: string, vars: Vars)
    : Result<Expanded, ExpandError>
  {
    if HasFile(raw) then
      match MapFile(raw, Blanked())
      case Err(e) => Err(File(key, e))
      case Ok(residue) =>
        if lib.isTemplated(residue) then Err(File(key, Mixed))
        else match MapFile(raw, ReadSecret(lib, files))
          case Err(e) => Err(File(key, e))
          case Ok(value) => Ok(Expanded(value, true))
    else if lib.isTemplated(raw) then
      match lib.substitute(raw, vars)
      case None => Err(SubstituteFailed(key))
      case Some(value) => if lib.isTemplated(value) then Err(Unresolved(key)) else Ok(Expanded(value, false))
    else Ok(Expanded(raw, false))
  }

  // ---------------------------------------------------------------- a pass

  /** The builder's overrides and the variables known so far. */
  datatype Progress = Progress(overrides: map<string, string>, vars: Vars)

  /** The loop body shared by both passes. */
  function Visit(lib: Library, files: Files, p: Progress, key: string, raw: string): Result<Progress, ExpandError> {
    var x :- ExpandValue(lib, files, key, raw, p.vars);
    if x.value != raw && !lib.settable(key) then Err(SetOverrideFailed(key))
    else
      Ok(Progress(if x.value != raw then p.overrides[key := x.value] else p.overrides,
                  if x.fromFile then p.vars else p.vars[key := x.value]))
  }

  function VisitAll(lib: Library, files: Files, p: Progress, fields: seq<(string, string)>)
    : Result<Progress, ExpandError>
    decreases fields
  {
    if fields == [] then Ok(p)
    else
      var p' :- Visit(lib, files, p, fields[0].0, fields[0].1);
      VisitAll(lib, files, p', fields[1..])
  }

  /** The field a pass stops at, and why. */
  datatype Stop = Stop(index: nat, error: ExpandError)

  function Verdict(lib: Library, files: Files, p: Progress, fields: seq<(string, string)>): Option<Stop>
    decreases fields
  {
    if fields == [] then None
    else
      match Visit(lib, files, p, fields[0].0, fields[0].1)
      case Err(e) => Some(Stop(0, e))
      case Ok(p') => Later(Verdict(lib, files, p', fields[1..]), 1)
  }

  /** A verdict on the fields behind the first `n`, seen from the start. */
  function Later(v: Option<Stop>, n: nat): Option<Stop> {
    if v == None then None else Some(Stop(v.value.index + n, v.value.error))
  }

  lemma {:induction false} VerdictMeans(lib: Library, files: Files, p: Progress, fields: seq<(string, string)>)
    ensures match Verdict(lib, files, p, fields)
            case None => VisitAll(lib, files, p, fields).Ok?
            case Some(stop) => stop.index < |fields| && VisitAll(lib, files, p, fields) == Err(stop.error)
    decreases fields
  {
    hide Visit;
    if fields != [] {
      var v := Visit(lib, files, p, fields[0].0, fields[0].1);
      if v.Ok? { VerdictMeans(lib, files, v.value, fields[1..]); }
    }
  }

  /** A pass over some fields, then over the others. */
  lemma {:induction false} PassSplit(lib: Library, files: Files, p: Progress, fields: seq<(string, string)>, n: nat)
    requires n <= |fields|
    ensures match VisitAll(lib, files, p, fields[..n])
            case Ok(p') =>
              && VisitAll(lib, files, p, fields) == VisitAll(lib, files, p', fields[n..])
              && Verdict(lib, files, p, fields) == Later(Verdict(lib, files, p', fields[n..]), n)
            case Err(e) =>
              && VisitAll(lib, files, p, fields) == Err(e)
              && Verdict(lib, files, p, fields) == Verdict(lib, files, p, fields[..n])
    decreases n
  {
    hide Visit;
    if n == 0 {
      assert fields[0..] == fields;
    } else {
      assert fields[..n][0] == fields[0] && fields[..n][1..] == fields[1..][..n - 1];
      assert fields[1..][n - 1..] == fields[n..];
      var v := Visit(lib, files, p, fields[0].0, fields[0].1);
      if v.Ok? { PassSplit(lib, files, v.value, fields[1..], n - 1); }
    }
  }

  // --------------------------------------------------------------- the fields

  /** Top-level strings, in the order the first pass meets them. */
  function TopLevel(config: seq<Entry>): seq<(string, string)> {
    if config == [] then []
    else (if config[0].value.Str? then [(config[0].name, config[0].value.s)] else []) + TopLevel(config[1..])
  }

  function Join(key: string, k: string): string { if key == "" then k else key + "." + k }

  function Indexed(key: string, i: nat): string { key + "[" + NatText(i) + "]" }

  /** The string leaves `traverse_config` reports below `v`, in order. */
  function Leaves(key: string, v: Value): seq<(string, string)>
    decreases v, 1
  {
    match v
    case Str(s) => [(key, s)]
    case Table(entries) => EntryLeaves(key, entries)
    case Array(items) => ItemLeaves(key, items, 0)
    case Other => []
  }

  function EntryLeaves(key: string, entries: seq<Entry>): seq<(string, string)>
    decreases entries, 0
  {
    if entries == [] then []
    else Leaves(Join(key, entries[0].name), entries[0].value) + EntryLeaves(key, entries[1..])
  }

  function ItemLeaves(key: string, items: seq<Value>, i: nat): seq<(string, string)>
    decreases items, 0
  {
    if items == [] then []
    else Leaves(Indexed(key, i), items[0]) + ItemLeaves(key, items[1..], i + 1)
  }

  /** The leaves of the top-level tables. */
  function Nested(config: seq<Entry>): seq<(string, string)> {
    if config == [] then []
    else (if config[0].value.Table? then Leaves(config[0].name, config[0].value) else []) + Nested(config[1..])
  }

  /** Inserting leaves into a map keeps the last one of each key. */
  function Inserted(m: map<string, string>, leaves: seq<(string, string)>): map<string, string>
    decreases leaves
  {
    if leaves == [] then m
    else Inserted(m[leaves[0].0 := leaves[0].1], leaves[1..])
  }

  /** `order` lists each key of `m` once: the order the map happens to be iterated in. */
  ghost predicate Iterates(order: seq<string>, m: map<string, string>) {
    && (forall k :: k in order <==> k in m)
    && (forall i, j :: 0 <= i < j < |order| ==> order[i] != order[j])
  }

  function Fields(order: seq<string>, m: map<string, string>): seq<(string, string)>
    requires forall k | k in order :: k in m
  {
    if order == [] then [] else [(order[0], m[order[0]])] + Fields(order[1..], m)
  }

  /** Both passes; `order` is the iteration order of the second. */
  function Substitute(lib: Library, files: Files, config: seq<Entry>, order: seq<string>): Result<Progress, ExpandError>
    requires forall k | k in order :: k in Inserted(map[], Nested(config))
  {
    var p :- VisitAll(lib, files, Progress(map[], map[]), TopLevel(config));
    VisitAll(lib, files, p, Fields(order, Inserted(map[], Nested(config))))
  }
}
