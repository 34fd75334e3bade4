/**
 What `variable_placeholder_substitute` computes, stated on the text of the fields: each value on the literals and
 placeholders the field is made of, each override and variable on the fields that were visited.
 */
module ConfigMeaning {
  import opened Wrappers
  import opened Placeholder
  import opened ConfigExpand
  import opened ConfigNoninterference

  // --------------------------------------------------------- the file content

  /** `c` is `text` without one final line break. */
  predicate WithoutBreak(text: string, c: string) {
    || text == c + "\r\n"
    || (text == c + "\n" && (c == "" || c[|c| - 1] != '\r'))
    || (text == c && (c == "" || c[|c| - 1] != '\n'))
  }

  lemma StripMeans(text: string, c: string)
    ensures StripNewline(text) == c <==> WithoutBreak(text, c)
  {
    if text != "" && text[|text| - 1] == '\n' {
      var t := text[..|text| - 1];
      assert text == t + "\n";
      assert text == c + "\r\n" ==> t == c + "\r";
      assert text == c + "\n" ==> t == c;
      if t != "" && t[|t| - 1] == '\r' {
        assert t == t[..|t| - 1] + "\r";
        assert text == t[..|t| - 1] + "\r\n";
      }
    }
  }

  /** The file a path names, trimmed, is readable and has this content. */
  predicate Holds(lib: Library, files: Files, path: string, c: string) {
    files(lib.trim(path)).Ok? && WithoutBreak(files(lib.trim(path)).value, c)
  }

  lemma SecretMeans(lib: Library, files: Files, path: string, c: string)
    ensures ReadSecret(lib, files)(path) == Ok(c) <==> Holds(lib, files, path, c)
    ensures ReadSecret(lib, files)(path).Ok? <==> files(lib.trim(path)).Ok?
  {
    if files(lib.trim(path)).Ok? { StripMeans(files(lib.trim(path)).value, c); }
  }

  // ------------------------------------------------- the shape of every field

  /** What follows the last good placeholder: literal text, one that is not closed, or one whose path nests another. */
  datatype Ending =
    | Clean(tail: string)
    | Unclosed(literal: string, rest: string)
    | Nesting(literal: string, path: string, rest: string)

  predicate NoBrace(s: string) { forall i :: 0 <= i < |s| ==> s[i] != '}' }

  predicate ValidEnding(e: Ending) {
    match e
    case Clean(tail) => !Contains(tail, FILE_PREFIX)
    case Unclosed(literal, rest) => !Contains(literal, FILE_PREFIX) && NoBrace(rest)
    case Nesting(literal, path, _) => !Contains(literal, FILE_PREFIX) && NoBrace(path) && Contains(path, "${")
  }

  function EndText(e: Ending): string {
    match e
    case Clean(tail) => tail
    case Unclosed(literal, rest) => literal + (FILE_PREFIX + rest)
    case Nesting(literal, path, rest) => literal + (FILE_PREFIX + (path + ("}" + rest)))
  }

  predicate ValidTokens(ts: seq<Token>) { forall t | t in ts :: ValidToken(t) }

  /** The field is made of these placeholders and this ending. */
  ghost predicate Shaped(raw: string, ts: seq<Token>, e: Ending) {
    ValidTokens(ts) && ValidEnding(e) && raw == Render(ts, EndText(e))
  }

  /** Every string has a shape. */
  lemma {:induction false} ShapeExists(raw: string) returns (ts: seq<Token>, e: Ending)
    ensures Shaped(raw, ts, e)
    decreases |raw|
  {
    hide FindSub, Contains, OccursAt;
    ContainsMeans(raw, FILE_PREFIX);
    ts := [];
    match FindSub(raw, FILE_PREFIX)
    case None =>
      e := Clean(raw);
    case Some(start) =>
      NoEarlier(raw, start);
      var literal, after := raw[..start], raw[start + 7..];
      assert raw == literal + (FILE_PREFIX + after) by { PrefixSplit(raw, start); }
      var end := IndexOf(after, IsBrace);
      if end == |after| {
        e := Unclosed(literal, after);
      } else {
        SplitAt(raw, start, end);
        var path, rest := after[..end], after[end + 1..];
        if Contains(path, "${") {
          e := Nesting(literal, path, rest);
        } else {
          ts, e := ShapeExists(rest);
          ts := [Token(literal, path)] + ts;
          assert ts[1..] == ts[1..] && Render(ts, EndText(e)) == raw;
        }
      }
  }

  lemma PrefixSplit(s: string, start: nat)
    requires OccursAt(s, FILE_PREFIX, start)
    ensures |FILE_PREFIX| == 7 && s == s[..start] + (FILE_PREFIX + s[start + 7..])
  {
  }

  // ------------------------------------------------------------- scanning it

  /** Text behind good placeholders is reached with them replaced. */
  lemma {:induction false} MapBehind(ts: seq<Token>, end: string, replace: Replacement)
    requires ValidTokens(ts)
    ensures MapFile(Render(ts, end), replace) ==
            match Filled(ts, "", replace)
            case Err(x) => Err(x)
            case Ok(_) =>
              match MapFile(end, replace)
              case Err(x) => Err(x)
              case Ok(tail) => Filled(ts, tail, replace)
    decreases ts
  {
    hide FindSub, Contains, OccursAt;
    if ts != [] {
      var t := ts[0];
      assert ValidToken(t);
      var more := Render(ts[1..], end);
      var input := Render(ts, end);
      var behind := t.path + ("}" + more);
      FoundWhereWritten(t.literal, behind);
      assert input[|t.literal| + 7..] == behind && input[..|t.literal|] == t.literal;
      BraceAt(t.path, more);
      MapBehind(ts[1..], end, replace);
    }
  }

  lemma EndingFound(literal: string, rest: string)
    requires !Contains(literal, FILE_PREFIX)
    ensures var s := literal + (FILE_PREFIX + rest);
            FindSub(s, FILE_PREFIX) == Some(|literal|) && |s| >= |literal| + 7 && s[|literal| + |FILE_PREFIX|..] == rest
  {
    FoundWhereWritten(literal, rest);
  }

  /** The literal text of a shape, or why it has a placeholder no replacement can mend. */
  function Residue(ts: seq<Token>, e: Ending): Result<string, PlaceholderError> {
    match e
    case Clean(tail) => Ok(Literals(ts, tail))
    case Unclosed(_, _) => Err(Unterminated)
    case Nesting(_, _, _) => Err(Mixed)
  }

  lemma MapEnding(e: Ending, replace: Replacement)
    requires ValidEnding(e)
    ensures MapFile(EndText(e), replace) == Residue([], e)
  {
    match e
    case Clean(tail) =>
    case Unclosed(literal, rest) => MapUnclosed(literal, rest, replace);
    case Nesting(literal, path, rest) => MapNesting(literal, path, rest, replace);
  }

  lemma MapUnclosed(literal: string, rest: string, replace: Replacement)
    requires !Contains(literal, FILE_PREFIX) && NoBrace(rest)
    ensures MapFile(literal + (FILE_PREFIX + rest), replace) == Err(Unterminated)
  {
    hide FindSub, Contains, OccursAt, MapFile;
    EndingFound(literal, rest);
    MapStep(literal + (FILE_PREFIX + rest), replace, |literal|);
    assert IndexOf(rest, IsBrace) == |rest|;
  }

  lemma MapNesting(literal: string, path: string, rest: string, replace: Replacement)
    requires !Contains(literal, FILE_PREFIX) && NoBrace(path) && Contains(path, "${")
    ensures MapFile(literal + (FILE_PREFIX + (path + ("}" + rest))), replace) == Err(Mixed)
  {
    hide FindSub, Contains, OccursAt, MapFile;
    var behind := path + ("}" + rest);
    EndingFound(literal, behind);
    MapStep(literal + (FILE_PREFIX + behind), replace, |literal|);
    BraceAt(path, rest);
  }

  // ------------------------------------------------------- the value of a field

  /** A field without a file placeholder: itself, or its `${var}` references substituted until none is left. */
  predicate PlainOutcome(lib: Library, key: string, raw: string, vars: Vars, r: Result<Expanded, ExpandError>) {
    if !lib.isTemplated(raw) then r == Ok(Expanded(raw, false))
    else
      match lib.substitute(raw, vars)
      case None => r == Err(SubstituteFailed(key))
      case Some(v) => r == if lib.isTemplated(v) then Err(Unresolved(key)) else Ok(Expanded(v, false))
  }

  /** All files are read: the literals with each content in its place. */
  ghost predicate ReadAll(lib: Library, files: Files, ts: seq<Token>, tail: string, value: string) {
    exists vs: seq<string> ::
      |vs| == |ts| && (forall i :: 0 <= i < |ts| ==> Holds(lib, files, ts[i].path, vs[i]))
      && value == Spelled(ts, vs, tail)
  }

  /** File `i` is the first that cannot be read. */
  ghost predicate Unreadable(lib: Library, files: Files, ts: seq<Token>, i: nat) {
    && i < |ts| && files(lib.trim(ts[i].path)).Err?
    && forall j :: 0 <= j < i ==> files(lib.trim(ts[j].path)).Ok?
  }

  ghost predicate ReadOutcome(
      lib: Library, files: Files, key: string, ts: seq<Token>, tail: string, r: Result<Expanded, ExpandError>)
  {
    match r
    case Ok(x) => x.fromFile && ReadAll(lib, files, ts, tail, x.value)
    case Err(e) =>
      exists i: nat ::
        && Unreadable(lib, files, ts, i)
        && e == File(key, ReadFailed(lib.trim(ts[i].path), files(lib.trim(ts[i].path)).error))
  }

  /** The value of a field of a given shape, or why it has none. */
  ghost predicate ShapedOutcome(lib: Library, files: Files, key: string, raw: string, vars: Vars,
                                ts: seq<Token>, e: Ending, r: Result<Expanded, ExpandError>)
  {
    match e
    case Unclosed(_, _) => r == Err(File(key, Unterminated))
    case Nesting(_, _, _) => r == Err(File(key, Mixed))
    case Clean(tail) =>
      if ts == [] then PlainOutcome(lib, key, raw, vars, r)
      else if lib.isTemplated(Literals(ts, tail)) then r == Err(File(key, Mixed))
      else ReadOutcome(lib, files, key, ts, tail, r)
  }

  ghost predicate Outcome(
      lib: Library, files: Files, key: string, raw: string, vars: Vars, r: Result<Expanded, ExpandError>)
  {
    exists ts, e :: Shaped(raw, ts, e) && ShapedOutcome(lib, files, key, raw, vars, ts, e, r)
  }

  lemma HasFileShaped(raw: string, ts: seq<Token>, e: Ending)
    requires Shaped(raw, ts, e)
    ensures HasFile(raw) <==> ts != [] || !e.Clean?
  {
    hide FindSub, Contains, OccursAt;
    ContainsMeans(raw, FILE_PREFIX);
    if ts != [] {
      assert ts[0] in ts;
      TokenLiteral(ts[0]);
      FoundWhereWritten(ts[0].literal, ts[0].path + ("}" + Render(ts[1..], EndText(e))));
    } else {
      match e
      case Clean(_) =>
      case Unclosed(literal, rest) => EndingFound(literal, rest);
      case Nesting(literal, path, rest) => EndingFound(literal, path + ("}" + rest));
    }
  }

  lemma {:induction false} FilledOk(lib: Library, files: Files, ts: seq<Token>, tail: string)
    requires Filled(ts, tail, ReadSecret(lib, files)).Ok?
    ensures ReadAll(lib, files, ts, tail, Filled(ts, tail, ReadSecret(lib, files)).value)
    decreases ts
  {
    hide ReadSecret, Holds;
    var f := ReadSecret(lib, files);
    var v := Filled(ts, tail, f).value;
    if ts == [] {
      assert v == Spelled(ts, [], tail);
    } else {
      FilledOk(lib, files, ts[1..], tail);
      var rest := Filled(ts[1..], tail, f).value;
      var vs: seq<string> :| |vs| == |ts[1..]|
        && (forall i :: 0 <= i < |vs| ==> Holds(lib, files, ts[1..][i].path, vs[i]))
        && rest == Spelled(ts[1..], vs, tail);
      SecretMeans(lib, files, ts[0].path, f(ts[0].path).value);
      var all := [f(ts[0].path).value] + vs;
      assert all[1..] == vs;
      assert v == Spelled(ts, all, tail);
      forall i | 0 <= i < |ts| ensures Holds(lib, files, ts[i].path, all[i]) {
        if i > 0 { assert ts[i] == ts[1..][i - 1] && all[i] == vs[i - 1]; }
      }
    }
  }

  lemma ReadAllFills(lib: Library, files: Files, ts: seq<Token>, tail: string, v: string)
    requires ReadAll(lib, files, ts, tail, v)
    ensures Filled(ts, tail, ReadSecret(lib, files)) == Ok(v)
  {
    hide ReadSecret, Holds;
    var vs: seq<string> :| |vs| == |ts| && (forall i :: 0 <= i < |ts| ==> Holds(lib, files, ts[i].path, vs[i]))
      && v == Spelled(ts, vs, tail);
    var f := ReadSecret(lib, files);
    forall i | 0 <= i < |ts| ensures f(ts[i].path) == Ok(vs[i]) { SecretMeans(lib, files, ts[i].path, vs[i]); }
    FilledSpelled(f, ts, vs, tail);
  }

  function FailedRead(lib: Library, files: Files, path: string): PlaceholderError
    requires files(lib.trim(path)).Err?
  {
    ReadFailed(lib.trim(path), files(lib.trim(path)).error)
  }

  lemma {:induction false} FilledErr(lib: Library, files: Files, ts: seq<Token>, tail: string) returns (i: nat)
    requires Filled(ts, tail, ReadSecret(lib, files)).Err?
    ensures Unreadable(lib, files, ts, i)
    decreases ts
  {
    hide ReadSecret;
    var f := ReadSecret(lib, files);
    SecretMeans(lib, files, ts[0].path, "");
    i := 0;
    if f(ts[0].path).Ok? {
      var k := FilledErr(lib, files, ts[1..], tail);
      i := k + 1;
      forall j | 0 <= j < i ensures files(lib.trim(ts[j].path)).Ok? {
        if j > 0 { assert ts[j] == ts[1..][j - 1]; }
      }
    }
  }

  lemma SecretFails(lib: Library, files: Files, path: string)
    requires files(lib.trim(path)).Err?
    ensures ReadSecret(lib, files)(path) == Err(FailedRead(lib, files, path))
  {
  }

  lemma {:induction false} UnreadableFails(lib: Library, files: Files, ts: seq<Token>, tail: string, i: nat)
    requires Unreadable(lib, files, ts, i)
    ensures Filled(ts, tail, ReadSecret(lib, files)) == Err(FailedRead(lib, files, ts[i].path))
    decreases i
  {
    hide ReadSecret;
    SecretMeans(lib, files, ts[0].path, "");
    if i == 0 {
      SecretFails(lib, files, ts[0].path);
    } else {
      assert forall j :: 0 <= j < i - 1 ==> ts[1..][j] == ts[j + 1];
      assert Unreadable(lib, files, ts[1..], i - 1);
      UnreadableFails(lib, files, ts[1..], tail, i - 1);
    }
  }

  lemma ReadMeans(lib: Library, files: Files, key: string, ts: seq<Token>, tail: string,
                  r: Result<Expanded, ExpandError>)
    ensures ReadOutcome(lib, files, key, ts, tail, r) <==>
            r == match Filled(ts, tail, ReadSecret(lib, files))
                 case Ok(v) => Ok(Expanded(v, true))
                 case Err(x) => Err(File(key, x))
  {
    hide ReadSecret, Filled, ReadAll;
    match Filled(ts, tail, ReadSecret(lib, files))
    case Ok(v) =>
      FilledOk(lib, files, ts, tail);
      if r.Ok? && ReadAll(lib, files, ts, tail, r.value.value) { ReadAllFills(lib, files, ts, tail, r.value.value); }
      forall i: nat | Unreadable(lib, files, ts, i) ensures false { UnreadableFails(lib, files, ts, tail, i); }
    case Err(x) =>
      var i := FilledErr(lib, files, ts, tail);
      UnreadableFails(lib, files, ts, tail, i);
      forall j: nat | Unreadable(lib, files, ts, j)
        ensures x == FailedRead(lib, files, ts[j].path)
      {
        UnreadableFails(lib, files, ts, tail, j);
      }
      if r.Ok? && ReadAll(lib, files, ts, tail, r.value.value) { ReadAllFills(lib, files, ts, tail, r.value.value); }
  }

  lemma BlankedShaped(ts: seq<Token>, e: Ending)
    requires ValidTokens(ts) && ValidEnding(e)
    ensures MapFile(Render(ts, EndText(e)), Blanked()) == Residue(ts, e)
  {
    hide MapFile, ValidTokens, ValidEnding, EndText;
    MapBehind(ts, EndText(e), Blanked());
    MapEnding(e, Blanked());
    FilledBlank(ts, "");
    if e.Clean? { FilledBlank(ts, e.tail); }
  }

  /** `expand_value` on a field of any shape. */
  lemma ValueOfShape(lib: Library, files: Files, key: string, raw: string, vars: Vars,
                     ts: seq<Token>, e: Ending, r: Result<Expanded, ExpandError>)
    requires Shaped(raw, ts, e)
    ensures ExpandValue(lib, files, key, raw, vars) == r <==> ShapedOutcome(lib, files, key, raw, vars, ts, e, r)
  {
    hide MapFile, HasFile, ReadSecret, ReadOutcome, ValidTokens, ValidEnding, Render, EndText, Literals, Filled;
    HasFileShaped(raw, ts, e);
    if ts == [] && e.Clean? {
      assert Render(ts, EndText(e)) == EndText(e) by { RenderNothing(EndText(e)); }
    } else {
      BlankedShaped(ts, e);
      if e.Clean? {
        MapClean(ts, e.tail, ReadSecret(lib, files));
        ReadMeans(lib, files, key, ts, e.tail, r);
      }
    }
  }

  lemma MapClean(ts: seq<Token>, tail: string, replace: Replacement)
    requires ValidTokens(ts) && ValidEnding(Clean(tail))
    ensures MapFile(Render(ts, EndText(Clean(tail))), replace) == Filled(ts, tail, replace)
  {
    MapRendered(ts, tail, replace);
  }

  lemma RenderNothing(end: string)
    ensures Render([], end) == end
  {
  }

  /** `expand_value` on every field, whatever its text: the value, or the reason it has none. */
  lemma ValueExactly(lib: Library, files: Files, key: string, raw: string, vars: Vars, r: Result<Expanded, ExpandError>)
    ensures ExpandValue(lib, files, key, raw, vars) == r <==> Outcome(lib, files, key, raw, vars, r)
  {
    hide ExpandValue, Shaped, ShapedOutcome;
    var ts, e := ShapeExists(raw);
    ValueOfShape(lib, files, key, raw, vars, ts, e, r);
    forall ts, e | Shaped(raw, ts, e) && ShapedOutcome(lib, files, key, raw, vars, ts, e, r)
      ensures ExpandValue(lib, files, key, raw, vars) == r
    {
      ValueOfShape(lib, files, key, raw, vars, ts, e, r);
    }
  }
}
