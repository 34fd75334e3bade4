/**
 The canonicalizer's parser as functions on the remaining input. Every branch,
 error and limit is the one of `Parser`; the stateful parser is proved against
 these functions, and these functions against the grammar.
 */
module JsonReader {
  import opened Wrappers
  import opened JsonError
  import opened Decimal
  import opened JsonNumber
  import opened Float64
  import opened JsonString
  import opened Json
  import opened JsonGrammar

  const MAX_NESTING := 128

  type Parsed<+T> = Result<(T, string), JsonError>

  predicate Ahead(r: string, c: char) { r != "" && r[0] == c }

  function SkipWs(r: string): (s: string)
    ensures |s| <= |r| && (s != "" ==> !IsWs(s[0]))
  {
    if r != "" && IsWs(r[0]) then SkipWs(r[1..]) else r
  }

  function ParseLiteral(r: string, literal: string, c: Canonical): Parsed<Canonical> {
    if StartsWith(r, literal) then Ok((c, r[|literal|..])) else Err(Rejected("unexpected token"))
  }

  /** `number_from_f64` of the parsed lexeme. */
  function ConvertNumber(fp: Conversion, lexeme: string): Result<Canonical, JsonError> {
    match fp.parse(lexeme)
    case None => Err(Overflow(lexeme))
    case Some(NaN) => Err(NotANumber)
    case Some(Infinite(_)) => Err(Overflow(lexeme))
    case Some(d) => Ok(Num(DoubleText(fp, d)))
  }

  function ParseNumber(fp: Conversion, r: string): (res: Parsed<Canonical>)
    ensures res.Ok? ==> |res.value.1| < |r|
  {
    var lexed := LexNumber(r);
    if lexed.Err? then Err(lexed.error)
    else
      var (n, t) := lexed.value;
      LexNumberSound(r);
      var c :- ConvertNumber(fp, NumberText(n));
      Ok((c, t))
  }

  /** Everything `parse_value` dispatches to except arrays and objects. */
  function ParseAtom(fp: Conversion, s: string): (res: Parsed<Canonical>)
    ensures res.Ok? ==> |res.value.1| < |s|
  {
    if s == "" then Err(Rejected("unexpected end of input"))
    else match s[0]
      case 'n' => ParseLiteral(s, "null", Null)
      case 't' => ParseLiteral(s, "true", Bool(true))
      case 'f' => ParseLiteral(s, "false", Bool(false))
      case 'N' => if StartsWith(s, "NaN") then Err(NotANumber) else Err(Rejected("unexpected token"))
      case 'I' => if StartsWith(s, "Infinity") then Err(InfiniteNumber) else Err(Rejected("unexpected token"))
      case '\"' =>
        var (body, t) :- ParseBody(s[1..]);
        Ok((Str(body), t))
      case '-' => if StartsWith(s, "-Infinity") then Err(InfiniteNumber) else ParseNumber(fp, s)
      case _ => if IsDigit(s[0]) then ParseNumber(fp, s) else Err(Rejected("unexpected token"))
  }

  function ParseValue(fp: Conversion, r: string, depth: nat): (res: Parsed<Canonical>)
    ensures res.Ok? ==> |res.value.1| < |r|
    decreases |r|, 1
  {
    var s := SkipWs(r);
    if Ahead(s, '[') then
      if depth >= MAX_NESTING then Err(Rejected("JSON nesting exceeds 128"))
      else
        var t := SkipWs(s[1..]);
        if Ahead(t, ']') then Ok((Arr([]), t[1..]))
        else
          var (items, u) :- ParseItems(fp, t, depth + 1);
          Ok((Arr(items), u))
    else if Ahead(s, '{') then
      if depth >= MAX_NESTING then Err(Rejected("JSON nesting exceeds 128"))
      else
        var t := SkipWs(s[1..]);
        if Ahead(t, '}') then Ok((Obj([]), t[1..]))
        else
          var (members, u) :- ParseMembers(fp, t, depth + 1, {});
          Ok((Obj(Sort(members)), u))
    else ParseAtom(fp, s)
  }

  function WithHead<T>(x: T, res: Parsed<seq<T>>): Parsed<seq<T>> {
    match res
    case Ok((xs, t)) => Ok(([x] + xs, t))
    case Err(e) => Err(e)
  }

  /** The item loop of `parse_array_body`, through the closing bracket. */
  function ParseItems(fp: Conversion, r: string, depth: nat): (res: Parsed<seq<Canonical>>)
    ensures res.Ok? ==> |res.value.1| < |r|
    decreases |r|, 2
  {
    var (c, t) :- ParseValue(fp, r, depth);
    var u := SkipWs(t);
    if Ahead(u, ',') then WithHead(c, ParseItems(fp, u[1..], depth))
    else if Ahead(u, ']') then Ok(([c], u[1..]))
    else Err(Rejected("expected ',' or ']' in array"))
  }

  /** Key and colon of one member; `seen` holds the keys read so far. */
  function ParseKey(r: string, seen: set<string>): (res: Parsed<string>)
    ensures res.Ok? ==> |res.value.1| < |r|
  {
    var s := SkipWs(r);
    if !Ahead(s, '\"') then Err(Rejected("expected object key"))
    else
      var (key, t) :- ParseBody(s[1..]);
      if key in seen then Err(DuplicateKey(key))
      else
        var u := SkipWs(t);
        if !Ahead(u, ':') then Err(Rejected("expected ':' after object key"))
        else Ok((key, u[1..]))
  }

  /** The member loop of `parse_object_body`, through the closing brace. */
  function ParseMembers(fp: Conversion, r: string, depth: nat, seen: set<string>): (res: Parsed<seq<Member>>)
    ensures res.Ok? ==> |res.value.1| < |r|
    decreases |r|, 2
  {
    var (key, t) :- ParseKey(r, seen);
    var (c, u) :- ParseValue(fp, t, depth);
    var w := SkipWs(u);
    if Ahead(w, ',') then WithHead(Member(key, c), ParseMembers(fp, w[1..], depth, seen + {key}))
    else if Ahead(w, '}') then Ok(([Member(key, c)], w[1..]))
    else Err(Rejected("expected ',' or '}' in object"))
  }

  // ----------------------------------------------------------- white space

  lemma {:induction false} SkipBlank(ws: string, s: string)
    requires Blank(ws) && (s != "" ==> !IsWs(s[0]))
    ensures SkipWs(ws + s) == s
  {
    if ws == "" {
      assert ws + s == s;
    } else {
      assert (ws + s)[0] == ws[0] && (ws + s)[1..] == ws[1..] + s;
      SkipBlank(ws[1..], s);
    }
  }

  lemma {:induction false} SkipSound(r: string) returns (ws: string)
    ensures Blank(ws) && r == ws + SkipWs(r)
  {
    if r != "" && IsWs(r[0]) {
      var ws' := SkipSound(r[1..]);
      ws := [r[0]] + ws';
    } else {
      ws := "";
    }
  }

  lemma SkipTwice(r: string)
    ensures SkipWs(SkipWs(r)) == SkipWs(r)
  {
  }

  /** `parse_value` skips white space first, so skipping it beforehand changes nothing. */
  lemma ItemsAfterSkip(fp: Conversion, r: string, depth: nat)
    ensures ParseItems(fp, SkipWs(r), depth) == ParseItems(fp, r, depth)
  {
    SkipTwice(r);
    assert ParseValue(fp, SkipWs(r), depth) == ParseValue(fp, r, depth);
  }

  lemma MembersAfterSkip(fp: Conversion, r: string, depth: nat, seen: set<string>)
    ensures ParseMembers(fp, SkipWs(r), depth, seen) == ParseMembers(fp, r, depth, seen)
  {
    SkipTwice(r);
    assert ParseKey(SkipWs(r), seen) == ParseKey(r, seen);
  }

  // -------------------------------------------------- one level of nesting

  /** `parse_array` once the nesting has room. */
  lemma ArrayUnfold(fp: Conversion, s: string, depth: nat)
    requires Ahead(s, '[') && depth < MAX_NESTING
    ensures var t := SkipWs(s[1..]);
            ParseValue(fp, s, depth) ==
              if Ahead(t, ']') then Ok((Arr([]), t[1..]))
              else match ParseItems(fp, t, depth + 1) case Ok((items, u)) => Ok((Arr(items), u)) case Err(e) => Err(e)
  {
    hide ParseItems, ParseMembers, ParseAtom, Sort;
    assert SkipWs(s) == s;
  }

  lemma ObjectUnfold(fp: Conversion, s: string, depth: nat)
    requires Ahead(s, '{') && depth < MAX_NESTING
    ensures var t := SkipWs(s[1..]);
            ParseValue(fp, s, depth) ==
              if Ahead(t, '}') then Ok((Obj([]), t[1..]))
              else
                match ParseMembers(fp, t, depth + 1, {})
                case Ok((ms, u)) => Ok((Obj(Sort(ms)), u))
                case Err(e) => Err(e)
  {
    hide ParseItems, ParseMembers, ParseAtom, Sort;
    assert SkipWs(s) == s;
  }

  lemma TooDeep(fp: Conversion, s: string, depth: nat)
    requires Ahead(s, '[') || Ahead(s, '{')
    requires depth >= MAX_NESTING
    ensures ParseValue(fp, s, depth).Err?
  {
    hide ParseItems, ParseMembers, ParseAtom, Sort;
    assert SkipWs(s) == s;
  }
}
