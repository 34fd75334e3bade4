/** Whatever the parser accepts is a text of the grammar, and the tree it returns is that text's canonical tree. */
module JsonSound {
  import opened Wrappers
  import opened JsonNumber
  import opened Float64
  import opened JsonString
  import opened Json
  import opened JsonGrammar
  import opened JsonReader

  /** `v` is a syntax tree for what `res` accepted in front of its rest, within the nesting left. */
  predicate Explains(fp: Conversion, v: Syntax, r: string, res: Parsed<Canonical>, depth: nat) {
    && res.Ok? && Valid(fp, v) && Depth(v) + depth <= MAX_NESTING
    && r == Text(v) + res.value.1 && res.value.0 == Canon(fp, v)
  }

  lemma PrefixSplit(s: string, p: string)
    requires StartsWith(s, p)
    ensures s == p + s[|p|..]
  {
  }

  lemma NumberSound(fp: Conversion, s: string) returns (v: Syntax)
    requires ParseNumber(fp, s).Ok?
    ensures Valid(fp, v) && IsNumber(v)
    ensures s == Text(v) + ParseNumber(fp, s).value.1 && ParseNumber(fp, s).value.0 == Canon(fp, v)
  {
    hide DoubleText, NumberText, LexNumber, ValidNumber;
    LexNumberSound(s);
    v := SNumber(LexNumber(s).value.0);
  }

  predicate IsNumber(v: Syntax) { v.SNumber? }

  lemma AtomSound(fp: Conversion, s: string, depth: nat) returns (v: Syntax)
    requires ParseAtom(fp, s).Ok? && depth <= MAX_NESTING
    ensures Explains(fp, v, s, ParseAtom(fp, s), depth)
  {
    hide DoubleText, NumberText, ParseNumber, ParseBody, BodyText, Decoded;
    if s[0] == 'n' {
      v := SNull;
      PrefixSplit(s, "null");
    } else if s[0] == 't' {
      v := STrue;
      PrefixSplit(s, "true");
    } else if s[0] == 'f' {
      v := SFalse;
      PrefixSplit(s, "false");
    } else if s[0] == '\"' {
      v := StringSound(fp, s);
    } else {
      v := NumberSound(fp, s);
    }
  }

  lemma StringSound(fp: Conversion, s: string) returns (v: Syntax)
    requires Ahead(s, '\"') && ParseBody(s[1..]).Ok?
    ensures Valid(fp, v) && v.SString? && Depth(v) == 0
    ensures s == Text(v) + ParseBody(s[1..]).value.1 && Str(ParseBody(s[1..]).value.0) == Canon(fp, v)
  {
    hide ParseBody, BodyText, Decoded;
    var es := BodySound(s[1..]);
    v := SString(es);
    assert s == "\"" + s[1..];
  }

  lemma {:induction false} ValueSound(fp: Conversion, r: string, depth: nat) returns (ws: string, v: Syntax)
    requires ParseValue(fp, r, depth).Ok? && depth <= MAX_NESTING
    ensures Blank(ws) && Explains(fp, v, SkipWs(r), ParseValue(fp, r, depth), depth) && r == ws + SkipWs(r)
    decreases |r|, 1
  {
    hide ParseAtom, Sort, Explains, ParseItems, ParseMembers;
    ws := SkipSound(r);
    var s := SkipWs(r);
    if Ahead(s, '[') {
      v := ArraySound(fp, s, depth);
      SkipTwice(r);
      assert ParseValue(fp, s, depth) == ParseValue(fp, r, depth);
    } else if Ahead(s, '{') {
      v := ObjectSound(fp, s, depth);
      SkipTwice(r);
      assert ParseValue(fp, s, depth) == ParseValue(fp, r, depth);
    } else {
      v := AtomSound(fp, s, depth);
    }
  }

  lemma {:induction false} ArraySound(fp: Conversion, s: string, depth: nat) returns (v: Syntax)
    requires Ahead(s, '[') && ParseValue(fp, s, depth).Ok? && depth <= MAX_NESTING
    ensures Explains(fp, v, s, ParseValue(fp, s, depth), depth)
    decreases |s|, 0
  {
    hide ParseItems, ItemsText, ItemsDepth, CanonItems, ValidItems, ParseValue, SkipWs;
    if depth >= MAX_NESTING { TooDeep(fp, s, depth); }
    ArrayUnfold(fp, s, depth);
    var t := SkipWs(s[1..]);
    assert s == "[" + s[1..];
    EmptyTrees(fp);
    if Ahead(t, ']') {
      var ws := SkipSound(s[1..]);
      v := SArray([], ws);
      assert t == "]" + t[1..];
      Bracketed("[", ws, "]", t[1..]);
    } else {
      ItemsAfterSkip(fp, s[1..], depth + 1);
      var items := ItemsSound(fp, s[1..], depth + 1);
      v := SArray(items, "");
    }
  }

  lemma Bracketed(a: string, ws: string, b: string, t: string)
    ensures a + (ws + (b + t)) == (a + (ws + b)) + t
  {
  }

  lemma EmptyTrees(fp: Conversion)
    ensures ItemsDepth([]) == 0 && ValidItems(fp, []) && CanonItems(fp, []) == []
    ensures MembersDepth([]) == 0 && ValidMembers(fp, [], {}) && CanonMembers(fp, [], {}) == []
  {
  }

  lemma {:induction false} ItemsSound(fp: Conversion, r: string, depth: nat) returns (items: seq<Padded>)
    requires ParseItems(fp, r, depth).Ok? && depth <= MAX_NESTING
    ensures items != [] && ValidItems(fp, items) && ItemsDepth(items) + depth <= MAX_NESTING
    ensures r == ItemsText(items) + ParseItems(fp, r, depth).value.1
    ensures ParseItems(fp, r, depth).value.0 == CanonItems(fp, items)
    decreases |r|, 2
  {
    hide ParseValue, Text, Depth, Canon, Valid, SkipWs;
    var before, v := ValueSound(fp, r, depth);
    var t := ParseValue(fp, r, depth).value.1;
    var after := SkipSound(t);
    var u := SkipWs(t);
    var p := Padded(before, v, after);
    EmptyTrees(fp);
    var rest := [];
    if Ahead(u, ',') {
      rest := ItemsSound(fp, u[1..], depth);
      assert u == "," + u[1..];
    } else {
      assert u == "]" + u[1..];
    }
    items := [p] + rest;
    assert items[1..] == rest;
    ItemsAssemble(items, u, r, ParseItems(fp, r, depth).value.1);
  }

  lemma ItemsAssemble(items: seq<Padded>, w: string, r: string, t: string)
    requires items != []
    requires w == (if |items| == 1 then "]" else "," + ItemsText(items[1..])) + t
    requires r == items[0].before + (Text(items[0].v) + (items[0].after + w))
    ensures r == ItemsText(items) + t
  {
    hide Text;
    var x := if |items| == 1 then "]" else "," + ItemsText(items[1..]);
    RegroupItem(items[0].before, Text(items[0].v), items[0].after, x, t);
  }

  lemma RegroupItem(a: string, b: string, c: string, x: string, t: string)
    ensures ((a + (b + c)) + x) + t == a + (b + (c + (x + t)))
  {
  }

  lemma {:induction false} ObjectSound(fp: Conversion, s: string, depth: nat) returns (v: Syntax)
    requires Ahead(s, '{') && ParseValue(fp, s, depth).Ok? && depth <= MAX_NESTING
    ensures Explains(fp, v, s, ParseValue(fp, s, depth), depth)
    decreases |s|, 0
  {
    hide ParseMembers, MembersText, MembersDepth, CanonMembers, ValidMembers, ParseValue, Sort, SkipWs;
    if depth >= MAX_NESTING { TooDeep(fp, s, depth); }
    ObjectUnfold(fp, s, depth);
    var t := SkipWs(s[1..]);
    assert s == "{" + s[1..];
    EmptyTrees(fp);
    if Ahead(t, '}') {
      var ws := SkipSound(s[1..]);
      v := SObject([], ws);
      assert t == "}" + t[1..];
      Bracketed("{", ws, "}", t[1..]);
    } else {
      MembersAfterSkip(fp, s[1..], depth + 1, {});
      var members := MembersSound(fp, s[1..], depth + 1, {});
      v := SObject(members, "");
    }
  }

  lemma KeySound(r: string, seen: set<string>) returns (before: string, es: seq<Elem>, after: string)
    requires ParseKey(r, seen).Ok?
    ensures Blank(before) && Blank(after) && ValidElems(es)
    ensures Decoded(es) == ParseKey(r, seen).value.0 && Decoded(es) !in seen
    ensures r == before + ("\"" + (BodyText(es) + (after + (":" + ParseKey(r, seen).value.1))))
  {
    hide ParseBody, BodyText, Decoded, SkipWs, Blank, ValidElems;
    before := SkipSound(r);
    var s := SkipWs(r);
    assert s == "\"" + s[1..];
    es := BodySound(s[1..]);
    var t := ParseBody(s[1..]).value.1;
    after := SkipSound(t);
    var u := SkipWs(t);
    assert u == ":" + u[1..];
  }

  lemma {:induction false} MembersSound(fp: Conversion, r: string, depth: nat, seen: set<string>)
    returns (ms: seq<SMember>)
    requires ParseMembers(fp, r, depth, seen).Ok? && depth <= MAX_NESTING
    ensures ms != [] && ValidMembers(fp, ms, seen) && MembersDepth(ms) + depth <= MAX_NESTING
    ensures r == MembersText(ms) + ParseMembers(fp, r, depth, seen).value.1
    ensures ParseMembers(fp, r, depth, seen).value.0 == CanonMembers(fp, ms, seen)
    decreases |r|, 2
  {
    hide ParseValue, Text, Depth, Canon, Valid, ParseKey, BodyText, Decoded, SkipWs;
    var kBefore, es, kAfter := KeySound(r, seen);
    var (key, t) := ParseKey(r, seen).value;
    var before, v := ValueSound(fp, t, depth);
    var u := ParseValue(fp, t, depth).value.1;
    var after := SkipSound(u);
    var w := SkipWs(u);
    var m := SMember(kBefore, es, kAfter, Padded(before, v, after));
    var rest := [];
    if Ahead(w, ',') {
      rest := MembersSound(fp, w[1..], depth, seen + {key});
      assert w == "," + w[1..];
    } else {
      assert w == "}" + w[1..];
    }
    ms := [m] + rest;
    assert ms[1..] == rest;
    MembersAssemble(ms, w, r, ParseMembers(fp, r, depth, seen).value.1);
  }

  lemma MembersAssemble(ms: seq<SMember>, w: string, r: string, t: string)
    requires ms != []
    requires w == (if |ms| == 1 then "}" else "," + MembersText(ms[1..])) + t
    requires var m := ms[0];
             var value := m.value.before + (Text(m.value.v) + (m.value.after + w));
             r == m.before + ("\"" + (BodyText(m.key) + (m.after + (":" + value))))
    ensures r == MembersText(ms) + t
  {
    hide Text, BodyText;
    var m := ms[0];
    var x := if |ms| == 1 then "}" else "," + MembersText(ms[1..]);
    RegroupMember(m.before, BodyText(m.key), m.after, m.value.before, Text(m.value.v), m.value.after, x, t);
  }
}
