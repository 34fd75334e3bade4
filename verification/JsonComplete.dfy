/**
 The parser reads every syntax tree of the grammar back: as its canonical tree
 when the nesting stays within the limit, and as an error when it does not.
 */
module JsonComplete {
  import opened Wrappers
  import opened Decimal
  import opened JsonNumber
  import opened Float64
  import opened JsonString
  import opened Json
  import opened JsonGrammar
  import opened JsonReader

  /** What may follow a value inside a document. */
  predicate Stop(t: string) {
    t != "" ==> IsWs(t[0]) || t[0] == ',' || t[0] == ']' || t[0] == '}'
  }

  /** Accepted as `x` followed by `t`, or refused, depending on the nesting. */
  predicate Outcome<T(==)>(fits: bool, res: Parsed<T>, x: T, t: string) {
    if fits then res == Ok((x, t)) else res.Err?
  }

  predicate IsAtom(v: Syntax) { !v.SArray? && !v.SObject? }

  lemma LiteralComplete(literal: string, c: Canonical, t: string)
    ensures ParseLiteral(literal + t, literal, c) == Ok((c, t))
  {
    assert (literal + t)[..|literal|] == literal && (literal + t)[|literal|..] == t;
  }

  lemma NumberComplete(fp: Conversion, n: Number, t: string)
    requires Valid(fp, SNumber(n)) && Stop(t)
    ensures ParseAtom(fp, NumberText(n) + t) == Ok((Canon(fp, SNumber(n)), t))
  {
    hide DoubleText, NumberText, ParseAtom, LexNumber;
    var s := NumberText(n) + t;
    LexNumberComplete(n, t);
    NumberStart(n, t);
    AtomIsNumber(fp, s);
  }

  lemma AtomIsNumber(fp: Conversion, s: string)
    requires s != "" && (IsDigit(s[0]) || (s[0] == '-' && !StartsWith(s, "-Infinity")))
    ensures ParseAtom(fp, s) == ParseNumber(fp, s)
  {
    hide ParseNumber, StartsWith, ParseBody, ParseLiteral;
  }

  lemma NumberStart(n: Number, t: string)
    requires ValidNumber(n)
    ensures var s := NumberText(n) + t; s != "" && (IsDigit(s[0]) || (s[0] == '-' && !StartsWith(s, "-Infinity")))
  {
    var s := NumberText(n) + t;
    if n.neg {
      assert s[1] == n.whole[0];
      assert "-Infinity"[1] == 'I';
    } else {
      assert s[0] == n.whole[0];
    }
  }

  lemma StringComplete(fp: Conversion, es: seq<Elem>, t: string)
    requires ValidElems(es)
    ensures ParseAtom(fp, Text(SString(es)) + t) == Ok((Str(Decoded(es)), t))
  {
    hide ParseBody, BodyText, Decoded;
    var s := Text(SString(es)) + t;
    assert s[0] == '\"' && s[1..] == BodyText(es) + t;
    BodyComplete(es, t);
  }

  lemma AtomComplete(fp: Conversion, v: Syntax, t: string)
    requires IsAtom(v) && Valid(fp, v) && Stop(t)
    ensures ParseAtom(fp, Text(v) + t) == Ok((Canon(fp, v), t))
  {
    hide ParseNumber, ParseBody, DoubleText, NumberText, BodyText, Decoded;
    match v
    case SNull => LiteralComplete("null", Null, t);
    case STrue => LiteralComplete("true", Bool(true), t);
    case SFalse => LiteralComplete("false", Bool(false), t);
    case SNumber(n) => NumberComplete(fp, n, t);
    case SString(es) => StringComplete(fp, es, t);
  }

  /** The first character of a value tells its kind. */
  lemma FirstChar(fp: Conversion, v: Syntax)
    requires Valid(fp, v)
    ensures var s := Text(v);
            && s != "" && !IsWs(s[0]) && s[0] != ']' && s[0] != '}'
            && (s[0] == '[' <==> v.SArray?) && (s[0] == '{' <==> v.SObject?)
  {
    hide ItemsText, MembersText, BodyText, Valid, NumberText;
    if v.SNumber? {
      assert ValidNumber(v.n) by { UnfoldNumber(fp, v); }
      NumberStart(v.n, "");
      assert NumberText(v.n) + "" == NumberText(v.n);
    }
  }

  lemma UnfoldNumber(fp: Conversion, v: Syntax)
    requires Valid(fp, v) && v.SNumber?
    ensures ValidNumber(v.n)
  {
  }

  lemma {:induction false} ValueComplete(fp: Conversion, ws: string, v: Syntax, depth: nat, t: string)
    requires Blank(ws) && Valid(fp, v) && Stop(t) && depth <= MAX_NESTING
    ensures Outcome(Depth(v) + depth <= MAX_NESTING, ParseValue(fp, ws + (Text(v) + t), depth), Canon(fp, v), t)
    decreases v, 1
  {
    hide ParseAtom, Sort, Canon, Text, Valid;
    var s := Text(v) + t;
    FirstChar(fp, v);
    assert s[0] == Text(v)[0];
    SkipBlank(ws, s);
    if v.SArray? {
      ArrayComplete(fp, v, depth, t);
    } else if v.SObject? {
      ObjectComplete(fp, v, depth, t);
    } else {
      AtomComplete(fp, v, t);
    }
    SameAfterSkip(fp, ws + s, s, depth);
  }

  lemma SameAfterSkip(fp: Conversion, r: string, s: string, depth: nat)
    requires SkipWs(r) == s
    ensures ParseValue(fp, r, depth) == ParseValue(fp, s, depth)
  {
    SkipTwice(r);
  }

  lemma {:induction false} ArrayComplete(fp: Conversion, v: Syntax, depth: nat, t: string)
    requires v.SArray? && Valid(fp, v) && depth <= MAX_NESTING
    ensures Outcome(Depth(v) + depth <= MAX_NESTING, ParseValue(fp, Text(v) + t, depth), Canon(fp, v), t)
    decreases v, 0
  {
    hide ItemsText, ItemsDepth, CanonItems, ParseItems, ParseValue;
    var s := Text(v) + t;
    assert s[0] == '[';
    if depth < MAX_NESTING {
      ArrayUnfold(fp, s, depth);
      if v.items == [] {
        assert s[1..] == v.ws + ("]" + t);
        SkipBlank(v.ws, "]" + t);
        assert ("]" + t)[1..] == t;
        EmptyItems(fp);
      } else {
        assert s[1..] == ItemsText(v.items) + t;
        ItemsComplete(fp, v.items, depth + 1, t);
        ItemsStart(fp, v.items, t);
        ItemsAfterSkip(fp, s[1..], depth + 1);
      }
    } else {
      TooDeep(fp, s, depth);
    }
  }

  lemma EmptyItems(fp: Conversion)
    ensures ItemsDepth([]) == 0 && CanonItems(fp, []) == []
    ensures MembersDepth([]) == 0 && CanonMembers(fp, [], {}) == []
  {
  }

  lemma ItemsStart(fp: Conversion, items: seq<Padded>, t: string)
    requires items != [] && ValidItems(fp, items)
    ensures !Ahead(SkipWs(ItemsText(items) + t), ']')
  {
    hide Valid, Text;
    var p := items[0];
    FirstChar(fp, p.v);
    var rest := p.after + ((if |items| == 1 then "]" else "," + ItemsText(items[1..])) + t);
    assert ItemsText(items) + t == p.before + (Text(p.v) + rest);
    assert (Text(p.v) + rest)[0] == Text(p.v)[0];
    SkipBlank(p.before, Text(p.v) + rest);
  }

  lemma {:induction false} ItemsComplete(fp: Conversion, items: seq<Padded>, depth: nat, t: string)
    requires items != [] && ValidItems(fp, items) && depth <= MAX_NESTING
    ensures Outcome(ItemsDepth(items) + depth <= MAX_NESTING,
                    ParseItems(fp, ItemsText(items) + t, depth), CanonItems(fp, items), t)
    decreases items, 0
  {
    hide Valid, Text, Canon, ParseValue, Depth;
    var p := items[0];
    var rest := (if |items| == 1 then "]" else "," + ItemsText(items[1..])) + t;
    var after := p.after + rest;
    assert ItemsText(items) + t == p.before + (Text(p.v) + after);
    assert Stop(after) by { assert after[0] == if p.after == "" then rest[0] else p.after[0]; }
    ValueComplete(fp, p.before, p.v, depth, after);
    SkipBlank(p.after, rest);
    if |items| == 1 {
      assert rest[1..] == t;
      assert items[1..] == [] && CanonItems(fp, items[1..]) == [] && ItemsDepth(items[1..]) == 0;
      assert CanonItems(fp, items) == [Canon(fp, p.v)];
      assert Ahead(rest, ']');
    } else {
      assert rest[1..] == ItemsText(items[1..]) + t;
      ItemsComplete(fp, items[1..], depth, t);
    }
  }

  lemma {:induction false} ObjectComplete(fp: Conversion, v: Syntax, depth: nat, t: string)
    requires v.SObject? && Valid(fp, v) && depth <= MAX_NESTING
    ensures Outcome(Depth(v) + depth <= MAX_NESTING, ParseValue(fp, Text(v) + t, depth), Canon(fp, v), t)
    decreases v, 0
  {
    hide MembersText, MembersDepth, CanonMembers, ParseMembers, ParseValue, Sort, MembersMeaning;
    var s := Text(v) + t;
    assert s[0] == '{';
    if depth < MAX_NESTING {
      ObjectUnfold(fp, s, depth);
      if v.members == [] {
        assert s[1..] == v.ws + ("}" + t);
        SkipBlank(v.ws, "}" + t);
        assert ("}" + t)[1..] == t;
        EmptyItems(fp);
      } else {
        assert s[1..] == MembersText(v.members) + t;
        MembersComplete(fp, v.members, depth + 1, {}, t);
        MembersStart(fp, v.members, t);
        MembersAfterSkip(fp, s[1..], depth + 1, {});
      }
    } else {
      TooDeep(fp, s, depth);
    }
  }

  /** A member's text, regrouped as the parser meets it. */
  lemma MembersSplit(ms: seq<SMember>, t: string)
    requires ms != []
    ensures var m := ms[0];
            var rest := (if |ms| == 1 then "}" else "," + MembersText(ms[1..])) + t;
            var value := m.value.before + (Text(m.value.v) + (m.value.after + rest));
            MembersText(ms) + t == m.before + ("\"" + (BodyText(m.key) + (m.after + (":" + value))))
  {
    hide Text, BodyText;
    var m := ms[0];
    var x := if |ms| == 1 then "}" else "," + MembersText(ms[1..]);
    RegroupMember(m.before, BodyText(m.key), m.after, m.value.before, Text(m.value.v), m.value.after, x, t);
  }

  lemma MembersStart(fp: Conversion, ms: seq<SMember>, t: string)
    requires ms != [] && ValidMembers(fp, ms, {})
    ensures !Ahead(SkipWs(MembersText(ms) + t), '}')
  {
    hide Text, MembersText, BodyText, Valid;
    MembersSplit(ms, t);
    var m := ms[0];
    var s :| MembersText(ms) + t == m.before + ("\"" + s);
    SkipBlank(m.before, "\"" + s);
  }

  lemma KeyComplete(m: SMember, seen: set<string>, r: string)
    requires ValidKey(m) && Decoded(m.key) !in seen
    ensures ParseKey(m.before + ("\"" + (BodyText(m.key) + (m.after + (":" + r)))), seen) == Ok((Decoded(m.key), r))
  {
    hide BodyText, Decoded, ParseBody;
    var a := m.after + (":" + r);
    var s := "\"" + (BodyText(m.key) + a);
    SkipBlank(m.before, s);
    assert s[1..] == BodyText(m.key) + a;
    BodyComplete(m.key, a);
    SkipBlank(m.after, ":" + r);
    assert (":" + r)[1..] == r;
  }

  lemma {:induction false} MembersComplete(fp: Conversion, ms: seq<SMember>, depth: nat, seen: set<string>, t: string)
    requires ms != [] && ValidMembers(fp, ms, seen) && depth <= MAX_NESTING
    ensures Outcome(MembersDepth(ms) + depth <= MAX_NESTING,
                    ParseMembers(fp, MembersText(ms) + t, depth, seen), CanonMembers(fp, ms, seen), t)
    decreases ms, 0
  {
    hide Valid, Text, Canon, ParseValue, Depth, BodyText, Decoded, ParseKey, MembersText;
    var m := ms[0];
    var p := m.value;
    var rest := (if |ms| == 1 then "}" else "," + MembersText(ms[1..])) + t;
    var after := p.after + rest;
    MembersSplit(ms, t);
    KeyComplete(m, seen, p.before + (Text(p.v) + after));
    assert Stop(after) by { assert after[0] == if p.after == "" then rest[0] else p.after[0]; }
    ValueComplete(fp, p.before, p.v, depth, after);
    SkipBlank(p.after, rest);
    var seen' := seen + {Decoded(m.key)};
    if |ms| == 1 {
      assert rest[1..] == t;
      assert ms[1..] == [] && CanonMembers(fp, ms[1..], seen') == [] && MembersDepth(ms[1..]) == 0;
      assert CanonMembers(fp, ms, seen) == [Member(Decoded(m.key), Canon(fp, p.v))];
      assert Ahead(rest, '}');
    } else {
      assert rest[1..] == MembersText(ms[1..]) + t;
      MembersComplete(fp, ms[1..], depth, seen', t);
    }
  }
}
