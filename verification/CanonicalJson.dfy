/** `canonicalize` and the laws of RFC 8785 it is there for. */
module CanonicalJson {
  import opened Wrappers
  import opened JsonError
  import opened JsonNumber
  import opened Utf16
  import opened Float64
  import opened JsonString
  import opened Json
  import opened JsonGrammar
  import opened JsonReader
  import opened JsonComplete
  import opened JsonSound

  // --------------------------------------------------------------- printing

  /** `Canonical::write_jcs`. */
  function Print(c: Canonical): string
    decreases c, 1
  {
    match c
    case Null => "null"
    case Bool(b) => if b then "true" else "false"
    case Num(text) => text
    case Str(s) => "\"" + Escaped(s)
    case Arr(items) => "[" + PrintItems(items)
    case Obj(members) => "{" + PrintMembers(members)
  }

  /** Items separated by commas, with the closing bracket. */
  function PrintItems(items: seq<Canonical>): string
    decreases items, 0
  {
    if items == [] then "]"
    else Print(items[0]) + (if |items| == 1 then "]" else "," + PrintItems(items[1..]))
  }

  function PrintMembers(ms: seq<Member>): string
    decreases ms, 0
  {
    if ms == [] then "}"
    else
      "\"" + (Escaped(ms[0].key) + (":" + (Print(ms[0].value) +
      (if |ms| == 1 then "}" else "," + PrintMembers(ms[1..])))))
  }

  /** `canonicalize`. */
  function Canonicalize(fp: Conversion, text: string): Result<string, JsonError> {
    var (c, t) :- ParseValue(fp, text, 0);
    if SkipWs(t) != "" then Err(Rejected("trailing data after JSON value")) else Ok(Print(c))
  }

  // ------------------------------------------- the printed form as a syntax

  function Bare(v: Syntax): Padded { Padded("", v, "") }

  /** The syntax tree whose text `Print` writes. */
  function Printed(c: Canonical): Syntax
    decreases c, 1
  {
    match c
    case Null => SNull
    case Bool(b) => if b then STrue else SFalse
    case Num(text) => if LexNumber(text).Ok? then SNumber(LexNumber(text).value.0) else SNull
    case Str(s) => SString(ElemsFor(s))
    case Arr(items) => SArray(PrintedItems(items), "")
    case Obj(members) => SObject(PrintedMembers(members), "")
  }

  function PrintedItems(items: seq<Canonical>): (ps: seq<Padded>)
    ensures |ps| == |items|
    decreases items, 0
  {
    if items == [] then [] else [Bare(Printed(items[0]))] + PrintedItems(items[1..])
  }

  function PrintedMembers(ms: seq<Member>): (ps: seq<SMember>)
    ensures |ps| == |ms|
    decreases ms, 0
  {
    if ms == [] then []
    else [SMember("", ElemsFor(ms[0].key), "", Bare(Printed(ms[0].value)))] + PrintedMembers(ms[1..])
  }

  function Nesting(c: Canonical): nat
    decreases c, 1
  {
    match c
    case Arr(items) => 1 + ItemsNesting(items)
    case Obj(members) => 1 + MembersNesting(members)
    case _ => 0
  }

  function ItemsNesting(items: seq<Canonical>): nat
    decreases items, 0
  {
    if items == [] then 0 else Max(Nesting(items[0]), ItemsNesting(items[1..]))
  }

  function MembersNesting(ms: seq<Member>): nat
    decreases ms, 0
  {
    if ms == [] then 0 else Max(Nesting(ms[0].value), MembersNesting(ms[1..]))
  }

  /** `v` is written as `c` is printed, and means exactly `c`. */
  ghost predicate Represents(fp: Conversion, v: Syntax, c: Canonical) {
    Valid(fp, v) && Text(v) == Print(c) && Canon(fp, v) == c && Depth(v) == Nesting(c)
  }

  lemma NumberPrinted(fp: Conversion, text: string)
    requires Faithful(fp) && CanonicalForm(fp, Num(text))
    ensures Represents(fp, Printed(Num(text)), Num(text))
  {
    hide Faithful, DoubleText;
    var d :| Readable(fp, d) && text == DoubleText(fp, d);
    var n := DoubleTextReadsBack(fp, d);
    NumberRepresents(fp, n, d);
  }

  lemma NumberRepresents(fp: Conversion, n: Number, d: Double)
    requires Readable(fp, d) && ValidNumber(n) && NumberText(n) == DoubleText(fp, d)
    requires fp.parse(DoubleText(fp, d)) == Some(MergeZero(d))
    ensures Represents(fp, Printed(Num(NumberText(n))), Num(NumberText(n)))
  {
    hide DoubleText, NumberText, ValidNumber, LexNumber;
    LexNumberComplete(n, "");
    assert NumberText(n) + "" == NumberText(n);
    SameZeroText(fp, d);
    assert Printed(Num(NumberText(n))) == SNumber(n);
  }

  lemma SameZeroText(fp: Conversion, d: Double)
    requires Readable(fp, d)
    ensures FiniteDouble(Some(MergeZero(d))) && DoubleText(fp, MergeZero(d)) == DoubleText(fp, d)
  {
  }

  lemma {:induction false} SortFixed(ms: seq<Member>)
    requires Sorted(ms)
    ensures Sort(ms) == ms
  {
    if ms != [] {
      SortFixed(ms[1..]);
      assert ms == [ms[0]] + ms[1..];
    }
  }

  lemma {:induction false} PrintedRepresents(fp: Conversion, c: Canonical)
    requires Faithful(fp) && CanonicalForm(fp, c)
    ensures Represents(fp, Printed(c), c)
    decreases c, 1
  {
    hide Faithful, DoubleText, PrintItems, PrintMembers, PrintedItems, PrintedMembers, ItemsText, MembersText,
         ValidItems, ValidMembers, CanonItems, CanonMembers, ItemsDepth, MembersDepth, ItemsNesting,
         MembersNesting, Sort;
    match c
    case Num(text) =>
      NumberPrinted(fp, text);
    case Str(s) =>
      EscapedDenotes(s);
    case Arr(items) =>
      ItemsPrinted(fp, items);
      EmptyPrint();
    case Obj(members) =>
      SortedDistinct(members);
      MembersPrinted(fp, members, {});
      SortFixed(members);
      EmptyPrint();
    case _ =>
  }

  lemma EmptyPrint()
    ensures PrintItems([]) == "]" && PrintMembers([]) == "}"
  {
  }

  lemma {:induction false} ItemsPrinted(fp: Conversion, items: seq<Canonical>)
    requires Faithful(fp) && forall c | c in items :: CanonicalForm(fp, c)
    ensures var ps := PrintedItems(items);
            && ValidItems(fp, ps) && CanonItems(fp, ps) == items && ItemsDepth(ps) == ItemsNesting(items)
            && (items != [] ==> ItemsText(ps) == PrintItems(items))
    decreases items, 0
  {
    hide Faithful, CanonicalForm, Print, Text, Valid, Canon, Printed, Depth, Nesting;
    if items != [] {
      PrintedRepresents(fp, items[0]);
      ItemsPrinted(fp, items[1..]);
      var ps := PrintedItems(items);
      assert ps[1..] == PrintedItems(items[1..]);
      assert Pad(ps[0], Text(ps[0].v)) == Print(items[0]);
    }
  }

  lemma {:induction false} MembersPrinted(fp: Conversion, ms: seq<Member>, seen: set<string>)
    requires Faithful(fp) && (forall m | m in ms :: CanonicalForm(fp, m.value)) && DistinctKeys(ms) && Keys(ms) !! seen
    ensures var ps := PrintedMembers(ms);
            && ValidMembers(fp, ps, seen) && CanonMembers(fp, ps, seen) == ms && MembersDepth(ps) == MembersNesting(ms)
            && (ms != [] ==> MembersText(ps) == PrintMembers(ms))
    decreases ms, 0
  {
    hide Faithful, CanonicalForm, Print, Text, Valid, Canon, Printed, Depth, Nesting,
         Escaped, BodyText, Decoded, ElemsFor, ValidElems;
    if ms != [] {
      var key := ms[0].key;
      assert key in Keys(ms);
      assert key !in Keys(ms[1..]);
      assert Keys(ms[1..]) <= Keys(ms);
      PrintedRepresents(fp, ms[0].value);
      EscapedDenotes(key);
      MembersPrinted(fp, ms[1..], seen + {key});
      var ps := PrintedMembers(ms);
      assert ps[1..] == PrintedMembers(ms[1..]);
      MemberLine(ps, ms);
    }
  }

  lemma {:induction false} MemberLine(ps: seq<SMember>, ms: seq<Member>)
    requires |ps| == |ms| > 0
    requires ps[0].before == "" && ps[0].after == "" && ps[0].value.before == "" && ps[0].value.after == ""
    requires BodyText(ps[0].key) == Escaped(ms[0].key) && Text(ps[0].value.v) == Print(ms[0].value)
    requires |ms| > 1 ==> MembersText(ps[1..]) == PrintMembers(ms[1..])
    ensures MembersText(ps) == PrintMembers(ms)
  {
    hide Text, Print, Escaped, BodyText;
    var x := if |ps| == 1 then "}" else "," + MembersText(ps[1..]);
    RegroupMember("", BodyText(ps[0].key), "", "", Text(ps[0].value.v), "", x, "");
    assert MembersText(ps) == MembersText(ps) + "";
  }

  // ------------------------------------------------------------------- laws

  ghost predicate ValidDocument(fp: Conversion, d: Padded) {
    BlankAround(d) && Valid(fp, d.v)
  }

  function DocumentText(d: Padded): string { Pad(d, Text(d.v)) }

  /** A well-formed document is accepted exactly when its nesting is at most 128, and printed as its canonical tree. */
  lemma DocumentOutcome(fp: Conversion, d: Padded)
    requires ValidDocument(fp, d)
    ensures Depth(d.v) <= 128 ==> Canonicalize(fp, DocumentText(d)) == Ok(Print(Canon(fp, d.v)))
    ensures Depth(d.v) > 128 ==> Canonicalize(fp, DocumentText(d)).Err?
  {
    hide Print, Canon, Text, Valid, ParseValue, Depth;
    ValueComplete(fp, d.before, d.v, 0, d.after);
    SkipBlank(d.after, "");
    assert d.after + "" == d.after;
  }

  /** Acceptance: exactly the texts of the grammar, duplicate-free, finite, and nested at most 128 deep. */
  lemma Acceptance(fp: Conversion, text: string)
    ensures Canonicalize(fp, text).Ok? <==>
            exists d :: ValidDocument(fp, d) && DocumentText(d) == text && Depth(d.v) <= 128
  {
    hide Print, Canon, Text, Valid, ParseValue, Depth;
    if Canonicalize(fp, text).Ok? {
      var d := Reading(fp, text);
    }
    forall d | ValidDocument(fp, d) && DocumentText(d) == text && Depth(d.v) <= 128
      ensures Canonicalize(fp, text).Ok?
    {
      DocumentOutcome(fp, d);
    }
  }

  /** Every accepted text has a document behind it, and the output is that document's. */
  lemma Reading(fp: Conversion, text: string) returns (d: Padded)
    requires Canonicalize(fp, text).Ok?
    ensures ValidDocument(fp, d) && DocumentText(d) == text && Depth(d.v) <= MAX_NESTING
    ensures Canonicalize(fp, text) == Ok(Print(Canon(fp, d.v)))
  {
    hide Print, Canon, Text, Valid, ParseValue, Depth;
    var before, v := ValueSound(fp, text, 0);
    var t := ParseValue(fp, text, 0).value.1;
    var after := SkipSound(t);
    assert t == after;
    d := Padded(before, v, after);
  }

  /** Parsing the printed form of a canonical value gives that value back. */
  lemma PrintParse(fp: Conversion, c: Canonical)
    requires Faithful(fp) && CanonicalForm(fp, c) && Nesting(c) <= MAX_NESTING
    ensures ParseValue(fp, Print(c), 0) == Ok((c, ""))
  {
    hide Faithful, CanonicalForm, Print, Canon, Text, Valid, ParseValue, Depth, Printed, Nesting;
    PrintedRepresents(fp, c);
    ValueComplete(fp, "", Printed(c), 0, "");
    assert "" + (Print(c) + "") == Print(c);
  }

  lemma {:induction false} NestingKept(fp: Conversion, v: Syntax)
    requires Faithful(fp) && Valid(fp, v)
    ensures Nesting(Canon(fp, v)) == Depth(v)
    decreases v, 1
  {
    hide Faithful, CanonItems, CanonMembers, ItemsNesting, MembersNesting, ItemsDepth, MembersDepth, Sort,
         ValidItems, ValidMembers, DoubleText;
    match v
    case SArray(items, _) => ItemsNestingKept(fp, items);
    case SObject(members, _) =>
      MembersNestingKept(fp, members, {});
      SortNesting(CanonMembers(fp, members, {}));
    case _ =>
  }

  lemma {:induction false} ItemsNestingKept(fp: Conversion, items: seq<Padded>)
    requires Faithful(fp) && ValidItems(fp, items)
    ensures ItemsNesting(CanonItems(fp, items)) == ItemsDepth(items)
    decreases items, 0
  {
    hide Faithful, Nesting, Depth, Canon;
    if items != [] {
      NestingKept(fp, items[0].v);
      ItemsNestingKept(fp, items[1..]);
      assert CanonItems(fp, items)[1..] == CanonItems(fp, items[1..]);
    }
  }

  lemma {:induction false} MembersNestingKept(fp: Conversion, ms: seq<SMember>, seen: set<string>)
    requires Faithful(fp) && ValidMembers(fp, ms, seen)
    ensures MembersNesting(CanonMembers(fp, ms, seen)) == MembersDepth(ms)
    decreases ms, 0
  {
    hide Faithful, Nesting, Depth, Canon, Decoded;
    if ms != [] {
      var seen' := seen + {Decoded(ms[0].key)};
      NestingKept(fp, ms[0].value.v);
      MembersNestingKept(fp, ms[1..], seen');
      assert CanonMembers(fp, ms, seen)[1..] == CanonMembers(fp, ms[1..], seen');
    }
  }

  lemma {:induction false} InsertNesting(m: Member, ms: seq<Member>)
    ensures MembersNesting(Insert(m, ms)) == Max(Nesting(m.value), MembersNesting(ms))
    decreases ms
  {
    hide Nesting, KeyLess;
    if ms == [] || KeyLess(m.key, ms[0].key) {
      assert Insert(m, ms) == [m] + ms && ([m] + ms)[1..] == ms;
    } else {
      InsertNesting(m, ms[1..]);
      assert Insert(m, ms)[1..] == Insert(m, ms[1..]);
    }
  }

  lemma {:induction false} SortNesting(ms: seq<Member>)
    ensures MembersNesting(Sort(ms)) == MembersNesting(ms)
    decreases ms
  {
    hide Nesting, Insert;
    if ms != [] {
      SortNesting(ms[1..]);
      InsertNesting(ms[0], Sort(ms[1..]));
    }
  }

  /**
   Canonical form: two well-formed documents are printed alike exactly when they
   denote the same value, with objects as key maps and numbers as doubles.
   */
  lemma SameOutputSameMeaning(fp: Conversion, a: Padded, b: Padded)
    requires Faithful(fp) && ValidDocument(fp, a) && ValidDocument(fp, b)
    requires Depth(a.v) <= MAX_NESTING && Depth(b.v) <= MAX_NESTING
    ensures Canonicalize(fp, DocumentText(a)) == Canonicalize(fp, DocumentText(b)) <==>
            Meaning(fp, a.v) == Meaning(fp, b.v)
  {
    hide Faithful, Print, Canon, Text, Valid, ParseValue, Depth, Nesting, Canonicalize, CanonicalForm, Meaning, Den;
    DocumentOutcome(fp, a);
    DocumentOutcome(fp, b);
    CanonDenotes(fp, a.v);
    CanonDenotes(fp, b.v);
    if Print(Canon(fp, a.v)) == Print(Canon(fp, b.v)) {
      NestingKept(fp, a.v);
      NestingKept(fp, b.v);
      PrintParse(fp, Canon(fp, a.v));
      PrintParse(fp, Canon(fp, b.v));
    }
    if Meaning(fp, a.v) == Meaning(fp, b.v) {
      CanonicalUnique(fp, Canon(fp, a.v), Canon(fp, b.v));
    }
  }

  /** The same law on texts: for accepted texts it does not matter which reading is taken. */
  lemma MeaningDetermined(fp: Conversion, a: Padded, b: Padded)
    requires Faithful(fp) && ValidDocument(fp, a) && ValidDocument(fp, b) && DocumentText(a) == DocumentText(b)
    requires Depth(a.v) <= MAX_NESTING && Depth(b.v) <= MAX_NESTING
    ensures Meaning(fp, a.v) == Meaning(fp, b.v)
  {
    hide *;
    SameOutputSameMeaning(fp, a, b);
  }

  /** `canonicalize` is idempotent on every input it accepts. */
  lemma Idempotent(fp: Conversion, text: string)
    requires Faithful(fp) && Canonicalize(fp, text).Ok?
    ensures Canonicalize(fp, Canonicalize(fp, text).value) == Canonicalize(fp, text)
  {
    hide Faithful, Print, Canon, Text, Valid, ParseValue, Depth, Nesting, CanonicalForm, Meaning, Den;
    var d := Reading(fp, text);
    var c := Canon(fp, d.v);
    CanonDenotes(fp, d.v);
    NestingKept(fp, d.v);
    PrintParse(fp, c);
  }
}
