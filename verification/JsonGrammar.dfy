/**
 The JSON grammar of RFC 8259 as syntax trees: their text, the value they
 denote, and the canonical tree of that value. Nothing here mentions a parser.
 */
module JsonGrammar {
  import opened Wrappers
  import opened JsonNumber
  import opened Float64
  import opened JsonString
  import opened Json

  datatype Syntax =
    | SNull
    | STrue
    | SFalse
    | SNumber(n: Number)
    | SString(es: seq<Elem>)
    | SArray(items: seq<Padded>, ws: string)
    | SObject(members: seq<SMember>, ws: string)

  /** A value with the white space around it. */
  datatype Padded = Padded(before: string, v: Syntax, after: string)

  datatype SMember = SMember(before: string, key: seq<Elem>, after: string, value: Padded)

  predicate IsWs(c: char) { c == ' ' || c == '\t' || c == '\n' || c == '\r' }

  predicate Blank(s: string) { forall i :: 0 <= i < |s| ==> IsWs(s[i]) }

  // ------------------------------------------------------------------- text

  function Text(v: Syntax): string
    decreases v, 1
  {
    match v
    case SNull => "null"
    case STrue => "true"
    case SFalse => "false"
    case SNumber(n) => NumberText(n)
    case SString(es) => "\"" + BodyText(es)
    case SArray(items, ws) => "[" + (if items == [] then ws + "]" else ItemsText(items))
    case SObject(members, ws) => "{" + (if members == [] then ws + "}" else MembersText(members))
  }

  function Pad(p: Padded, inner: string): string {
    p.before + (inner + p.after)
  }

  /** Array items up to and including the closing bracket. */
  function ItemsText(items: seq<Padded>): string
    decreases items, 0
  {
    if items == [] then ""
    else Pad(items[0], Text(items[0].v)) + (if |items| == 1 then "]" else "," + ItemsText(items[1..]))
  }

  function KeyText(m: SMember): string {
    m.before + ("\"" + (BodyText(m.key) + (m.after + ":")))
  }

  /** Object members up to and including the closing brace. */
  function MembersText(ms: seq<SMember>): string
    decreases ms, 0
  {
    if ms == [] then ""
    else
      KeyText(ms[0]) + (Pad(ms[0].value, Text(ms[0].value.v)) +
      (if |ms| == 1 then "}" else "," + MembersText(ms[1..])))
  }

  /** The text of one member followed by `x` and `t`, as a parser meets it. */
  lemma RegroupMember(a: string, b: string, c: string, d: string, e: string, f: string, x: string, t: string)
    ensures ((a + ("\"" + (b + (c + ":")))) + ((d + (e + f)) + x)) + t
         == a + ("\"" + (b + (c + (":" + (d + (e + (f + (x + t))))))))
  {
  }

  // -------------------------------------------------------- well-formedness

  predicate FiniteDouble(d: Option<Double>) {
    d.Some? && (d.value.Zero? || d.value.Nonzero?)
  }

  /** Blank padding, escapes and surrogate pairs in order, numbers that stay finite, no duplicate key. */
  predicate Valid(fp: Conversion, v: Syntax)
    decreases v, 1
  {
    match v
    case SNumber(n) => ValidNumber(n) && FiniteDouble(fp.parse(NumberText(n)))
    case SString(es) => ValidElems(es)
    case SArray(items, ws) => Blank(ws) && ValidItems(fp, items)
    case SObject(members, ws) => Blank(ws) && ValidMembers(fp, members, {})
    case _ => true
  }

  predicate BlankAround(p: Padded) { Blank(p.before) && Blank(p.after) }

  predicate ValidKey(m: SMember) { Blank(m.before) && Blank(m.after) && ValidElems(m.key) }

  predicate ValidItems(fp: Conversion, items: seq<Padded>)
    decreases items, 0
  {
    items != [] ==> BlankAround(items[0]) && Valid(fp, items[0].v) && ValidItems(fp, items[1..])
  }

  /** `seen` holds the keys already used by the object. */
  predicate ValidMembers(fp: Conversion, ms: seq<SMember>, seen: set<string>)
    decreases ms, 0
  {
    ms != [] ==>
      && ValidKey(ms[0]) && Decoded(ms[0].key) !in seen
      && BlankAround(ms[0].value) && Valid(fp, ms[0].value.v)
      && ValidMembers(fp, ms[1..], seen + {Decoded(ms[0].key)})
  }

  // ---------------------------------------------------------------- nesting

  function Max(a: nat, b: nat): nat { if a < b then b else a }

  function Depth(v: Syntax): nat
    decreases v, 1
  {
    match v
    case SArray(items, _) => 1 + ItemsDepth(items)
    case SObject(members, _) => 1 + MembersDepth(members)
    case _ => 0
  }

  function ItemsDepth(items: seq<Padded>): nat
    decreases items, 0
  {
    if items == [] then 0 else Max(Depth(items[0].v), ItemsDepth(items[1..]))
  }

  function MembersDepth(ms: seq<SMember>): nat
    decreases ms, 0
  {
    if ms == [] then 0 else Max(Depth(ms[0].value.v), MembersDepth(ms[1..]))
  }

  // ---------------------------------------------------------------- meaning

  /** The JSON value a syntax tree denotes: objects as key maps, numbers as doubles. */
  function Meaning(fp: Conversion, v: Syntax): Value
    requires Valid(fp, v)
    decreases v, 1
  {
    match v
    case SNull => VNull
    case STrue => VBool(true)
    case SFalse => VBool(false)
    case SNumber(n) => VNumber(MergeZero(fp.parse(NumberText(n)).value))
    case SString(es) => VString(Decoded(es))
    case SArray(items, _) => VArray(ItemsMeaning(fp, items))
    case SObject(members, _) => VObject(MembersMeaning(fp, members, {}))
  }

  function ItemsMeaning(fp: Conversion, items: seq<Padded>): seq<Value>
    requires ValidItems(fp, items)
    decreases items, 0
  {
    if items == [] then [] else [Meaning(fp, items[0].v)] + ItemsMeaning(fp, items[1..])
  }

  function MembersMeaning(fp: Conversion, ms: seq<SMember>, seen: set<string>): map<string, Value>
    requires ValidMembers(fp, ms, seen)
    decreases ms, 0
  {
    if ms == [] then map[]
    else
      var key := Decoded(ms[0].key);
      MembersMeaning(fp, ms[1..], seen + {key})[key := Meaning(fp, ms[0].value.v)]
  }

  /** The canonical tree of a syntax tree. */
  function Canon(fp: Conversion, v: Syntax): Canonical
    requires Valid(fp, v)
    decreases v, 1
  {
    match v
    case SNull => Null
    case STrue => Bool(true)
    case SFalse => Bool(false)
    case SNumber(n) => Num(DoubleText(fp, fp.parse(NumberText(n)).value))
    case SString(es) => Str(Decoded(es))
    case SArray(items, _) => Arr(CanonItems(fp, items))
    case SObject(members, _) => Obj(Sort(CanonMembers(fp, members, {})))
  }

  function CanonItems(fp: Conversion, items: seq<Padded>): seq<Canonical>
    requires ValidItems(fp, items)
    decreases items, 0
  {
    if items == [] then [] else [Canon(fp, items[0].v)] + CanonItems(fp, items[1..])
  }

  function CanonMembers(fp: Conversion, ms: seq<SMember>, seen: set<string>): seq<Member>
    requires ValidMembers(fp, ms, seen)
    decreases ms, 0
  {
    if ms == [] then []
    else
      var key := Decoded(ms[0].key);
      [Member(key, Canon(fp, ms[0].value.v))] + CanonMembers(fp, ms[1..], seen + {key})
  }

  lemma {:induction false} MembersDistinct(fp: Conversion, ms: seq<SMember>, seen: set<string>)
    requires ValidMembers(fp, ms, seen)
    ensures DistinctKeys(CanonMembers(fp, ms, seen)) && Keys(CanonMembers(fp, ms, seen)) !! seen
    decreases ms
  {
    if ms != [] {
      var key := Decoded(ms[0].key);
      MembersDistinct(fp, ms[1..], seen + {key});
      var cs := CanonMembers(fp, ms, seen);
      var rest := CanonMembers(fp, ms[1..], seen + {key});
      assert cs[1..] == rest && cs[0].key == key;
      forall j | 1 <= j < |cs| ensures cs[j].key != key {
        assert cs[j] == rest[j - 1] && cs[j].key in Keys(rest);
      }
      forall k | k in Keys(cs) ensures k !in seen {
        var m :| m in cs && m.key == k;
        assert m == cs[0] || m in rest;
      }
    }
  }

  lemma NumberDenotes(fp: Conversion, n: Number)
    requires Faithful(fp) && ValidNumber(n) && FiniteDouble(fp.parse(NumberText(n)))
    ensures var c := Num(DoubleText(fp, fp.parse(NumberText(n)).value));
            CanonicalForm(fp, c) && ReadDouble(fp, c.text) == MergeZero(fp.parse(NumberText(n)).value)
  {
    hide DoubleText;
    var d := fp.parse(NumberText(n)).value;
    assert Readable(fp, d);
    DenNum(fp, d);
  }

  lemma SortedObject(fp: Conversion, ms: seq<Member>)
    requires DistinctKeys(ms) && forall m | m in ms :: CanonicalForm(fp, m.value)
    ensures CanonicalForm(fp, Obj(Sort(ms))) && DenMembers(fp, Sort(ms)) == DenMembers(fp, ms)
  {
    SortSorted(ms);
    SameKeys(Sort(ms), ms);
    DenSort(fp, ms);
  }

  /** The canonical tree is in normal form and denotes the value the syntax tree denotes. */
  lemma {:induction false} CanonDenotes(fp: Conversion, v: Syntax)
    requires Faithful(fp) && Valid(fp, v)
    ensures CanonicalForm(fp, Canon(fp, v)) && Den(fp, Canon(fp, v)) == Meaning(fp, v)
    decreases v, 1
  {
    hide DoubleText, Faithful, Readable, MergeZero, Sort, ReadDouble, NumberText;
    match v
    case SNumber(n) =>
      NumberDenotes(fp, n);
    case SArray(items, _) =>
      ItemsDenote(fp, items);
    case SObject(members, _) =>
      MembersDenote(fp, members, {});
      MembersDistinct(fp, members, {});
      SortedObject(fp, CanonMembers(fp, members, {}));
    case _ =>
  }

  lemma {:induction false} ItemsDenote(fp: Conversion, items: seq<Padded>)
    requires Faithful(fp) && ValidItems(fp, items)
    ensures forall c | c in CanonItems(fp, items) :: CanonicalForm(fp, c)
    ensures DenItems(fp, CanonItems(fp, items)) == ItemsMeaning(fp, items)
    decreases items, 0
  {
    hide Faithful, CanonicalForm;
    if items != [] {
      CanonDenotes(fp, items[0].v);
      ItemsDenote(fp, items[1..]);
      assert CanonItems(fp, items)[1..] == CanonItems(fp, items[1..]);
    }
  }

  lemma {:induction false} MembersDenote(fp: Conversion, ms: seq<SMember>, seen: set<string>)
    requires Faithful(fp) && ValidMembers(fp, ms, seen)
    ensures forall m | m in CanonMembers(fp, ms, seen) :: CanonicalForm(fp, m.value)
    ensures DenMembers(fp, CanonMembers(fp, ms, seen)) == MembersMeaning(fp, ms, seen)
    decreases ms, 0
  {
    hide Faithful, CanonicalForm;
    if ms != [] {
      CanonDenotes(fp, ms[0].value.v);
      var seen' := seen + {Decoded(ms[0].key)};
      MembersDenote(fp, ms[1..], seen');
      assert CanonMembers(fp, ms, seen)[1..] == CanonMembers(fp, ms[1..], seen');
    }
  }
}
