/** `write_jcs` and `write_json_string` appending to an output buffer, and `canonicalize` end to end. */
module JsonWriter {
  import opened Wrappers
  import opened JsonError
  import opened Utf8
  import opened Float64
  import opened JsonString
  import opened Json
  import opened JsonReader
  import opened JsonParser
  import opened CanonicalJson
  import opened CanonicalText

  /** The `&mut String` the writers push onto. */
  class Buffer {
    var text: string

    constructor ()
      ensures text == ""
    {
      text := "";
    }

    method Push(s: string)
      modifies this
      ensures text == old(text) + s
    {
      text := text + s;
    }
  }

  method WriteString(s: string, out: Buffer)
    modifies out
    ensures out.text == old(out.text) + ("\"" + Escaped(s))
  {
    hide CharText;
    out.Push("\"");
    for i := 0 to |s|
      invariant out.text + Escaped(s[i..]) == old(out.text) + ("\"" + Escaped(s))
    {
      assert s[i..][1..] == s[i + 1..];
      ghost var before := out.text;
      out.Push(CharText(s[i]));
      assert before + (CharText(s[i]) + Escaped(s[i + 1..])) == out.text + Escaped(s[i + 1..]);
    }
    out.Push("\"");
    assert Escaped(s[|s|..]) == "\"";
  }

  /** What is still to be written after `i` items. */
  ghost function ItemsLeft(items: seq<Canonical>, i: nat): string
    requires i <= |items|
  {
    if i == 0 then PrintItems(items) else if i == |items| then "]" else "," + PrintItems(items[i..])
  }

  ghost function MembersLeft(ms: seq<Member>, i: nat): string
    requires i <= |ms|
  {
    if i == 0 then PrintMembers(ms) else if i == |ms| then "}" else "," + PrintMembers(ms[i..])
  }

  lemma NextItem(items: seq<Canonical>, i: nat)
    requires i < |items|
    ensures ItemsLeft(items, i) == (if i > 0 then "," else "") + (Print(items[i]) + ItemsLeft(items, i + 1))
  {
    hide Print;
    assert items[i..][1..] == items[i + 1..] && items[0..] == items;
  }

  lemma NextMember(ms: seq<Member>, i: nat)
    requires i < |ms|
    ensures MembersLeft(ms, i) == (if i > 0 then "," else "") +
            (("\"" + Escaped(ms[i].key)) + (":" + (Print(ms[i].value) + MembersLeft(ms, i + 1))))
  {
    hide Print, Escaped;
    assert ms[i..][1..] == ms[i + 1..] && ms[0..] == ms;
  }

  method WriteJcs(c: Canonical, out: Buffer)
    modifies out
    ensures out.text == old(out.text) + Print(c)
    decreases c, 1
  {
    match c
    case Null => out.Push("null");
    case Bool(b) => out.Push(if b then "true" else "false");
    case Num(n) => out.Push(n);
    case Str(s) => WriteString(s, out);
    case Arr(items) => WriteItems(items, out);
    case Obj(members) => WriteMembers(members, out);
  }

  method WriteItems(items: seq<Canonical>, out: Buffer)
    modifies out
    ensures out.text == old(out.text) + ("[" + PrintItems(items))
    decreases items, 0
  {
    hide PrintItems, Print, ItemsLeft;
    out.Push("[");
    ItemsEnds(items);
    for i := 0 to |items|
      invariant out.text + ItemsLeft(items, i) == old(out.text) + ("[" + PrintItems(items))
    {
      NextItem(items, i);
      ghost var before, v, t := out.text, Print(items[i]), ItemsLeft(items, i + 1);
      ghost var comma := if i > 0 then "," else "";
      if i > 0 { out.Push(","); }
      WriteJcs(items[i], out);
      GatherItem(before, comma, v, t);
    }
    out.Push("]");
  }

  lemma ItemsEnds(items: seq<Canonical>)
    ensures ItemsLeft(items, 0) == PrintItems(items) && ItemsLeft(items, |items|) == "]"
  {
  }

  lemma MembersEnds(ms: seq<Member>)
    ensures MembersLeft(ms, 0) == PrintMembers(ms) && MembersLeft(ms, |ms|) == "}"
  {
  }

  lemma GatherItem(a: string, b: string, v: string, t: string)
    ensures ((a + b) + v) + t == a + (b + (v + t))
  {
  }

  method WriteMembers(ms: seq<Member>, out: Buffer)
    modifies out
    ensures out.text == old(out.text) + ("{" + PrintMembers(ms))
    decreases ms, 0
  {
    hide PrintMembers, Print, Escaped, MembersLeft;
    out.Push("{");
    MembersEnds(ms);
    for i := 0 to |ms|
      invariant out.text + MembersLeft(ms, i) == old(out.text) + ("{" + PrintMembers(ms))
    {
      NextMember(ms, i);
      ghost var before, k, v, t := out.text, "\"" + Escaped(ms[i].key), Print(ms[i].value), MembersLeft(ms, i + 1);
      ghost var comma := if i > 0 then "," else "";
      if i > 0 { out.Push(","); }
      WriteString(ms[i].key, out);
      out.Push(":");
      WriteJcs(ms[i].value, out);
      Gather(before, comma, k, v, t);
    }
    out.Push("}");
  }

  lemma Gather(a: string, b: string, k: string, v: string, t: string)
    ensures (((a + b) + k) + ":" + v) + t == a + (b + (k + (":" + (v + t))))
  {
  }

  /** `canonicalize` on the bytes of a `&str`. */
  method CanonicalizeBytes(fp: Conversion, input: seq<Byte>, ghost text: string) returns (r: Result<string, JsonError>)
    requires input == Encode(text)
    ensures r == Canonicalize(fp, text)
    ensures Faithful(fp) && r.Ok? ==> CanonicalFor(fp, text, r.value)
  {
    hide ParseValue, Print, Faithful, CanonicalFor;
    if Faithful(fp) && Canonicalize(fp, text).Ok? { CanonicalizeMeans(fp, text); }
    var parser := new Parser(input, text);
    var value :- parser.ParseAny(fp);
    parser.SkipBlanks();
    parser.EndOfInput();
    if parser.index != |parser.input| {
      return Err(Rejected("trailing data after JSON value"));
    }
    var out := new Buffer();
    WriteJcs(value, out);
    assert "" + Print(value) == Print(value);
    r := Ok(out.text);
  }
}
