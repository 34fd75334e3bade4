/**
 JSON strings (RFC 8259 section 7): the grammar of their contents, the reader of
 `Parser::parse_string`, and the escaping of RFC 8785 section 3.2.2.2.
 */
module JsonString {
  import opened Wrappers
  import opened JsonError

  // ---------------------------------------------------------------- grammar

  predicate IsHex(c: char) { '0' <= c <= '9' || 'a' <= c <= 'f' || 'A' <= c <= 'F' }

  function HexVal(c: char): (v: nat)
    requires IsHex(c)
    ensures v < 16
  {
    if '0' <= c <= '9' then c as int - '0' as int
    else if 'a' <= c <= 'f' then c as int - 'a' as int + 10
    else c as int - 'A' as int + 10
  }

  predicate IsHex4(h: string) {
    |h| == 4 && IsHex(h[0]) && IsHex(h[1]) && IsHex(h[2]) && IsHex(h[3])
  }

  function Hex4Val(h: string): (v: nat)
    requires IsHex4(h)
    ensures v < 0x10000
  {
    ((HexVal(h[0]) * 16 + HexVal(h[1])) * 16 + HexVal(h[2])) * 16 + HexVal(h[3])
  }

  predicate IsHigh(u: nat) { 0xD800 <= u <= 0xDBFF }
  predicate IsLow(u: nat) { 0xDC00 <= u <= 0xDFFF }

  function PairChar(hi: nat, lo: nat): char
    requires IsHigh(hi) && IsLow(lo)
  {
    (0x10000 + (hi - 0xD800) * 0x400 + (lo - 0xDC00)) as char
  }

  /** One element of a string body: a raw character or one of the escapes. */
  datatype Elem = Raw(c: char) | Letter(c: char) | Hex(h: string) | Pair(hi: string, lo: string)

  const BACKSPACE: char := 8 as char
  const FORM_FEED: char := 12 as char

  /** The character a one-letter escape stands for. */
  function LetterChar(c: char): Option<char> {
    match c
    case '\"' => Some('\"')
    case '\\' => Some('\\')
    case '/' => Some('/')
    case 'b' => Some(BACKSPACE)
    case 'f' => Some(FORM_FEED)
    case 'n' => Some('\n')
    case 'r' => Some('\r')
    case 't' => Some('\t')
    case _ => None
  }

  predicate IsRaw(c: char) { c != '\"' && c != '\\' && c as int >= 0x20 }

  predicate ValidElem(e: Elem) {
    match e
    case Raw(c) => IsRaw(c)
    case Letter(c) => LetterChar(c).Some?
    case Hex(h) => IsHex4(h) && !IsHigh(Hex4Val(h)) && !IsLow(Hex4Val(h))
    case Pair(hi, lo) => IsHex4(hi) && IsHex4(lo) && IsHigh(Hex4Val(hi)) && IsLow(Hex4Val(lo))
  }

  function ElemChar(e: Elem): char
    requires ValidElem(e)
  {
    match e
    case Raw(c) => c
    case Letter(c) => LetterChar(c).value
    case Hex(h) => Hex4Val(h) as char
    case Pair(hi, lo) => PairChar(Hex4Val(hi), Hex4Val(lo))
  }

  function EscapeText(e: Elem): string {
    match e
    case Raw(c) => [c]
    case Letter(c) => [c]
    case Hex(h) => "u" + h
    case Pair(hi, lo) => "u" + (hi + ("\\u" + lo))
  }

  function ElemText(e: Elem): string {
    if e.Raw? then [e.c] else "\\" + EscapeText(e)
  }

  predicate ValidElems(es: seq<Elem>) { forall e | e in es :: ValidElem(e) }

  /** The string a body denotes. */
  function Decoded(es: seq<Elem>): (s: string)
    requires ValidElems(es)
    ensures |s| == |es|
  {
    if es == [] then "" else [ElemChar(es[0])] + Decoded(es[1..])
  }

  /** The body with its closing quote. */
  function BodyText(es: seq<Elem>): string {
    if es == [] then "\"" else ElemText(es[0]) + BodyText(es[1..])
  }

  // ---------------------------------------------------------------- reading

  function TakeHex4(r: string): (res: Result<(nat, string), JsonError>)
    ensures res.Ok? ==> |res.value.1| == |r| - 4 && res.value.0 < 0x10000
  {
    if |r| < 4 || !IsHex4(r[..4]) then Err(Rejected("invalid unicode escape"))
    else Ok((Hex4Val(r[..4]), r[4..]))
  }

  function ParseHexEscape(r: string): (res: Result<(char, string), JsonError>)
    ensures res.Ok? ==> |res.value.1| < |r|
  {
    var (unit, rest) :- TakeHex4(r);
    if IsHigh(unit) then
      if StartsWith(rest, "\\u") then
        var (low, rest') :- TakeHex4(rest[2..]);
        if IsLow(low) then Ok((PairChar(unit, low), rest'))
        else Err(Rejected("unpaired UTF-16 surrogate"))
      else Err(Rejected("unpaired UTF-16 surrogate"))
    else if IsLow(unit) then Err(Rejected("unpaired UTF-16 surrogate"))
    else Ok((unit as char, rest))
  }

  function ParseEscape(r: string): (res: Result<(char, string), JsonError>)
    ensures res.Ok? ==> |res.value.1| < |r|
  {
    if r == "" then Err(Rejected("unterminated string escape"))
    else if r[0] == 'u' then ParseHexEscape(r[1..])
    else match LetterChar(r[0])
      case Some(c) => Ok((c, r[1..]))
      case None => Err(Rejected("invalid string escape"))
  }

  function Consed(c: char, res: Result<(string, string), JsonError>): Result<(string, string), JsonError> {
    match res
    case Ok((s, t)) => Ok(([c] + s, t))
    case Err(e) => Err(e)
  }

  /** `parse_string` after the opening quote: the contents and what follows the closing one. */
  function ParseBody(r: string): (res: Result<(string, string), JsonError>)
    ensures res.Ok? ==> |res.value.1| < |r|
    decreases |r|
  {
    if r == "" then Err(Rejected("unterminated string"))
    else if r[0] == '\"' then Ok(("", r[1..]))
    else if r[0] == '\\' then
      var (c, rest) :- ParseEscape(r[1..]);
      Consed(c, ParseBody(rest))
    else if r[0] as int < 0x20 then Err(Rejected("unescaped control character in string"))
    else Consed(r[0], ParseBody(r[1..]))
  }

  lemma HexComplete(h: string, t: string)
    requires IsHex4(h)
    ensures TakeHex4(h + t) == Ok((Hex4Val(h), t))
  {
    assert (h + t)[..4] == h && (h + t)[4..] == t;
  }

  lemma PairComplete(hi: string, lo: string, t: string)
    requires ValidElem(Pair(hi, lo))
    ensures ParseHexEscape(hi + ("\\u" + (lo + t))) == Ok((ElemChar(Pair(hi, lo)), t))
  {
    hide Hex4Val, IsHex4;
    var rest := "\\u" + (lo + t);
    HexComplete(hi, rest);
    assert StartsWith(rest, "\\u") && rest[2..] == lo + t;
    HexComplete(lo, t);
  }

  lemma EscapeComplete(e: Elem, t: string)
    requires ValidElem(e) && !e.Raw?
    ensures ParseEscape(EscapeText(e) + t) == Ok((ElemChar(e), t))
  {
    hide Hex4Val, IsHex4, PairChar, LetterChar;
    match e
    case Letter(c) => LetterComplete(c, t);
    case Hex(h) =>
      hide ParseEscape, ParseHexEscape;
      Regrouped("u", h, t);
      UnicodeEscape(h + t);
      OneHexComplete(h, t);
    case Pair(hi, lo) =>
      hide ParseEscape, ParseHexEscape;
      Regrouped("u", hi + ("\\u" + lo), t);
      Regrouped(hi, "\\u" + lo, t);
      Regrouped("\\u", lo, t);
      UnicodeEscape(hi + ("\\u" + (lo + t)));
      PairComplete(hi, lo, t);
  }

  lemma Regrouped(a: string, b: string, c: string)
    ensures (a + b) + c == a + (b + c)
  {
  }

  lemma LetterComplete(c: char, t: string)
    requires LetterChar(c).Some?
    ensures ParseEscape([c] + t) == Ok((LetterChar(c).value, t))
  {
    hide LetterChar, ParseHexEscape;
    assert ([c] + t)[1..] == t;
    NotU();
  }

  lemma OneHexComplete(h: string, t: string)
    requires ValidElem(Hex(h))
    ensures ParseHexEscape(h + t) == Ok((ElemChar(Hex(h)), t))
  {
    hide Hex4Val, IsHex4, TakeHex4;
    HexComplete(h, t);
  }

  lemma NotU()
    ensures LetterChar('u') == None
  {
  }

  lemma UnicodeEscape(r: string)
    ensures ParseEscape("u" + r) == ParseHexEscape(r)
  {
    hide ParseHexEscape;
    assert ("u" + r)[1..] == r;
  }

  /** One element in front of a body that is read. */
  lemma RawFront(e: Elem, rest: string)
    requires ValidElem(e) && e.Raw?
    ensures ParseBody(ElemText(e) + rest) == Consed(ElemChar(e), ParseBody(rest))
  {
    var s := ElemText(e) + rest;
    assert s[0] == e.c && s[1..] == rest;
  }

  lemma EscapeFront(e: Elem, rest: string)
    requires ValidElem(e) && !e.Raw?
    ensures ParseBody(ElemText(e) + rest) == Consed(ElemChar(e), ParseBody(rest))
  {
    hide Hex4Val, IsHex4, ParseEscape, EscapeText, ElemChar, LetterChar;
    var s := ElemText(e) + rest;
    assert s[0] == '\\' && s[1..] == EscapeText(e) + rest;
    EscapeComplete(e, rest);
  }

  /** Every body of the grammar reads back as the string it denotes. */
  lemma {:induction false} BodyComplete(es: seq<Elem>, t: string)
    requires ValidElems(es)
    ensures ParseBody(BodyText(es) + t) == Ok((Decoded(es), t))
  {
    if es == [] {
      assert (BodyText(es) + t)[1..] == t;
    } else {
      hide ParseBody, ElemText, ElemChar, ValidElem;
      var e, rest := es[0], BodyText(es[1..]) + t;
      assert BodyText(es) + t == ElemText(e) + rest;
      assert ValidElem(e);
      BodyComplete(es[1..], t);
      if e.Raw? { RawFront(e, rest); } else { EscapeFront(e, rest); }
    }
  }

  lemma PairTextSplit(r: string)
    requires |r| >= 4 && StartsWith(r[4..], "\\u") && |r| >= 10
    ensures "u" + r == EscapeText(Pair(r[..4], r[6..][..4])) + r[6..][4..]
  {
    var rest := r[4..];
    assert rest[2..] == r[6..];
    assert rest == "\\u" + r[6..];
    assert r == r[..4] + rest;
  }

  lemma HexEscapeSound(r: string) returns (e: Elem)
    requires ParseHexEscape(r).Ok?
    ensures ValidElem(e) && !e.Raw? && ElemChar(e) == ParseHexEscape(r).value.0
    ensures "u" + r == EscapeText(e) + ParseHexEscape(r).value.1
  {
    hide Hex4Val, IsHex4, EscapeText;
    if IsHigh(Hex4Val(r[..4])) {
      assert r[4..][2..] == r[6..];
      e := Pair(r[..4], r[6..][..4]);
      PairTextSplit(r);
    } else {
      e := Hex(r[..4]);
      HexTextSplit(r);
    }
  }

  lemma HexTextSplit(r: string)
    requires |r| >= 4
    ensures "u" + r == EscapeText(Hex(r[..4])) + r[4..]
  {
    assert r == r[..4] + r[4..];
  }

  lemma EscapeSound(r: string) returns (e: Elem)
    requires ParseEscape(r).Ok?
    ensures ValidElem(e) && !e.Raw? && ElemChar(e) == ParseEscape(r).value.0
    ensures r == EscapeText(e) + ParseEscape(r).value.1
  {
    hide ParseHexEscape;
    if r[0] == 'u' {
      e := HexEscapeSound(r[1..]);
      assert r == "u" + r[1..];
    } else {
      e := Letter(r[0]);
      assert r == [r[0]] + r[1..];
    }
  }

  /** Whatever is accepted as a body is one of the grammar, denoting the string returned. */
  lemma {:induction false} BodySound(r: string) returns (es: seq<Elem>)
    requires ParseBody(r).Ok?
    ensures ValidElems(es) && Decoded(es) == ParseBody(r).value.0
    ensures r == BodyText(es) + ParseBody(r).value.1
    decreases |r|
  {
    hide ParseEscape, EscapeText, ElemChar, ValidElem;
    if r[0] == '\"' {
      es := [];
      assert r == "\"" + r[1..];
    } else {
      var e, rest;
      if r[0] == '\\' {
        e := EscapeSound(r[1..]);
        rest := ParseEscape(r[1..]).value.1;
        assert r == ElemText(e) + rest;
      } else {
        e, rest := Raw(r[0]), r[1..];
        RawElem(r[0]);
        assert r == ElemText(e) + rest;
      }
      var es' := BodySound(rest);
      es := [e] + es';
      assert es[1..] == es';
    }
  }

  lemma RawElem(c: char)
    requires IsRaw(c)
    ensures ValidElem(Raw(c)) && ElemChar(Raw(c)) == c
  {
  }

  // ---------------------------------------------------------------- writing

  function HexDigit(n: nat): (c: char)
    requires n < 16
    ensures IsHex(c) && HexVal(c) == n
  {
    if n < 10 then ('0' as int + n) as char else ('a' as int + n - 10) as char
  }

  /** `{:04x}` of a control character. */
  function ControlHex(c: char): (h: string)
    requires c as int < 0x20
    ensures IsHex4(h) && Hex4Val(h) == c as int
  {
    ['0', '0', HexDigit(c as int / 16), HexDigit(c as int % 16)]
  }

  /** How `write_json_string` writes one character. */
  function CharText(c: char): string {
    match c
    case '\"' => "\\\""
    case '\\' => "\\\\"
    case '\t' => "\\t"
    case '\n' => "\\n"
    case '\r' => "\\r"
    case _ =>
      if c == BACKSPACE then "\\b"
      else if c == FORM_FEED then "\\f"
      else if c as int < 0x20 then "\\u" + ControlHex(c)
      else [c]
  }

  /** The escaped contents of `s` with the closing quote. */
  function Escaped(s: string): string {
    if s == "" then "\"" else CharText(s[0]) + Escaped(s[1..])
  }

  /** The element of the grammar `write_json_string` produces for a character. */
  function ElemFor(c: char): Elem {
    match c
    case '\"' => Letter('\"')
    case '\\' => Letter('\\')
    case '\t' => Letter('t')
    case '\n' => Letter('n')
    case '\r' => Letter('r')
    case _ =>
      if c == BACKSPACE then Letter('b')
      else if c == FORM_FEED then Letter('f')
      else if c as int < 0x20 then Hex(ControlHex(c))
      else Raw(c)
  }

  lemma ElemForChar(c: char)
    ensures ValidElem(ElemFor(c)) && ElemChar(ElemFor(c)) == c && ElemText(ElemFor(c)) == CharText(c)
  {
  }

  function ElemsFor(s: string): (es: seq<Elem>)
    ensures |es| == |s|
  {
    if s == "" then [] else [ElemFor(s[0])] + ElemsFor(s[1..])
  }

  /** The escaper writes a body of the grammar that denotes the string it was given. */
  lemma {:induction false} EscapedDenotes(s: string)
    ensures ValidElems(ElemsFor(s)) && Decoded(ElemsFor(s)) == s && BodyText(ElemsFor(s)) == Escaped(s)
  {
    hide ElemFor, CharText, ElemText, ElemChar, ValidElem;
    if s != "" {
      ElemForChar(s[0]);
      EscapedDenotes(s[1..]);
      var es := ElemsFor(s);
      assert es[1..] == ElemsFor(s[1..]);
      assert s == [s[0]] + s[1..];
    }
  }

  // ------------------------------------------------------------- the spelling

  /** Hex digits of either case, by their place in the alphabet. */
  lemma HexTable(c: char)
    requires IsHex(c)
    ensures HexVal(c) < 16 && ("0123456789abcdef"[HexVal(c)] == c || "0123456789ABCDEF"[HexVal(c)] == c)
  {
  }

  /**
   The spelling RFC 8785 section 3.2.2.2 prescribes: characters stand for themselves where they can; a short escape
   where there is one; otherwise four lower-case hex digits.
   */
  predicate Minimal(e: Elem)
    requires ValidElem(e)
  {
    match e
    case Raw(_) => true
    case Letter(_) => !IsRaw(ElemChar(e))
    case Hex(h) =>
      && ElemChar(e) as int < 0x20 && ElemChar(e) as int !in {0x08, 0x09, 0x0A, 0x0C, 0x0D}
      && forall i :: 0 <= i < |h| ==> !('A' <= h[i] <= 'F')
    case Pair(_, _) => false
  }

  /** The writer spells every character that way. */
  lemma ElemForMinimal(c: char)
    ensures ValidElem(ElemFor(c)) && Minimal(ElemFor(c))
  {
    ElemForChar(c);
  }
}
