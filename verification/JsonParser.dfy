/**
 `Parser` as written: a byte index into the UTF-8 input and a nesting depth,
 advanced in place. Each method is proved to compute what the reader functions
 compute on the characters left, and to leave the index on a character boundary
 and the depth as it found it, on success and on error.
 */
module JsonParser {
  import opened Wrappers
  import opened JsonError
  import opened Decimal
  import opened Utf8
  import opened JsonNumber
  import opened Float64
  import opened JsonString
  import opened Json
  import opened JsonReader

  /** `r` is what `spec` says, and on success `rest` is what is left. */
  ghost predicate Agrees<T(!new)>(r: Result<T, JsonError>, rest: string, spec: Parsed<T>) {
    match spec
    case Ok((x, t)) => r == Ok(x) && rest == t
    case Err(e) => r == Err(e)
  }

  /** Prefixing what a loop has collected to what the rest of it would return. */
  ghost function Collected<T>(xs: seq<T>, res: Parsed<seq<T>>): Parsed<seq<T>> {
    match res
    case Ok((ys, t)) => Ok((xs + ys, t))
    case Err(e) => Err(e)
  }

  lemma CollectedNone<T>(res: Parsed<seq<T>>)
    ensures Collected([], res) == res
  {
    if res.Ok? { assert [] + res.value.0 == res.value.0; }
  }

  lemma CollectedOne<T>(xs: seq<T>, x: T, res: Parsed<seq<T>>)
    ensures Collected(xs, WithHead(x, res)) == Collected(xs + [x], res)
  {
    if res.Ok? { assert xs + ([x] + res.value.0) == (xs + [x]) + res.value.0; }
  }

  class Parser {
    const input: seq<Byte>
    ghost const text: string
    ghost var pos: nat
    var index: nat
    var depth: nat

    constructor (input: seq<Byte>, ghost text: string)
      requires input == Encode(text)
      ensures Valid() && Rest() == text && depth == 0 && this.input == input && this.text == text
    {
      this.input, this.text := input, text;
      pos, index, depth := 0, 0, 0;
      new;
      assert text[..0] == "";
    }

    /** The index lies on the boundary before character `pos`, and the nesting limit holds. */
    ghost predicate Valid()
      reads this
      ensures Valid() ==> IsBoundary(text, index) && index <= |input| && depth <= MAX_NESTING
    {
      if input == Encode(text) && pos <= |text| && index == |Encode(text[..pos])| && depth <= MAX_NESTING then
        (assert IsBoundary(text, index);
         Split();
         true)
      else false
    }

    ghost function Rest(): string
      requires Valid()
      reads this
    {
      text[pos..]
    }

    lemma Split()
      requires input == Encode(text) && pos <= |text| && index == |Encode(text[..pos])|
      ensures index <= |input| && input[index..] == Encode(text[pos..])
    {
      EncodeAppend(text[..pos], text[pos..]);
      assert text == text[..pos] + text[pos..];
    }

    lemma EndOfInput()
      requires Valid()
      ensures index == |input| <==> Rest() == ""
    {
      Split();
      if Rest() != "" { DecodeEncoded(Rest()); }
    }

    method Peek() returns (b: Option<Byte>)
      requires Valid()
      ensures b == None <==> Rest() == ""
      ensures b.Some? ==> (b.value < 0x80 <==> IsAscii(Rest()[0])) && (b.value < 0x80 ==> Rest()[0] as int == b.value)
    {
      Split();
      if index < |input| {
        b := Some(input[index]);
        assert input[index] == input[index..][0];
        DecodeEncoded(Rest());
      } else {
        b := None;
        if Rest() != "" { DecodeEncoded(Rest()); }
      }
    }

    /** `self.peek() == Some(c)` for an ASCII byte. */
    method PeekIs(c: char) returns (yes: bool)
      requires Valid() && IsAscii(c)
      ensures yes <==> Ahead(Rest(), c)
    {
      var b := Peek();
      yes := b == Some(c as int);
    }

    method PeekDigit() returns (yes: bool)
      requires Valid()
      ensures yes <==> DigitAhead(Rest())
    {
      var b := Peek();
      yes := b.Some? && '0' as int <= b.value <= '9' as int;
    }

    /** `self.rest().chars().next()`. */
    method NextChar() returns (c: Option<char>)
      requires Valid()
      ensures c == if Rest() == "" then None else Some(Rest()[0])
    {
      Split();
      if index < |input| {
        assert |input[index..]| > 0;
        DecodeEncoded(Rest());
        c := Some(DecodeFirst(input[index..]) as char);
      } else {
        c := None;
        if Rest() != "" { DecodeEncoded(Rest()); }
      }
    }

    /** One character further on is one encoded sequence further on. */
    lemma NextBoundary()
      requires Valid() && Rest() != ""
      ensures index < |input|
      ensures pos < |text| && |Encode(text[..pos + 1])| == index + SequenceLength(input[index])
    {
      hide EncodeChar, DecodeFirst;
      Split();
      DecodeEncoded(Rest());
      assert input[index] == input[index..][0];
      assert text[..pos + 1] == text[..pos] + [text[pos]];
      EncodeAppend(text[..pos], [text[pos]]);
      EncodeOne(text[pos]);
    }

    method Bump()
      requires Valid()
      modifies this`pos, this`index
      ensures Valid() && Rest() == if old(Rest()) == "" then "" else old(Rest())[1..]
    {
      hide Encode;
      var b := Peek();
      if b.Some? {
        NextBoundary();
        index := index + SequenceLength(input[index]);
        pos := pos + 1;
      }
    }

    /** `self.index += n` past bytes known to be ASCII. */
    method Advance(n: nat)
      requires Valid() && n <= |Rest()| && AllAscii(Rest()[..n])
      modifies this`pos, this`index
      ensures Valid() && Rest() == old(Rest())[n..]
    {
      assert text[..pos + n] == text[..pos] + text[pos..][..n];
      EncodeAppend(text[..pos], text[pos..][..n]);
      EncodeAscii(text[pos..][..n]);
      index := index + n;
      pos := pos + n;
    }

    method StartsWithAscii(literal: string) returns (yes: bool)
      requires Valid() && AllAscii(literal)
      ensures yes <==> StartsWith(Rest(), literal)
    {
      hide Encode, AsciiBytes, StartsWith;
      Split();
      var n := |literal|;
      yes := index + n <= |input| && input[index..index + n] == AsciiBytes(literal);
      assert index + n <= |input| ==> input[index..index + n] == input[index..][..n];
      PrefixBytes(Rest(), literal);
    }

    method SkipBlanks()
      requires Valid()
      modifies this`pos, this`index
      ensures Valid() && Rest() == SkipWs(old(Rest()))
    {
      var b := Peek();
      while b.Some? && b.value in [' ' as int, '\t' as int, '\n' as int, '\r' as int]
        invariant Valid() && SkipWs(Rest()) == SkipWs(old(Rest()))
        invariant b == None <==> Rest() == ""
        invariant b.Some? ==>
                  (b.value < 0x80 <==> IsAscii(Rest()[0])) && (b.value < 0x80 ==> Rest()[0] as int == b.value)
        decreases |Rest()|
      {
        Advance(1);
        b := Peek();
      }
    }

    // -------------------------------------------------------------- strings

    method TakeHex() returns (r: Result<nat, JsonError>)
      requires Valid()
      modifies this`pos, this`index
      ensures Valid() && Agrees(r, Rest(), TakeHex4(old(Rest())))
    {
      hide Encode, TakeHex4, IsHex, HexVal;
      Split();
      ghost var s := Rest();
      if |input| - index < 4 {
        TooShort(s);
        return Err(Rejected("invalid unicode escape"));
      }
      var unit := 0;
      for i := 0 to 4
        invariant Valid() && index == old(index) && pos == old(pos)
        invariant i <= |s| && AllAscii(s[..i]) && AllHex(s[..i]) && unit == HexUpto(s[..i])
      {
        var b := input[index + i];
        ByteAt(i);
        if !(b < 0x80 && IsHex(b as char)) {
          NotHexAt(s, i);
          return Err(Rejected("invalid unicode escape"));
        }
        unit := unit * 16 + HexVal(b as char);
        HexStep(s, i);
      }
      FourTaken(s);
      Advance(4);
      r := Ok(unit);
    }

    /** Behind an ASCII prefix, the next byte and the next character agree on ASCII. */
    lemma ByteAt(i: nat)
      requires Valid() && i <= |Rest()| && AllAscii(Rest()[..i]) && index + i < |input|
      ensures i < |Rest()| && (input[index + i] < 0x80 <==> IsAscii(Rest()[i]))
      ensures IsAscii(Rest()[i]) ==> input[index + i] == Rest()[i] as int
    {
      Split();
      var s := Rest();
      AsciiFront(s, i);
      assert input[index + i] == input[index..][i] == Encode(s)[i..][0];
      DecodeEncoded(s[i..]);
    }

    /** `parse_hex_escape`. */
    method HexEscape() returns (r: Result<char, JsonError>)
      requires Valid()
      modifies this`pos, this`index
      ensures Valid() && Agrees(r, Rest(), ParseHexEscape(old(Rest())))
    {
      hide Valid, TakeHex4;
      var unit :- TakeHex();
      if IsHigh(unit) {
        var more := StartsWithAscii("\\u");
        if more {
          Advance(2);
          var low :- TakeHex();
          if IsLow(low) { return Ok(PairChar(unit, low)); }
        }
        return Err(Rejected("unpaired UTF-16 surrogate"));
      }
      if IsLow(unit) { return Err(Rejected("unpaired UTF-16 surrogate")); }
      r := Ok(unit as char);
    }

    /** `parse_escape`, after the backslash. */
    method Escape() returns (r: Result<char, JsonError>)
      requires Valid()
      modifies this`pos, this`index
      ensures Valid() && Agrees(r, Rest(), ParseEscape(old(Rest())))
    {
      hide Valid, ParseHexEscape;
      var c := NextChar();
      if c == None { return Err(Rejected("unterminated string escape")); }
      Bump();
      if c.value == 'u' {
        r := HexEscape();
      } else {
        match LetterChar(c.value)
        case Some(d) => r := Ok(d);
        case None => r := Err(Rejected("invalid string escape"));
      }
    }

    /** `parse_string`, at the opening quote. */
    method ParseString() returns (r: Result<string, JsonError>)
      requires Valid() && Rest() != ""
      modifies this`pos, this`index
      ensures Valid() && Agrees(r, Rest(), ParseBody(old(Rest())[1..]))
    {
      hide Valid, ParseEscape;
      Bump();
      ghost var start := Rest();
      var out := "";
      CollectedNone(ParseBody(start));
      while true
        invariant Valid() && ParseBody(start) == Collected(out, ParseBody(Rest()))
        decreases |Rest()|
      {
        var c := NextChar();
        if c == None { return Err(Rejected("unterminated string")); }
        if c.value == '\"' {
          Bump();
          assert out + "" == out;
          return Ok(out);
        }
        ghost var s := Rest();
        if c.value == '\\' {
          Bump();
          var e :- Escape();
          CollectedOne(out, e, ParseBody(Rest()));
          out := out + [e];
        } else if c.value as int < 0x20 {
          return Err(Rejected("unescaped control character in string"));
        } else {
          CollectedOne(out, c.value, ParseBody(s[1..]));
          out := out + [c.value];
          Bump();
        }
      }
    }

    // -------------------------------------------------------------- numbers

    method SkipDigits()
      requires Valid()
      modifies this`pos, this`index
      ensures Valid() && Rest() == old(Rest())[SpanDigits(old(Rest()))..]
    {
      hide Valid;
      ghost var s := Rest();
      ghost var k := 0;
      var more := PeekDigit();
      while more
        invariant Valid() && 0 <= k <= |s| && Rest() == s[k..] && AllDigits(s[..k])
        invariant more <==> DigitAhead(Rest())
        decreases |Rest()|
      {
        assert s[..k + 1] == s[..k] + [s[k]];
        Advance(1);
        k := k + 1;
        more := PeekDigit();
      }
      assert s == s[..k] + s[k..];
      SpanAppend(s[..k], s[k..]);
    }

    method TakeWhole() returns (r: Result<(), JsonError>)
      requires Valid()
      modifies this`pos, this`index
      ensures Valid()
      ensures match LexWhole(old(Rest())) case Ok((w, t)) => r.Ok? && Rest() == t case Err(e) => r == Err(e)
    {
      hide Valid, SpanDigits;
      var zero := PeekIs('0');
      if zero {
        Advance(1);
        var more := PeekDigit();
        if more { return Err(Rejected("leading zeros are not allowed")); }
      } else {
        var digit := PeekDigit();
        if !digit { return Err(Rejected("invalid number")); }
        SkipDigits();
      }
      r := Ok(());
    }

    method TakeFraction() returns (r: Result<(), JsonError>)
      requires Valid()
      modifies this`pos, this`index
      ensures Valid()
      ensures match LexFrac(old(Rest())) case Ok((f, t)) => r.Ok? && Rest() == t case Err(e) => r == Err(e)
    {
      hide Valid, SpanDigits;
      var point := PeekIs('.');
      if point {
        Advance(1);
        var digit := PeekDigit();
        if !digit { return Err(Rejected("invalid number fraction")); }
        SkipDigits();
      }
      r := Ok(());
    }

    method TakeExponent() returns (r: Result<(), JsonError>)
      requires Valid()
      modifies this`pos, this`index
      ensures Valid()
      ensures match LexExp(old(Rest())) case Ok((x, t)) => r.Ok? && Rest() == t case Err(e) => r == Err(e)
    {
      hide Valid, SpanDigits;
      var lower := PeekIs('e');
      var upper := PeekIs('E');
      if lower || upper {
        Advance(1);
        var plus := PeekIs('+');
        var minus := PeekIs('-');
        if plus || minus { Advance(1); }
        var digit := PeekDigit();
        if !digit { return Err(Rejected("invalid number exponent")); }
        SkipDigits();
      }
      r := Ok(());
    }

    /** `&self.input[start..self.index]` after lexing a number. */
    lemma Lexeme(start: nat, p: nat, n: Number)
      requires Valid() && p <= pos && start == |Encode(text[..p])| && ValidNumber(n)
      requires text[p..] == NumberText(n) + Rest()
      ensures start <= index && index - start == |NumberText(n)| && AllAscii(NumberText(n))
      ensures input[start..index] == AsciiBytes(NumberText(n))
    {
      hide AsciiBytes, Encode, NumberText, ValidNumber;
      NumberAscii(n);
      SliceBytes(text, p, pos, NumberText(n));
    }

    /** `parse_number`. */
    method ParseNumberText(fp: Conversion) returns (r: Result<Canonical, JsonError>)
      requires Valid()
      modifies this`pos, this`index
      ensures Valid() && Agrees(r, Rest(), ParseNumber(fp, old(Rest())))
    {
      hide Valid, LexWhole, LexFrac, LexExp, NumberText, ConvertNumber, ValidNumber, Encode;
      var start := index;
      ghost var p, s := pos, Rest();
      StartFacts();
      var minus := PeekIs('-');
      if minus { Advance(1); }
      var _ :- TakeWhole();
      var _ :- TakeFraction();
      var _ :- TakeExponent();
      LexNumberSound(s);
      ghost var n := LexNumber(s).value.0;
      StartFacts();
      PosFromRest(p, s, n);
      Lexeme(start, p, n);
      var lexeme := AsciiText(input[start..index]);
      assert lexeme == NumberText(n);
      r := ConvertNumber(fp, lexeme);
    }

    lemma StartFacts()
      requires Valid()
      ensures input == Encode(text) && pos <= |text| && index == |Encode(text[..pos])| && Rest() == text[pos..]
    {
    }

    lemma PosFromRest(p: nat, s: string, n: Number)
      requires Valid() && p <= |text| && s == text[p..] && s == NumberText(n) + Rest()
      ensures p <= pos
    {
      assert |s| == |text| - p && |Rest()| == |text| - pos;
    }

    // --------------------------------------------------------------- values

    method Literal(literal: string, c: Canonical) returns (r: Result<Canonical, JsonError>)
      requires Valid() && AllAscii(literal)
      modifies this`pos, this`index
      ensures Valid() && Agrees(r, Rest(), ParseLiteral(old(Rest()), literal, c))
    {
      hide Valid;
      var yes := StartsWithAscii(literal);
      if yes {
        Advance(|literal|);
        r := Ok(c);
      } else {
        r := Err(Rejected("unexpected token"));
      }
    }

    /** The arms of `parse_value` other than arrays and objects. */
    method Atom(fp: Conversion) returns (r: Result<Canonical, JsonError>)
      requires Valid()
      modifies this`pos, this`index
      ensures Valid() && Agrees(r, Rest(), ParseAtom(fp, old(Rest())))
    {
      hide Valid, ParseBody, ParseNumber, ParseLiteral;
      var b := Peek();
      if b == None { return Err(Rejected("unexpected end of input")); }
      var x := b.value;
      if x == 'n' as int {
        r := Literal("null", Null);
      } else if x == 't' as int {
        r := Literal("true", Bool(true));
      } else if x == 'f' as int {
        r := Literal("false", Bool(false));
      } else if x == 'N' as int {
        var nan := StartsWithAscii("NaN");
        r := if nan then Err(NotANumber) else Err(Rejected("unexpected token"));
      } else if x == 'I' as int {
        var inf := StartsWithAscii("Infinity");
        r := if inf then Err(InfiniteNumber) else Err(Rejected("unexpected token"));
      } else if x == '\"' as int {
        var body :- ParseString();
        r := Ok(Str(body));
      } else {
        var inf := StartsWithAscii("-Infinity");
        if x == '-' as int && inf {
          r := Err(InfiniteNumber);
        } else if x == '-' as int || '0' as int <= x <= '9' as int {
          r := ParseNumberText(fp);
        } else {
          r := Err(Rejected("unexpected token"));
        }
      }
    }

    method ParseAny(fp: Conversion) returns (r: Result<Canonical, JsonError>)
      requires Valid()
      modifies this
      ensures Valid() && depth == old(depth) && Agrees(r, Rest(), ParseValue(fp, old(Rest()), old(depth)))
      decreases |Rest()|, 1
    {
      hide Valid, ParseAtom, ParseItems, ParseMembers, Sort;
      SkipBlanks();
      DepthBound();
      var bracket := PeekIs('[');
      var brace := PeekIs('{');
      if bracket {
        // enter_nesting
        if depth >= MAX_NESTING { return Err(Rejected("JSON nesting exceeds 128")); }
        SetDepth(depth + 1);
        r := ArrayBody(fp);
        SetDepth(depth - 1);
      } else if brace {
        if depth >= MAX_NESTING { return Err(Rejected("JSON nesting exceeds 128")); }
        SetDepth(depth + 1);
        r := ObjectBody(fp);
        SetDepth(depth - 1);
      } else {
        r := Atom(fp);
      }
    }

    lemma DepthBound()
      requires Valid()
      ensures depth <= MAX_NESTING
    {
    }

    method SetDepth(d: nat)
      requires Valid() && d <= MAX_NESTING
      modifies this`depth
      ensures Valid() && depth == d && Rest() == old(Rest())
    {
      depth := d;
    }

    /** `parse_array_body`, at the opening bracket. */
    method ArrayBody(fp: Conversion) returns (r: Result<Canonical, JsonError>)
      requires Valid() && Ahead(Rest(), '[')
      modifies this
      ensures Valid() && depth == old(depth)
      ensures var t := SkipWs(old(Rest())[1..]);
              if Ahead(t, ']') then r == Ok(Arr([])) && Rest() == t[1..]
              else match ParseItems(fp, t, old(depth))
                   case Ok((items, u)) => r == Ok(Arr(items)) && Rest() == u
                   case Err(e) => r == Err(e)
      decreases |Rest()|, 0
    {
      hide Valid, ParseValue;
      Bump();
      SkipBlanks();
      ghost var start := Rest();
      var items := [];
      var empty := PeekIs(']');
      if empty {
        Bump();
        return Ok(Arr(items));
      }
      CollectedNone(ParseItems(fp, start, depth));
      while true
        invariant Valid() && depth == old(depth) && |Rest()| < old(|Rest()|)
        invariant ParseItems(fp, start, depth) == Collected(items, ParseItems(fp, Rest(), depth))
        decreases |Rest()|
      {
        var item :- ParseAny(fp);
        SkipBlanks();
        var comma := PeekIs(',');
        var close := PeekIs(']');
        if comma {
          CollectedOne(items, item, ParseItems(fp, Rest()[1..], depth));
          items := items + [item];
          Bump();
        } else if close {
          items := items + [item];
          Bump();
          return Ok(Arr(items));
        } else {
          return Err(Rejected("expected ',' or ']' in array"));
        }
      }
    }

    /** Key and colon of one member, with the duplicate check. */
    method MemberKey(seen: set<string>) returns (r: Result<string, JsonError>)
      requires Valid()
      modifies this`pos, this`index
      ensures Valid() && Agrees(r, Rest(), ParseKey(old(Rest()), seen))
    {
      hide Valid, ParseBody;
      SkipBlanks();
      var quote := PeekIs('\"');
      if !quote { return Err(Rejected("expected object key")); }
      var key :- ParseString();
      if key in seen { return Err(DuplicateKey(key)); }
      SkipBlanks();
      var colon := PeekIs(':');
      if !colon { return Err(Rejected("expected ':' after object key")); }
      Bump();
      r := Ok(key);
    }

    /** `parse_object_body`, at the opening brace. */
    method ObjectBody(fp: Conversion) returns (r: Result<Canonical, JsonError>)
      requires Valid() && Ahead(Rest(), '{')
      modifies this
      ensures Valid() && depth == old(depth)
      ensures var t := SkipWs(old(Rest())[1..]);
              if Ahead(t, '}') then r == Ok(Obj([])) && Rest() == t[1..]
              else match ParseMembers(fp, t, old(depth), {})
                   case Ok((members, u)) => r == Ok(Obj(Sort(members))) && Rest() == u
                   case Err(e) => r == Err(e)
      decreases |Rest()|, 0
    {
      hide Valid, ParseValue, ParseKey, Sort;
      Bump();
      SkipBlanks();
      ghost var start := Rest();
      var seen, members: seq<Member> := {}, [];
      var empty := PeekIs('}');
      if empty {
        Bump();
        return Ok(Obj(members));
      }
      CollectedNone(ParseMembers(fp, start, depth, {}));
      while true
        invariant Valid() && depth == old(depth) && |Rest()| < old(|Rest()|)
        invariant ParseMembers(fp, start, depth, {}) == Collected(members, ParseMembers(fp, Rest(), depth, seen))
        decreases |Rest()|
      {
        ghost var before := Rest();
        var key :- MemberKey(seen);
        var value :- ParseAny(fp);
        SkipBlanks();
        var comma := PeekIs(',');
        var close := PeekIs('}');
        if comma {
          CollectedOne(members, Member(key, value), ParseMembers(fp, Rest()[1..], depth, seen + {key}));
          seen, members := seen + {key}, members + [Member(key, value)];
          Bump();
        } else if close {
          members := members + [Member(key, value)];
          Bump();
          return Ok(Obj(Sort(members)));
        } else {
          return Err(Rejected("expected ',' or '}' in object"));
        }
      }
    }
  }

  lemma NumberAscii(n: Number)
    requires ValidNumber(n)
    ensures AllAscii(NumberText(n))
  {
    assert AllAscii(n.whole) && AllAscii(FracText(n.frac)) && AllAscii(ExponentText(n.exp));
  }

  predicate AllHex(s: string) { forall k :: 0 <= k < |s| ==> IsHex(s[k]) }

  function HexUpto(s: string): nat
    requires AllHex(s)
  {
    if s == "" then 0 else HexUpto(s[..|s| - 1]) * 16 + HexVal(s[|s| - 1])
  }

  lemma HexStep(s: string, i: nat)
    requires i < |s| && AllHex(s[..i]) && IsHex(s[i]) && AllAscii(s[..i])
    ensures AllHex(s[..i + 1]) && HexUpto(s[..i + 1]) == HexUpto(s[..i]) * 16 + HexVal(s[i]) && AllAscii(s[..i + 1])
  {
    assert s[..i + 1] == s[..i] + [s[i]];
    assert s[..i + 1][..i] == s[..i];
  }

  /** A text starts with an ASCII literal exactly when its bytes do. */
  lemma PrefixBytes(s: string, literal: string)
    requires AllAscii(literal)
    ensures StartsWith(s, literal) <==> |literal| <= |Encode(s)| && Encode(s)[..|literal|] == AsciiBytes(literal)
  {
    hide Encode;
    var n := |literal|;
    if n <= |Encode(s)| && Encode(s)[..n] == AsciiBytes(literal) {
      AsciiPrefix(s, n);
      assert s[..n] == literal;
    }
    if StartsWith(s, literal) { AsciiFront(s, n); }
  }

  /** The bytes between two character positions that enclose an ASCII text. */
  lemma SliceBytes(text: string, p: nat, q: nat, s: string)
    requires p <= q <= |text| && text[p..] == s + text[q..] && AllAscii(s)
    ensures var i, j := |Encode(text[..p])|, |Encode(text[..q])|;
            i <= j <= |Encode(text)| && j - i == |s| && Encode(text)[i..j] == AsciiBytes(s)
  {
    hide Encode, AsciiBytes;
    EncodeAscii(s);
    assert |s| == q - p;
    assert text[..q] == text[..p] + s;
    EncodeAppend(text[..p], s);
    EncodeAppend(text[..q], text[q..]);
    assert text == text[..q] + text[q..];
  }

  lemma TooShort(s: string)
    requires |Encode(s)| < 4
    ensures TakeHex4(s) == Err(Rejected("invalid unicode escape"))
  {
    hide Encode;
    if |s| >= 4 && IsHex4(s[..4]) { AsciiFront(s, 4); }
  }

  lemma NotHexAt(s: string, i: nat)
    requires i < |s| && i < 4 && !(IsAscii(s[i]) && IsHex(s[i]))
    ensures TakeHex4(s) == Err(Rejected("invalid unicode escape"))
  {
    if |s| >= 4 { assert s[..4][i] == s[i]; }
  }

  lemma FourTaken(s: string)
    requires |s| >= 4 && AllHex(s[..4])
    ensures TakeHex4(s) == Ok((HexUpto(s[..4]), s[4..]))
  {
    FourHex(s[..4]);
  }

  lemma FourHex(h: string)
    requires |h| == 4 && AllHex(h)
    ensures IsHex4(h) && HexUpto(h) == Hex4Val(h)
  {
    hide HexVal;
    assert h[..3][..2] == h[..2] && h[..2][..1] == h[..1] && h[..1][..0] == "";
    assert HexUpto(h[..1]) == HexVal(h[0]);
    assert HexUpto(h[..2]) == HexUpto(h[..1]) * 16 + HexVal(h[1]);
    assert HexUpto(h[..3]) == HexUpto(h[..2]) * 16 + HexVal(h[2]);
  }

  lemma EncodeOne(c: char)
    ensures Encode([c]) == EncodeChar(c)
  {
    hide EncodeChar;
    assert [c][1..] == "";
    assert Encode([c]) == EncodeChar(c) + Encode("");
  }
}
