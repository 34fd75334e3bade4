/** UTF-8: the byte view a Rust `&str` has of a string of characters. */
module Utf8 {
  import opened Lexicographic

  type Byte = b: int | 0 <= b < 256

  predicate IsAscii(c: char) { (c as int) < 0x80 }

  function EncodeChar(c: char): (bs: seq<Byte>)
    ensures 1 <= |bs| <= 4
    ensures bs[0] < 0x80 <==> IsAscii(c)
    ensures IsAscii(c) ==> bs == [c as int]
  {
    var x := c as int;
    if x < 0x80 then [x]
    else if x < 0x800 then [0xC0 + x / 0x40, 0x80 + x % 0x40]
    else if x < 0x10000 then [0xE0 + x / 0x1000, 0x80 + x / 0x40 % 0x40, 0x80 + x % 0x40]
    else [0xF0 + x / 0x40000, 0x80 + x / 0x1000 % 0x40, 0x80 + x / 0x40 % 0x40, 0x80 + x % 0x40]
  }

  function Encode(s: string): seq<Byte> {
    if s == "" then [] else EncodeChar(s[0]) + Encode(s[1..])
  }

  /** The length of the sequence a lead byte starts. */
  function SequenceLength(lead: Byte): (n: nat)
    ensures 1 <= n <= 4
  {
    if lead < 0x80 then 1 else if lead < 0xE0 then 2 else if lead < 0xF0 then 3 else 4
  }

  /** The scalar value at the front of well-formed bytes. */
  function DecodeFirst(bs: seq<Byte>): int
    requires bs != [] && |bs| >= SequenceLength(bs[0])
  {
    var lead: int := bs[0];
    if lead < 0x80 then lead
    else if lead < 0xE0 then (lead - 0xC0) * 0x40 + Low(bs[1])
    else if lead < 0xF0 then (lead - 0xE0) * 0x1000 + Low(bs[1]) * 0x40 + Low(bs[2])
    else (lead - 0xF0) * 0x40000 + Low(bs[1]) * 0x1000 + Low(bs[2]) * 0x40 + Low(bs[3])
  }

  /** The payload of a continuation byte. */
  function Low(b: Byte): int { b - 0x80 }

  lemma Digits64(x: nat)
    ensures x == x / 0x40 * 0x40 + x % 0x40
    ensures x == x / 0x1000 * 0x1000 + x / 0x40 % 0x40 * 0x40 + x % 0x40
    ensures x == x / 0x40000 * 0x40000 + x / 0x1000 % 0x40 * 0x1000 + x / 0x40 % 0x40 * 0x40 + x % 0x40
  {
    assert x / 0x40 / 0x40 == x / 0x1000;
    assert x / 0x1000 / 0x40 == x / 0x40000;
  }

  lemma DecodeEncodedChar(c: char)
    ensures SequenceLength(EncodeChar(c)[0]) == |EncodeChar(c)|
    ensures DecodeFirst(EncodeChar(c)) == c as int
  {
    Digits64(c as int);
  }

  /** The first character of an encoded string, read back from its bytes. */
  lemma DecodeEncoded(s: string)
    requires s != ""
    ensures var bs := Encode(s);
            && bs != [] && SequenceLength(bs[0]) == |EncodeChar(s[0])| <= |bs|
            && DecodeFirst(bs) == s[0] as int && bs[SequenceLength(bs[0])..] == Encode(s[1..])
            && (bs[0] < 0x80 <==> IsAscii(s[0])) && (IsAscii(s[0]) ==> bs[0] == s[0] as int)
  {
    hide EncodeChar;
    var bs, cs := Encode(s), EncodeChar(s[0]);
    DecodeEncodedChar(s[0]);
    assert forall i :: 0 <= i < |cs| ==> bs[i] == cs[i];
    assert bs[|cs|..] == Encode(s[1..]);
  }

  lemma {:induction false} EncodeAppend(s: string, t: string)
    ensures Encode(s + t) == Encode(s) + Encode(t)
  {
    if s == "" {
      assert s + t == t;
    } else {
      assert (s + t)[0] == s[0] && (s + t)[1..] == s[1..] + t;
      EncodeAppend(s[1..], t);
    }
  }

  lemma {:induction false} EncodeInjective(s: string, t: string)
    requires Encode(s) == Encode(t)
    ensures s == t
  {
    hide EncodeChar, DecodeFirst;
    if s != "" { DecodeEncoded(s); }
    if t != "" { DecodeEncoded(t); }
    if s != "" && t != "" {
      EncodeInjective(s[1..], t[1..]);
      assert s == [s[0]] + s[1..] && t == [t[0]] + t[1..];
    }
  }

  /** The order of strings: by their bytes. */
  predicate StringLess(a: string, b: string) { Less(Encode(a), Encode(b)) }

  /** It is a strict total order. */
  lemma StringOrder(a: string, b: string)
    ensures StringLess(a, b) || a == b || StringLess(b, a)
    ensures !(StringLess(a, b) && StringLess(b, a)) && (a == b ==> !StringLess(a, b))
  {
    LessTotal(Encode(a), Encode(b));
    if Encode(a) == Encode(b) { EncodeInjective(a, b); }
  }

  lemma StringTransitive(a: string, b: string, c: string)
    requires StringLess(a, b) && StringLess(b, c)
    ensures StringLess(a, c)
  {
    LessTransitive(Encode(a), Encode(b), Encode(c));
  }

  /** `i` lies between two characters of `s`. */
  ghost predicate IsBoundary(s: string, i: int) {
    exists k :: 0 <= k <= |s| && i == |Encode(s[..k])|
  }

  predicate AllAscii(s: string) { forall i :: 0 <= i < |s| ==> IsAscii(s[i]) }

  function AsciiBytes(s: string): (bs: seq<Byte>)
    requires AllAscii(s)
    ensures |bs| == |s|
  {
    seq(|s|, i requires 0 <= i < |s| => s[i] as int)
  }

  /** The text of a slice known to be ASCII. */
  function AsciiText(bs: seq<Byte>): (s: string)
    requires forall i :: 0 <= i < |bs| ==> bs[i] < 0x80
    ensures |s| == |bs| && forall i :: 0 <= i < |bs| ==> s[i] == bs[i] as char
  {
    seq(|bs|, i requires 0 <= i < |bs| => bs[i] as char)
  }

  lemma {:induction false} EncodeAscii(s: string)
    requires AllAscii(s)
    ensures Encode(s) == AsciiBytes(s)
  {
    if s != "" {
      EncodeAscii(s[1..]);
      assert AsciiBytes(s) == [s[0] as int] + AsciiBytes(s[1..]);
    }
  }

  /** ASCII bytes at the front are the characters themselves. */
  lemma {:induction false} AsciiPrefix(s: string, n: nat)
    requires n <= |Encode(s)| && forall i :: 0 <= i < n ==> Encode(s)[i] < 0x80
    ensures n <= |s| && forall i :: 0 <= i < n ==> s[i] as int == Encode(s)[i]
    decreases n
  {
    if n > 0 {
      DecodeEncoded(s);
      var rest := Encode(s[1..]);
      assert rest == Encode(s)[1..];
      forall i | 0 <= i < n - 1 ensures rest[i] == Encode(s)[i + 1] {}
      AsciiPrefix(s[1..], n - 1);
      forall i | 1 <= i < n ensures s[i] as int == Encode(s)[i] {
        assert s[1..][i - 1] == s[i] && rest[i - 1] == Encode(s)[i];
      }
    }
  }

  /** Conversely, ASCII characters at the front are one byte each. */
  lemma AsciiFront(s: string, n: nat)
    requires n <= |s| && AllAscii(s[..n])
    ensures n <= |Encode(s)| && Encode(s)[..n] == AsciiBytes(s[..n]) && Encode(s)[n..] == Encode(s[n..])
  {
    EncodeAppend(s[..n], s[n..]);
    assert s == s[..n] + s[n..];
    EncodeAscii(s[..n]);
  }
}
