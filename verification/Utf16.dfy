/** UTF-16 code units and the order RFC 8785 section 3.2.3 sorts object keys by. */
module Utf16 {
  import opened Lexicographic

  /** `char::encode_utf16`. */
  function Units(c: char): (u: seq<int>)
    ensures |u| == 1 || |u| == 2
    ensures |u| == 2 <==> 0xD800 <= u[0] <= 0xDBFF
  {
    var x := c as int;
    if x < 0x10000 then [x]
    else [0xD800 + (x - 0x10000) / 0x400, 0xDC00 + (x - 0x10000) % 0x400]
  }

  function Encode(s: string): seq<int> {
    if s == "" then [] else Units(s[0]) + Encode(s[1..])
  }

  predicate KeyLess(a: string, b: string) {
    Less(Encode(a), Encode(b))
  }

  lemma UnitsInjective(c: char, d: char, x: seq<int>, y: seq<int>)
    requires Units(c) + x == Units(d) + y
    ensures c == d && x == y
  {
    var u, v := Units(c), Units(d);
    assert (u + x)[0] == u[0] && (v + y)[0] == v[0];
    assert |u| == |v|;
    if |u| == 2 {
      assert (u + x)[1] == u[1] && (v + y)[1] == v[1];
    }
    assert x == (u + x)[|u|..] && y == (v + y)[|v|..];
  }

  lemma {:induction false} EncodeInjective(s: string, t: string)
    requires Encode(s) == Encode(t)
    ensures s == t
  {
    if s == "" || t == "" {
      assert |Encode(s)| == |Encode(t)|;
    } else {
      UnitsInjective(s[0], t[0], Encode(s[1..]), Encode(t[1..]));
      EncodeInjective(s[1..], t[1..]);
      assert s == [s[0]] + s[1..] && t == [t[0]] + t[1..];
    }
  }

  /** The key order is a strict total order on strings. */
  lemma KeyOrder(a: string, b: string)
    ensures KeyLess(a, b) || a == b || KeyLess(b, a)
    ensures !(KeyLess(a, b) && KeyLess(b, a)) && (a == b ==> !KeyLess(a, b))
  {
    LessTotal(Encode(a), Encode(b));
    if Encode(a) == Encode(b) { EncodeInjective(a, b); }
  }

  lemma KeyTransitive(a: string, b: string, c: string)
    requires KeyLess(a, b) && KeyLess(b, c)
    ensures KeyLess(a, c)
  {
    LessTransitive(Encode(a), Encode(b), Encode(c));
  }

  /**
   `u` spells `s` in UTF-16: a code point below 0x10000 is one unit, any other is a high and a low surrogate
   that decode to it.
   */
  predicate Spells(u: seq<int>, s: string)
    decreases s
  {
    if s == "" then u == []
    else if s[0] as int < 0x10000 then u != [] && u[0] == s[0] as int && Spells(u[1..], s[1..])
    else
      && |u| >= 2 && 0xD800 <= u[0] <= 0xDBFF && 0xDC00 <= u[1] <= 0xDFFF
      && 0x10000 + (u[0] - 0xD800) * 0x400 + (u[1] - 0xDC00) == s[0] as int
      && Spells(u[2..], s[1..])
  }

  /** The encoder spells the string, and nothing else does. */
  lemma {:induction false} EncodeSpells(s: string, u: seq<int>)
    ensures Spells(u, s) <==> u == Encode(s)
    decreases s
  {
    if s != "" {
      var a := Units(s[0]);
      assert Encode(s)[..|a|] == a && Encode(s)[|a|..] == Encode(s[1..]);
      if |u| >= |a| {
        EncodeSpells(s[1..], u[|a|..]);
        assert u == u[..|a|] + u[|a|..];
        if Spells(u, s) { assert u[..|a|] == a; }
      }
    }
  }

  /** `a` stands before `b`: the first differing UTF-16 unit decides, and a shorter key that is a prefix is first. */
  ghost predicate Rises(a: string, b: string) {
    exists u, v :: Spells(u, a) && Spells(v, b) && FirstSmaller(u, v)
  }

  /** The sort order is that one. */
  lemma KeyLessMeans(a: string, b: string)
    ensures KeyLess(a, b) <==> Rises(a, b)
  {
    EncodeSpells(a, Encode(a));
    EncodeSpells(b, Encode(b));
    LessMeans(Encode(a), Encode(b));
    forall u, v | Spells(u, a) && Spells(v, b) && FirstSmaller(u, v) ensures KeyLess(a, b) {
      EncodeSpells(a, u);
      EncodeSpells(b, v);
    }
  }
}
