/** SQL `LIKE` patterns with `\` as the escape character, and `escape_like`. */
module LikePattern {
  import opened Wrappers

  /** What `text LIKE pattern ESCAPE '\'` accepts; a pattern that ends in a lone escape accepts nothing. */
  predicate Like(pattern: string, text: string)
    decreases |pattern| + |text|
  {
    if pattern == "" then text == ""
    else if pattern[0] == '%' then Like(pattern[1..], text) || (text != "" && Like(pattern, text[1..]))
    else if pattern[0] == '_' then text != "" && Like(pattern[1..], text[1..])
    else if pattern[0] == '\\' then
      |pattern| > 1 && text != "" && text[0] == pattern[1] && Like(pattern[2..], text[1..])
    else text != "" && text[0] == pattern[0] && Like(pattern[1..], text[1..])
  }

  predicate IsSpecial(c: char) { c == '\\' || c == '%' || c == '_' }

  function EscapeChar(c: char): string { if IsSpecial(c) then ['\\', c] else [c] }

  function Escaped(s: string): string {
    if s == "" then "" else EscapeChar(s[0]) + Escaped(s[1..])
  }

  lemma {:induction false} EscapedAppend(s: string, t: string)
    ensures Escaped(s + t) == Escaped(s) + Escaped(t)
  {
    if s == "" {
      assert s + t == t;
    } else {
      assert (s + t)[1..] == s[1..] + t;
      EscapedAppend(s[1..], t);
    }
  }

  /** `escape_like`. */
  method EscapeLike(input: string) returns (out: string)
    ensures forall text: string :: Like(out, text) <==> text == input
    ensures forall text: string :: Like(out + "%", text) <==> StartsWith(text, input)
    ensures forall text: string :: Like(out + "/%", text) <==> StartsWith(text, input + "/")
  {
    out := "";
    for i := 0 to |input|
      invariant out == Escaped(input[..i])
    {
      var ch := input[i];
      assert input[..i + 1] == input[..i] + [ch];
      EscapedAppend(input[..i], [ch]);
      assert Escaped([ch]) == EscapeChar(ch);
      if ch == '\\' || ch == '%' || ch == '_' {
        out := out + "\\";
        out := out + [ch];
      } else {
        out := out + [ch];
      }
    }
    assert input[..|input|] == input;
    forall text: string
      ensures Like(out, text) <==> text == input
      ensures Like(out + "%", text) <==> StartsWith(text, input)
      ensures Like(out + "/%", text) <==> StartsWith(text, input + "/")
    {
      EscapedLike(input, text);
      PrefixLike(input, text);
      DescendantsLike(input, text);
    }
  }

  /** An escaped text consumes exactly itself, whatever pattern follows. */
  lemma {:induction false} EscapedThen(s: string, pattern: string, text: string)
    ensures Like(Escaped(s) + pattern, text) <==> StartsWith(text, s) && Like(pattern, text[|s|..])
    decreases |s|
  {
    if s == "" {
      assert Escaped(s) + pattern == pattern;
      assert text[0..] == text;
    } else {
      var rest := Escaped(s[1..]) + pattern;
      assert Escaped(s) + pattern == EscapeChar(s[0]) + rest;
      OneEscaped(s[0], rest, text);
      hide Like, Escaped, StartsWith;
      if text != "" {
        EscapedThen(s[1..], pattern, text[1..]);
        Peel(text, s);
      }
    }
  }

  lemma OneEscaped(c: char, rest: string, text: string)
    ensures Like(EscapeChar(c) + rest, text) <==> text != "" && text[0] == c && Like(rest, text[1..])
  {
    var whole := EscapeChar(c) + rest;
    assert whole[|EscapeChar(c)|..] == rest;
  }

  lemma Peel(text: string, s: string)
    requires text != "" && s != ""
    ensures StartsWith(text, s) <==> text[0] == s[0] && StartsWith(text[1..], s[1..])
    ensures |s| <= |text| ==> text[1..][|s| - 1..] == text[|s|..]
    ensures StartsWith(text, s) ==> |s| <= |text|
  {
    if |s| <= |text| {
      assert text[..|s|] == [text[0]] + text[1..][..|s| - 1];
      assert s == [s[0]] + s[1..];
      assert ([s[0]] + s[1..])[1..] == s[1..];
      assert text[..|s|][1..] == text[1..][..|s| - 1];
    }
  }

  lemma {:induction false} PercentMatchesAll(text: string)
    ensures Like("%", text)
  {
    assert "%"[1..] == "";
    if text != "" { PercentMatchesAll(text[1..]); }
  }

  /** The escaped text matches that text and nothing else. */
  lemma EscapedLike(s: string, text: string)
    ensures Like(Escaped(s), text) <==> text == s
  {
    assert Escaped(s) + "" == Escaped(s);
    EscapedThen(s, "", text);
    if StartsWith(text, s) { assert text == text[..|s|] + text[|s|..]; }
  }

  /** Followed by `%`, it matches exactly the texts that start with it. */
  lemma PrefixLike(s: string, text: string)
    ensures Like(Escaped(s) + "%", text) <==> StartsWith(text, s)
  {
    EscapedThen(s, "%", text);
    if StartsWith(text, s) { PercentMatchesAll(text[|s|..]); }
  }

  /** The prefix pattern of the path queries matches exactly the texts that extend `s` by a slash and anything. */
  lemma DescendantsLike(s: string, text: string)
    ensures Like(Escaped(s) + "/%", text) <==> StartsWith(text, s + "/")
  {
    var p := s + "/";
    EscapedAppend(s, "/");
    assert Escaped("/") == "/";
    assert Escaped(s) + "/%" == Escaped(p) + "%";
    PrefixLike(p, text);
  }

  /** `descendant_like`. */
  function DescendantPattern(path: string): string {
    if path == "/" then "/%" else Escaped(path) + "/%"
  }

  /** `path_is_under`. */
  predicate PathIsUnder(parent: string, child: string) {
    if parent == "/" then child != "/" else StartsWith(child, parent + "/")
  }

  /**
   * The SQL filter and the in-memory test select the same children, except below the root: there they agree
   * exactly on the absolute paths other than the root itself.
   */
  lemma QueryAgrees(parent: string, child: string)
    ensures (Like(DescendantPattern(parent), child) <==> PathIsUnder(parent, child)) <==>
            (parent == "/" ==> child != "/" && StartsWith(child, "/"))
  {
    if parent == "/" {
      DescendantsLike("", child);
      assert Escaped("") + "/%" == "/%" && "" + "/" == "/";
    } else {
      DescendantsLike(parent, child);
    }
  }

  /** `path_is_at_or_under`. */
  predicate PathIsAtOrUnder(parent: string, child: string) { child == parent || PathIsUnder(parent, child) }

  /**
   * The query for a path and its descendants, which also compares for equality, selects what the in-memory test
   * does, except that the test puts relative paths below the root: they agree on every absolute path.
   */
  lemma AtOrBelowAgrees(parent: string, child: string)
    ensures ((child == parent || Like(DescendantPattern(parent), child)) <==> PathIsAtOrUnder(parent, child)) <==>
            (parent == "/" ==> StartsWith(child, "/"))
  {
    hide Like;
    QueryAgrees(parent, child);
    assert "/"[..1] == "/";
  }
}
