/** `${file:PATH}` placeholders: `map_file_placeholders` and the tokens it takes a string apart into. */
module Placeholder {
  import opened Wrappers

  const FILE_PREFIX := "${file:"

  /** `pat` occurs in `s` at `i`. */
  predicate OccursAt(s: string, pat: string, i: nat) {
    i + |pat| <= |s| && s[i..i + |pat|] == pat
  }

  lemma OccursTail(s: string, pat: string, i: nat)
    requires i > 0 && s != ""
    ensures OccursAt(s, pat, i) <==> OccursAt(s[1..], pat, i - 1)
  {
    if i + |pat| <= |s| {
      var a, b := s[i..i + |pat|], s[1..][i - 1..i - 1 + |pat|];
      assert |a| == |b| && forall k :: 0 <= k < |a| ==> a[k] == b[k];
    }
  }

  /** `str::find`: the first occurrence. */
  function FindSub(s: string, pat: string): (r: Option<nat>)
    ensures r.Some? ==> OccursAt(s, pat, r.value) && forall i: nat | i < r.value :: !OccursAt(s, pat, i)
    ensures r.None? ==> forall i: nat :: !OccursAt(s, pat, i)
  {
    if OccursAt(s, pat, 0) then Some(0)
    else if s == "" then None
    else
      assert forall i: nat | i > 0 :: OccursAt(s, pat, i) <==> OccursAt(s[1..], pat, i - 1) by {
        forall i: nat | i > 0 ensures OccursAt(s, pat, i) <==> OccursAt(s[1..], pat, i - 1) {
          OccursTail(s, pat, i);
        }
      }
      assert forall i: nat :: OccursAt(s[1..], pat, i) <==> OccursAt(s, pat, i + 1) by {
        forall i: nat ensures OccursAt(s[1..], pat, i) <==> OccursAt(s, pat, i + 1) {
          OccursTail(s, pat, i + 1);
        }
      }
      match FindSub(s[1..], pat)
      case Some(k) => Some(k + 1)
      case None => None
  }

  predicate Contains(s: string, pat: string) { FindSub(s, pat).Some? }

  datatype PlaceholderError = Unterminated | Mixed | ReadFailed(path: string, reason: string)

  /** What takes the place of a path, or why nothing can. */
  type Replacement = string -> Result<string, PlaceholderError>

  predicate IsBrace(c: char) { c == '}' }

  /** `map_file_placeholders`. */
  function MapFile(input: string, replace: Replacement): (r: Result<string, PlaceholderError>)
    decreases |input|
  {
    match FindSub(input, FILE_PREFIX)
    case None => Ok(input)
    case Some(start) =>
      var after := input[start + |FILE_PREFIX|..];
      var end := IndexOf(after, IsBrace);
      if end == |after| then Err(Unterminated)
      else if Contains(after[..end], "${") then Err(Mixed)
      else
        var value :- replace(after[..end]);
        var rest :- MapFile(after[end + 1..], replace);
        Ok(input[..start] + (value + rest))
  }

  /** The loop over `rest` and `out`. */
  method MapFilePlaceholders(input: string, replace: Replacement)
    returns (r: Result<string, PlaceholderError>)
    ensures r == MapFile(input, replace)
  {
    hide FindSub, Contains;
    var out, rest := "", input;
    PrependedNone(MapFile(rest, replace));
    var found := FindSub(rest, FILE_PREFIX);
    while found.Some?
      invariant found == FindSub(rest, FILE_PREFIX)
      invariant MapFile(input, replace) == Prepended(out, MapFile(rest, replace))
      decreases |rest|
    {
      var after := rest[found.value + |FILE_PREFIX|..];
      var end := IndexOf(after, IsBrace);
      if end == |after| { return Err(Unterminated); }
      var path := after[..end];
      if Contains(path, "${") { return Err(Mixed); }
      var value :- replace(path);
      PrependedStep(out, rest[..found.value], value, MapFile(after[end + 1..], replace));
      out := out + rest[..found.value];
      out := out + value;
      rest := after[end + 1..];
      found := FindSub(rest, FILE_PREFIX);
    }
    out := out + rest;
    r := Ok(out);
  }

  ghost function Prepended(out: string, r: Result<string, PlaceholderError>): Result<string, PlaceholderError> {
    match r
    case Ok(s) => Ok(out + s)
    case Err(e) => Err(e)
  }

  lemma PrependedNone(r: Result<string, PlaceholderError>)
    ensures Prepended("", r) == r
  {
    if r.Ok? { assert "" + r.value == r.value; }
  }

  lemma PrependedStep(out: string, lit: string, value: string, r: Result<string, PlaceholderError>)
    ensures Prepended(out, Prepended(lit, Prepended(value, r))) == Prepended((out + lit) + value, r)
    ensures r.Ok? ==> Prepended(out, Ok(lit + (value + r.value))) == Prepended((out + lit) + value, r)
    ensures r.Err? ==> Prepended(out, r) == Prepended((out + lit) + value, r)
  {
    if r.Ok? { assert out + (lit + (value + r.value)) == ((out + lit) + value) + r.value; }
  }

  // ------------------------------------------------------------------ tokens

  /** Literal text and placeholders, in order; the text after the last placeholder is `tail`. */
  datatype Token = Token(literal: string, path: string)

  predicate ValidToken(t: Token) {
    && !Contains(t.literal, FILE_PREFIX)
    && (forall i :: 0 <= i < |t.path| ==> !IsBrace(t.path[i]))
    && !Contains(t.path, "${")
  }

  function Render(ts: seq<Token>, tail: string): string {
    if ts == [] then tail
    else ts[0].literal + (FILE_PREFIX + (ts[0].path + ("}" + Render(ts[1..], tail))))
  }

  /** The same tokens with each placeholder replaced, or the first failure. */
  function Filled(ts: seq<Token>, tail: string, replace: Replacement): Result<string, PlaceholderError> {
    if ts == [] then Ok(tail)
    else
      var value :- replace(ts[0].path);
      var rest :- Filled(ts[1..], tail, replace);
      Ok(ts[0].literal + (value + rest))
  }

  /** The prefix cannot overlap itself, so it is found where it was written. */
  lemma {:induction false} FoundWhereWritten(lit: string, rest: string)
    requires !Contains(lit, FILE_PREFIX)
    ensures FindSub(lit + (FILE_PREFIX + rest), FILE_PREFIX) == Some(|lit|)
  {
    var s := lit + (FILE_PREFIX + rest);
    assert OccursAt(s, FILE_PREFIX, |lit|);
    assert s[|lit|] == '$';
    forall i: nat | i < |lit| ensures !OccursAt(s, FILE_PREFIX, i) {
      if i + 7 <= |lit| {
        assert lit[i..i + 7] == s[i..i + 7];
        assert !OccursAt(lit, FILE_PREFIX, i);
      } else {
        assert s[i..i + 7][|lit| - i] == s[|lit|];
        OneDollar(|lit| - i);
      }
    }
  }

  lemma OneDollar(k: nat)
    requires 0 < k < 7
    ensures |FILE_PREFIX| == 7 && FILE_PREFIX[k] != '$'
  {
  }

  /** Rendered tokens come back one by one, with every literal copied verbatim. */
  lemma {:induction false} MapRendered(ts: seq<Token>, tail: string, replace: Replacement)
    requires (forall t | t in ts :: ValidToken(t)) && !Contains(tail, FILE_PREFIX)
    ensures MapFile(Render(ts, tail), replace) == Filled(ts, tail, replace)
  {
    hide FindSub, Contains, OccursAt;
    assert Contains(tail, FILE_PREFIX) <==> FindSub(tail, FILE_PREFIX).Some? by { ContainsMeans(tail, FILE_PREFIX); }
    if ts != [] {
      var t := ts[0];
      assert ValidToken(t);
      var more := Render(ts[1..], tail);
      var input := Render(ts, tail);
      var behind := t.path + ("}" + more);
      FoundWhereWritten(t.literal, behind);
      assert input[|t.literal| + 7..] == behind && input[..|t.literal|] == t.literal;
      BraceAt(t.path, more);
      MapRendered(ts[1..], tail, replace);
    }
  }

  lemma ContainsMeans(s: string, pat: string)
    ensures Contains(s, pat) <==> FindSub(s, pat).Some?
  {
  }

  lemma BraceAt(path: string, more: string)
    requires forall i :: 0 <= i < |path| ==> !IsBrace(path[i])
    ensures var s := path + ("}" + more);
            IndexOf(s, IsBrace) == |path| && |path| < |s| && s[..|path|] == path && s[|path| + 1..] == more
  {
    var s := path + ("}" + more);
    assert forall i :: 0 <= i < |path| ==> s[i] == path[i];
    assert s[|path|] == '}';
  }

  /** Whatever is accepted is a rendering of tokens; what is refused is refused for every replacement, or by one. */
  lemma {:induction false} AcceptedRenders(input: string, replace: Replacement)
    returns (ts: seq<Token>, tail: string)
    requires MapFile(input, replace).Ok?
    ensures (forall t | t in ts :: ValidToken(t)) && !Contains(tail, FILE_PREFIX) && Render(ts, tail) == input
    decreases |input|
  {
    hide FindSub, Contains, OccursAt;
    match FindSub(input, FILE_PREFIX)
    case None =>
      ts, tail := [], input;
      ContainsMeans(input, FILE_PREFIX);
    case Some(start) =>
      NoEarlier(input, start);
      var after := input[start + 7..];
      var end := IndexOf(after, IsBrace);
      var t := Token(input[..start], after[..end]);
      var ts', tail' := AcceptedRenders(after[end + 1..], replace);
      ts, tail := [t] + ts', tail';
      assert ts[1..] == ts';
      SplitAt(input, start, end);
  }

  lemma {:induction false} NoEarlier(s: string, start: nat)
    requires FindSub(s, FILE_PREFIX) == Some(start)
    ensures start + 7 <= |s| && OccursAt(s, FILE_PREFIX, start) && !Contains(s[..start], FILE_PREFIX)
  {
    forall i: nat | i + 7 <= start ensures !OccursAt(s[..start], FILE_PREFIX, i) {
      assert !OccursAt(s, FILE_PREFIX, i);
      assert s[..start][i..i + 7] == s[i..i + 7];
    }
  }

  lemma SplitAt(s: string, start: nat, end: nat)
    requires OccursAt(s, FILE_PREFIX, start) && start + 7 + end < |s| && s[start + 7..][end] == '}'
    ensures s == s[..start] + (FILE_PREFIX + (s[start + 7..][..end] + ("}" + s[start + 7..][end + 1..])))
  {
    var after := s[start + 7..];
    assert after == after[..end] + ("}" + after[end + 1..]);
    assert s == s[..start] + (s[start..start + 7] + after);
  }
}
