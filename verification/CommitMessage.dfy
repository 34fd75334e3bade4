/** Commit messages: `split_commit_message`, `format_commit_msg`, and the header block they frame. */
module CommitMessage {
  import opened Wrappers

  datatype Header = Header(key: string, value: string)

  datatype Parts = Parts(headers: seq<Header>, body: string)

  predicate IsKeyChar(c: char) {
    'a' <= c <= 'z' || 'A' <= c <= 'Z' || '0' <= c <= '9' || c == '-'
  }

  predicate ValidKey(k: string) {
    k != "" && forall i :: 0 <= i < |k| ==> IsKeyChar(k[i])
  }

  predicate ValidHeaders(hs: seq<Header>) { forall h | h in hs :: ValidKey(h.key) }

  predicate IsNewline(c: char) { c == '\n' }
  predicate IsSpace(c: char) { c == ' ' }

  // ---------------------------------------------------------------- splitting

  /** One complete line of a header block, folded into the headers so far. */
  function FoldLine(hs: seq<Header>, line: string): Option<seq<Header>>
    requires line != ""
  {
    if line[0] == ' ' then
      if hs == [] then None
      else
        var last := hs[|hs| - 1];
        Some(hs[..|hs| - 1] + [Header(last.key, last.value + ("\n" + line[1..]))])
    else
      var k := IndexOf(line, IsSpace);
      if k < |line| && ValidKey(line[..k]) then Some(hs + [Header(line[..k], line[k + 1..])]) else None
  }

  /** The loop of `split_commit_message`; `None` when the block is not complete. */
  function SplitBlock(hs: seq<Header>, rest: string): Option<Parts>
    decreases |rest|
  {
    var newline := IndexOf(rest, IsNewline);
    if newline == |rest| then None
    else if newline == 0 then Some(Parts(hs, rest[1..]))
    else
      match FoldLine(hs, rest[..newline])
      case None => None
      case Some(hs') => SplitBlock(hs', rest[newline + 1..])
  }

  /** `split_commit_message`. */
  function SplitMessage(message: string): Parts {
    if message != "" && message[0] == '\n' then Parts([], message[1..])
    else match SplitBlock([], message)
      case Some(parts) => parts
      case None => Parts([], message)
  }

  method SplitCommitMessage(message: string) returns (parts: Parts)
    ensures parts == SplitMessage(message)
  {
    hide FoldLine;
    if message != "" && message[0] == '\n' { return Parts([], message[1..]); }
    var headers: seq<Header> := [];
    var rest := message;
    while true
      invariant SplitBlock([], message) == SplitBlock(headers, rest)
      decreases |rest|
    {
      var newline := IndexOf(rest, IsNewline);
      if newline == |rest| { return Parts([], message); }
      var line, after := rest[..newline], rest[newline + 1..];
      if line == "" { return Parts(headers, after); }
      var folded := FoldLine(headers, line);
      if folded == None { return Parts([], message); }
      headers := folded.value;
      rest := after;
    }
  }

  // ---------------------------------------------------------------- rendering

  /** A header value with its closing newline; every inner newline starts a continuation line. */
  function ValueText(v: string): string {
    if v == "" then "\n" else (if v[0] == '\n' then "\n " else [v[0]]) + ValueText(v[1..])
  }

  function HeaderText(h: Header): string { h.key + (" " + ValueText(h.value)) }

  function HeadersText(hs: seq<Header>): string {
    if hs == [] then "" else HeadersText(hs[..|hs| - 1]) + HeaderText(hs[|hs| - 1])
  }

  /** The framed message: header block, blank line, body. */
  function MessageText(hs: seq<Header>, body: string): string {
    HeadersText(hs) + ("\n" + body)
  }

  /** `format_commit_msg`. */
  function FormatCommitMsg(msg: string, signature: Option<string>): string {
    match signature
    case None => "\n" + msg
    case Some(gpg) => gpg + ("\n\n" + msg)
  }

  predicate OneLine(s: string) { forall i :: 0 <= i < |s| ==> s[i] != '\n' }

  lemma {:induction false} OneLineValue(v: string)
    requires OneLine(v)
    ensures ValueText(v) == v + "\n"
  {
    if v != "" {
      OneLineValue(v[1..]);
      assert v == [v[0]] + v[1..];
    }
  }

  /** The first line of a value and the continuation lines after it. */
  lemma {:induction false} ValueAppend(a: string, b: string)
    ensures ValueText(a + ("\n" + b)) == ValueText(a) + (" " + ValueText(b))
  {
    var s := a + ("\n" + b);
    if a == "" {
      assert s[0] == '\n' && s[1..] == b;
    } else {
      assert s[0] == a[0] && s[1..] == a[1..] + ("\n" + b);
      ValueAppend(a[1..], b);
    }
  }

  lemma LineAt(line: string, after: string)
    requires OneLine(line)
    ensures var s := line + ("\n" + after);
            IndexOf(s, IsNewline) == |line| && |line| < |s| && s[..|line|] == line && s[|line| + 1..] == after
  {
    var s := line + ("\n" + after);
    assert forall i :: 0 <= i < |line| ==> s[i] == line[i];
    assert s[|line|] == '\n';
  }

  /** One line of the block, as the loop sees it. */
  lemma BlockStep(hs: seq<Header>, line: string, after: string)
    requires OneLine(line) && line != ""
    ensures SplitBlock(hs, line + ("\n" + after)) ==
            match FoldLine(hs, line) case None => None case Some(hs') => SplitBlock(hs', after)
  {
    hide FoldLine;
    LineAt(line, after);
  }

  lemma KeyLine(hs: seq<Header>, key: string, line: string)
    requires ValidKey(key)
    ensures FoldLine(hs, key + (" " + line)) == Some(hs + [Header(key, line)])
  {
    var s := key + (" " + line);
    assert s[0] == key[0];
    assert forall i :: 0 <= i < |key| ==> s[i] == key[i];
    assert s[|key|] == ' ';
    assert IndexOf(s, IsSpace) == |key|;
    assert s[..|key|] == key && s[|key| + 1..] == line;
  }

  lemma ContinuationLine(hs: seq<Header>, h: Header, line: string)
    ensures FoldLine(hs + [h], " " + line) == Some(hs + [Header(h.key, h.value + ("\n" + line))])
  {
    assert (" " + line)[1..] == line;
    assert (hs + [h])[..|hs|] == hs;
  }

  lemma Regroup(lead: string, line: string, tail: string, after: string)
    ensures lead + (((line + "\n") + tail) + after) == (lead + line) + ("\n" + (tail + after))
  {
  }

  lemma RegroupLast(lead: string, line: string, after: string)
    ensures lead + ((line + "\n") + after) == (lead + line) + ("\n" + after)
  {
  }

  /** A value's text: its first line, and the continuation lines of the rest. */
  lemma {:induction false} ValueLines(v: string, k: nat)
    requires k == IndexOf(v, IsNewline)
    ensures OneLine(v[..k])
    ensures k == |v| ==> ValueText(v) == v[..k] + "\n"
    ensures k < |v| ==> ValueText(v) == (v[..k] + "\n") + (" " + ValueText(v[k + 1..]))
    ensures k < |v| ==> v == v[..k] + ("\n" + v[k + 1..])
  {
    var line := v[..k];
    OneLineValue(line);
    if k == |v| {
      assert line == v;
    } else {
      assert v == line + ("\n" + v[k + 1..]);
      ValueAppend(line, v[k + 1..]);
    }
  }

  /** A value's lines after `lead`: one fold for the first, continuations for the others. */
  lemma ValueBlock(hs: seq<Header>, lead: string, v: string, after: string, k: nat)
    requires k == IndexOf(v, IsNewline) && OneLine(lead) && lead != ""
    ensures SplitBlock(hs, lead + (ValueText(v) + after)) ==
            match FoldLine(hs, lead + v[..k])
            case None => None
            case Some(hs') => SplitBlock(hs', if k == |v| then after else " " + (ValueText(v[k + 1..]) + after))
  {
    hide FoldLine, SplitBlock, ValueText;
    ValueLines(v, k);
    var line := v[..k];
    if k == |v| {
      RegroupLast(lead, line, after);
      BlockStep(hs, lead + line, after);
    } else {
      var tail := " " + ValueText(v[k + 1..]);
      Regroup(lead, line, tail, after);
      BlockStep(hs, lead + line, tail + after);
      assert tail + after == " " + (ValueText(v[k + 1..]) + after);
    }
  }

  /** Continuation lines are folded back into the value they came from. */
  lemma {:induction false} ContinuationBlock(hs: seq<Header>, h: Header, v: string, after: string)
    ensures SplitBlock(hs + [h], " " + (ValueText(v) + after)) ==
            SplitBlock(hs + [Header(h.key, h.value + ("\n" + v))], after)
    decreases |v|
  {
    hide FoldLine, SplitBlock, ValueText;
    var k := IndexOf(v, IsNewline);
    var line := v[..k];
    ContinuationLine(hs, h, line);
    ValueLines(v, k);
    ValueBlock(hs + [h], " ", v, after, k);
    if k == |v| {
      assert line == v;
    } else {
      var h' := Header(h.key, h.value + ("\n" + line));
      ContinuationBlock(hs, h', v[k + 1..], after);
      Continued(h.value, line, v[k + 1..]);
    }
  }

  lemma Continued(a: string, b: string, c: string)
    ensures (a + ("\n" + b)) + ("\n" + c) == a + ("\n" + (b + ("\n" + c)))
  {
  }

  lemma HeaderLead(key: string, v: string, after: string, line: string)
    ensures (key + (" " + v)) + after == (key + " ") + (v + after)
    ensures (key + " ") + line == key + (" " + line)
  {
  }

  lemma HeaderBlock(hs: seq<Header>, h: Header, after: string)
    requires ValidKey(h.key)
    ensures SplitBlock(hs, HeaderText(h) + after) == SplitBlock(hs + [h], after)
  {
    hide FoldLine, SplitBlock, ValueText;
    var k := IndexOf(h.value, IsNewline);
    var line := h.value[..k];
    var lead := h.key + " ";
    HeaderLead(h.key, ValueText(h.value), after, line);
    KeyLine(hs, h.key, line);
    KeyLead(h.key);
    hide ValidKey, OneLine;
    ValueBlock(hs, lead, h.value, after, k);
    if k == |h.value| {
      assert line == h.value;
    } else {
      ContinuationBlock(hs, Header(h.key, line), h.value[k + 1..], after);
      ValueLines(h.value, k);
    }
  }

  lemma KeyLead(key: string)
    requires ValidKey(key)
    ensures OneLine(key + " ") && key + " " != ""
  {
  }

  lemma {:induction false} HeadersBlock(hs: seq<Header>, n: nat, after: string)
    requires ValidHeaders(hs) && n <= |hs|
    ensures SplitBlock([], HeadersText(hs[..n]) + after) == SplitBlock(hs[..n], after)
    decreases n
  {
    hide SplitBlock;
    if n == 0 {
      assert HeadersText(hs[..0]) + after == after;
    } else {
      var hs', h := hs[..n - 1], hs[n - 1];
      assert hs[..n][..n - 1] == hs' && hs[..n] == hs' + [h];
      assert HeadersText(hs[..n]) + after == HeadersText(hs') + (HeaderText(h) + after);
      HeadersBlock(hs, n - 1, HeaderText(h) + after);
      HeaderBlock(hs', h, after);
    }
  }

  /** The start of a framed message tells whether it has headers. */
  lemma MessageStart(hs: seq<Header>, body: string)
    requires ValidHeaders(hs)
    ensures var m := MessageText(hs, body); m != "" && (m[0] == '\n' <==> hs == [])
  {
    if hs != [] { HeadersStart(hs); }
  }

  lemma {:induction false} HeadersStart(hs: seq<Header>)
    requires ValidHeaders(hs) && hs != []
    ensures HeadersText(hs) != "" && HeadersText(hs)[0] != '\n'
  {
    if |hs| == 1 {
      assert HeadersText(hs[..0]) == "";
      assert HeadersText(hs) == HeaderText(hs[0]);
      assert hs[0] in hs;
    } else {
      HeadersStart(hs[..|hs| - 1]);
    }
  }

  /** Splitting the rendering of any headers (valid keys, any multi-line values) and any body returns them. */
  lemma SplitRendered(hs: seq<Header>, body: string)
    requires ValidHeaders(hs)
    ensures SplitMessage(MessageText(hs, body)) == Parts(hs, body)
  {
    var m := MessageText(hs, body);
    MessageStart(hs, body);
    if hs == [] {
      assert m == "\n" + body;
    } else {
      assert hs[..|hs|] == hs;
      HeadersBlock(hs, |hs|, "\n" + body);
      assert ("\n" + body)[1..] == body;
      assert SplitBlock(hs, "\n" + body) == Some(Parts(hs, body));
    }
  }

  // ---------------------------------------------------------------- converse

  lemma HeadersSnoc(hs: seq<Header>, h: Header)
    ensures HeadersText(hs + [h]) == HeadersText(hs) + HeaderText(h)
  {
    assert (hs + [h])[..|hs|] == hs;
  }

  lemma ContinuationRenders(hs: seq<Header>, h: Header, more: string)
    requires OneLine(more)
    ensures HeadersText(hs + [Header(h.key, h.value + ("\n" + more))]) == HeadersText(hs + [h]) + ((" " + more) + "\n")
  {
    hide HeadersText, ValueText;
    HeadersSnoc(hs, h);
    HeadersSnoc(hs, Header(h.key, h.value + ("\n" + more)));
    ValueAppend(h.value, more);
    OneLineValue(more);
    assert HeaderText(Header(h.key, h.value + ("\n" + more))) == HeaderText(h) + ((" " + more) + "\n");
  }

  lemma KeyLineRenders(hs: seq<Header>, h: Header)
    requires OneLine(h.value)
    ensures HeadersText(hs + [h]) == HeadersText(hs) + ((h.key + (" " + h.value)) + "\n")
  {
    hide HeadersText, ValueText;
    HeadersSnoc(hs, h);
    OneLineValue(h.value);
    assert HeaderText(h) == (h.key + (" " + h.value)) + "\n";
  }

  /** A folded line renders back as itself. */
  lemma FoldRenders(hs: seq<Header>, line: string)
    requires ValidHeaders(hs) && OneLine(line) && line != "" && FoldLine(hs, line).Some?
    ensures ValidHeaders(FoldLine(hs, line).value) && FoldLine(hs, line).value != []
    ensures HeadersText(FoldLine(hs, line).value) == HeadersText(hs) + (line + "\n")
  {
    hide HeadersText, ValueText, ValidKey;
    if line[0] == ' ' {
      var hs', last := hs[..|hs| - 1], hs[|hs| - 1];
      assert hs == hs' + [last];
      assert line == " " + line[1..];
      ContinuationRenders(hs', last, line[1..]);
    } else {
      var k := IndexOf(line, IsSpace);
      var h := Header(line[..k], line[k + 1..]);
      assert line == h.key + (" " + h.value);
      KeyLineRenders(hs, h);
    }
  }

  lemma {:induction false} BlockRenders(hs: seq<Header>, rest: string)
    requires ValidHeaders(hs) && SplitBlock(hs, rest).Some?
    ensures var p := SplitBlock(hs, rest).value;
            ValidHeaders(p.headers) && HeadersText(hs) + rest == MessageText(p.headers, p.body)
    decreases |rest|
  {
    hide FoldLine, HeadersText, ValidHeaders;
    var k := IndexOf(rest, IsNewline);
    if k > 0 {
      var line, after := rest[..k], rest[k + 1..];
      var hs' := FoldLine(hs, line).value;
      FoldRenders(hs, line);
      BlockRenders(hs', after);
      assert rest == (line + "\n") + after;
      Associate(HeadersText(hs), line + "\n", after);
    } else {
      assert rest == "\n" + rest[1..];
    }
  }

  lemma Associate(a: string, b: string, c: string)
    ensures a + (b + c) == (a + b) + c
  {
  }

  /** The message is a header block with valid keys, a blank line and a body. */
  ghost predicate Framed(message: string) {
    exists hs: seq<Header>, body: string :: ValidHeaders(hs) && MessageText(hs, body) == message
  }

  /** Conversely: a message is the rendering of its split exactly when it is framed, and all body otherwise. */
  lemma SplitFaithful(message: string)
    ensures var p := SplitMessage(message);
            if Framed(message) then ValidHeaders(p.headers) && MessageText(p.headers, p.body) == message
            else p == Parts([], message)
  {
    hide SplitBlock;
    if message != "" && message[0] == '\n' {
      assert message == "\n" + message[1..];
      assert MessageText([], message[1..]) == message;
    } else if SplitBlock([], message).Some? {
      BlockRenders([], message);
      assert HeadersText([]) + message == message;
    } else if Framed(message) {
      var hs: seq<Header>, body: string :| ValidHeaders(hs) && MessageText(hs, body) == message;
      SplitRendered(hs, body);
    }
  }

  /** A body framed without a signature splits to no headers and itself, whatever it looks like. */
  lemma UnsignedRoundTrip(msg: string)
    ensures SplitMessage(FormatCommitMsg(msg, None)) == Parts([], msg)
  {
    SplitRendered([], msg);
    assert MessageText([], msg) == "\n" + msg;
  }

  /** `gpg` is a header block with valid keys, without its last newline. */
  ghost predicate IsHeaderBlock(gpg: string) {
    exists hs: seq<Header> :: ValidHeaders(hs) && HeadersText(hs) == gpg + "\n"
  }

  /** A signature that is such a block splits back to those headers and the message. */
  lemma SignedRoundTrip(hs: seq<Header>, gpg: string, msg: string)
    requires ValidHeaders(hs) && gpg + "\n" == HeadersText(hs)
    ensures SplitMessage(FormatCommitMsg(msg, Some(gpg))) == Parts(hs, msg)
  {
    hide SplitMessage, HeadersText;
    assert gpg + ("\n\n" + msg) == (gpg + "\n") + ("\n" + msg);
    SplitRendered(hs, msg);
  }

  /** The message comes back from a signed commit exactly when the signature is a header block. */
  lemma SignedExactly(gpg: string, msg: string)
    ensures SplitMessage(FormatCommitMsg(msg, Some(gpg))).body == msg <==> IsHeaderBlock(gpg)
  {
    hide SplitMessage, HeadersText, ValidHeaders;
    var m := FormatCommitMsg(msg, Some(gpg));
    var p := SplitMessage(m);
    if p.body == msg {
      SplitFaithful(m);
      assert |m| > |msg|;
      assert m == (gpg + "\n") + ("\n" + msg);
      SameFront(HeadersText(p.headers), gpg + "\n", "\n" + msg);
    }
    if IsHeaderBlock(gpg) {
      var hs: seq<Header> :| ValidHeaders(hs) && HeadersText(hs) == gpg + "\n";
      SignedRoundTrip(hs, gpg, msg);
    }
  }

  lemma SameFront(a: string, b: string, t: string)
    ensures a + t == b + t ==> a == b
  {
    if a + t == b + t {
      assert a == (a + t)[..|a|] && b == (b + t)[..|b|];
    }
  }

  // ---------------------------------------------------------------- signatures

  /** `is_signature_header`. */
  predicate IsSignatureHeader(key: string) { key == "gpgsig" || key == "gpgsig-sha256" }

  /** `has_signature`. */
  predicate HasSignature(p: Parts) { exists h | h in p.headers :: IsSignatureHeader(h.key) }

  /** The characters of a key by their ASCII codes: the hyphen, the digits and the letters. */
  lemma KeyCodes(c: char)
    ensures IsKeyChar(c) <==>
            c as int == 45 || 48 <= c as int <= 57 || 65 <= c as int <= 90 || 97 <= c as int <= 122
  {
  }

  lemma SignatureKeys(key: string)
    requires IsSignatureHeader(key)
    ensures ValidKey(key)
  {
  }

  /** A signature header, of either name and any number of lines, is found wherever it stands in the block. */
  lemma SignatureFound(before: seq<Header>, key: string, sig: string, behind: seq<Header>, body: string)
    requires ValidHeaders(before) && ValidHeaders(behind) && IsSignatureHeader(key)
    ensures var hs := before + [Header(key, sig)] + behind; var p := SplitMessage(MessageText(hs, body));
            p == Parts(hs, body) && HasSignature(p)
  {
    hide SplitMessage, MessageText, ValidKey;
    var hs := before + [Header(key, sig)] + behind;
    SignatureKeys(key);
    SplitRendered(hs, body);
    assert Header(key, sig) in hs;
  }

  /** A message without a complete header block carries no signature. */
  lemma UnframedUnsigned(message: string)
    requires !Framed(message)
    ensures !HasSignature(SplitMessage(message))
  {
    hide SplitMessage, Framed;
    SplitFaithful(message);
  }
}
