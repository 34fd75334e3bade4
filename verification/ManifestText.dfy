/** `protected.json`: its sorted digest set and its compact text. */
module ManifestText {
  import opened Wrappers
  import opened CapacityLedger
  import opened Utf8

  datatype Manifest = Manifest(schemaVersion: nat, protected: seq<string>)

  // ---------------------------------------------------------------- the set

  /** Strictly ascending: the iteration order of the set, each digest once. */
  predicate Ascending(s: seq<string>) {
    forall i, j :: 0 <= i < j < |s| ==> StringLess(s[i], s[j])
  }

  function Insert(s: seq<string>, d: string): seq<string> {
    if s == [] then [d]
    else if s[0] == d then s
    else if StringLess(d, s[0]) then [d] + s
    else [s[0]] + Insert(s[1..], d)
  }

  function Remove(s: seq<string>, d: string): seq<string> {
    if s == [] then []
    else if s[0] == d then s[1..]
    else [s[0]] + Remove(s[1..], d)
  }

  lemma ConsAscending(x: string, s: seq<string>)
    requires Ascending(s) && forall y | y in s :: StringLess(x, y)
    ensures Ascending([x] + s)
  {
    var r := [x] + s;
    forall i, j | 0 <= i < j < |r| ensures StringLess(r[i], r[j]) {
      assert r[j] == s[j - 1] && s[j - 1] in s;
      if i > 0 { assert r[i] == s[i - 1]; }
    }
  }

  /** Insertion adds exactly one digest and keeps the order. */
  lemma {:induction false} InsertAdds(s: seq<string>, d: string)
    requires Ascending(s)
    ensures Ascending(Insert(s, d))
    ensures forall x :: x in Insert(s, d) <==> x == d || x in s
    ensures |Insert(s, d)| == if d in s then |s| else |s| + 1
  {
    if s != [] {
      var rest := s[1..];
      assert s == [s[0]] + rest;
      assert forall y | y in rest :: StringLess(s[0], y);
      if s[0] != d {
        if StringLess(d, s[0]) {
          forall y | y in s ensures StringLess(d, y) { if y != s[0] { StringTransitive(d, s[0], y); } }
          StringOrder(d, d);
          ConsAscending(d, s);
        } else {
          StringOrder(d, s[0]);
          InsertAdds(rest, d);
          ConsAscending(s[0], Insert(rest, d));
        }
      }
    }
  }

  /** Removal takes out exactly one digest and keeps the order. */
  lemma {:induction false} RemoveTakes(s: seq<string>, d: string)
    requires Ascending(s)
    ensures Ascending(Remove(s, d))
    ensures forall x :: x in Remove(s, d) <==> x != d && x in s
    ensures |Remove(s, d)| == if d in s then |s| - 1 else |s|
  {
    if s != [] {
      var rest := s[1..];
      assert s == [s[0]] + rest;
      assert forall y | y in rest :: StringLess(s[0], y);
      StringOrder(s[0], s[0]);
      if s[0] != d {
        RemoveTakes(rest, d);
        ConsAscending(s[0], Remove(rest, d));
      }
    }
  }

  // ---------------------------------------------------------------- loading

  predicate AllDigests(ds: seq<string>) { forall d | d in ds :: IsDigest(d) }

  /** The loop of `load_protected_set`: the set of a listing, or an error for a bad or repeated digest. */
  function Collected(ds: seq<string>): Result<seq<string>, Error> {
    if ds == [] then Ok([])
    else
      var set' :- Collected(ds[..|ds| - 1]);
      var d := ds[|ds| - 1];
      if !IsDigest(d) || d in set' then Err(Rejected) else Ok(Insert(set', d))
  }

  predicate NoRepeats(ds: seq<string>) { forall i, j :: 0 <= i < j < |ds| ==> ds[i] != ds[j] }

  /** Loading accepts exactly the listings of distinct valid digests, and yields them in order. */
  lemma {:induction false} CollectedExactly(ds: seq<string>)
    ensures Collected(ds).Ok? <==> AllDigests(ds) && NoRepeats(ds)
    ensures Collected(ds).Ok? ==> Ascending(Collected(ds).value) && |Collected(ds).value| == |ds|
    ensures Collected(ds).Ok? ==> forall x :: x in Collected(ds).value <==> x in ds
    decreases |ds|
  {
    hide IsDigest, Insert, StringLess;
    if ds != [] {
      var init, d := ds[..|ds| - 1], ds[|ds| - 1];
      CollectedExactly(init);
      assert ds == init + [d];
      assert AllDigests(ds) <==> AllDigests(init) && IsDigest(d);
      assert NoRepeats(ds) <==> NoRepeats(init) && d !in init by { SnocRepeats(init, d); }
      if Collected(init).Ok? { InsertAdds(Collected(init).value, d); }
    }
  }

  lemma SnocRepeats(ds: seq<string>, d: string)
    ensures NoRepeats(ds + [d]) <==> NoRepeats(ds) && d !in ds
  {
    var all := ds + [d];
    assert forall i :: 0 <= i < |ds| ==> all[i] == ds[i];
    assert all[|ds|] == d;
    if NoRepeats(all) {
      forall i | 0 <= i < |ds| ensures ds[i] != d { assert all[i] != all[|ds|]; }
    }
  }

  /** An ascending listing loads as itself. */
  lemma {:induction false} CollectedSorted(ds: seq<string>)
    requires AllDigests(ds) && Ascending(ds)
    ensures Collected(ds) == Ok(ds)
    decreases |ds|
  {
    hide IsDigest, StringLess, Insert;
    if ds != [] {
      var init, d := ds[..|ds| - 1], ds[|ds| - 1];
      assert forall i :: 0 <= i < |init| ==> init[i] == ds[i] && ds[i] in ds;
      CollectedSorted(init);
      assert forall x | x in init :: StringLess(x, d);
      InsertLast(init, d);
      assert init + [d] == ds;
    }
  }

  lemma {:induction false} InsertLast(s: seq<string>, d: string)
    requires forall x | x in s :: StringLess(x, d)
    ensures d !in s && Insert(s, d) == s + [d]
  {
    StringOrder(d, d);
    if s != [] {
      assert StringLess(s[0], d);
      StringOrder(s[0], d);
      InsertLast(s[1..], d);
      assert s + [d] == [s[0]] + (s[1..] + [d]);
    }
  }

  // ---------------------------------------------------------------- the compact text

  function Quoted(d: string): string { "\"" + (d + "\"") }

  function Listed(ds: seq<string>): string {
    if ds == [] then ""
    else if |ds| == 1 then Quoted(ds[0])
    else Quoted(ds[0]) + ("," + Listed(ds[1..]))
  }

  const OPENING := "{\"schema_version\":1,\"protected\":["

  /** `encode_manifest`; a digest has no character that JSON escapes. */
  function EncodeText(ds: seq<string>): string { OPENING + (Listed(ds) + "]}") }

  /** The text of an empty manifest, and of one with a single digest. */
  lemma SmallTexts(d: string)
    ensures EncodeText([]) == "{\"schema_version\":1,\"protected\":[]}"
    ensures EncodeText([d]) == "{\"schema_version\":1,\"protected\":[\"" + d + "\"]}"
  {
  }

  lemma {:induction false} ListedLength(ds: seq<string>)
    requires AllDigests(ds)
    ensures |Listed(ds)| == if ds == [] then 0 else 74 * |ds| - 1
  {
    if |ds| >= 1 {
      assert ds[0] in ds;
      if |ds| > 1 {
        assert forall d | d in ds[1..] :: d in ds;
        ListedLength(ds[1..]);
      }
    }
  }

  /** The byte length depends only on how many digests there are. */
  lemma EncodedLength(ds: seq<string>)
    requires AllDigests(ds)
    ensures |EncodeText(ds)| == 35 + (if ds == [] then 0 else 74 * |ds| - 1)
  {
    ListedLength(ds);
  }

  /** A reader of the compact form. */
  function DecodeItems(s: string): Option<seq<string>>
    decreases |s|
  {
    if |s| < 73 || s[0] != '"' || s[72] != '"' then None
    else if s[73..] == "]}" then Some([s[1..72]])
    else if |s| > 73 && s[73] == ',' then
      var rest := DecodeItems(s[74..]);
      if rest == None then None else Some([s[1..72]] + rest.value)
    else None
  }

  function DecodeText(s: string): Option<Manifest> {
    if !StartsWith(s, OPENING) then None
    else if s[|OPENING|..] == "]}" then Some(Manifest(1, []))
    else
      var items := DecodeItems(s[|OPENING|..]);
      if items == None then None else Some(Manifest(1, items.value))
  }

  lemma {:induction false} DecodeListed(ds: seq<string>)
    requires AllDigests(ds) && ds != []
    ensures DecodeItems(Listed(ds) + "]}") == Some(ds)
    decreases |ds|
  {
    hide IsDigest, Quoted, DecodeItems;
    assert ds[0] in ds;
    if |ds| == 1 {
      DecodeLast(ds[0]);
      assert ds == [ds[0]];
    } else {
      assert forall d | d in ds[1..] :: d in ds;
      DecodeListed(ds[1..]);
      Regrouped(Quoted(ds[0]), Listed(ds[1..]), "]}");
      DecodeNext(ds[0], Listed(ds[1..]) + "]}", ds[1..]);
      assert ds == [ds[0]] + ds[1..];
    }
  }

  lemma DecodeLast(d: string)
    requires IsDigest(d)
    ensures DecodeItems(Quoted(d) + "]}") == Some([d])
  {
    hide IsDigest, Quoted;
    FirstItem(d, "]}");
  }

  lemma DecodeNext(d: string, tail: string, ds: seq<string>)
    requires IsDigest(d) && DecodeItems(tail) == Some(ds)
    ensures DecodeItems(Quoted(d) + ("," + tail)) == Some([d] + ds)
  {
    hide IsDigest, Quoted;
    FirstItem(d, "," + tail);
    Comma(Quoted(d) + ("," + tail), tail);
  }

  lemma Regrouped(a: string, b: string, c: string)
    ensures (a + ("," + b)) + c == a + ("," + (b + c))
  {
  }

  lemma Comma(s: string, tail: string)
    requires |s| >= 73 && s[73..] == "," + tail
    ensures |s| > 73 && s[73] == ',' && s[74..] == tail && s[73..] != "]}"
  {
    assert s[73] == s[73..][0];
    assert s[74..] == s[73..][1..];
    assert "]}"[0] == ']';
  }

  lemma FirstItem(d: string, after: string)
    requires IsDigest(d)
    ensures var s := Quoted(d) + after;
            |s| >= 73 && s[0] == '"' && s[72] == '"' && s[1..72] == d && s[73..] == after
  {
  }

  /** What any reader of the manifest must do for the program to read back what it wrote. */
  ghost predicate ReadsBack(reader: string -> Option<Manifest>) {
    forall ds: seq<string> | AllDigests(ds) :: reader(EncodeText(ds)) == Some(Manifest(1, ds))
  }

  /** The compact text can be read back: such readers exist, so distinct listings have distinct texts. */
  lemma CompactReadsBack()
    ensures ReadsBack(DecodeText)
  {
    forall ds: seq<string> | AllDigests(ds) ensures DecodeText(EncodeText(ds)) == Some(Manifest(1, ds)) {
      var s := EncodeText(ds);
      assert s[..|OPENING|] == OPENING && s[|OPENING|..] == Listed(ds) + "]}";
      if ds == [] {
        assert s[|OPENING|..] == "]}";
      } else {
        DecodeListed(ds);
        ListedLength(ds);
      }
    }
  }

  /** `load_protected_set`. */
  function LoadSet(reader: string -> Option<Manifest>, text: Option<string>): Result<seq<string>, Error> {
    if text == None then Ok([])
    else
      match reader(text.value)
      case None => Err(Rejected)
      case Some(m) => if m.schemaVersion != 1 then Err(Rejected) else Collected(m.protected)
  }

  /** A manifest loads exactly when it reads as version 1 with distinct valid digests; then as those, in order. */
  lemma LoadExactly(reader: string -> Option<Manifest>, text: string)
    ensures LoadSet(reader, None) == Ok([])
    ensures LoadSet(reader, Some(text)).Ok? <==>
            exists ds :: reader(text) == Some(Manifest(1, ds)) && AllDigests(ds) && NoRepeats(ds)
    ensures forall ds | LoadSet(reader, Some(text)).Ok? && reader(text) == Some(Manifest(1, ds)) ::
              var loaded := LoadSet(reader, Some(text)).value;
              Ascending(loaded) && |loaded| == |ds| && forall x :: x in loaded <==> x in ds
  {
    hide IsDigest, Collected, AllDigests, NoRepeats, Ascending;
    if reader(text).Some? { CollectedExactly(reader(text).value.protected); }
  }

  method LoadProtectedSet(reader: string -> Option<Manifest>, text: Option<string>)
    returns (r: Result<seq<string>, Error>)
    ensures r == LoadSet(reader, text)
  {
    hide IsDigest, Insert;
    if text == None { return Ok([]); }
    var parsed := reader(text.value);
    if parsed == None || parsed.value.schemaVersion != 1 { return Err(Rejected); }
    var ds := parsed.value.protected;
    var digests: seq<string> := [];
    for i := 0 to |ds|
      invariant Collected(ds[..i]) == Ok(digests)
    {
      assert ds[..i + 1][..i] == ds[..i];
      if !IsDigest(ds[i]) || ds[i] in digests {
        CollectedPrefix(ds, i + 1);
        return Err(Rejected);
      }
      digests := Insert(digests, ds[i]);
    }
    assert ds[..|ds|] == ds;
    return Ok(digests);
  }

  lemma {:induction false} CollectedPrefix(ds: seq<string>, n: nat)
    requires n <= |ds| && Collected(ds[..n]) == Err(Rejected)
    ensures Collected(ds) == Err(Rejected)
    decreases |ds| - n
  {
    if n == |ds| {
      assert ds[..n] == ds;
    } else {
      assert ds[..n + 1][..n] == ds[..n];
      CollectedPrefix(ds, n + 1);
    }
  }
}
