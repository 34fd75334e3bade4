/**
 What RFC 8785 prescribes of a canonical text, stated on the text's own syntax tree: no white space, shortest
 escapes, ECMAScript numbers and keys rising by UTF-16 units. Every text `canonicalize` returns is of that form.
 */
module CanonicalText {
  import opened Wrappers
  import opened JsonNumber
  import opened Es6Number
  import opened Utf16
  import opened Float64
  import opened JsonString
  import opened Json
  import opened JsonGrammar
  import opened CanonicalJson

  predicate MinimalElems(es: seq<Elem>) {
    ValidElems(es) && forall e | e in es :: Minimal(e)
  }

  /** A member written without white space, with a minimal key. */
  predicate TightMember(m: SMember) {
    m.before == "" && m.after == "" && MinimalElems(m.key) && m.value.before == "" && m.value.after == ""
  }

  ghost predicate Before(a: SMember, b: SMember) {
    ValidElems(a.key) && ValidElems(b.key) && Rises(Decoded(a.key), Decoded(b.key))
  }

  /** Each key stands before every later one. */
  ghost predicate KeysRise(ms: seq<SMember>) {
    forall i, j :: 0 <= i < j < |ms| ==> Before(ms[i], ms[j])
  }

  /** The canonical texts. */
  ghost predicate Jcs(v: Syntax) {
    match v
    case SNumber(n) => ValidNumber(n) && (NumberText(n) == "0" || Es6Shape(n))
    case SString(es) => MinimalElems(es)
    case SArray(items, ws) =>
      ws == "" && forall p | p in items :: p.before == "" && p.after == "" && Jcs(p.v)
    case SObject(ms, ws) =>
      ws == "" && (forall m | m in ms :: TightMember(m) && Jcs(m.value.v)) && KeysRise(ms)
    case _ => true
  }

  lemma {:induction false} ElemsForMinimal(s: string)
    ensures MinimalElems(ElemsFor(s))
  {
    hide Minimal, ValidElem, ElemFor;
    if s != "" {
      ElemForMinimal(s[0]);
      ElemsForMinimal(s[1..]);
      var es := ElemsFor(s);
      assert es[1..] == ElemsFor(s[1..]);
      assert es == [es[0]] + es[1..];
    }
  }

  lemma NumberShaped(fp: Conversion, text: string)
    requires Faithful(fp) && CanonicalForm(fp, Num(text))
    ensures Jcs(Printed(Num(text)))
  {
    hide Faithful, DoubleText, Es6Shape, ValidNumber, NumberText, LexNumber;
    var d :| Readable(fp, d) && text == DoubleText(fp, d);
    var n := DoubleTextReadsBack(fp, d);
    LexNumberComplete(n, "");
    assert NumberText(n) + "" == NumberText(n);
    assert Printed(Num(text)) == SNumber(n);
  }

  /** The printed members one by one: the key's minimal spelling and the value's printed form, in the given order. */
  lemma {:induction false} PrintedMember(ms: seq<Member>, i: nat)
    requires i < |ms|
    ensures PrintedMembers(ms)[i] == SMember("", ElemsFor(ms[i].key), "", Bare(Printed(ms[i].value)))
  {
    hide Printed, ElemsFor;
    if i > 0 {
      PrintedMember(ms[1..], i - 1);
      assert PrintedMembers(ms)[1..] == PrintedMembers(ms[1..]);
    }
  }

  lemma {:induction false} PrintedItem(items: seq<Canonical>, i: nat)
    requires i < |items|
    ensures PrintedItems(items)[i] == Bare(Printed(items[i]))
  {
    hide Printed;
    if i > 0 {
      PrintedItem(items[1..], i - 1);
      assert PrintedItems(items)[1..] == PrintedItems(items[1..]);
    }
  }

  lemma SortedRises(ms: seq<Member>, ps: seq<SMember>)
    requires Sorted(ms) && |ps| == |ms| && forall i :: 0 <= i < |ms| ==> ps[i].key == ElemsFor(ms[i].key)
    ensures (forall i :: 0 <= i < |ps| ==> MinimalElems(ps[i].key)) && KeysRise(ps)
  {
    hide KeyLess, Rises, ElemsFor, Decoded, MinimalElems, ValidElems, Escaped, BodyText;
    forall i | 0 <= i < |ps|
      ensures MinimalElems(ps[i].key) && ValidElems(ps[i].key) && Decoded(ps[i].key) == ms[i].key
    {
      ElemsForMinimal(ms[i].key);
      EscapedDenotes(ms[i].key);
    }
    forall i, j | 0 <= i < j < |ps| ensures Before(ps[i], ps[j]) {
      KeyLessMeans(ms[i].key, ms[j].key);
    }
  }

  lemma {:induction false} PrintedJcs(fp: Conversion, c: Canonical)
    requires Faithful(fp) && CanonicalForm(fp, c)
    ensures Jcs(Printed(c))
    decreases c
  {
    hide Faithful, PrintedItems, PrintedMembers, KeysRise, MinimalElems, Sorted, ElemsFor, Es6Shape, LexNumber;
    match c
    case Num(text) =>
      NumberShaped(fp, text);
    case Str(s) =>
      ElemsForMinimal(s);
    case Arr(items) =>
      forall p | p in PrintedItems(items) ensures p.before == "" && p.after == "" && Jcs(p.v) {
        var i :| 0 <= i < |items| && PrintedItems(items)[i] == p;
        PrintedItem(items, i);
        PrintedJcs(fp, items[i]);
      }
    case Obj(ms) =>
      var ps := PrintedMembers(ms);
      forall i | 0 <= i < |ms| ensures ps[i].key == ElemsFor(ms[i].key) { PrintedMember(ms, i); }
      SortedRises(ms, ps);
      forall p | p in ps ensures TightMember(p) && Jcs(p.value.v) {
        var i :| 0 <= i < |ms| && ps[i] == p;
        PrintedMember(ms, i);
        PrintedJcs(fp, ms[i].value);
      }
    case _ =>
  }

  /**
   The output of `canonicalize` on any accepted document: the text of a canonical tree that denotes what the document
   denotes.
   */
  lemma OutputCanonical(fp: Conversion, d: Padded) returns (v: Syntax)
    requires Faithful(fp) && ValidDocument(fp, d) && Depth(d.v) <= 128
    ensures Canonicalize(fp, DocumentText(d)) == Ok(Text(v))
    ensures Jcs(v) && Valid(fp, v) && Meaning(fp, v) == Meaning(fp, d.v)
  {
    hide Faithful, Print, Canon, Text, Valid, Depth, Canonicalize, CanonicalForm, Meaning, Den, Jcs, Printed, Nesting;
    var c := Canon(fp, d.v);
    DocumentOutcome(fp, d);
    CanonDenotes(fp, d.v);
    v := Printed(c);
    PrintedRepresents(fp, c);
    PrintedJcs(fp, c);
    CanonDenotes(fp, v);
  }

  /** `out` is a canonical text for the value that `text` is written for. */
  ghost predicate CanonicalFor(fp: Conversion, text: string, out: string) {
    exists d, v ::
      && ValidDocument(fp, d) && DocumentText(d) == text
      && Valid(fp, v) && Text(v) == out && Jcs(v) && Meaning(fp, v) == Meaning(fp, d.v)
  }

  /** On texts. */
  lemma CanonicalizeMeans(fp: Conversion, text: string)
    requires Faithful(fp) && Canonicalize(fp, text).Ok?
    ensures CanonicalFor(fp, text, Canonicalize(fp, text).value)
  {
    hide Faithful, Print, Canon, Text, Valid, Depth, Canonicalize, Meaning, Jcs, DocumentText;
    var d := Reading(fp, text);
    var v := OutputCanonical(fp, d);
  }

  /** Unicode escapes are the UTF-16 units of the character they denote. */
  lemma EscapeUnits(e: Elem)
    requires ValidElem(e)
    ensures e.Hex? ==> Spells([Hex4Val(e.h)], [ElemChar(e)])
    ensures e.Pair? ==> Spells([Hex4Val(e.hi), Hex4Val(e.lo)], [ElemChar(e)])
  {
    hide Hex4Val;
  }
}
