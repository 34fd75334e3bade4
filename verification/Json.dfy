/**
 JSON values: the tree the parser builds (`Canonical`), the value a text denotes
 (`Value`: objects are key maps, numbers are doubles), and the object key sort.
 */
module Json {
  import opened Utf16
  import opened Float64

  datatype Canonical =
    | Null
    | Bool(b: bool)
    | Num(text: string)
    | Str(s: string)
    | Arr(items: seq<Canonical>)
    | Obj(members: seq<Member>)

  datatype Member = Member(key: string, value: Canonical)

  datatype Value =
    | VNull
    | VBool(b: bool)
    | VNumber(d: Double)
    | VString(s: string)
    | VArray(items: seq<Value>)
    | VObject(members: map<string, Value>)

  function Keys(ms: seq<Member>): set<string> {
    set m | m in ms :: m.key
  }

  predicate DistinctKeys(ms: seq<Member>) {
    forall i, j :: 0 <= i < j < |ms| ==> ms[i].key != ms[j].key
  }

  predicate Sorted(ms: seq<Member>) {
    forall i, j :: 0 <= i < j < |ms| ==> KeyLess(ms[i].key, ms[j].key)
  }

  // ------------------------------------------------------------ key sorting

  function Insert(m: Member, ms: seq<Member>): (r: seq<Member>)
    ensures multiset(r) == multiset(ms) + multiset{m}
  {
    if ms == [] then [m]
    else if KeyLess(m.key, ms[0].key) then [m] + ms
    else
      assert ms == [ms[0]] + ms[1..];
      [ms[0]] + Insert(m, ms[1..])
  }

  /** `members.sort_by(encode_utf16)`. */
  function Sort(ms: seq<Member>): (r: seq<Member>)
    ensures multiset(r) == multiset(ms)
  {
    if ms == [] then []
    else
      assert ms == [ms[0]] + ms[1..];
      Insert(ms[0], Sort(ms[1..]))
  }

  lemma SortedCons(m: Member, ms: seq<Member>)
    requires Sorted(ms) && forall j :: 0 <= j < |ms| ==> KeyLess(m.key, ms[j].key)
    ensures Sorted([m] + ms)
  {
    hide KeyLess;
  }

  lemma {:induction false} InsertSorted(m: Member, ms: seq<Member>)
    requires Sorted(ms) && m.key !in Keys(ms)
    ensures Sorted(Insert(m, ms))
  {
    hide KeyLess;
    if ms != [] {
      KeyOrder(m.key, ms[0].key);
      assert ms[0] in ms;
      if KeyLess(m.key, ms[0].key) {
        forall j | 1 <= j < |ms| ensures KeyLess(m.key, ms[j].key) {
          KeyTransitive(m.key, ms[0].key, ms[j].key);
        }
        SortedCons(m, ms);
      } else {
        var rest := ms[1..];
        assert Keys(rest) <= Keys(ms);
        InsertSorted(m, rest);
        var r := Insert(m, rest);
        forall j | 0 <= j < |r| ensures KeyLess(ms[0].key, r[j].key) {
          assert r[j] in multiset(r);
          assert r[j] == m || r[j] in rest;
        }
        SortedCons(ms[0], r);
      }
    }
  }

  lemma {:induction false} SortSorted(ms: seq<Member>)
    requires DistinctKeys(ms)
    ensures Sorted(Sort(ms)) && Keys(Sort(ms)) == Keys(ms)
  {
    SameKeys(Sort(ms), ms);
    if ms != [] {
      SortSorted(ms[1..]);
      assert ms[0].key !in Keys(ms[1..]);
      InsertSorted(ms[0], Sort(ms[1..]));
    }
  }

  lemma SameKeys(a: seq<Member>, b: seq<Member>)
    requires multiset(a) == multiset(b)
    ensures Keys(a) == Keys(b) && forall m :: m in a <==> m in b
  {
    assert forall m :: m in a <==> m in multiset(a);
    assert forall m :: m in b <==> m in multiset(b);
  }

  // ------------------------------------------------------------- denotation

  function ReadDouble(fp: Conversion, text: string): Double {
    match fp.parse(text)
    case Some(d) => MergeZero(d)
    case None => NaN
  }

  /** The value a canonical tree denotes. */
  function Den(fp: Conversion, c: Canonical): Value
    decreases c, 1
  {
    match c
    case Null => VNull
    case Bool(b) => VBool(b)
    case Num(text) => VNumber(ReadDouble(fp, text))
    case Str(s) => VString(s)
    case Arr(items) => VArray(DenItems(fp, items))
    case Obj(members) => VObject(DenMembers(fp, members))
  }

  function DenItems(fp: Conversion, items: seq<Canonical>): seq<Value>
    decreases items, 0
  {
    if items == [] then [] else [Den(fp, items[0])] + DenItems(fp, items[1..])
  }

  function DenMembers(fp: Conversion, ms: seq<Member>): (m: map<string, Value>)
    ensures m.Keys == Keys(ms)
    decreases ms, 0
  {
    if ms == [] then map[]
    else
      assert ms == [ms[0]] + ms[1..];
      DenMembers(fp, ms[1..])[ms[0].key := Den(fp, ms[0].value)]
  }

  lemma DenCons(fp: Conversion, m: Member, ms: seq<Member>)
    ensures DenMembers(fp, [m] + ms) == DenMembers(fp, ms)[m.key := Den(fp, m.value)]
  {
    assert ([m] + ms)[1..] == ms;
  }

  lemma Commute<K, V>(s: map<K, V>, k: K, v: V, l: K, w: V)
    requires k != l
    ensures s[k := v][l := w] == s[l := w][k := v]
  {
  }

  lemma {:induction false} DenInsert(fp: Conversion, m: Member, ms: seq<Member>)
    requires m.key !in Keys(ms) && DistinctKeys(ms)
    ensures DenMembers(fp, Insert(m, ms)) == DenMembers(fp, ms)[m.key := Den(fp, m.value)]
  {
    hide Den, KeyLess;
    if ms == [] || KeyLess(m.key, ms[0].key) {
      assert Insert(m, ms) == [m] + ms;
      DenCons(fp, m, ms);
    } else {
      assert ms[0].key in Keys(ms);
      assert Keys(ms[1..]) <= Keys(ms);
      DenInsert(fp, m, ms[1..]);
      DenCons(fp, ms[0], Insert(m, ms[1..]));
      Commute(DenMembers(fp, ms[1..]), m.key, Den(fp, m.value), ms[0].key, Den(fp, ms[0].value));
    }
  }

  /** Sorting the members of a duplicate-free object does not change what it denotes. */
  lemma {:induction false} DenSort(fp: Conversion, ms: seq<Member>)
    requires DistinctKeys(ms)
    ensures DenMembers(fp, Sort(ms)) == DenMembers(fp, ms)
  {
    if ms != [] {
      DenSort(fp, ms[1..]);
      SortSorted(ms[1..]);
      assert ms[0].key !in Keys(ms[1..]);
      SortedDistinct(Sort(ms[1..]));
      DenInsert(fp, ms[0], Sort(ms[1..]));
    }
  }

  lemma SortedDistinct(ms: seq<Member>)
    requires Sorted(ms)
    ensures DistinctKeys(ms)
  {
    forall i, j | 0 <= i < j < |ms| ensures ms[i].key != ms[j].key {
      KeyOrder(ms[i].key, ms[j].key);
    }
  }

  // ---------------------------------------------------------- normal form

  /** Members sorted, numbers in their canonical text: what `parse_value` returns. */
  ghost predicate CanonicalForm(fp: Conversion, c: Canonical) {
    match c
    case Num(text) => exists d :: Readable(fp, d) && text == DoubleText(fp, d)
    case Arr(items) => forall x | x in items :: CanonicalForm(fp, x)
    case Obj(members) => Sorted(members) && forall m | m in members :: CanonicalForm(fp, m.value)
    case _ => true
  }

  lemma DenNum(fp: Conversion, d: Double)
    requires Faithful(fp) && Readable(fp, d)
    ensures ReadDouble(fp, DoubleText(fp, d)) == MergeZero(d)
  {
    var _ := DoubleTextReadsBack(fp, d);
  }

  lemma NumUnique(fp: Conversion, a: string, b: string)
    requires Faithful(fp) && CanonicalForm(fp, Num(a)) && CanonicalForm(fp, Num(b))
    requires ReadDouble(fp, a) == ReadDouble(fp, b)
    ensures a == b
  {
    var d :| Readable(fp, d) && a == DoubleText(fp, d);
    var e :| Readable(fp, e) && b == DoubleText(fp, e);
    DenNum(fp, d);
    DenNum(fp, e);
  }

  /** A value has at most one canonical tree. */
  lemma {:induction false} CanonicalUnique(fp: Conversion, a: Canonical, b: Canonical)
    requires Faithful(fp) && CanonicalForm(fp, a) && CanonicalForm(fp, b)
    requires Den(fp, a) == Den(fp, b)
    ensures a == b
    decreases a, 1
  {
    match a
    case Null =>
    case Bool(_) =>
    case Str(_) =>
    case Num(text) => NumUnique(fp, text, b.text);
    case Arr(items) => ItemsUnique(fp, items, b.items);
    case Obj(members) => MembersUnique(fp, members, b.members);
  }

  lemma {:induction false} ItemsUnique(fp: Conversion, a: seq<Canonical>, b: seq<Canonical>)
    requires Faithful(fp) && (forall x | x in a :: CanonicalForm(fp, x)) && (forall x | x in b :: CanonicalForm(fp, x))
    requires DenItems(fp, a) == DenItems(fp, b)
    ensures a == b
    decreases a, 0
  {
    assert |DenItems(fp, a)| == |DenItems(fp, b)|;
    if a != [] && b != [] {
      assert DenItems(fp, a)[0] == Den(fp, a[0]) && DenItems(fp, b)[0] == Den(fp, b[0]);
      assert DenItems(fp, a)[1..] == DenItems(fp, a[1..]) && DenItems(fp, b)[1..] == DenItems(fp, b[1..]);
      CanonicalUnique(fp, a[0], b[0]);
      ItemsUnique(fp, a[1..], b[1..]);
      assert a == [a[0]] + a[1..] && b == [b[0]] + b[1..];
    }
  }

  /** Sorted members over the same keys start with the same key. */
  lemma HeadKeys(a: seq<Member>, b: seq<Member>)
    requires Sorted(a) && Sorted(b) && Keys(a) == Keys(b) && a != [] && b != []
    ensures a[0].key == b[0].key
  {
    assert a[0].key in Keys(a) && b[0].key in Keys(b);
    var i :| 0 <= i < |b| && b[i].key == a[0].key;
    var j :| 0 <= j < |a| && a[j].key == b[0].key;
    if i > 0 && j > 0 {
      KeyOrder(a[0].key, b[0].key);
    }
  }

  lemma NoKeys(ms: seq<Member>)
    ensures Keys(ms) == {} <==> ms == []
  {
    if ms != [] { assert ms[0].key in Keys(ms); }
  }

  lemma TailMap(fp: Conversion, ms: seq<Member>)
    requires Sorted(ms) && ms != []
    ensures DenMembers(fp, ms[1..]) == DenMembers(fp, ms) - {ms[0].key}
    ensures DenMembers(fp, ms)[ms[0].key] == Den(fp, ms[0].value)
  {
    hide Den, KeyLess;
    SortedDistinct(ms);
    var rest := DenMembers(fp, ms[1..]);
    assert ms[0].key !in Keys(ms[1..]);
    assert DenMembers(fp, ms) == rest[ms[0].key := Den(fp, ms[0].value)];
    assert rest[ms[0].key := Den(fp, ms[0].value)] - {ms[0].key} == rest;
  }

  lemma {:induction false} MembersUnique(fp: Conversion, a: seq<Member>, b: seq<Member>)
    requires Faithful(fp) && Sorted(a) && Sorted(b)
    requires (forall m | m in a :: CanonicalForm(fp, m.value)) && (forall m | m in b :: CanonicalForm(fp, m.value))
    requires DenMembers(fp, a) == DenMembers(fp, b)
    ensures a == b
    decreases a, 0
  {
    hide Faithful, KeyLess, Den, CanonicalForm;
    assert Keys(a) == Keys(b);
    NoKeys(a);
    NoKeys(b);
    if a != [] {
      HeadKeys(a, b);
      TailMap(fp, a);
      TailMap(fp, b);
      CanonicalUnique(fp, a[0].value, b[0].value);
      MembersUnique(fp, a[1..], b[1..]);
      assert a == [a[0]] + a[1..] && b == [b[0]] + b[1..];
    }
  }
}
