/**
 Git trees held in a hash-keyed store, and the path-copying update of
 `examples/view_bench.rs`.
 */
module GitTree {
  import opened Wrappers
  import opened Lexicographic
  import opened Utf8

  type Id = string

  datatype Mode = Blob | BlobExecutable | Tree | Commit | Link

  datatype Item = Item(mode: Mode, id: Id, name: string)

  datatype TreeObject = TreeObject(id: Id, items: seq<Item>)

  type Store = map<Id, TreeObject>

  /** Object hashing: tree entries and blob contents to object ids. */
  datatype Hasher = Hasher(tree: seq<Item> -> Id, blob: seq<Byte> -> Id)

  datatype UpdateError = ParentMissing | CrossesFile

  // ---------------------------------------------------------- tree entries

  /** `git_tree_sort_key`: directories sort as `name/`. */
  function SortKey(item: Item): seq<int> {
    Encode8(item.name) + [if item.mode.Tree? then 0x2F else 0]
  }

  function Encode8(s: string): seq<int> { Utf8.Encode(s) }

  function InsertItem(x: Item, items: seq<Item>): (r: seq<Item>)
    ensures multiset(r) == multiset(items) + multiset{x}
  {
    if items == [] then [x]
    else if Less(SortKey(x), SortKey(items[0])) then [x] + items
    else
      assert items == [items[0]] + items[1..];
      [items[0]] + InsertItem(x, items[1..])
  }

  /** `sort_git_tree_items`. */
  function SortItems(items: seq<Item>): (r: seq<Item>)
    ensures multiset(r) == multiset(items)
  {
    if items == [] then []
    else
      assert items == items[..|items| - 1] + [items[|items| - 1]];
      InsertItem(items[|items| - 1], SortItems(items[..|items| - 1]))
  }

  /** `items.retain(|item| item.name != name)`. */
  function Without(items: seq<Item>, name: string): (r: seq<Item>)
    ensures forall x :: x in r <==> x in items && x.name != name
  {
    if items == [] then []
    else if items[0].name == name then Without(items[1..], name)
    else [items[0]] + Without(items[1..], name)
  }

  function Find(items: seq<Item>, name: string): (r: Option<Item>)
    ensures r.Some? ==> r.value in items && r.value.name == name
    ensures r == None ==> forall x | x in items :: x.name != name
  {
    if items == [] then None
    else if items[0].name == name then Some(items[0])
    else Find(items[1..], name)
  }

  predicate UniqueNames(items: seq<Item>) {
    forall i, j :: 0 <= i < j < |items| ==> items[i].name != items[j].name
  }

  /** The entries of the rewritten tree: `x` in the place of whatever had its name. */
  function Replaced(items: seq<Item>, x: Item): seq<Item> {
    SortItems(Without(items, x.name) + [x])
  }

  // --------------------------------------------------------------- the store

  function MakeTree(h: Hasher, items: seq<Item>): TreeObject {
    TreeObject(h.tree(items), items)
  }

  ghost predicate CollisionFree(h: Hasher) {
    forall a, b :: h.tree(a) == h.tree(b) ==> a == b
  }

  /** Every tree is filed under its hash and has one entry per name. */
  ghost predicate Consistent(h: Hasher, store: Store) {
    forall id | id in store :: store[id].id == id == h.tree(store[id].items) && UniqueNames(store[id].items)
  }

  /** Every subtree mentioned is present. */
  ghost predicate Closed(store: Store) {
    forall id, x | id in store && x in store[id].items :: x.mode.Tree? ==> x.id in store
  }

  ghost predicate Sound(h: Hasher, store: Store) {
    CollisionFree(h) && Consistent(h, store) && Closed(store)
  }

  ghost predicate Extends(store: Store, store': Store) {
    forall id | id in store :: id in store' && store'[id] == store[id]
  }

  /** `trees.insert` for each new tree in order. */
  function Extended(store: Store, trees: seq<TreeObject>): Store {
    if trees == [] then store
    else
      var last := trees[|trees| - 1];
      Extended(store, trees[..|trees| - 1])[last.id := last]
  }

  // ------------------------------------------------------------- resolution

  /** The entry a path leads to from the tree `id`. */
  function Resolve(store: Store, id: Id, path: seq<string>): Option<Item>
    requires path != []
    decreases |path|
  {
    if id !in store then None
    else match Find(store[id].items, path[0])
      case None => None
      case Some(x) =>
        if |path| == 1 then Some(x)
        else if x.mode.Tree? then Resolve(store, x.id, path[1..])
        else None
  }

  // ----------------------------------------------------------------- update

  /** `build_missing_tree`: a chain of one-entry trees ending in the blob; the last is the root. */
  function BuildMissing(h: Hasher, path: seq<string>, content: seq<Byte>): (ts: seq<TreeObject>)
    requires path != []
    ensures |ts| == |path|
    decreases |path|
  {
    if |path| == 1 then [MakeTree(h, [Item(Blob, h.blob(content), path[0])])]
    else
      var ts := BuildMissing(h, path[1..], content);
      ts + [MakeTree(h, [Item(Tree, ts[|ts| - 1].id, path[0])])]
  }

  /** `update_tree`: the trees pushed, the last of which is the new root. */
  function Update(h: Hasher, store: Store, id: Id, path: seq<string>, content: seq<Byte>)
    : (res: Result<seq<TreeObject>, UpdateError>)
    requires path != []
    ensures res.Ok? ==> |res.value| == |path|
    decreases |path|
  {
    if id !in store then Err(ParentMissing)
    else
      var items, name := store[id].items, path[0];
      if |path| == 1 then
        Ok([MakeTree(h, Replaced(items, Item(Blob, h.blob(content), name)))])
      else
        match Find(items, name)
        case Some(child) =>
          if !child.mode.Tree? then Err(CrossesFile)
          else
            var ts :- Update(h, store, child.id, path[1..], content);
            Ok(ts + [MakeTree(h, Replaced(items, Item(Tree, ts[|ts| - 1].id, name)))])
        case None =>
          var ts := BuildMissing(h, path[1..], content);
          Ok(ts + [MakeTree(h, Replaced(items, Item(Tree, ts[|ts| - 1].id, name)))])
  }

  // -------------------------------------------------------------- entry facts

  lemma FindUnique(items: seq<Item>, x: Item)
    requires UniqueNames(items) && x in items
    ensures Find(items, x.name) == Some(x)
  {
    var i :| 0 <= i < |items| && items[i] == x;
    var f := Find(items, x.name);
    assert f.Some?;
    var j :| 0 <= j < |items| && items[j] == f.value;
    if i < j || j < i { assert items[i].name == items[j].name; }
  }

  lemma SortMembers(items: seq<Item>)
    ensures forall x :: x in SortItems(items) <==> x in items
  {
    var r := SortItems(items);
    assert forall x :: x in r <==> x in multiset(r);
    assert forall x :: x in items <==> x in multiset(items);
  }

  /** No two positions share a name, in terms of the entries alone. */
  ghost predicate NamesOnce(m: multiset<Item>) {
    forall x, y | x in m && y in m :: x.name == y.name ==> x == y && m[x] == 1
  }

  lemma UniqueAsMultiset(items: seq<Item>)
    ensures UniqueNames(items) <==> NamesOnce(multiset(items))
  {
    var m := multiset(items);
    if UniqueNames(items) {
      forall x, y | x in m && y in m && x.name == y.name ensures x == y && m[x] == 1 {
        assert x in items && y in items;
        FindUnique(items, x);
        FindUnique(items, y);
        CountOnce(items, x);
      }
    }
    if NamesOnce(m) {
      forall i, j | 0 <= i < j < |items| ensures items[i].name != items[j].name {
        if items[i].name == items[j].name {
          assert items[i] in m && items[j] in m;
          CountTwice(items, i, j);
        }
      }
    }
  }

  lemma CountOnce(items: seq<Item>, x: Item)
    requires UniqueNames(items) && x in items
    ensures multiset(items)[x] == 1
  {
    var i :| 0 <= i < |items| && items[i] == x;
    assert items == items[..i] + [x] + items[i + 1..];
    assert x !in items[..i] && x !in items[i + 1..];
  }

  lemma CountTwice(items: seq<Item>, i: nat, j: nat)
    requires i < j < |items| && items[i] == items[j]
    ensures multiset(items)[items[i]] >= 2
  {
    assert items == items[..j] + [items[j]] + items[j + 1..];
    assert items[i] in items[..j];
  }

  lemma {:induction false} WithoutUnique(items: seq<Item>, name: string)
    requires UniqueNames(items)
    ensures UniqueNames(Without(items, name))
  {
    if items != [] {
      WithoutUnique(items[1..], name);
      var rest := Without(items[1..], name);
      forall j | 0 <= j < |rest| ensures rest[j].name != items[0].name {
        assert rest[j] in items[1..];
      }
    }
  }

  lemma AppendUnique(items: seq<Item>, x: Item)
    requires UniqueNames(items) && forall y | y in items :: y.name != x.name
    ensures UniqueNames(items + [x])
  {
  }

  /** Replacing an entry: the new one under its name, every other name as before. */
  lemma ReplacedEntries(items: seq<Item>, x: Item)
    requires UniqueNames(items)
    ensures UniqueNames(Replaced(items, x))
    ensures forall y :: y in Replaced(items, x) <==> y == x || (y in items && y.name != x.name)
    ensures Find(Replaced(items, x), x.name) == Some(x)
    ensures forall name :: name != x.name ==> Find(Replaced(items, x), name) == Find(items, name)
    ensures InGitOrder(Replaced(items, x))
  {
    hide SortItems, Find, InGitOrder;
    ReplacedInOrder(items, x);
    var kept := Without(items, x.name);
    var r := Replaced(items, x);
    WithoutUnique(items, x.name);
    AppendUnique(kept, x);
    UniqueAsMultiset(kept + [x]);
    UniqueAsMultiset(r);
    SortMembers(kept + [x]);
    FindUnique(r, x);
    forall name | name != x.name ensures Find(r, name) == Find(items, name) {
      SameFind(r, items, name);
    }
  }

  lemma SameFind(a: seq<Item>, b: seq<Item>, name: string)
    requires UniqueNames(a) && UniqueNames(b)
    requires forall y: Item :: y.name == name ==> (y in a <==> y in b)
    ensures Find(a, name) == Find(b, name)
  {
    hide Find;
    var fa, fb := Find(a, name), Find(b, name);
    if fa.Some? { FindUnique(b, fa.value); }
    if fb.Some? { FindUnique(a, fb.value); }
  }

  // ------------------------------------------------------------ Git's order

  predicate GitSorted(items: seq<Item>) {
    forall i, j :: 0 <= i < j < |items| ==> !Less(SortKey(items[j]), SortKey(items[i]))
  }

  lemma {:induction false} InsertGitSorted(x: Item, items: seq<Item>)
    requires GitSorted(items)
    ensures GitSorted(InsertItem(x, items))
  {
    hide SortKey;
    if items != [] {
      var k, k0 := SortKey(x), SortKey(items[0]);
      LessTotal(k, k0);
      if Less(k, k0) {
        forall j | 0 <= j < |items| ensures !Less(SortKey(items[j]), k) {
          var kj := SortKey(items[j]);
          if Less(kj, k) { LessTransitive(kj, k, k0); LessTotal(kj, k0); }
        }
        GitCons(x, items);
      } else {
        InsertGitSorted(x, items[1..]);
        var r := InsertItem(x, items[1..]);
        forall j | 0 <= j < |r| ensures !Less(SortKey(r[j]), k0) {
          assert r[j] in multiset(r);
          assert r[j] == x || r[j] in items[1..];
        }
        GitCons(items[0], r);
      }
    }
  }

  lemma GitCons(x: Item, items: seq<Item>)
    requires GitSorted(items) && forall j :: 0 <= j < |items| ==> !Less(SortKey(items[j]), SortKey(x))
    ensures GitSorted([x] + items)
  {
    hide SortKey, Less;
  }

  lemma {:induction false} SortGitSorted(items: seq<Item>)
    ensures GitSorted(SortItems(items))
  {
    if items != [] {
      SortGitSorted(items[..|items| - 1]);
      InsertGitSorted(items[|items| - 1], SortItems(items[..|items| - 1]));
    }
  }

  /** Byte `k` of an entry's name as Git compares it: behind the name, `/` for a directory and NUL for anything else. */
  function NameByte(x: Item, k: nat): int
    requires k <= |Utf8.Encode(x.name)|
  {
    var name := Utf8.Encode(x.name);
    if k < |name| then name[k] else if x.mode == Tree then '/' as int else 0
  }

  /** `a` may stand before `b`: their names agree up to a byte that is smaller in `a`, or up to the end of one. */
  ghost predicate GitBefore(a: Item, b: Item) {
    var p, q := Utf8.Encode(a.name), Utf8.Encode(b.name);
    exists k: nat ::
      && k <= |p| && k <= |q| && p[..k] == q[..k] && NameByte(a, k) <= NameByte(b, k)
      && (k < |p| && k < |q| ==> NameByte(a, k) < NameByte(b, k))
  }

  /** The order Git requires of the entries of a tree. */
  ghost predicate InGitOrder(items: seq<Item>) {
    forall i, j :: 0 <= i < j < |items| ==> GitBefore(items[i], items[j])
  }

  function CommonPrefix(p: seq<int>, q: seq<int>): (k: nat)
    ensures k <= |p| && k <= |q| && p[..k] == q[..k] && (k < |p| && k < |q| ==> p[k] != q[k])
  {
    if p == [] || q == [] || p[0] != q[0] then 0
    else
      assert p == [p[0]] + p[1..] && q == [q[0]] + q[1..];
      1 + CommonPrefix(p[1..], q[1..])
  }

  /** The sort key orders entries that way. */
  lemma KeyNotLess(a: Item, b: Item)
    requires !Less(SortKey(b), SortKey(a))
    ensures GitBefore(a, b)
  {
    hide Utf8.Encode, Less;
    var p, q := Utf8.Encode(a.name), Utf8.Encode(b.name);
    var k := CommonPrefix(p, q);
    LessMeans(SortKey(b), SortKey(a));
    assert SortKey(a)[..k] == p[..k] && SortKey(b)[..k] == q[..k];
    assert SortKey(a)[k] == NameByte(a, k) && SortKey(b)[k] == NameByte(b, k);
  }

  /** A rewritten tree is in Git's order, however the old entries stood. */
  lemma ReplacedInOrder(items: seq<Item>, x: Item)
    ensures InGitOrder(Replaced(items, x))
  {
    hide SortKey, Less, GitBefore, SortItems;
    var r := Replaced(items, x);
    SortGitSorted(Without(items, x.name) + [x]);
    forall i, j | 0 <= i < j < |r| ensures GitBefore(r[i], r[j]) { KeyNotLess(r[i], r[j]); }
  }

  ghost predicate AllInOrder(ts: seq<TreeObject>) {
    forall t | t in ts :: InGitOrder(t.items)
  }

  lemma {:induction false} BuiltInOrder(h: Hasher, path: seq<string>, content: seq<Byte>)
    requires path != []
    ensures AllInOrder(BuildMissing(h, path, content))
    decreases |path|
  {
    hide GitBefore;
    if |path| > 1 { BuiltInOrder(h, path[1..], content); }
  }

  /** Every tree `update_tree` pushes is in Git's order. */
  lemma {:induction false} UpdateInOrder(h: Hasher, store: Store, id: Id, path: seq<string>, content: seq<Byte>)
    requires path != []
    ensures Update(h, store, id, path, content).Ok? ==> AllInOrder(Update(h, store, id, path, content).value)
    decreases |path|
  {
    hide GitBefore, InGitOrder, BuildMissing, Replaced, Find;
    if id in store {
      forall x ensures InGitOrder(Replaced(store[id].items, x)) { ReplacedInOrder(store[id].items, x); }
      if |path| > 1 {
        match Find(store[id].items, path[0])
        case Some(child) => UpdateInOrder(h, store, child.id, path[1..], content);
        case None => BuiltInOrder(h, path[1..], content);
      }
    }
  }

  // --------------------------------------------- the assumption can be met

  function Unary(n: nat): (r: string)
    ensures |r| == n + 1 && r[n] == '0' && forall i :: 0 <= i < n ==> r[i] == '1'
  {
    if n == 0 then "0" else "1" + Unary(n - 1)
  }

  /** A string behind its length. */
  function Framed(s: string): string { Unary(|s|) + s }

  lemma FramedFront(s: string, x: string, t: string, y: string)
    requires Framed(s) + x == Framed(t) + y
    ensures s == t && x == y
  {
    var u := Framed(s) + x;
    assert u[|s|] == '0' && forall i :: 0 <= i < |s| ==> u[i] == '1';
    assert (Framed(t) + y)[|t|] == '0' && forall i :: 0 <= i < |t| ==> (Framed(t) + y)[i] == '1';
    assert |s| == |t|;
    assert s == u[|s| + 1..2 * |s| + 1] && t == u[|t| + 1..2 * |t| + 1];
    assert x == u[2 * |s| + 1..] && y == u[2 * |t| + 1..];
  }

  function ModeText(m: Mode): string {
    match m
    case Blob => "b"
    case BlobExecutable => "x"
    case Tree => "t"
    case Commit => "c"
    case Link => "l"
  }

  function ItemsText(items: seq<Item>): string {
    if items == [] then ""
    else ItemText(items[0], ItemsText(items[1..]))
  }

  function ItemText(x: Item, rest: string): string {
    ModeText(x.mode) + (Framed(x.id) + (Framed(x.name) + rest))
  }

  lemma ItemFront(x: Item, r: string, y: Item, t: string)
    requires ItemText(x, r) == ItemText(y, t)
    ensures x == y && r == t
  {
    hide Framed;
    var u, v := Framed(x.id) + (Framed(x.name) + r), Framed(y.id) + (Framed(y.name) + t);
    ModeFront(x.mode, u, y.mode, v);
    FramedFront(x.id, Framed(x.name) + r, y.id, Framed(y.name) + t);
    FramedFront(x.name, r, y.name, t);
  }

  lemma ModeFront(m: Mode, u: string, n: Mode, v: string)
    requires ModeText(m) + u == ModeText(n) + v
    ensures m == n && u == v
  {
    var s := ModeText(m) + u;
    assert s[0] == ModeText(m)[0] && (ModeText(n) + v)[0] == ModeText(n)[0];
    assert u == s[1..] && v == (ModeText(n) + v)[1..];
  }

  lemma {:induction false} ItemsTextInjective(a: seq<Item>, b: seq<Item>)
    requires ItemsText(a) == ItemsText(b)
    ensures a == b
  {
    hide Framed, ModeText;
    assert forall m: Mode :: |ModeText(m)| == 1 by { OneLetter(); }
    if a != [] && b != [] {
      ItemFront(a[0], ItemsText(a[1..]), b[0], ItemsText(b[1..]));
      ItemsTextInjective(a[1..], b[1..]);
      assert a == [a[0]] + a[1..] && b == [b[0]] + b[1..];
    }
  }

  lemma OneLetter()
    ensures forall m: Mode :: |ModeText(m)| == 1
  {
  }

  function BlobText(content: seq<Byte>): Id { "" }

  /** A hasher without collisions: entries written out with their lengths. */
  lemma CollisionFreeExists()
    ensures CollisionFree(Hasher(ItemsText, BlobText))
  {
    hide ItemsText;
    var h := Hasher(ItemsText, BlobText);
    forall a, b | h.tree(a) == h.tree(b) ensures a == b { ItemsTextInjective(a, b); }
  }
}
