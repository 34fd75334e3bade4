/** What `update_tree` and the modification loop of `append_probe` do to every path. */
module TreeUpdate {
  import opened Wrappers
  import opened Utf8
  import opened GitTree

  // ------------------------------------------------------- store extension

  lemma ExtendedFrom(h: Hasher, store: Store, x: TreeObject)
    requires Sound(h, store) && x == MakeTree(h, x.items) && UniqueNames(x.items)
    requires forall y | y in x.items :: y.mode.Tree? ==> y.id in store
    ensures Sound(h, store[x.id := x]) && Extends(store, store[x.id := x])
  {
    var store' := store[x.id := x];
    forall id | id in store ensures store'[id] == store[id] {
      if id == x.id { assert h.tree(store[id].items) == h.tree(x.items); }
    }
    assert Consistent(h, store');
  }

  lemma ExtendsTrans(a: Store, b: Store, c: Store)
    requires Extends(a, b) && Extends(b, c)
    ensures Extends(a, c)
  {
  }

  lemma ExtendsSelf(store: Store)
    ensures Extends(store, store)
  {
  }

  lemma ExtendedSnoc(store: Store, ts: seq<TreeObject>, x: TreeObject)
    ensures Extended(store, ts + [x]) == Extended(store, ts)[x.id := x]
  {
    assert (ts + [x])[..|ts|] == ts;
  }

  /** A closed store answers the same after any extension. */
  lemma {:induction false} Frame(store: Store, store': Store, id: Id, q: seq<string>)
    requires Closed(store) && Extends(store, store') && id in store && q != []
    ensures Resolve(store', id, q) == Resolve(store, id, q)
    decreases |q|
  {
    match Find(store[id].items, q[0])
    case None =>
    case Some(x) =>
      if |q| > 1 && x.mode.Tree? { Frame(store, store', x.id, q[1..]); }
  }

  // ------------------------------------------------------------ one update

  function BlobItem(h: Hasher, path: seq<string>, content: seq<Byte>): Item
    requires path != []
  {
    Item(Blob, h.blob(content), path[|path| - 1])
  }

  /**
   The whole effect of writing `content` at `path`, on any path `q`: the blob at
   `path` itself, nothing below it, a tree at each of its prefixes, and `was`
   (the answer of the old root) anywhere else.
   */
  ghost predicate Wrote(
      h: Hasher, path: seq<string>, content: seq<Byte>, q: seq<string>, now: Option<Item>, was: Option<Item>)
    requires path != [] && q != []
  {
    if q == path then now == Some(BlobItem(h, path, content))
    else if path < q then now == None
    else if q < path then now.Some? && now.value.mode.Tree? && now.value.name == q[|q| - 1]
    else now == was
  }

  /** Stepping into the component both paths share. */
  lemma WroteBelow(
      h: Hasher, path: seq<string>, content: seq<Byte>, q: seq<string>, now: Option<Item>, was: Option<Item>)
    requires |path| > 1 && |q| > 1 && path[0] == q[0]
    requires Wrote(h, path[1..], content, q[1..], now, was)
    ensures Wrote(h, path, content, q, now, was)
  {
    assert path == [path[0]] + path[1..] && q == [q[0]] + q[1..];
    assert q == path <==> q[1..] == path[1..];
    assert path < q <==> path[1..] < q[1..];
    assert q < path <==> q[1..] < path[1..];
  }

  /** A tree whose entry for `path[0]` is the updated child. */
  lemma WroteAt(h: Hasher, store: Store, root: TreeObject, path: seq<string>, content: seq<Byte>,
                                    x: Item, q: seq<string>, was: Option<Item>)
    requires path != [] && q != [] && root.id in store && store[root.id] == root
    requires q[0] == path[0] && Find(root.items, path[0]) == Some(x) && x.name == path[0]
    requires |path| == 1 ==> x == BlobItem(h, path, content)
    requires |path| > 1 ==> x.mode.Tree?
    requires |path| > 1 && |q| > 1 ==> Wrote(h, path[1..], content, q[1..], Resolve(store, x.id, q[1..]), was)
    ensures Wrote(h, path, content, q, Resolve(store, root.id, q), was)
  {
    var now := Resolve(store, root.id, q);
    assert path == [path[0]] + path[1..] && q == [q[0]] + q[1..];
    if |path| == 1 {
      assert path == [path[0]];
      assert path <= q;
    } else if |q| == 1 {
      assert q == [q[0]];
      assert q < path;
    } else {
      WroteBelow(h, path, content, q, now, was);
    }
  }

  /** The trees `ts` added to `store` make a root that has only `path`. */
  ghost predicate Built(h: Hasher, store: Store, path: seq<string>, content: seq<Byte>, ts: seq<TreeObject>)
    requires path != []
  {
    && ts != []
    && var store' := Extended(store, ts); var root := ts[|ts| - 1];
       && Sound(h, store') && Extends(store, store') && root.id in store'
       && forall q | q != [] :: Wrote(h, path, content, q, Resolve(store', root.id, q), None)
  }

  /** The chain built for missing directories. */
  lemma {:induction false} BuildEffect(h: Hasher, store: Store, path: seq<string>, content: seq<Byte>)
    requires Sound(h, store) && path != []
    ensures Built(h, store, path, content, BuildMissing(h, path, content))
    decreases |path|
  {
    hide Built, Sound;
    if |path| == 1 {
      BuildLeaf(h, store, path, content);
    } else {
      BuildEffect(h, store, path[1..], content);
      BuildStep(h, store, path, content, BuildMissing(h, path[1..], content));
    }
  }

  lemma BuildLeaf(h: Hasher, store: Store, path: seq<string>, content: seq<Byte>)
    requires Sound(h, store) && |path| == 1
    ensures Built(h, store, path, content, [MakeTree(h, [Item(Blob, h.blob(content), path[0])])])
  {
    hide Wrote, Sound, Extends, Resolve, Extended;
    var root := MakeTree(h, [Item(Blob, h.blob(content), path[0])]);
    var ts := [root];
    assert ts == [] + [root];
    OneEntryStore(h, store, root, root.items[0]);
    ExtendedSnoc(store, [], root);
    ExtendedNothing(store);
    forall q: seq<string> | q != []
      ensures Wrote(h, path, content, q, Resolve(Extended(store, ts), root.id, q), None)
    {
      BuildAt(h, Extended(store, ts), root, path, content, q);
    }
  }

  lemma BuildStep(h: Hasher, store: Store, path: seq<string>, content: seq<Byte>, ts: seq<TreeObject>)
    requires |path| > 1 && Built(h, store, path[1..], content, ts)
    ensures Built(h, store, path, content, ts + [MakeTree(h, [Item(Tree, ts[|ts| - 1].id, path[0])])])
  {
    hide Wrote, Sound, Extends, Resolve, Extended;
    var x := Item(Tree, ts[|ts| - 1].id, path[0]);
    var root := MakeTree(h, [x]);
    var store1, store' := Extended(store, ts), Extended(store, ts + [root]);
    OneEntryStore(h, store1, root, x);
    ExtendedSnoc(store, ts, root);
    ExtendsTrans(store, store1, store');
    forall q: seq<string> | q != [] ensures Wrote(h, path, content, q, Resolve(store', root.id, q), None) {
      if |q| > 1 { FrameSound(h, store1, store', x.id, q[1..]); }
      BuildAt(h, store', root, path, content, q);
    }
  }

  lemma ExtendedNothing(store: Store)
    ensures Extended(store, []) == store
  {
  }

  lemma FrameSound(h: Hasher, store: Store, store': Store, id: Id, q: seq<string>)
    requires Sound(h, store) && Extends(store, store') && id in store && q != []
    ensures Resolve(store', id, q) == Resolve(store, id, q)
  {
    Frame(store, store', id, q);
  }

  lemma OneEntryStore(h: Hasher, store: Store, root: TreeObject, x: Item)
    requires Sound(h, store) && root == MakeTree(h, [x]) && (x.mode.Tree? ==> x.id in store)
    ensures Sound(h, store[root.id := root]) && Extends(store, store[root.id := root])
  {
    ExtendedFrom(h, store, root);
  }

  lemma BuildAt(h: Hasher, store: Store, root: TreeObject, path: seq<string>, content: seq<Byte>, q: seq<string>)
    requires path != [] && q != [] && root.id in store && store[root.id] == root && |root.items| == 1
    requires root.items[0].name == path[0]
    requires |path| == 1 ==> root.items[0] == BlobItem(h, path, content)
    requires |path| > 1 ==> root.items[0].mode.Tree?
    requires |path| > 1 && |q| > 1 ==>
               Wrote(h, path[1..], content, q[1..], Resolve(store, root.items[0].id, q[1..]), None)
    ensures Wrote(h, path, content, q, Resolve(store, root.id, q), None)
  {
    hide BlobItem;
    var x := root.items[0];
    assert root.items == [x];
    if q[0] == path[0] {
      WroteAt(h, store, root, path, content, x, q, None);
    } else {
      assert Find(root.items, q[0]) == None;
    }
  }

  /** Below another name the new root answers as the old one did. */
  lemma OtherName(h: Hasher, store: Store, store': Store, id: Id, root: TreeObject, q: seq<string>)
    requires Sound(h, store) && Extends(store, store') && id in store && q != []
    requires root.id in store' && store'[root.id] == root
    requires Find(root.items, q[0]) == Find(store[id].items, q[0])
    ensures Resolve(store', root.id, q) == Resolve(store, id, q)
  {
    match Find(store[id].items, q[0])
    case None =>
    case Some(y) =>
      if |q| > 1 && y.mode.Tree? { FrameSound(h, store, store', y.id, q[1..]); }
  }

  /** Filing the rewritten tree keeps the store sound. */
  lemma ReplacedStore(h: Hasher, store: Store, store1: Store, id: Id, x: Item, root: TreeObject)
    requires Sound(h, store) && Sound(h, store1) && Extends(store, store1) && id in store
    requires root == MakeTree(h, Replaced(store[id].items, x)) && (x.mode.Tree? ==> x.id in store1)
    ensures Sound(h, store1[root.id := root]) && Extends(store, store1[root.id := root])
    ensures Extends(store1, store1[root.id := root])
  {
    hide Replaced, CollisionFree;
    ReplacedEntries(store[id].items, x);
    ExtendedFrom(h, store1, root);
  }

  /** The rewritten tree, given that its new entry leads where it should. */
  lemma RootEffect(h: Hasher, store: Store, store': Store, id: Id, path: seq<string>, content: seq<Byte>,
                                      x: Item, root: TreeObject, q: seq<string>)
    requires Sound(h, store) && Extends(store, store') && id in store && path != [] && q != []
    requires root == MakeTree(h, Replaced(store[id].items, x)) && root.id in store' && store'[root.id] == root
    requires x.name == path[0]
    requires |path| == 1 ==> x == BlobItem(h, path, content)
    requires |path| > 1 ==> x.mode.Tree?
    requires |path| > 1 && |q| > 1 && q[0] == path[0] ==>
               Wrote(h, path[1..], content, q[1..], Resolve(store', x.id, q[1..]), Resolve(store, id, q))
    ensures Wrote(h, path, content, q, Resolve(store', root.id, q), Resolve(store, id, q))
  {
    hide Replaced, BlobItem, Resolve;
    ReplacedEntries(store[id].items, x);
    if q[0] == path[0] {
      WroteAt(h, store', root, path, content, x, q, Resolve(store, id, q));
    } else {
      OtherName(h, store, store', id, root, q);
    }
  }

  /** `update_tree` succeeded: what the new root is, and what it answers on every path. */
  ghost predicate Updated(h: Hasher, store: Store, id: Id, path: seq<string>, content: seq<Byte>, ts: seq<TreeObject>)
    requires path != []
  {
    && |ts| == |path|
    && var store' := Extended(store, ts); var root := ts[|ts| - 1];
       && Sound(h, store') && Extends(store, store') && root.id in store'
       && forall q | q != [] :: Wrote(h, path, content, q, Resolve(store', root.id, q), Resolve(store, id, q))
  }

  lemma {:induction false} UpdateEffect(h: Hasher, store: Store, id: Id, path: seq<string>, content: seq<Byte>)
    requires Sound(h, store) && path != [] && Update(h, store, id, path, content).Ok?
    ensures Updated(h, store, id, path, content, Update(h, store, id, path, content).value)
    ensures AllInOrder(Update(h, store, id, path, content).value)
    decreases |path|
  {
    hide Wrote, Sound, Extends, Resolve, Replaced, BuildMissing, AllInOrder;
    UpdateInOrder(h, store, id, path, content);
    var ts := Update(h, store, id, path, content).value;
    if |path| == 1 {
      ExtendsSelf(store);
      assert ts == [] + [ts[0]];
      Assemble(h, store, id, path, content, [], Item(Blob, h.blob(content), path[0]), ts[0]);
    } else {
      var root, ts' := ts[|ts| - 1], ts[..|ts| - 1];
      var x := Item(Tree, ts'[|ts'| - 1].id, path[0]);
      match Find(store[id].items, path[0])
      case Some(child) =>
        assert ts' == Update(h, store, child.id, path[1..], content).value;
        UpdateEffect(h, store, child.id, path[1..], content);
        forall q: seq<string> | |q| > 1 && q[0] == path[0]
          ensures Wrote(h, path[1..], content, q[1..], Resolve(Extended(store, ts'), x.id, q[1..]),
                  Resolve(store, id, q))
        {
          StepInto(store, id, q);
        }
        Assemble(h, store, id, path, content, ts', x, root);
      case None =>
        assert ts' == BuildMissing(h, path[1..], content);
        BuildEffect(h, store, path[1..], content);
        forall q: seq<string> | |q| > 1 && q[0] == path[0]
          ensures Wrote(h, path[1..], content, q[1..], Resolve(Extended(store, ts'), x.id, q[1..]),
                  Resolve(store, id, q))
        {
          StepInto(store, id, q);
        }
        Assemble(h, store, id, path, content, ts', x, root);
    }
  }

  lemma StepInto(store: Store, id: Id, q: seq<string>)
    requires id in store && |q| > 1
    ensures Find(store[id].items, q[0]) == None ==> Resolve(store, id, q) == None
    ensures Find(store[id].items, q[0]).Some? && Find(store[id].items, q[0]).value.mode.Tree? ==>
              Resolve(store, id, q) == Resolve(store, Find(store[id].items, q[0]).value.id, q[1..])
  {
  }

  /** The pushed trees with the rewritten root on top. */
  lemma Assemble(h: Hasher, store: Store, id: Id, path: seq<string>, content: seq<Byte>,
                                    ts': seq<TreeObject>, x: Item, root: TreeObject)
    requires Sound(h, store) && id in store && path != [] && |ts'| + 1 == |path|
    requires Sound(h, Extended(store, ts')) && Extends(store, Extended(store, ts'))
    requires root == MakeTree(h, Replaced(store[id].items, x)) && x.name == path[0]
    requires |path| == 1 ==> x == BlobItem(h, path, content)
    requires |path| > 1 ==> x.mode.Tree? && x.id in Extended(store, ts')
    requires forall q: seq<string> | |q| > 1 && q[0] == path[0] && |path| > 1 ::
               Wrote(h, path[1..], content, q[1..], Resolve(Extended(store, ts'), x.id, q[1..]), Resolve(store, id, q))
    ensures Updated(h, store, id, path, content, ts' + [root])
  {
    hide Wrote, Sound, Extends, Resolve, Replaced, BlobItem;
    var store1 := Extended(store, ts');
    var store' := Extended(store, ts' + [root]);
    ExtendedSnoc(store, ts', root);
    assert x.mode.Tree? ==> x.id in store1 by { ShapeOfBlob(h, path, content); }
    ReplacedStore(h, store, store1, id, x, root);
    forall q: seq<string> | q != []
      ensures Wrote(h, path, content, q, Resolve(store', root.id, q), Resolve(store, id, q))
    {
      if |path| > 1 && |q| > 1 { FrameSound(h, store1, store', x.id, q[1..]); }
      RootEffect(h, store, store', id, path, content, x, root, q);
    }
  }

  lemma ShapeOfBlob(h: Hasher, path: seq<string>, content: seq<Byte>)
    requires path != []
    ensures BlobItem(h, path, content).mode == Blob
  {
  }

  // ----------------------------------------------------- when it succeeds

  predicate IsFile(x: Option<Item>) { x.Some? && !x.value.mode.Tree? }

  /** Some proper prefix of `path` is a file. */
  ghost predicate Blocked(store: Store, id: Id, path: seq<string>) {
    exists k {:trigger path[..k]} :: 0 < k < |path| && IsFile(Resolve(store, id, path[..k]))
  }

  lemma BlockedStep(store: Store, id: Id, path: seq<string>)
    requires id in store && |path| > 1
    ensures Blocked(store, id, path) <==>
            match Find(store[id].items, path[0])
            case None => false
            case Some(x) => !x.mode.Tree? || Blocked(store, x.id, path[1..])
  {
    hide Find;
    assert path[..1] == [path[0]];
    match Find(store[id].items, path[0])
    case None =>
      forall k | 0 < k < |path| ensures !IsFile(Resolve(store, id, path[..k])) {
        assert path[..k][0] == path[0];
      }
    case Some(x) =>
      if !x.mode.Tree? {
        assert IsFile(Resolve(store, id, path[..1]));
      } else {
        forall k | 1 < k < |path| ensures Resolve(store, id, path[..k]) == Resolve(store, x.id, path[1..][..k - 1]) {
          assert path[..k][0] == path[0] && path[..k][1..] == path[1..][..k - 1];
        }
        if Blocked(store, x.id, path[1..]) {
          var j :| 0 < j < |path[1..]| && IsFile(Resolve(store, x.id, path[1..][..j]));
          assert IsFile(Resolve(store, id, path[..j + 1]));
        }
        if Blocked(store, id, path) {
          var k :| 0 < k < |path| && IsFile(Resolve(store, id, path[..k]));
          assert k > 1;
          assert IsFile(Resolve(store, x.id, path[1..][..k - 1]));
        }
      }
  }

  /** On a closed store `update_tree` fails exactly when the path crosses a file. */
  lemma {:induction false} UpdateSucceeds(h: Hasher, store: Store, id: Id, path: seq<string>, content: seq<Byte>)
    requires Closed(store) && id in store && path != []
    ensures Update(h, store, id, path, content).Ok? <==> !Blocked(store, id, path)
    ensures Update(h, store, id, path, content).Err? ==> Update(h, store, id, path, content).error == CrossesFile
    decreases |path|
  {
    hide Resolve, Blocked, Replaced;
    if |path| == 1 {
      NeverBlocked(store, id, path);
    } else {
      BlockedStep(store, id, path);
      match Find(store[id].items, path[0])
      case None =>
      case Some(x) =>
        if x.mode.Tree? { UpdateSucceeds(h, store, x.id, path[1..], content); }
    }
  }

  lemma NeverBlocked(store: Store, id: Id, path: seq<string>)
    requires |path| == 1
    ensures !Blocked(store, id, path)
  {
  }

  // ------------------------------------------------- a list of modifications

  datatype Modification = Modification(path: seq<string>, content: seq<Byte>)

  predicate ValidMods(mods: seq<Modification>) {
    forall m | m in mods :: m.path != []
  }

  /** The modification loop of `append_probe`: the new root and the trees map. */
  function ApplyAll(h: Hasher, store: Store, root: Id, mods: seq<Modification>): Result<(Id, Store), UpdateError>
    requires ValidMods(mods)
    decreases mods
  {
    if mods == [] then Ok((root, store))
    else
      var ts :- Update(h, store, root, mods[0].path, mods[0].content);
      ApplyAll(h, Extended(store, ts), ts[|ts| - 1].id, mods[1..])
  }

  lemma {:induction false} ApplySnoc(h: Hasher, store: Store, root: Id, mods: seq<Modification>, m: Modification)
    requires ValidMods(mods) && m.path != []
    ensures ValidMods(mods + [m])
    ensures match ApplyAll(h, store, root, mods)
            case Err(e) => ApplyAll(h, store, root, mods + [m]) == Err(e)
            case Ok((root', store')) =>
              ApplyAll(h, store, root, mods + [m]) ==
                match Update(h, store', root', m.path, m.content)
                case Err(e) => Err(e)
                case Ok(ts) => Ok((ts[|ts| - 1].id, Extended(store', ts)))
    decreases mods
  {
    hide Update, Extended;
    if mods == [] {
      assert mods + [m] == [m] && [m][1..] == [];
      assert m in [m];
    } else {
      var all := mods + [m];
      assert all[0] == mods[0] && all[1..] == mods[1..] + [m];
      assert mods[0] in mods;
      var up := Update(h, store, root, mods[0].path, mods[0].content);
      if up.Ok? { ApplySnoc(h, Extended(store, up.value), up.value[|up.value| - 1].id, mods[1..], m); }
    }
  }

  /** Every tree of the new store was there before or is in Git's order. */
  lemma {:induction false} ApplyAllInOrder(h: Hasher, store: Store, root: Id, mods: seq<Modification>)
    requires ValidMods(mods) && ApplyAll(h, store, root, mods).Ok?
    ensures var (_, store') := ApplyAll(h, store, root, mods).value; OrderedSince(store, store')
    decreases mods
  {
    hide Update, InGitOrder, Extended;
    if mods != [] {
      var ts := Update(h, store, root, mods[0].path, mods[0].content).value;
      UpdateInOrder(h, store, root, mods[0].path, mods[0].content);
      ExtendedInOrder(store, ts);
      ApplyAllInOrder(h, Extended(store, ts), ts[|ts| - 1].id, mods[1..]);
    }
  }

  ghost predicate OrderedSince(store: Store, store': Store) {
    forall id | id in store' :: (id in store && store'[id] == store[id]) || InGitOrder(store'[id].items)
  }

  lemma {:induction false} ExtendedInOrder(store: Store, ts: seq<TreeObject>)
    requires AllInOrder(ts)
    ensures OrderedSince(store, Extended(store, ts))
  {
    hide InGitOrder;
    if ts != [] {
      assert ts[|ts| - 1] in ts;
      ExtendedInOrder(store, ts[..|ts| - 1]);
    }
  }

  /** One path is a prefix of the other, or they are the same. */
  predicate Related(a: seq<string>, b: seq<string>) { a <= b || b <= a }

  /** The index of the last modification that bears on `q`, or -1. */
  function LastTouch(mods: seq<Modification>, q: seq<string>): (i: int)
    ensures -1 <= i < |mods|
    ensures i >= 0 ==> Related(mods[i].path, q)
    ensures forall j :: i < j < |mods| ==> !Related(mods[j].path, q)
  {
    if mods == [] then -1
    else if Related(mods[|mods| - 1].path, q) then |mods| - 1
    else LastTouch(mods[..|mods| - 1], q)
  }

  /** The whole effect of a list: the last modification that bears on `q` decides, and the parent if there is none. */
  ghost predicate WroteAll(h: Hasher, mods: seq<Modification>, q: seq<string>, now: Option<Item>, was: Option<Item>)
    requires ValidMods(mods) && q != []
  {
    var i := LastTouch(mods, q);
    if i < 0 then now == was else Wrote(h, mods[i].path, mods[i].content, q, now, was)
  }

  /** Whether `q` is a file after the list: the same decision. */
  ghost predicate FileAfter(store: Store, root: Id, mods: seq<Modification>, q: seq<string>)
    requires q != []
  {
    var i := LastTouch(mods, q);
    if i < 0 then IsFile(Resolve(store, root, q)) else mods[i].path == q
  }

  /** Some proper prefix of modification `j`'s path is a file when its turn comes. */
  ghost predicate Crosses(store: Store, root: Id, mods: seq<Modification>, j: nat)
    requires j < |mods|
  {
    exists k {:trigger mods[j].path[..k]} ::
      0 < k < |mods[j].path| && FileAfter(store, root, mods[..j], mods[j].path[..k])
  }

  lemma TouchSnoc(mods: seq<Modification>, m: Modification, q: seq<string>)
    ensures LastTouch(mods + [m], q) == if Related(m.path, q) then |mods| else LastTouch(mods, q)
  {
    assert (mods + [m])[..|mods|] == mods;
  }

  /** One more write behind a list. */
  lemma WroteSnoc(h: Hasher, mods: seq<Modification>, m: Modification, q: seq<string>,
                  now: Option<Item>, mid: Option<Item>, was: Option<Item>)
    requires ValidMods(mods) && m.path != [] && q != []
    requires WroteAll(h, mods, q, mid, was) && Wrote(h, m.path, m.content, q, now, mid)
    ensures ValidMods(mods + [m]) && WroteAll(h, mods + [m], q, now, was)
  {
    hide LastTouch;
    TouchSnoc(mods, m, q);
  }

  /** A file at `q` after the list is a file of the new root, and conversely. */
  lemma FileAfterMeans(h: Hasher, store: Store, root: Id, mods: seq<Modification>, q: seq<string>, now: Option<Item>)
    requires ValidMods(mods) && q != [] && WroteAll(h, mods, q, now, Resolve(store, root, q))
    ensures IsFile(now) <==> FileAfter(store, root, mods, q)
  {
    hide LastTouch, Resolve;
    var i := LastTouch(mods, q);
    if i >= 0 && mods[i].path == q { ShapeOfBlob(h, q, mods[i].content); }
  }

  /** The turn of a modification comes: it is blocked exactly when it crosses a file left by the list before it. */
  lemma BlockedCrosses(
      h: Hasher, store: Store, root: Id, mods: seq<Modification>, m: Modification, store': Store, root': Id)
    requires ValidMods(mods) && m.path != []
    requires forall q | q != [] :: WroteAll(h, mods, q, Resolve(store', root', q), Resolve(store, root, q))
    ensures Blocked(store', root', m.path) <==> Crosses(store, root, mods + [m], |mods|)
  {
    hide Resolve, WroteAll, FileAfter;
    var all := mods + [m];
    assert all[|mods|] == m && all[..|mods|] == mods;
    forall k | 0 < k < |m.path|
      ensures IsFile(Resolve(store', root', m.path[..k])) <==> FileAfter(store, root, mods, m.path[..k])
    {
      FileAfterMeans(h, store, root, mods, m.path[..k], Resolve(store', root', m.path[..k]));
    }
  }

  lemma CrossesSnoc(store: Store, root: Id, mods: seq<Modification>, m: Modification, j: nat)
    requires j < |mods|
    ensures Crosses(store, root, mods + [m], j) <==> Crosses(store, root, mods, j)
  {
    hide FileAfter;
    var all := mods + [m];
    assert all[j] == mods[j] && all[..j] == mods[..j];
  }

  /**
   The modification loop on any list. It succeeds exactly when no modification
   crosses a file that is there when its turn comes, which the list and the
   parent decide; then the answer at every path is that of the last modification
   that bears on it, or the parent's, and no lookup of an intermediate tree can
   fail, because the store stays closed.
   */
  lemma {:induction false} ApplyAllEffect(h: Hasher, store: Store, root: Id, mods: seq<Modification>)
    requires Sound(h, store) && root in store && ValidMods(mods)
    ensures ApplyAll(h, store, root, mods).Ok? <==> forall j: nat | j < |mods| :: !Crosses(store, root, mods, j)
    ensures ApplyAll(h, store, root, mods).Err? ==> ApplyAll(h, store, root, mods).error == CrossesFile
    ensures ApplyAll(h, store, root, mods).Ok? ==>
              var (root', store') := ApplyAll(h, store, root, mods).value;
              && Sound(h, store') && Extends(store, store') && root' in store'
              && forall q | q != [] :: WroteAll(h, mods, q, Resolve(store', root', q), Resolve(store, root, q))
    decreases |mods|
  {
    hide Sound, Extends, Resolve, Blocked, Crosses, Update, WroteAll, Wrote;
    if mods == [] {
      ExtendsSelf(store);
      forall q: seq<string> | q != [] ensures WroteAll(h, mods, q, Resolve(store, root, q), Resolve(store, root, q)) {
        WroteNothing(h, q, Resolve(store, root, q));
      }
    } else {
      var init, m := mods[..|mods| - 1], mods[|mods| - 1];
      assert mods == init + [m] && m in mods && forall x | x in init :: x in mods;
      hide ApplyAll;
      ApplyAllEffect(h, store, root, init);
      ApplySnoc(h, store, root, init, m);
      forall j: nat | j < |init| ensures Crosses(store, root, mods, j) <==> Crosses(store, root, init, j) {
        CrossesSnoc(store, root, init, m, j);
      }
      if ApplyAll(h, store, root, init).Ok? {
        ApplyOne(h, store, root, init, m);
      }
    }
  }

  /** The last modification of a list whose others succeeded. */
  lemma ApplyOne(h: Hasher, store: Store, root: Id, init: seq<Modification>, m: Modification)
    requires ValidMods(init) && m.path != [] && ApplyAll(h, store, root, init).Ok?
    requires var (root1, store1) := ApplyAll(h, store, root, init).value;
             && Sound(h, store1) && Extends(store, store1) && root1 in store1
             && forall q | q != [] :: WroteAll(h, init, q, Resolve(store1, root1, q), Resolve(store, root, q))
    ensures var mods := init + [m];
            && ValidMods(mods)
            && var r := ApplyAll(h, store, root, mods);
               && (r.Ok? <==> !Crosses(store, root, mods, |init|)) && (r.Err? ==> r.error == CrossesFile)
               && (r.Ok? ==>
                     && Sound(h, r.value.1) && Extends(store, r.value.1) && r.value.0 in r.value.1
                     && forall q | q != [] ::
                          WroteAll(h, mods, q, Resolve(r.value.1, r.value.0, q), Resolve(store, root, q)))
  {
    hide Sound, Extends, Resolve, Blocked, Crosses, Update, WroteAll, Wrote, ApplyAll;
    var (root1, store1) := ApplyAll(h, store, root, init).value;
    ApplySnoc(h, store, root, init, m);
    BlockedCrosses(h, store, root, init, m, store1, root1);
    SoundClosed(h, store1);
    UpdateSucceeds(h, store1, root1, m.path, m.content);
    var up := Update(h, store1, root1, m.path, m.content);
    if up.Ok? {
      UpdateEffect(h, store1, root1, m.path, m.content);
      var store2, root2 := Extended(store1, up.value), up.value[|up.value| - 1].id;
      ExtendsTrans(store, store1, store2);
      forall q: seq<string> | q != []
        ensures WroteAll(h, init + [m], q, Resolve(store2, root2, q), Resolve(store, root, q))
      {
        WroteSnoc(h, init, m, q, Resolve(store2, root2, q), Resolve(store1, root1, q), Resolve(store, root, q));
      }
    }
  }

  lemma WroteNothing(h: Hasher, q: seq<string>, x: Option<Item>)
    requires q != []
    ensures WroteAll(h, [], q, x, x)
  {
  }

  // ----------------------------------------------------- prefix-free lists

  /** No path of the list is a proper prefix of another. */
  predicate PrefixFree(mods: seq<Modification>) {
    forall a, b | a in mods && b in mods :: !(a.path < b.path)
  }

  lemma CrossedIsBlocked(store: Store, root: Id, mods: seq<Modification>, j: nat)
    requires PrefixFree(mods) && j < |mods| && Crosses(store, root, mods, j)
    ensures Blocked(store, root, mods[j].path)
  {
    hide Resolve;
    var p := mods[j].path;
    var k :| 0 < k < |p| && FileAfter(store, root, mods[..j], p[..k]);
    var i := LastTouch(mods[..j], p[..k]);
    assert forall x :: 0 <= x < j ==> mods[..j][x] == mods[x] && mods[x] in mods;
    assert mods[j] in mods && p[..k] < p;
    assert IsFile(Resolve(store, root, p[..k]));
  }

  lemma {:induction false} BlockedIsCrossed(store: Store, root: Id, mods: seq<Modification>, j: nat)
    requires PrefixFree(mods) && j < |mods| && Blocked(store, root, mods[j].path)
    ensures exists i: nat | i < |mods| :: Crosses(store, root, mods, i)
  {
    hide Resolve;
    var p := mods[j].path;
    var k :| 0 < k < |p| && IsFile(Resolve(store, root, p[..k]));
    var q := p[..k];
    var i := LastTouch(mods[..j], q);
    if i < 0 {
      assert Crosses(store, root, mods, j);
    } else {
      var p' := mods[i].path;
      assert mods[..j][i] == mods[i] && mods[i] in mods && mods[j] in mods && q < p;
      assert q < p' && p'[..k] == q;
      assert Blocked(store, root, p');
      BlockedIsCrossed(store, root, mods, i);
    }
  }

  /** The last modification of a listed path is the last one that bears on it. */
  lemma OnlyItself(mods: seq<Modification>, i: nat)
    requires PrefixFree(mods) && i < |mods| && forall j :: i < j < |mods| ==> mods[j].path != mods[i].path
    ensures LastTouch(mods, mods[i].path) == i
  {
    var q := mods[i].path;
    var j := LastTouch(mods, q);
    assert mods[i] in mods && mods[j] in mods;
  }

  /** On a prefix-free list: success exactly when no path crosses a file of the parent, and then last contents win. */
  lemma PrefixFreeEffect(h: Hasher, store: Store, root: Id, mods: seq<Modification>)
    requires Sound(h, store) && root in store && ValidMods(mods) && PrefixFree(mods)
    ensures ApplyAll(h, store, root, mods).Ok? <==> forall m | m in mods :: !Blocked(store, root, m.path)
    ensures ApplyAll(h, store, root, mods).Ok? ==>
              var (root', store') := ApplyAll(h, store, root, mods).value;
              && (forall i: nat | i < |mods| && (forall j :: i < j < |mods| ==> mods[j].path != mods[i].path) ::
                    Resolve(store', root', mods[i].path) == Some(BlobItem(h, mods[i].path, mods[i].content)))
              && (forall q | q != [] && (forall m | m in mods :: !Related(m.path, q)) ::
                    Resolve(store', root', q) == Resolve(store, root, q))
  {
    hide Sound, Extends, Resolve, Blocked, Crosses, ApplyAll, LastTouch;
    ApplyAllEffect(h, store, root, mods);
    forall j: nat | j < |mods| && Crosses(store, root, mods, j)
      ensures mods[j] in mods && Blocked(store, root, mods[j].path)
    {
      CrossedIsBlocked(store, root, mods, j);
    }
    forall m | m in mods && Blocked(store, root, m.path)
      ensures exists i: nat | i < |mods| :: Crosses(store, root, mods, i)
    {
      var j: nat :| j < |mods| && mods[j] == m;
      BlockedIsCrossed(store, root, mods, j);
    }
    if ApplyAll(h, store, root, mods).Ok? {
      var (root', store') := ApplyAll(h, store, root, mods).value;
      forall i: nat | i < |mods| && (forall j :: i < j < |mods| ==> mods[j].path != mods[i].path)
        ensures Resolve(store', root', mods[i].path) == Some(BlobItem(h, mods[i].path, mods[i].content))
      {
        OnlyItself(mods, i);
        assert mods[i] in mods;
        var q := mods[i].path;
        assert WroteAll(h, mods, q, Resolve(store', root', q), Resolve(store, root, q));
      }
      forall q | q != [] && (forall m | m in mods :: !Related(m.path, q))
        ensures Resolve(store', root', q) == Resolve(store, root, q)
      {
        assert WroteAll(h, mods, q, Resolve(store', root', q), Resolve(store, root, q));
      }
    }
  }

  lemma SoundClosed(h: Hasher, store: Store)
    requires Sound(h, store)
    ensures Closed(store)
  {
  }
}
