/** `append_probe`, `update_tree` and `build_missing_tree` as written: a trees map and new trees, updated in place. */
module ProbeStore {
  import opened Wrappers
  import opened Utf8
  import opened GitTree
  import opened TreeUpdate

  datatype ProbeError = InvalidPath | Refused(error: UpdateError) | RootUnchanged

  /** The components with `/` between them. */
  function Joined(parts: seq<string>): string {
    if parts == [] then "" else if |parts| == 1 then parts[0] else parts[0] + "/" + Joined(parts[1..])
  }

  predicate Slashless(s: string) { forall i :: 0 <= i < |s| ==> s[i] != '/' }

  predicate NoSlash(parts: seq<string>) { forall p | p in parts :: Slashless(p) }

  /** `path.split('/')`. */
  function SplitPath(path: string): (parts: seq<string>)
    ensures parts != [] && Joined(parts) == path && NoSlash(parts)
  {
    var k := IndexOf(path, c => c == '/');
    if k == |path| then [path]
    else
      var rest := SplitPath(path[k + 1..]);
      assert path == path[..k] + "/" + path[k + 1..];
      assert ([path[..k]] + rest)[1..] == rest;
      [path[..k]] + rest
  }

  predicate ValidParts(parts: seq<string>) {
    forall p | p in parts :: p != "" && p != "." && p != ".."
  }

  /** `p` stands in `path` at `i`, between slashes or the ends. */
  predicate ComponentAt(path: string, i: nat, p: string) {
    && Slashless(p) && i + |p| <= |path| && path[i..i + |p|] == p
    && (i == 0 || path[i - 1] == '/') && (i + |p| == |path| || path[i + |p|] == '/')
  }

  ghost predicate HasComponent(path: string, p: string) { exists i: nat :: ComponentAt(path, i, p) }

  /** Splitting finds exactly the components. */
  lemma {:induction false} SplitComponents(path: string, p: string)
    ensures p in SplitPath(path) <==> HasComponent(path, p)
    decreases |path|
  {
    hide SplitPath, HasComponent;
    var k := SplitStep(path);
    if k < |path| {
      SplitComponents(path[k + 1..], p);
      ComponentStep(path, k, p);
    } else {
      assert path[..k] == path;
      WholeComponent(path, p);
    }
  }

  /** The first slash, and what splitting makes of it. */
  lemma SplitStep(path: string) returns (k: nat)
    ensures k <= |path| && Slashless(path[..k]) && (k < |path| ==> path[k] == '/')
    ensures SplitPath(path) == if k == |path| then [path] else [path[..k]] + SplitPath(path[k + 1..])
  {
    k := IndexOf(path, c => c == '/');
  }

  lemma WholeComponent(path: string, p: string)
    requires Slashless(path)
    ensures HasComponent(path, p) <==> p == path
  {
    if p == path {
      assert path[0..|p|] == p;
      assert ComponentAt(path, 0, p);
    }
    forall i: nat | ComponentAt(path, i, p) ensures p == path {
      assert path[0..|path|] == path;
    }
  }

  /** A component is the first one, or one of what follows the first slash. */
  lemma ComponentStep(path: string, k: nat, p: string)
    requires k < |path| && path[k] == '/' && Slashless(path[..k])
    ensures HasComponent(path, p) <==> p == path[..k] || HasComponent(path[k + 1..], p)
  {
    hide ComponentAt;
    var rest := path[k + 1..];
    if p == path[..k] { FirstComponent(path, k); }
    if HasComponent(rest, p) {
      var i: nat :| ComponentAt(rest, i, p);
      Shifted(path, k, i, p);
    }
    if HasComponent(path, p) {
      var i: nat :| ComponentAt(path, i, p);
      if i <= k {
        StartsEarly(path, k, i, p);
      } else {
        Shifted(path, k, i - (k + 1), p);
      }
    }
  }

  lemma FirstComponent(path: string, k: nat)
    requires k < |path| && path[k] == '/' && Slashless(path[..k])
    ensures ComponentAt(path, 0, path[..k])
  {
    assert path[0..0 + k] == path[..k];
  }

  lemma Shifted(path: string, k: nat, i: nat, p: string)
    requires k < |path| && path[k] == '/'
    ensures ComponentAt(path[k + 1..], i, p) <==> ComponentAt(path, k + 1 + i, p)
  {
    var rest := path[k + 1..];
    if i + |p| <= |rest| { assert rest[i..i + |p|] == path[k + 1 + i..k + 1 + i + |p|]; }
  }

  /** Before the first slash only the first component starts. */
  lemma StartsEarly(path: string, k: nat, i: nat, p: string)
    requires k < |path| && path[k] == '/' && Slashless(path[..k]) && ComponentAt(path, i, p) && i <= k
    ensures p == path[..k]
  {
    assert forall j :: 0 <= j < k ==> path[j] == path[..k][j];
    assert forall j :: i <= j < i + |p| ==> path[j] == path[i..i + |p|][j - i];
    assert path[0..k] == path[..k];
  }

  /** A path is refused exactly when it has an empty component or one of the two dots. */
  lemma InvalidExactly(path: string)
    ensures !ValidParts(SplitPath(path)) <==>
            HasComponent(path, "") || HasComponent(path, ".") || HasComponent(path, "..")
  {
    hide SplitPath, HasComponent;
    SplitComponents(path, "");
    SplitComponents(path, ".");
    SplitComponents(path, "..");
  }

  function Mods(list: seq<(string, string)>): (ms: seq<Modification>)
    ensures |ms| == |list| && ValidMods(ms)
  {
    if list == [] then [] else [Modification(SplitPath(list[0].0), Encode(list[0].1))] + Mods(list[1..])
  }

  class Probe {
    var trees: Store
    var newTrees: seq<TreeObject>

    constructor (trees: Store)
      ensures this.trees == trees && newTrees == []
    {
      this.trees, newTrees := trees, [];
    }

    method BuildMissingTree(h: Hasher, path: seq<string>, content: seq<Byte>) returns (id: Id)
      requires path != []
      modifies this`newTrees
      ensures var ts := BuildMissing(h, path, content); newTrees == old(newTrees) + ts && id == ts[|ts| - 1].id
      decreases |path|
    {
      var item;
      if |path| == 1 {
        item := Item(Blob, h.blob(content), path[0]);
      } else {
        var child := BuildMissingTree(h, path[1..], content);
        item := Item(Tree, child, path[0]);
      }
      var tree := MakeTree(h, [item]);
      newTrees := newTrees + [tree];
      id := tree.id;
    }

    method UpdateTree(h: Hasher, oldId: Id, path: seq<string>, content: seq<Byte>) returns (r: Result<Id, UpdateError>)
      requires path != []
      modifies this`newTrees
      ensures match Update(h, trees, oldId, path, content)
              case Ok(ts) => r == Ok(ts[|ts| - 1].id) && newTrees == old(newTrees) + ts && AllInOrder(ts)
              case Err(e) => r == Err(e) && newTrees == old(newTrees)
      decreases |path|
    {
      hide BuildMissing, Replaced, AllInOrder;
      UpdateInOrder(h, trees, oldId, path, content);
      if oldId !in trees { return Err(ParentMissing); }
      var items := trees[oldId].items;
      var name := path[0];
      var newItem;
      if |path| == 1 {
        newItem := Item(Blob, h.blob(content), name);
      } else {
        var childId;
        match Find(items, name) {
          case Some(child) =>
            if !child.mode.Tree? { return Err(CrossesFile); }
            childId :- UpdateTree(h, child.id, path[1..], content);
          case None =>
            childId := BuildMissingTree(h, path[1..], content);
        }
        newItem := Item(Tree, childId, name);
      }
      var tree := MakeTree(h, Replaced(items, newItem));
      newTrees := newTrees + [tree];
      r := Ok(tree.id);
    }

    /** `for tree in &new_trees { trees.insert(..) }`. */
    method InsertNew()
      modifies this`trees
      ensures trees == Extended(old(trees), newTrees)
    {
      for i := 0 to |newTrees|
        invariant trees == Extended(old(trees), newTrees[..i])
      {
        trees := trees[newTrees[i].id := newTrees[i]];
        assert newTrees[..i + 1] == newTrees[..i] + [newTrees[i]];
        ExtendedSnoc(old(trees), newTrees[..i], newTrees[i]);
      }
      assert newTrees[..|newTrees|] == newTrees;
    }

    /**
     The tree part of `append_probe`. The modifications in front of the first invalid path are applied in turn. A
     refused one stops there, with the trees of those before it inserted; otherwise an invalid path, or a root that
     did not change, is reported with all their trees inserted.
     */
    method Append(h: Hasher, parent: Id, list: seq<(string, string)>) returns (r: Result<Id, ProbeError>)
      requires newTrees == []
      modifies this
      ensures trees == Extended(old(trees), newTrees) && AllInOrder(newTrees)
      ensures var n := FirstInvalid(list);
              match ApplyAll(h, old(trees), parent, Mods(list[..n]))
              case Ok((root, store)) =>
                && trees == store
                && r == if n < |list| then Err(InvalidPath) else if root == parent then Err(RootUnchanged) else Ok(root)
              case Err(e) =>
                && r == Err(Refused(e))
                && exists j: nat :: j < n && StopsAt(h, old(trees), parent, list, j, trees, e)
    {
      hide Update, SplitPath, ApplyAll, FirstInvalid, Extended, Mods, ValidParts, InGitOrder;
      var root := parent;
      ghost var start, n := trees, FirstInvalid(list);
      assert Mods(list[..0]) == [];
      ApplyNothing(h, start, parent);
      ExtendedNothing(start);
      for i := 0 to |list|
        invariant i <= n && trees == Extended(start, newTrees) && AllInOrder(newTrees)
        invariant ApplyAll(h, start, parent, Mods(list[..i])) == Ok((root, trees))
      {
        var parts := SplitPath(list[i].0);
        if !ValidParts(parts) { return Err(InvalidPath); }
        ghost var before, had := trees, newTrees;
        UpdateInOrder(h, trees, root, parts, Encode(list[i].1));
        ghost var m := Modification(parts, Encode(list[i].1));
        ModsSnoc(list, i);
        ApplySnoc(h, start, parent, Mods(list[..i]), m);
        var res := UpdateTree(h, root, parts, Encode(list[i].1));
        if res.Err? {
          ApplyPrefix(h, start, parent, Mods(list[..n]), i + 1);
          ModsPrefix(list, n, i + 1);
          assert StopsAt(h, start, parent, list, i, trees, res.error);
          return Err(Refused(res.error));
        }
        ghost var ts := Update(h, before, root, parts, Encode(list[i].1)).value;
        root := res.value;
        InsertNew();
        Reinsert(start, had, ts);
      }
      assert list[..|list|] == list;
      if root == parent { return Err(RootUnchanged); }
      r := Ok(root);
    }
  }

  /** Position of the first path with an empty, `.` or `..` component, or the length. */
  function FirstInvalid(list: seq<(string, string)>): (n: nat)
    ensures n <= |list| && (n < |list| ==> !ValidParts(SplitPath(list[n].0)))
    ensures forall i :: 0 <= i < n ==> ValidParts(SplitPath(list[i].0))
  {
    if list == [] || !ValidParts(SplitPath(list[0].0)) then 0 else 1 + FirstInvalid(list[1..])
  }

  /** Modification `j` is the first one refused; `trees` has those before it applied. */
  ghost predicate StopsAt(
      h: Hasher, store: Store, root: Id, list: seq<(string, string)>, j: nat, trees: Store, e: UpdateError)
  {
    && j < |list|
    && match ApplyAll(h, store, root, Mods(list[..j]))
       case Ok((root', store')) =>
         trees == store' && Update(h, store', root', SplitPath(list[j].0), Encode(list[j].1)) == Err(e)
       case Err(_) => false
  }

  lemma {:induction false} ModsSnoc(list: seq<(string, string)>, i: nat)
    requires i < |list|
    ensures Mods(list[..i + 1]) == Mods(list[..i]) + [Modification(SplitPath(list[i].0), Encode(list[i].1))]
    decreases i
  {
    hide SplitPath;
    if i == 0 {
      assert list[..1] == [list[0]] && list[..0] == [] && [list[0]][1..] == [];
    } else {
      ModsSnoc(list[1..], i - 1);
      assert list[..i + 1][1..] == list[1..][..i] && list[..i][1..] == list[1..][..i - 1];
    }
  }

  lemma {:induction false} ModsPrefix(list: seq<(string, string)>, n: nat, i: nat)
    requires i <= n <= |list|
    ensures Mods(list[..n])[..i] == Mods(list[..i])
    decreases n - i
  {
    hide SplitPath;
    if i < n {
      ModsPrefix(list, n, i + 1);
      ModsSnoc(list, i);
      assert Mods(list[..n])[..i] == Mods(list[..n])[..i + 1][..i];
    }
  }

  lemma ApplyNothing(h: Hasher, store: Store, root: Id)
    ensures ApplyAll(h, store, root, []) == Ok((root, store))
  {
  }

  /** An error in a prefix of the modifications is the error of the whole list. */
  lemma {:induction false} ApplyPrefix(h: Hasher, store: Store, root: Id, mods: seq<Modification>, i: nat)
    requires ValidMods(mods) && i <= |mods|
    ensures ValidMods(mods[..i])
    ensures ApplyAll(h, store, root, mods[..i]).Err? ==>
            ApplyAll(h, store, root, mods) == ApplyAll(h, store, root, mods[..i])
    decreases |mods| - i
  {
    hide Update, Extended, ApplyAll;
    assert forall m | m in mods[..i] :: m in mods;
    if i < |mods| {
      ApplyPrefix(h, store, root, mods, i + 1);
      assert mods[..i + 1] == mods[..i] + [mods[i]];
      assert mods[i] in mods;
      ApplySnoc(h, store, root, mods[..i], mods[i]);
    } else {
      assert mods[..i] == mods;
    }
  }

  lemma {:induction false} ExtendedAppend(store: Store, a: seq<TreeObject>, b: seq<TreeObject>)
    ensures Extended(store, a + b) == Extended(Extended(store, a), b)
  {
    if b == [] {
      assert a + b == a;
    } else {
      var b', x := b[..|b| - 1], b[|b| - 1];
      assert a + b == (a + b') + [x];
      assert b == b' + [x];
      ExtendedAppend(store, a, b');
      ExtendedSnoc(store, a + b', x);
    }
  }

  /** Some of these trees has this id. */
  predicate Writes(ts: seq<TreeObject>, id: Id) { exists t | t in ts :: t.id == id }

  /** What an insertion pass leaves under one id: the last such tree, or what was there. */
  lemma {:induction false} ExtendedAt(store: Store, other: Store, ts: seq<TreeObject>, id: Id)
    ensures Writes(ts, id) ==>
              var a, b := Extended(store, ts), Extended(other, ts);
              id in a && id in b && a[id] == b[id]
    ensures !Writes(ts, id) ==> (id in Extended(store, ts) <==> id in store)
    ensures !Writes(ts, id) && id in store ==> Extended(store, ts)[id] == store[id]
  {
    if ts != [] {
      var ts', x := ts[..|ts| - 1], ts[|ts| - 1];
      ExtendedAt(store, other, ts', id);
      assert ts == ts' + [x];
      assert Writes(ts, id) <==> Writes(ts', id) || x.id == id by {
        assert forall t :: t in ts <==> t in ts' || t == x;
      }
    }
  }

  /** Inserting all new trees again after each update is the same as inserting only the last batch. */
  lemma Reinsert(store: Store, a: seq<TreeObject>, b: seq<TreeObject>)
    ensures Extended(Extended(store, a), a + b) == Extended(store, a + b)
    ensures Extended(Extended(store, a), b) == Extended(store, a + b)
  {
    ExtendedAppend(store, a, b);
    Repeated(store, a, a + b);
  }

  lemma Repeated(store: Store, a: seq<TreeObject>, all: seq<TreeObject>)
    requires forall t :: t in a ==> t in all
    ensures Extended(Extended(store, a), all) == Extended(store, all)
  {
    hide Extended;
    var once, twice := Extended(store, all), Extended(Extended(store, a), all);
    forall id: Id
      ensures id in twice <==> id in once
      ensures id in once ==> twice[id] == once[id]
    {
      ExtendedAt(store, Extended(store, a), all, id);
      ExtendedAt(Extended(store, a), store, all, id);
      ExtendedAt(store, store, a, id);
    }
    assert twice == once;
  }
}
