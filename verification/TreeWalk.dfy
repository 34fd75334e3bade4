/** `collect_tree_ids`: the trees reachable from a commit, collected by marking. */
module TreeWalk {
  import opened Wrappers
  import opened GitTree

  predicate IsChild(t: TreeObject, id: Id) {
    exists x :: x in t.items && x.mode.Tree? && x.id == id
  }

  /** A chain of trees, each listing the next; all but the last are present. */
  ghost predicate Chain(trees: Store, p: seq<Id>) {
    p != [] && (|p| > 1 ==> p[0] in trees && IsChild(trees[p[0]], p[1]) && Chain(trees, p[1..]))
  }

  ghost predicate Reaches(trees: Store, a: Id, b: Id) {
    exists p :: Chain(trees, p) && p[0] == a && p[|p| - 1] == b
  }

  lemma ReachesSelf(trees: Store, a: Id)
    ensures Reaches(trees, a, a)
  {
    assert Chain(trees, [a]);
  }

  lemma ReachesChild(trees: Store, a: Id, c: Id, b: Id)
    requires a in trees && IsChild(trees[a], c) && Reaches(trees, c, b)
    ensures Reaches(trees, a, b)
  {
    hide IsChild;
    var p :| Chain(trees, p) && p[0] == c && p[|p| - 1] == b;
    var q := [a] + p;
    assert q[1..] == p;
    assert Chain(trees, q) && q[0] == a && q[|q| - 1] == b;
  }

  /** Every marked tree outside `busy` is present with all its children marked. */
  ghost predicate ClosedBut(trees: Store, marked: set<Id>, busy: set<Id>) {
    forall a | a in marked && a !in busy :: a in trees && forall c | IsChild(trees[a], c) :: c in marked
  }

  lemma {:induction false} ClosedReaches(trees: Store, marked: set<Id>, p: seq<Id>)
    requires ClosedBut(trees, marked, {}) && Chain(trees, p) && p[0] in marked
    ensures p[|p| - 1] in marked
    decreases p
  {
    hide IsChild;
    if |p| > 1 {
      ClosedReaches(trees, marked, p[1..]);
    }
  }

  /** Ids that can ever be marked. */
  ghost predicate Bounded(trees: Store, universe: set<Id>) {
    trees.Keys <= universe && forall a, c | a in trees && IsChild(trees[a], c) :: c in universe
  }

  class Walk {
    var needed: set<Id>

    constructor ()
      ensures needed == {}
    {
      needed := {};
    }

    /**
     One call. `busy` holds the trees whose children are still being visited.
     On success everything newly marked is reachable from `id` and closed; on
     failure a reachable tree is missing.
     */
    method Collect(id: Id, trees: Store, ghost busy: set<Id>, ghost universe: set<Id>) returns (r: Result<(), Id>)
      requires ClosedBut(trees, needed, busy) && busy <= needed
      requires Bounded(trees, universe) && id in universe
      modifies this
      ensures old(needed) <= needed
      ensures r.Ok? ==> id in needed && ClosedBut(trees, needed, busy)
      ensures r.Ok? ==> forall b | b in needed - old(needed) :: Reaches(trees, id, b)
      ensures r.Err? ==> r.error !in trees && Reaches(trees, id, r.error)
      decreases universe - needed
    {
      hide Reaches;
      ReachesSelf(trees, id);
      if id in needed { return Ok(()); }
      needed := needed + {id};
      if id !in trees { return Err(id); }
      var tree := trees[id];
      ghost var busy' := busy + {id};
      for i := 0 to |tree.items|
        invariant old(needed) + {id} <= needed && ClosedBut(trees, needed, busy')
        invariant forall k | 0 <= k < i :: tree.items[k].mode.Tree? ==> tree.items[k].id in needed
        invariant forall b | b in needed - old(needed) :: Reaches(trees, id, b)
      {
        var item := tree.items[i];
        if item.mode.Tree? {
          assert IsChild(tree, item.id);
          ghost var had := needed;
          var sub := Collect(item.id, trees, busy', universe);
          if sub.Err? {
            ReachesChild(trees, id, item.id, sub.error);
            return sub;
          }
          forall b | b in needed - had ensures Reaches(trees, id, b) {
            ReachesChild(trees, id, item.id, b);
          }
        }
      }
      AllChildren(tree, needed);
      r := Ok(());
    }
  }

  lemma AllChildren(t: TreeObject, marked: set<Id>)
    requires forall k | 0 <= k < |t.items| :: t.items[k].mode.Tree? ==> t.items[k].id in marked
    ensures forall c | IsChild(t, c) :: c in marked
  {
  }

  /** `id` is reachable from one of the commits' root trees. */
  ghost predicate ReachedFrom(trees: Store, roots: seq<Id>, id: Id) {
    exists r | r in roots :: Reaches(trees, r, id)
  }

  ghost function Universe(trees: Store, roots: seq<Id>): set<Id> {
    trees.Keys + (set r | r in roots) + (set a, x | a in trees && x in trees[a].items :: x.id)
  }

  lemma UniverseBounded(trees: Store, roots: seq<Id>)
    ensures Bounded(trees, Universe(trees, roots))
  {
    forall a, c | a in trees && IsChild(trees[a], c) ensures c in Universe(trees, roots) {
      var x :| x in trees[a].items && x.mode.Tree? && x.id == c;
    }
  }

  /**
   The loop of `persist_source_history`, from an empty set. It succeeds exactly
   when every tree reachable from a commit is present, and then the set is
   exactly the reachable trees.
   */
  method CollectAll(roots: seq<Id>, trees: Store) returns (r: Result<set<Id>, Id>)
    ensures r.Ok? <==> forall id | ReachedFrom(trees, roots, id) :: id in trees
    ensures r.Ok? ==> forall id :: id in r.value <==> ReachedFrom(trees, roots, id)
  {
    hide Reaches, Bounded, Universe, IsChild;
    var walk := new Walk();
    UniverseBounded(trees, roots);
    for i := 0 to |roots|
      invariant ClosedBut(trees, walk.needed, {})
      invariant forall k | 0 <= k < i :: roots[k] in walk.needed
      invariant forall b | b in walk.needed :: ReachedFrom(trees, roots, b)
    {
      ghost var had := walk.needed;
      RootInUniverse(trees, roots, i);
      var one := walk.Collect(roots[i], trees, {}, Universe(trees, roots));
      if one.Err? {
        assert roots[i] in roots;
        assert ReachedFrom(trees, roots, one.error);
        return Err(one.error);
      }
      forall b | b in walk.needed ensures ReachedFrom(trees, roots, b) {
        if b !in had { assert roots[i] in roots; }
      }
    }
    forall id | ReachedFrom(trees, roots, id) ensures id in walk.needed {
      var root :| root in roots && Reaches(trees, root, id);
      MarkedReaches(trees, walk.needed, root, id);
    }
    r := Ok(walk.needed);
  }

  lemma RootInUniverse(trees: Store, roots: seq<Id>, i: nat)
    requires i < |roots|
    ensures roots[i] in Universe(trees, roots)
  {
  }

  lemma MarkedReaches(trees: Store, marked: set<Id>, a: Id, b: Id)
    requires ClosedBut(trees, marked, {}) && a in marked && Reaches(trees, a, b)
    ensures b in marked
  {
    var p :| Chain(trees, p) && p[0] == a && p[|p| - 1] == b;
    ClosedReaches(trees, marked, p);
  }
}
