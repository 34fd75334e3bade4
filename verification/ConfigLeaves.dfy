/** Which strings of a configuration are expanded, and under which key: the strings at its paths. */
module ConfigLeaves {
  import opened Decimal
  import opened ConfigExpand
  import opened ConfigNoninterference

  /** One step into a table or an array. */
  datatype Step = Field(name: string) | At(index: nat)

  /** The key of a path below `key`: names joined by `.`, indices in brackets. */
  function PathKey(key: string, path: seq<Step>): string
    decreases path
  {
    if path == [] then key
    else
      PathKey(match path[0]
              case Field(name) => if key == "" then name else key + "." + name
              case At(i) => key + "[" + NatText(i) + "]", path[1..])
  }

  /** Some string `s` is at `path` in `v`. */
  ghost predicate StringAt(v: Value, path: seq<Step>, s: string)
    decreases path
  {
    if path == [] then v == Str(s)
    else
      match path[0]
      case Field(name) => v.Table? && exists e | e in v.entries :: e.name == name && StringAt(e.value, path[1..], s)
      case At(i) => v.Array? && i < |v.items| && StringAt(v.items[i], path[1..], s)
  }

  /** Some path of `v` leads to `leaf`. */
  ghost predicate Reported(key: string, v: Value, leaf: (string, string)) {
    exists path :: StringAt(v, path, leaf.1) && leaf.0 == PathKey(key, path)
  }

  /** `traverse_config` reports exactly the strings at the paths of a value, under the keys of those paths. */
  lemma {:induction false} LeavesExactly(key: string, v: Value, leaf: (string, string))
    ensures leaf in Leaves(key, v) <==> Reported(key, v, leaf)
    decreases v, 1
  {
    hide Reported, EntryLeaves, ItemLeaves;
    match v
    case Str(s) => AtomReported(key, v, leaf);
    case Other => AtomReported(key, v, leaf);
    case Table(entries) =>
      EntriesExactly(key, entries, leaf);
      TableReported(key, v, leaf);
    case Array(items) =>
      ItemsExactly(key, items, 0, leaf);
      ArrayReported(key, v, leaf);
  }

  lemma AtomReported(key: string, v: Value, leaf: (string, string))
    requires v.Str? || v.Other?
    ensures Reported(key, v, leaf) <==> v == Str(leaf.1) && leaf.0 == key
  {
    if v == Str(leaf.1) && leaf.0 == key { assert StringAt(v, [], leaf.1); }
  }

  lemma TableReported(key: string, v: Value, leaf: (string, string))
    requires v.Table?
    ensures Reported(key, v, leaf) <==> exists e | e in v.entries :: Reported(Join(key, e.name), e.value, leaf)
  {
    if Reported(key, v, leaf) {
      var path: seq<Step> :| StringAt(v, path, leaf.1) && leaf.0 == PathKey(key, path);
      var e :| e in v.entries && e.name == path[0].name && StringAt(e.value, path[1..], leaf.1);
      assert Reported(Join(key, e.name), e.value, leaf);
    }
    forall e | e in v.entries && Reported(Join(key, e.name), e.value, leaf) ensures Reported(key, v, leaf) {
      var path: seq<Step> :| StringAt(e.value, path, leaf.1) && leaf.0 == PathKey(Join(key, e.name), path);
      var whole := [Field(e.name)] + path;
      assert whole[1..] == path;
      assert StringAt(v, whole, leaf.1) && leaf.0 == PathKey(key, whole);
    }
  }

  lemma ArrayReported(key: string, v: Value, leaf: (string, string))
    requires v.Array?
    ensures Reported(key, v, leaf) <==> ItemReported(key, v.items, 0, leaf)
  {
    if Reported(key, v, leaf) {
      var path: seq<Step> :| StringAt(v, path, leaf.1) && leaf.0 == PathKey(key, path);
      var i := path[0].index;
      assert StringAt(v.items[i], path[1..], leaf.1) && leaf.0 == PathKey(Indexed(key, i), path[1..]);
      assert Reported(Indexed(key, 0 + i), v.items[i], leaf);
    }
    forall i: nat | i < |v.items| && Reported(Indexed(key, 0 + i), v.items[i], leaf) ensures Reported(key, v, leaf) {
      var path: seq<Step> :| StringAt(v.items[i], path, leaf.1) && leaf.0 == PathKey(Indexed(key, i), path);
      var whole := [At(i)] + path;
      assert whole[1..] == path;
      assert StringAt(v, whole, leaf.1) && leaf.0 == PathKey(key, whole);
    }
  }

  lemma {:induction false} EntriesExactly(key: string, entries: seq<Entry>, leaf: (string, string))
    ensures leaf in EntryLeaves(key, entries) <==>
            exists e | e in entries :: Reported(Join(key, e.name), e.value, leaf)
    decreases entries, 0
  {
    hide Reported, Leaves, Join;
    if entries != [] {
      LeavesExactly(Join(key, entries[0].name), entries[0].value, leaf);
      EntriesExactly(key, entries[1..], leaf);
      assert forall e :: e in entries <==> e == entries[0] || e in entries[1..];
    }
  }

  /** The items are the elements of an array from index `i` on. */
  ghost predicate ItemReported(key: string, items: seq<Value>, i: nat, leaf: (string, string)) {
    exists j: nat | j < |items| :: Reported(Indexed(key, i + j), items[j], leaf)
  }

  lemma ItemStep(key: string, items: seq<Value>, i: nat, leaf: (string, string))
    requires items != []
    ensures ItemReported(key, items, i, leaf) <==>
            Reported(Indexed(key, i), items[0], leaf) || ItemReported(key, items[1..], i + 1, leaf)
  {
    hide Reported, Indexed;
    if ItemReported(key, items[1..], i + 1, leaf) {
      var j: nat :| j < |items[1..]| && Reported(Indexed(key, i + 1 + j), items[1..][j], leaf);
      assert i + 1 + j == i + (j + 1) && items[1..][j] == items[j + 1];
    }
    if ItemReported(key, items, i, leaf) {
      var j: nat :| j < |items| && Reported(Indexed(key, i + j), items[j], leaf);
      if j > 0 { assert i + j == i + 1 + (j - 1) && items[j] == items[1..][j - 1]; }
    }
    if Reported(Indexed(key, i), items[0], leaf) { assert i == i + 0; }
  }

  lemma {:induction false} ItemsExactly(key: string, items: seq<Value>, i: nat, leaf: (string, string))
    ensures leaf in ItemLeaves(key, items, i) <==> ItemReported(key, items, i, leaf)
    decreases items, 0
  {
    hide Reported, Leaves, Indexed;
    if items != [] {
      hide ItemReported;
      LeavesExactly(Indexed(key, i), items[0], leaf);
      ItemsExactly(key, items[1..], i + 1, leaf);
      ItemStep(key, items, i, leaf);
    }
  }

  /** A string below a top-level table. */
  ghost predicate InTable(config: seq<Entry>, leaf: (string, string)) {
    exists e | e in config :: e.value.Table? && Reported(e.name, e.value, leaf)
  }

  lemma {:induction false} NestedExactly(config: seq<Entry>, leaf: (string, string))
    ensures leaf in Nested(config) <==> InTable(config, leaf)
  {
    hide Reported, Leaves;
    if config != [] {
      NestedExactly(config[1..], leaf);
      LeavesExactly(config[0].name, config[0].value, leaf);
      assert forall e :: e in config <==> e == config[0] || e in config[1..];
    }
  }

  lemma {:induction false} TopLevelExactly(config: seq<Entry>, leaf: (string, string))
    ensures leaf in TopLevel(config) <==> Entry(leaf.0, Str(leaf.1)) in config
  {
    if config != [] { TopLevelExactly(config[1..], leaf); }
  }

  /** The map keeps one of the strings found under each key, and has no other key. */
  lemma {:induction false} InsertedFrom(m: map<string, string>, leaves: seq<(string, string)>)
    ensures forall k :: k in Inserted(m, leaves) <==> k in m || exists leaf | leaf in leaves :: leaf.0 == k
    ensures forall k | k in Inserted(m, leaves) ::
              (k, Inserted(m, leaves)[k]) in leaves || (k in m && Inserted(m, leaves)[k] == m[k])
    decreases leaves
  {
    if leaves != [] { InsertedFrom(m[leaves[0].0 := leaves[0].1], leaves[1..]); }
  }

  lemma {:induction false} FieldsExactly(order: seq<string>, m: map<string, string>, f: (string, string))
    requires forall k | k in order :: k in m
    ensures f in Fields(order, m) <==> f.0 in order && m[f.0] == f.1
  {
    if order != [] { FieldsExactly(order[1..], m, f); }
  }

  /**
   The fields both passes visit: every top-level string, and below the top-level tables one string for every key that
   has any.
   */
  lemma FieldsOfConfig(config: seq<Entry>, order: seq<string>)
    requires Iterates(order, Inserted(map[], Nested(config)))
    ensures forall f | f in AllFields(config, order) :: Entry(f.0, Str(f.1)) in config || InTable(config, f)
    ensures forall k, s | Entry(k, Str(s)) in config :: (k, s) in AllFields(config, order)
    ensures forall leaf | InTable(config, leaf) :: exists f | f in AllFields(config, order) :: f.0 == leaf.0
  {
    hide InTable, TopLevel, Nested, Inserted, Fields;
    var m := Inserted(map[], Nested(config));
    InsertedFrom(map[], Nested(config));
    forall f: (string, string)
      ensures f in AllFields(config, order) <==>
              Entry(f.0, Str(f.1)) in config || (f.0 in m && m[f.0] == f.1)
    {
      TopLevelExactly(config, f);
      FieldsExactly(order, m, f);
    }
    forall f | f in AllFields(config, order) ensures Entry(f.0, Str(f.1)) in config || InTable(config, f) {
      NestedExactly(config, f);
    }
    forall k, s | Entry(k, Str(s)) in config ensures (k, s) in AllFields(config, order) {
      assert (k, s).0 == k && (k, s).1 == s;
    }
    forall leaf | InTable(config, leaf) ensures exists f | f in AllFields(config, order) :: f.0 == leaf.0 {
      NestedExactly(config, leaf);
      assert leaf.0 in m;
      assert (leaf.0, m[leaf.0]) in AllFields(config, order);
    }
  }
}
