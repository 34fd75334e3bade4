/** `traverse_config` and `variable_placeholder_substitute` as loops over the configuration. */
module ConfigSubstitute {
  import opened Wrappers
  import opened ConfigExpand
  import opened ConfigNoninterference
  import opened ConfigOutcome

  /** The shared map the traversal closure inserts into. */
  class LeafMap {
    var leaves: map<string, string>

    constructor ()
      ensures leaves == map[]
    {
      leaves := map[];
    }
  }

  lemma {:induction false} InsertedAppend(m: map<string, string>, a: seq<(string, string)>, b: seq<(string, string)>)
    ensures Inserted(m, a + b) == Inserted(Inserted(m, a), b)
    decreases a
  {
    if a == [] {
      assert a + b == b;
    } else {
      assert (a + b)[0] == a[0] && (a + b)[1..] == a[1..] + b;
      InsertedAppend(m[a[0].0 := a[0].1], a[1..], b);
    }
  }

  method Traverse(key: string, v: Value, out: LeafMap)
    modifies out
    ensures out.leaves == Inserted(old(out.leaves), Leaves(key, v))
    decreases v, 1
  {
    match v
    case Str(s) =>
      out.leaves := out.leaves[key := s];
      InsertOne(old(out.leaves), key, s);
    case Table(entries) => TraverseTable(key, entries, out);
    case Array(items) => TraverseArray(key, items, out);
    case Other =>
  }

  lemma InsertOne(m: map<string, string>, key: string, s: string)
    ensures Inserted(m, [(key, s)]) == m[key := s]
  {
    assert [(key, s)][1..] == [];
    assert Inserted(m[key := s], []) == m[key := s];
  }

  method TraverseTable(key: string, entries: seq<Entry>, out: LeafMap)
    modifies out
    ensures out.leaves == Inserted(old(out.leaves), EntryLeaves(key, entries))
    decreases entries, 0
  {
    hide Leaves;
    for i := 0 to |entries|
      invariant Inserted(out.leaves, EntryLeaves(key, entries[i..])) ==
                Inserted(old(out.leaves), EntryLeaves(key, entries))
    {
      assert entries[i..][0] == entries[i] && entries[i..][1..] == entries[i + 1..];
      var newKey := Join(key, entries[i].name);
      InsertedAppend(out.leaves, Leaves(newKey, entries[i].value), EntryLeaves(key, entries[i + 1..]));
      Traverse(newKey, entries[i].value, out);
    }
  }

  method TraverseArray(key: string, items: seq<Value>, out: LeafMap)
    modifies out
    ensures out.leaves == Inserted(old(out.leaves), ItemLeaves(key, items, 0))
    decreases items, 0
  {
    hide Leaves, Indexed;
    for i := 0 to |items|
      invariant Inserted(out.leaves, ItemLeaves(key, items[i..], i)) ==
                Inserted(old(out.leaves), ItemLeaves(key, items, 0))
    {
      assert items[i..][0] == items[i] && items[i..][1..] == items[i + 1..];
      InsertedAppend(out.leaves, Leaves(Indexed(key, i), items[i]), ItemLeaves(key, items[i + 1..], i + 1));
      Traverse(Indexed(key, i), items[i], out);
    }
  }

  /** The nested pass collects the string leaves of the top-level tables. */
  method CollectNested(config: seq<Entry>) returns (values: map<string, string>)
    ensures values == Inserted(map[], Nested(config))
  {
    hide Leaves;
    var out := new LeafMap();
    for i := 0 to |config|
      invariant Inserted(out.leaves, Nested(config[i..])) == Inserted(map[], Nested(config))
    {
      assert config[i..][0] == config[i] && config[i..][1..] == config[i + 1..];
      if config[i].value.Table? {
        InsertedAppend(out.leaves, Leaves(config[i].name, config[i].value), Nested(config[i + 1..]));
        Traverse(config[i].name, config[i].value, out);
      } else {
        assert Nested(config[i..]) == Nested(config[i + 1..]);
      }
    }
    values := out.leaves;
  }

  /** Both passes, with the builder and the variable map updated field by field. */
  method VariableSubstitute(lib: Library, files: Files, config: seq<Entry>, order: seq<string>)
    returns (r: Result<Progress, ExpandError>)
    requires Iterates(order, Inserted(map[], Nested(config)))
    ensures r == Substitute(lib, files, config, order)
    ensures exists xs :: Explained(lib, files, AllFields(config, order), r, xs)
  {
    hide Visit, Leaves, Nested, Inserted, Explained, AllFields, Start;
    SubstituteExplained(lib, files, config, order);
    var p := Progress(map[], map[]);
    for i := 0 to |config|
      invariant VisitAll(lib, files, Progress(map[], map[]), TopLevel(config)) ==
                VisitAll(lib, files, p, TopLevel(config[i..]))
    {
      assert config[i..][0] == config[i] && config[i..][1..] == config[i + 1..];
      if config[i].value.Str? {
        NextField(lib, files, p, config[i].name, config[i].value.s, TopLevel(config[i + 1..]));
        p :- Visit(lib, files, p, config[i].name, config[i].value.s);
      } else {
        assert TopLevel(config[i..]) == TopLevel(config[i + 1..]);
      }
    }
    assert TopLevel(config[|config|..]) == [];
    ghost var first := p;
    var values := CollectNested(config);
    for i := 0 to |order|
      invariant VisitAll(lib, files, first, Fields(order, values)) ==
                VisitAll(lib, files, p, Fields(order[i..], values))
    {
      assert order[i..][0] == order[i] && order[i..][1..] == order[i + 1..];
      NextField(lib, files, p, order[i], values[order[i]], Fields(order[i + 1..], values));
      p :- Visit(lib, files, p, order[i], values[order[i]]);
    }
    assert Fields(order[|order|..], values) == [];
    r := Ok(p);
  }

  lemma SubstituteExplained(lib: Library, files: Files, config: seq<Entry>, order: seq<string>)
    requires Iterates(order, Inserted(map[], Nested(config)))
    ensures exists xs :: Explained(lib, files, AllFields(config, order), Substitute(lib, files, config, order), xs)
  {
    hide Substitute, AllFields, Explained, Inserted, Nested;
    OnePass(lib, files, config, order);
    RunExactly(lib, files, AllFields(config, order), Substitute(lib, files, config, order));
  }

  lemma {:induction false} NextField(
      lib: Library, files: Files, p: Progress, key: string, raw: string, rest: seq<(string, string)>)
    ensures VisitAll(lib, files, p, [(key, raw)] + rest) ==
            match Visit(lib, files, p, key, raw) case Ok(p') => VisitAll(lib, files, p', rest) case Err(e) => Err(e)
  {
    hide Visit;
    var fields := [(key, raw)] + rest;
    assert fields[0] == (key, raw) && fields[1..] == rest;
  }
}
