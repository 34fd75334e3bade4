/**
 The whole of `variable_placeholder_substitute`: which overrides and variables the two passes leave, and at which field
 they stop, in terms of the fields' own values.
 */
module ConfigOutcome {
  import opened Wrappers
  import opened ConfigExpand
  import opened ConfigNoninterference
  import opened ConfigMeaning

  type Pair = (string, string)

  // ------------------------------------------------------- what a map records

  /** `j` is the last position of `who` whose field is called `k`. */
  ghost predicate LastOf(fields: seq<Pair>, who: set<nat>, k: string, j: nat)
    requires forall i | i in who :: i < |fields|
  {
    j in who && fields[j].0 == k && forall i | i in who && fields[i].0 == k :: i <= j
  }

  /** `m` has exactly the keys of the fields at `who`, each with the value of the last of them. */
  ghost predicate Records(m: map<string, string>, fields: seq<Pair>, xs: seq<Expanded>, who: set<nat>) {
    && |xs| <= |fields| && (forall i | i in who :: i < |xs|)
    && (forall k :: k in m ==> exists j: nat :: LastOf(fields, who, k, j))
    && (forall k, j: nat | LastOf(fields, who, k, j) :: k in m && m[k] == xs[j].value)
  }

  /** The fields expanded without a file placeholder. */
  ghost function Plain(xs: seq<Expanded>): set<nat> {
    set j: nat | j < |xs| && !xs[j].fromFile
  }

  /** The fields whose value is not what was written. */
  ghost function Changed(fields: seq<Pair>, xs: seq<Expanded>): set<nat>
    requires |xs| <= |fields|
  {
    set j: nat | j < |xs| && xs[j].value != fields[j].1
  }

  lemma RecordsUnique(m: map<string, string>, m': map<string, string>, fields: seq<Pair>, xs: seq<Expanded>,
                      who: set<nat>)
    requires Records(m, fields, xs, who) && Records(m', fields, xs, who)
    ensures m == m'
  {
    hide LastOf;
    forall k | k in m ensures k in m' && m'[k] == m[k] { var j: nat :| LastOf(fields, who, k, j); }
    forall k | k in m' ensures k in m { var j: nat :| LastOf(fields, who, k, j); }
  }

  lemma RecordsNothing(fields: seq<Pair>)
    ensures Records(map[], fields, [], {})
  {
  }

  /** One more field that is not recorded. */
  lemma RecordsSkip(m: map<string, string>, fields: seq<Pair>, xs: seq<Expanded>, who: set<nat>, x: Expanded)
    requires Records(m, fields, xs, who) && |xs| < |fields|
    ensures Records(m, fields, xs + [x], who)
  {
  }

  /** One more field that is recorded. */
  lemma RecordsSnoc(m: map<string, string>, fields: seq<Pair>, xs: seq<Expanded>, who: set<nat>, x: Expanded)
    requires Records(m, fields, xs, who) && |xs| < |fields|
    ensures Records(m[fields[|xs|].0 := x.value], fields, xs + [x], who + {|xs|})
  {
    var n: nat := |xs|;
    var key, all := fields[n].0, who + {n};
    var m', xs' := m[key := x.value], xs + [x];
    assert LastOf(fields, all, key, n);
    forall k | k in m' ensures exists j: nat :: LastOf(fields, all, k, j) {
      if k != key {
        var j: nat :| LastOf(fields, who, k, j);
        assert LastOf(fields, all, k, j);
      }
    }
    forall k, j: nat | LastOf(fields, all, k, j) ensures k in m' && m'[k] == xs'[j].value {
      if k == key {
        assert n in all;
        assert j == n;
      } else {
        assert j != n;
        assert LastOf(fields, who, k, j);
      }
    }
  }

  // --------------------------------------------------------------- one field

  /** The field behind `xs` has the value `x`, given the variables its predecessors leave, and may be set. */
  ghost predicate Fine(lib: Library, files: Files, fields: seq<Pair>, xs: seq<Expanded>, x: Expanded) {
    && |xs| < |fields|
    && (x.value != fields[|xs|].1 ==> lib.settable(fields[|xs|].0))
    && exists vars ::
         Records(vars, fields, xs, Plain(xs)) && Outcome(lib, files, fields[|xs|].0, fields[|xs|].1, vars, Ok(x))
  }

  /** The field behind `xs` stops the run. */
  ghost predicate Stops(lib: Library, files: Files, fields: seq<Pair>, xs: seq<Expanded>, e: ExpandError) {
    && |xs| < |fields|
    && var key, raw := fields[|xs|].0, fields[|xs|].1;
       exists vars ::
         && Records(vars, fields, xs, Plain(xs))
         && (|| Outcome(lib, files, key, raw, vars, Err(e))
             || (&& e == SetOverrideFailed(key) && !lib.settable(key)
                 && exists x :: Outcome(lib, files, key, raw, vars, Ok(x)) && x.value != raw))
  }

  /** Each field has its value. */
  ghost predicate AllFine(lib: Library, files: Files, fields: seq<Pair>, xs: seq<Expanded>) {
    |xs| <= |fields| && forall i :: 0 <= i < |xs| ==> Fine(lib, files, fields, xs[..i], xs[i])
  }

  /** The overrides and variables are those of the values. */
  ghost predicate Left(fields: seq<Pair>, xs: seq<Expanded>, p: Progress) {
    && |xs| <= |fields|
    && Records(p.overrides, fields, xs, Changed(fields, xs)) && Records(p.vars, fields, xs, Plain(xs))
  }

  /** The result of a run, from the text of its fields. */
  ghost predicate Explained(
      lib: Library, files: Files, fields: seq<Pair>, r: Result<Progress, ExpandError>, xs: seq<Expanded>)
  {
    && AllFine(lib, files, fields, xs)
    && match r
       case Ok(p) => |xs| == |fields| && Left(fields, xs, p)
       case Err(e) => Stops(lib, files, fields, xs, e)
  }

  lemma AllFineSnoc(lib: Library, files: Files, fields: seq<Pair>, xs: seq<Expanded>, x: Expanded)
    requires AllFine(lib, files, fields, xs) && Fine(lib, files, fields, xs, x)
    ensures AllFine(lib, files, fields, xs + [x])
  {
    hide Fine;
    assert |xs| < |fields| by { FineInside(lib, files, fields, xs, x); }
    var xs' := xs + [x];
    forall i | 0 <= i < |xs'| ensures Fine(lib, files, fields, xs'[..i], xs'[i]) {
      assert xs'[..i] == if i < |xs| then xs[..i] else xs;
    }
  }

  lemma FineInside(lib: Library, files: Files, fields: seq<Pair>, xs: seq<Expanded>, x: Expanded)
    requires Fine(lib, files, fields, xs, x)
    ensures |xs| < |fields|
  {
  }

  lemma LeftSnoc(fields: seq<Pair>, xs: seq<Expanded>, p: Progress, x: Expanded)
    requires Left(fields, xs, p) && |xs| < |fields|
    ensures var key, raw := fields[|xs|].0, fields[|xs|].1;
            Left(fields, xs + [x], Progress(if x.value != raw then p.overrides[key := x.value] else p.overrides,
                                            if x.fromFile then p.vars else p.vars[key := x.value]))
  {
    hide Records;
    var n: nat := |xs|;
    var xs' := xs + [x];
    assert forall j: nat | j < n :: xs'[j] == xs[j];
    assert xs'[n] == x;
    assert Plain(xs') == Plain(xs) + (if x.fromFile then {} else {n});
    assert Changed(fields, xs') == Changed(fields, xs) + (if x.value != fields[n].1 then {n} else {});
    RecordsSkip(p.overrides, fields, xs, Changed(fields, xs), x);
    RecordsSnoc(p.overrides, fields, xs, Changed(fields, xs), x);
    RecordsSkip(p.vars, fields, xs, Plain(xs), x);
    RecordsSnoc(p.vars, fields, xs, Plain(xs), x);
    assert Plain(xs) + {} == Plain(xs) && Changed(fields, xs) + {} == Changed(fields, xs);
  }

  /** The variables a run has left are the only ones its values allow. */
  lemma OnlyVars(fields: seq<Pair>, xs: seq<Expanded>, p: Progress, vars: Vars)
    requires Left(fields, xs, p) && Records(vars, fields, xs, Plain(xs))
    ensures vars == p.vars
  {
    RecordsUnique(vars, p.vars, fields, xs, Plain(xs));
  }

  /** A visit succeeds exactly on a fine field, with its value. */
  lemma VisitFine(lib: Library, files: Files, fields: seq<Pair>, xs: seq<Expanded>, p: Progress, x: Expanded)
    requires Left(fields, xs, p) && Fine(lib, files, fields, xs, x)
    ensures Visit(lib, files, p, fields[|xs|].0, fields[|xs|].1).Ok?
    ensures Left(fields, xs + [x], Visit(lib, files, p, fields[|xs|].0, fields[|xs|].1).value)
  {
    hide ExpandValue, Outcome, Left;
    var key, raw := fields[|xs|].0, fields[|xs|].1;
    var vars :| Records(vars, fields, xs, Plain(xs)) && Outcome(lib, files, key, raw, vars, Ok(x));
    OnlyVars(fields, xs, p, vars);
    ValueExactly(lib, files, key, raw, vars, Ok(x));
    LeftSnoc(fields, xs, p, x);
  }

  lemma FineVisit(lib: Library, files: Files, fields: seq<Pair>, xs: seq<Expanded>, p: Progress) returns (x: Expanded)
    requires Left(fields, xs, p) && |xs| < |fields|
    requires Visit(lib, files, p, fields[|xs|].0, fields[|xs|].1).Ok?
    ensures Fine(lib, files, fields, xs, x)
    ensures Left(fields, xs + [x], Visit(lib, files, p, fields[|xs|].0, fields[|xs|].1).value)
  {
    hide ExpandValue, Outcome, Records;
    var key, raw := fields[|xs|].0, fields[|xs|].1;
    x := ExpandValue(lib, files, key, raw, p.vars).value;
    ValueExactly(lib, files, key, raw, p.vars, Ok(x));
    LeftSnoc(fields, xs, p, x);
  }

  lemma VisitStops(lib: Library, files: Files, fields: seq<Pair>, xs: seq<Expanded>, p: Progress, e: ExpandError)
    requires Left(fields, xs, p) && |xs| < |fields|
    ensures Visit(lib, files, p, fields[|xs|].0, fields[|xs|].1) == Err(e) <==> Stops(lib, files, fields, xs, e)
  {
    hide ExpandValue, Outcome, Records;
    var key, raw := fields[|xs|].0, fields[|xs|].1;
    ValueExactly(lib, files, key, raw, p.vars, Err(e));
    if ExpandValue(lib, files, key, raw, p.vars).Ok? {
      ValueExactly(lib, files, key, raw, p.vars, ExpandValue(lib, files, key, raw, p.vars));
    }
    if Stops(lib, files, fields, xs, e) {
      var vars :|
        && Records(vars, fields, xs, Plain(xs))
        && (|| Outcome(lib, files, key, raw, vars, Err(e))
            || (&& e == SetOverrideFailed(key) && !lib.settable(key)
                && exists x :: Outcome(lib, files, key, raw, vars, Ok(x)) && x.value != raw));
      OnlyVars(fields, xs, p, vars);
      forall x | Outcome(lib, files, key, raw, vars, Ok(x)) ensures ExpandValue(lib, files, key, raw, vars) == Ok(x) {
        ValueExactly(lib, files, key, raw, vars, Ok(x));
      }
    }
  }

  // ------------------------------------------------------------------- a run

  /** One field behind a prefix. */
  lemma VisitNext(lib: Library, files: Files, fields: seq<Pair>, n: nat)
    requires n < |fields|
    ensures var r := VisitAll(lib, files, Start(), fields[..n]);
            VisitAll(lib, files, Start(), fields[..n + 1]) ==
              if r.Ok? then Visit(lib, files, r.value, fields[n].0, fields[n].1) else r
  {
    hide Visit, VisitAll, Verdict;
    var all := fields[..n + 1];
    assert all[..n] == fields[..n] && all[n..] == [fields[n]];
    PassSplit(lib, files, Start(), all, n);
    if VisitAll(lib, files, Start(), fields[..n]).Ok? {
      OneVisit(lib, files, VisitAll(lib, files, Start(), fields[..n]).value, fields[n]);
    }
  }

  lemma OneVisit(lib: Library, files: Files, p: Progress, f: Pair)
    ensures VisitAll(lib, files, p, [f]) == Visit(lib, files, p, f.0, f.1)
  {
    hide Visit;
    assert [f][1..] == [];
  }

  /** Values for a prefix of the fields are what a run over it computes. */
  lemma {:induction false} RunFine(lib: Library, files: Files, fields: seq<Pair>, xs: seq<Expanded>)
    requires AllFine(lib, files, fields, xs)
    ensures VisitAll(lib, files, Start(), fields[..|xs|]).Ok?
    ensures Left(fields, xs, VisitAll(lib, files, Start(), fields[..|xs|]).value)
    decreases |xs|
  {
    hide Visit, VisitAll, Fine, Left;
    if xs == [] {
      NoFields(lib, files, fields);
    } else {
      var n := |xs| - 1;
      var before, x := xs[..n], xs[n];
      assert forall i :: 0 <= i < n ==> before[..i] == xs[..i] && before[i] == xs[i];
      RunFine(lib, files, fields, before);
      VisitNext(lib, files, fields, n);
      VisitFine(lib, files, fields, before, VisitAll(lib, files, Start(), fields[..n]).value, x);
      assert xs == before + [x];
    }
  }

  lemma NoFields(lib: Library, files: Files, fields: seq<Pair>)
    ensures VisitAll(lib, files, Start(), fields[..0]) == Ok(Start()) && Left(fields, [], Start())
  {
    RecordsNothing(fields);
    assert Plain([]) == {} && Changed(fields, []) == {};
  }

  /** What a run over a prefix computes are values for it. */
  lemma {:induction false} FineRun(lib: Library, files: Files, fields: seq<Pair>, n: nat) returns (xs: seq<Expanded>)
    requires n <= |fields| && VisitAll(lib, files, Start(), fields[..n]).Ok?
    ensures |xs| == n && AllFine(lib, files, fields, xs)
    ensures Left(fields, xs, VisitAll(lib, files, Start(), fields[..n]).value)
    decreases n
  {
    hide Visit, VisitAll, Fine, Left;
    if n == 0 {
      xs := [];
      NoFields(lib, files, fields);
    } else {
      VisitNext(lib, files, fields, n - 1);
      xs := FineRun(lib, files, fields, n - 1);
      var x := FineVisit(lib, files, fields, xs, VisitAll(lib, files, Start(), fields[..n - 1]).value);
      AllFineSnoc(lib, files, fields, xs, x);
      xs := xs + [x];
    }
  }

  /** Where a run fails. */
  lemma {:induction false} FirstStop(lib: Library, files: Files, fields: seq<Pair>, n: nat) returns (xs: seq<Expanded>)
    requires n <= |fields| && VisitAll(lib, files, Start(), fields[..n]).Err?
    ensures AllFine(lib, files, fields, xs)
    ensures Stops(lib, files, fields, xs, VisitAll(lib, files, Start(), fields[..n]).error)
    decreases n
  {
    hide Visit, VisitAll, Fine, Left, Stops;
    if n == 0 { NoFields(lib, files, fields); }
    VisitNext(lib, files, fields, n - 1);
    if VisitAll(lib, files, Start(), fields[..n - 1]).Ok? {
      var p := VisitAll(lib, files, Start(), fields[..n - 1]).value;
      xs := FineRun(lib, files, fields, n - 1);
      VisitStops(lib, files, fields, xs, p, VisitAll(lib, files, Start(), fields[..n]).error);
    } else {
      xs := FirstStop(lib, files, fields, n - 1);
    }
  }

  lemma StopInside(lib: Library, files: Files, fields: seq<Pair>, xs: seq<Expanded>, e: ExpandError)
    requires Stops(lib, files, fields, xs, e)
    ensures |xs| < |fields|
  {
  }

  lemma StopRuns(lib: Library, files: Files, fields: seq<Pair>, xs: seq<Expanded>, e: ExpandError)
    requires AllFine(lib, files, fields, xs) && Stops(lib, files, fields, xs, e)
    ensures VisitAll(lib, files, Start(), fields) == Err(e)
  {
    hide Visit, VisitAll, Fine, Left, Verdict, Stops;
    assert |xs| < |fields| by { StopInside(lib, files, fields, xs, e); }
    RunFine(lib, files, fields, xs);
    var p := VisitAll(lib, files, Start(), fields[..|xs|]).value;
    VisitStops(lib, files, fields, xs, p, e);
    VisitNext(lib, files, fields, |xs|);
    PassSplit(lib, files, Start(), fields, |xs| + 1);
  }

  /** A run over any fields has exactly the result its fields' text explains. */
  lemma RunExactly(lib: Library, files: Files, fields: seq<Pair>, r: Result<Progress, ExpandError>)
    ensures VisitAll(lib, files, Start(), fields) == r <==> exists xs :: Explained(lib, files, fields, r, xs)
  {
    hide VisitAll, AllFine, Left, Stops;
    assert fields[..|fields|] == fields;
    if VisitAll(lib, files, Start(), fields) == r {
      if r.Ok? {
        var xs := FineRun(lib, files, fields, |fields|);
        assert Explained(lib, files, fields, r, xs);
      } else {
        var xs := FirstStop(lib, files, fields, |fields|);
        assert Explained(lib, files, fields, r, xs);
      }
    }
    forall xs | Explained(lib, files, fields, r, xs) ensures VisitAll(lib, files, Start(), fields) == r {
      match r
      case Ok(p) =>
        RunFine(lib, files, fields, xs);
        SameProgress(fields, xs, p, VisitAll(lib, files, Start(), fields).value);
      case Err(e) =>
        StopRuns(lib, files, fields, xs, e);
    }
  }

  lemma SameProgress(fields: seq<Pair>, xs: seq<Expanded>, p: Progress, q: Progress)
    requires Left(fields, xs, p) && Left(fields, xs, q)
    ensures p == q
  {
    hide Records;
    RecordsUnique(p.overrides, q.overrides, fields, xs, Changed(fields, xs));
    RecordsUnique(p.vars, q.vars, fields, xs, Plain(xs));
  }
}
