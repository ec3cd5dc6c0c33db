/** `scenario_store.py`: scenarios, their runs, and the index of runs by scenario, which is also
    rebuilt from the saved file. Ids and names are any strings; `strip` and `lower` are parameters,
    of which only that stripping twice is stripping once is used. */
module ScenarioStore {
  import opened Wrappers

  datatype Scenario = Scenario(id: string, name: string, detail: string)

  datatype Run = Run(runId: string, scenarioId: string, detail: string)

  /** A dictionary of runs in insertion order. */
  type Runs = seq<(string, Run)>

  type Index = map<string, seq<string>>

  datatype CreateError = MaxScenariosExceeded | ScenarioIdExists | ScenarioNameExists

  /** `str.strip` and `str.lower`. */
  datatype Text = Text(strip: string -> string, lower: string -> string)

  ghost predicate IsText(text: Text) { forall s: string :: text.strip(text.strip(s)) == text.strip(s) }

  // ----- ordered dictionary -----

  predicate Has(runs: Runs, key: string) { exists i :: 0 <= i < |runs| && runs[i].0 == key }

  predicate Unique(runs: Runs) { forall i, j :: 0 <= i < j < |runs| ==> runs[i].0 != runs[j].0 }

  function Put(runs: Runs, key: string, run: Run): Runs {
    if runs == [] then [(key, run)]
    else if runs[0].0 == key then [(key, run)] + runs[1..]
    else [runs[0]] + Put(runs[1..], key, run)
  }

  function Pop(runs: Runs, key: string): Runs {
    if runs == [] then []
    else if runs[0].0 == key then runs[1..]
    else [runs[0]] + Pop(runs[1..], key)
  }

  function Get(runs: Runs, key: string): Option<Run> {
    if runs == [] then None else if runs[0].0 == key then Some(runs[0].1) else Get(runs[1..], key)
  }

  // ----- the index -----

  /** The ids of a scenario's runs, in insertion order. */
  function IdsFor(runs: Runs, scenarioId: string): seq<string> {
    if runs == [] then []
    else IdsFor(runs[..|runs| - 1], scenarioId)
         + if runs[|runs| - 1].1.scenarioId == scenarioId then [runs[|runs| - 1].0] else []
  }

  function Entry(index: Index, scenarioId: string): seq<string> {
    if scenarioId in index then index[scenarioId] else []
  }

  /** `index.setdefault(s, []).append(id)` */
  function Append(index: Index, scenarioId: string, runId: string): Index {
    index[scenarioId := Entry(index, scenarioId) + [runId]]
  }

  /** The index lists, for each scenario with runs, exactly its runs in insertion order. */
  ghost predicate Exact(index: Index, runs: Runs) {
    && (forall s :: Entry(index, s) == IdsFor(runs, s))
    && (forall s :: s in index ==> index[s] != [])
  }

  lemma {:induction false} PutFresh(runs: Runs, key: string, run: Run)
    requires !Has(runs, key)
    ensures Put(runs, key, run) == runs + [(key, run)]
    decreases |runs|
  {
    if runs != [] {
      assert runs[0].0 != key;
      assert forall i :: 0 <= i < |runs[1..]| ==> runs[1..][i] == runs[i + 1];
      PutFresh(runs[1..], key, run);
    }
  }

  lemma IdsForSnoc(runs: Runs, entry: (string, Run), s: string)
    ensures IdsFor(runs + [entry], s) == IdsFor(runs, s) + if entry.1.scenarioId == s then [entry.0] else []
  {
    assert (runs + [entry])[..|runs + [entry]| - 1] == runs;
  }

  lemma ExactAfterAppend(index: Index, runs: Runs, key: string, run: Run)
    requires Exact(index, runs)
    ensures Exact(Append(index, run.scenarioId, key), runs + [(key, run)])
  {
    hide IdsFor;
    var index' := Append(index, run.scenarioId, key);
    forall s ensures Entry(index', s) == IdsFor(runs + [(key, run)], s) {
      IdsForSnoc(runs, (key, run), s);
      assert Entry(index', s) == if s == run.scenarioId then Entry(index, s) + [key] else Entry(index, s);
      assert IdsFor(runs, s) + [] == IdsFor(runs, s);
    }
  }

  /** Entries of the dictionary and entries of the index are the same things. */
  lemma {:induction false} IdsForHolds(runs: Runs, s: string, id: string)
    ensures id in IdsFor(runs, s) <==> exists i :: 0 <= i < |runs| && runs[i].0 == id && runs[i].1.scenarioId == s
    decreases |runs|
  {
    if runs != [] {
      var front := runs[..|runs| - 1];
      IdsForHolds(front, s, id);
      if i :| 0 <= i < |runs| && runs[i].0 == id && runs[i].1.scenarioId == s {
        if i < |front| { assert front[i] == runs[i]; }
      }
      if i :| 0 <= i < |front| && front[i].0 == id && front[i].1.scenarioId == s { assert runs[i] == front[i]; }
    }
  }

  lemma {:induction false} PutKnown(runs: Runs, key: string, run: Run) returns (i: nat)
    requires Has(runs, key)
    ensures i < |runs| && runs[i].0 == key && Put(runs, key, run) == runs[i := (key, run)]
    decreases |runs|
  {
    if runs[0].0 == key {
      i := 0;
    } else {
      var j :| 0 <= j < |runs| && runs[j].0 == key;
      assert runs[1..][j - 1].0 == key;
      var k := PutKnown(runs[1..], key, run);
      i := k + 1;
    }
  }

  lemma {:induction false} IdsForUpdate(runs: Runs, i: nat, run: Run, s: string)
    requires i < |runs| && runs[i].1.scenarioId == run.scenarioId
    ensures IdsFor(runs[i := (runs[i].0, run)], s) == IdsFor(runs, s)
    decreases |runs|
  {
    var last := |runs| - 1;
    var updated := runs[i := (runs[i].0, run)];
    if i == last {
      assert updated[..last] == runs[..last];
    } else {
      assert updated[..last] == runs[..last][i := (runs[i].0, run)] && updated[last] == runs[last];
      IdsForUpdate(runs[..last], i, run, s);
    }
  }

  /** Adding a run keeps the index exact if and only if its id is fresh. */
  lemma AddKeepsExactness(index: Index, runs: Runs, run: Run)
    requires Exact(index, runs) && Unique(runs)
    ensures (&& Unique(Put(runs, run.runId, run))
             && Exact(Append(index, run.scenarioId, run.runId), Put(runs, run.runId, run)))
            <==> !Has(runs, run.runId)
  {
    hide IdsFor;
    var key, t := run.runId, run.scenarioId;
    var index', runs' := Append(index, t, key), Put(runs, key, run);
    if !Has(runs, key) {
      PutFresh(runs, key, run);
      ExactAfterAppend(index, runs, key, run);
      assert Unique(runs + [(key, run)]);
    } else {
      var i := PutKnown(runs, key, run);
      var s := runs[i].1.scenarioId;
      if s == t {
        IdsForUpdate(runs, i, run, t);
        assert |Entry(index', t)| == |IdsFor(runs', t)| + 1;
      } else {
        IdsForHolds(runs, s, key);
        IdsForHolds(runs', s, key);
        assert forall j :: 0 <= j < |runs| && j != i ==> runs'[j].0 == runs[j].0 != runs[i].0;
        assert key in Entry(index', s) && key !in IdsFor(runs', s);
      }
    }
  }

  // ----- taking a scenario's runs away -----

  function Without(runs: Runs, scenarioId: string): Runs {
    if runs == [] then []
    else
      var front := Without(runs[..|runs| - 1], scenarioId);
      if runs[|runs| - 1].1.scenarioId == scenarioId then front else front + [runs[|runs| - 1]]
  }

  lemma {:induction false} IdsForWithout(runs: Runs, s: string, t: string)
    ensures IdsFor(Without(runs, s), t) == if t == s then [] else IdsFor(runs, t)
    decreases |runs|
  {
    if runs != [] {
      IdsForWithout(runs[..|runs| - 1], s, t);
      IdsForSnoc(Without(runs[..|runs| - 1], s), runs[|runs| - 1], t);
      assert IdsFor(runs[..|runs| - 1], t) + [] == IdsFor(runs[..|runs| - 1], t);
    }
  }

  lemma {:induction false} WithoutSubset(runs: Runs, s: string, k: nat)
    requires k < |Without(runs, s)|
    ensures exists i :: 0 <= i < |runs| && runs[i] == Without(runs, s)[k] && runs[i].1.scenarioId != s
    decreases |runs|
  {
    var front := runs[..|runs| - 1];
    if k < |Without(front, s)| {
      WithoutSubset(front, s, k);
      var i :| 0 <= i < |front| && front[i] == Without(front, s)[k] && front[i].1.scenarioId != s;
      assert runs[i] == front[i];
    } else {
      assert runs[|runs| - 1] == Without(runs, s)[k];
    }
  }

  lemma {:induction false} WithoutIsUnique(runs: Runs, s: string)
    requires Unique(runs)
    ensures Unique(Without(runs, s))
    decreases |runs|
  {
    if runs != [] {
      var front, last := runs[..|runs| - 1], runs[|runs| - 1];
      WithoutIsUnique(front, s);
      var rest := Without(front, s);
      forall k | 0 <= k < |rest| ensures rest[k].0 != last.0 {
        WithoutSubset(front, s, k);
        var i :| 0 <= i < |front| && front[i] == rest[k] && front[i].1.scenarioId != s;
        assert runs[i].0 != runs[|runs| - 1].0;
      }
    }
  }

  lemma {:induction false} PopSnoc(runs: Runs, entry: (string, Run), key: string)
    requires Unique(runs + [entry])
    ensures Pop(runs + [entry], key) == if entry.0 == key then runs else Pop(runs, key) + [entry]
    decreases |runs|
  {
    var all := runs + [entry];
    if runs == [] {
      assert all[1..] == [];
    } else {
      assert all[0] == runs[0] && all[1..] == runs[1..] + [entry];
      assert all[0].0 != all[|all| - 1].0;
      assert Unique(runs[1..] + [entry]) by { assert forall i :: 0 <= i < |all[1..]| ==> all[1..][i] == all[i + 1]; }
      if runs[0].0 != key { PopSnoc(runs[1..], entry, key); }
    }
  }

  function PopAll(runs: Runs, keys: seq<string>): Runs
    decreases |keys|
  {
    if keys == [] then runs else PopAll(Pop(runs, keys[0]), keys[1..])
  }

  lemma {:induction false} PopAllSnoc(runs: Runs, entry: (string, Run), keys: seq<string>)
    requires Unique(runs + [entry]) && entry.0 !in keys
    ensures PopAll(runs + [entry], keys) == PopAll(runs, keys) + [entry]
    decreases |keys|
  {
    if keys != [] {
      PopSnoc(runs, entry, keys[0]);
      PopIsUnique(runs + [entry], keys[0]);
      PopAllSnoc(Pop(runs, keys[0]), entry, keys[1..]);
    }
  }

  lemma {:induction false} PopIsUnique(runs: Runs, key: string)
    requires Unique(runs)
    ensures Unique(Pop(runs, key))
    ensures forall k :: 0 <= k < |Pop(runs, key)| ==> Has(runs, Pop(runs, key)[k].0)
    decreases |runs|
  {
    if runs != [] {
      var rest := runs[1..];
      assert forall i :: 0 <= i < |rest| ==> rest[i] == runs[i + 1] && rest[i].0 != runs[0].0;
      PopIsUnique(rest, key);
      if runs[0].0 == key {
        forall k | 0 <= k < |rest| ensures Has(runs, rest[k].0) { assert runs[k + 1].0 == rest[k].0; }
      } else {
        var popped := Pop(rest, key);
        forall k | 0 <= k < |popped| ensures Has(runs, popped[k].0) && popped[k].0 != runs[0].0 {
          var i :| 0 <= i < |rest| && rest[i].0 == popped[k].0;
          assert runs[i + 1].0 == popped[k].0;
        }
        assert runs[0].0 == runs[0].0 && Has(runs, runs[0].0);
      }
    }
  }

  /** Popping the indexed ids of a scenario takes exactly its runs away. */
  lemma {:induction false} PopAllIds(runs: Runs, s: string)
    requires Unique(runs)
    ensures PopAll(runs, IdsFor(runs, s)) == Without(runs, s)
    decreases |runs|
  {
    if runs != [] {
      var front, last := runs[..|runs| - 1], runs[|runs| - 1];
      assert runs == front + [last];
      assert Unique(front);
      PopAllIds(front, s);
      var ids := IdsFor(front, s);
      IdsForHolds(front, s, last.0);
      assert last.0 !in ids by {
        assert forall i :: 0 <= i < |front| ==> front[i].0 == runs[i].0 != runs[|runs| - 1].0;
      }
      PopAllSnoc(front, last, ids);
      if last.1.scenarioId == s {
        PopAllThenOne(runs, ids, last.0);
        WithoutIsUnique(front, s);
        PopSnoc(Without(front, s), last, last.0) by { AppendKeepsUnique(front, last, s); }
      } else {
        assert ids + [] == ids;
      }
    }
  }

  lemma AppendKeepsUnique(front: Runs, last: (string, Run), s: string)
    requires Unique(front + [last])
    ensures Unique(Without(front, s) + [last])
  {
    var runs, rest := front + [last], Without(front, s);
    assert Unique(front) by { assert forall i :: 0 <= i < |front| ==> front[i] == runs[i]; }
    WithoutIsUnique(front, s);
    forall k | 0 <= k < |rest| ensures rest[k].0 != last.0 {
      WithoutSubset(front, s, k);
      var i :| 0 <= i < |front| && front[i] == rest[k] && front[i].1.scenarioId != s;
      assert runs[i].0 != runs[|runs| - 1].0;
    }
  }

  lemma {:induction false} PopAllThenOne(runs: Runs, keys: seq<string>, key: string)
    ensures PopAll(runs, keys + [key]) == Pop(PopAll(runs, keys), key)
    decreases |keys|
  {
    if keys == [] {
      assert keys + [key] == [key] && [key][1..] == [];
      assert PopAll(runs, [key]) == PopAll(Pop(runs, key), []);
    } else {
      assert (keys + [key])[1..] == keys[1..] + [key];
      PopAllThenOne(Pop(runs, keys[0]), keys[1..], key);
    }
  }

  // ----- the store -----

  function Normalized(text: Text, name: string): string { text.lower(text.strip(name)) }

  predicate NameTaken(text: Text, scenarios: map<string, Scenario>, name: string) {
    exists id :: id in scenarios && Normalized(text, scenarios[id].name) == Normalized(text, name)
  }

  ghost predicate NamesDiffer(text: Text, scenarios: map<string, Scenario>) {
    forall a, b :: a in scenarios && b in scenarios && a != b ==>
      Normalized(text, scenarios[a].name) != Normalized(text, scenarios[b].name)
  }

  /** The runs of a scenario, in insertion order. */
  function RunsFor(runs: Runs, scenarioId: string): seq<Run> {
    if runs == [] then []
    else RunsFor(runs[..|runs| - 1], scenarioId)
         + if runs[|runs| - 1].1.scenarioId == scenarioId then [runs[|runs| - 1].1] else []
  }

  lemma {:induction false} GetUnique(runs: Runs, i: nat)
    requires Unique(runs) && i < |runs|
    ensures Get(runs, runs[i].0) == Some(runs[i].1)
    decreases |runs|
  {
    if i > 0 {
      assert forall j :: 0 <= j < |runs[1..]| ==> runs[1..][j] == runs[j + 1];
      GetUnique(runs[1..], i - 1);
    }
  }

  lemma {:induction false} IdsNameRuns(runs: Runs, all: Runs, s: string)
    requires Unique(all) && runs <= all
    ensures |IdsFor(runs, s)| == |RunsFor(runs, s)|
    ensures forall i :: 0 <= i < |IdsFor(runs, s)| ==> Get(all, IdsFor(runs, s)[i]) == Some(RunsFor(runs, s)[i])
    decreases |runs|
  {
    if runs != [] {
      assert runs[|runs| - 1] == all[|runs| - 1];
      GetUnique(all, |runs| - 1);
      IdsNameRuns(runs[..|runs| - 1], all, s);
    }
  }

  class ScenarioStore {
    const maxScenarios: nat
    const text: Text
    var scenarios: map<string, Scenario>
    var runs: Runs
    var runsByScenario: Index

    /** Runs are unique by id and the index lists exactly them. */
    ghost predicate Valid()
      reads this
    {
      Unique(runs) && Exact(runsByScenario, runs)
    }

    constructor (maxScenarios: int, text: Text)
      ensures Valid() && scenarios == map[] && runs == [] && NamesDiffer(text, scenarios) && this.text == text
      ensures this.maxScenarios == if maxScenarios < 1 then 1 else maxScenarios
    {
      this.maxScenarios, this.text := if maxScenarios < 1 then 1 else maxScenarios, text;
      scenarios, runs, runsByScenario := map[], [], map[];
    }

    /** A scenario is taken exactly when there is room and neither its id nor its name is known;
        names stay different up to case and surrounding blanks. */
    method CreateScenario(scenario: Scenario) returns (error: Option<CreateError>)
      requires Valid()
      modifies this
      ensures Valid() && runs == old(runs) && runsByScenario == old(runsByScenario)
      ensures error == Some(MaxScenariosExceeded) <==> |old(scenarios)| >= maxScenarios
      ensures error == Some(ScenarioIdExists) <==>
                |old(scenarios)| < maxScenarios && scenario.id in old(scenarios)
      ensures error.None? <==>
                && |old(scenarios)| < maxScenarios && scenario.id !in old(scenarios)
                && forall id :: id in old(scenarios) ==>
                     text.lower(text.strip(old(scenarios)[id].name)) != text.lower(text.strip(scenario.name))
      ensures scenarios == if error.None? then old(scenarios)[scenario.id := scenario] else old(scenarios)
      ensures old(NamesDiffer(text, scenarios)) ==> NamesDiffer(text, scenarios)
    {
      if |scenarios| >= maxScenarios { return Some(MaxScenariosExceeded); }
      if scenario.id in scenarios { return Some(ScenarioIdExists); }
      if NameTaken(text, scenarios, scenario.name) { return Some(ScenarioNameExists); }
      scenarios := scenarios[scenario.id := scenario];
      return None;
    }

    /** A run with a fresh id goes to the end of the dictionary and of its scenario's list; a
        known id, which the source does not rule out, leaves an index that is no longer exact. */
    method AddRun(run: Run)
      requires Valid()
      modifies this
      ensures scenarios == old(scenarios) && runs == Put(old(runs), run.runId, run)
      ensures Valid() <==> !Has(old(runs), run.runId)
      ensures !Has(old(runs), run.runId) ==> runs == old(runs) + [(run.runId, run)]
    {
      hide Exact;
      AddKeepsExactness(runsByScenario, runs, run);
      if !Has(runs, run.runId) { PutFresh(runs, run.runId, run); }
      runs := Put(runs, run.runId, run);
      runsByScenario := Append(runsByScenario, run.scenarioId, run.runId);
    }

    /** Deleting a scenario takes exactly its runs away; an unknown id changes nothing. */
    method DeleteScenario(scenarioId: string) returns (deleted: bool)
      requires Valid()
      modifies this
      ensures Valid() && deleted == (scenarioId in old(scenarios))
      ensures scenarios == old(scenarios) - {scenarioId}
      ensures runs == if deleted then Without(old(runs), scenarioId) else old(runs)
      ensures deleted ==> RunsFor(runs, scenarioId) == []
    {
      if scenarioId !in scenarios {
        assert scenarios == scenarios - {scenarioId};
        return false;
      }
      hide IdsFor, Pop, Unique;
      scenarios := scenarios - {scenarioId};
      var ids := Entry(runsByScenario, scenarioId);
      PopAllIds(runs, scenarioId);
      runsByScenario := runsByScenario - {scenarioId};
      assert ids[0..] == ids;
      for i := 0 to |ids|
        invariant PopAll(runs, ids[i..]) == Without(old(runs), scenarioId)
        invariant scenarios == old(scenarios) - {scenarioId} && runsByScenario == old(runsByScenario) - {scenarioId}
      {
        assert ids[i..][1..] == ids[i + 1..];
        runs := Pop(runs, ids[i]);
      }
      WithoutIsUnique(old(runs), scenarioId);
      forall s ensures Entry(runsByScenario, s) == IdsFor(runs, s) { IdsForWithout(old(runs), scenarioId, s); }
      IdsNameRuns(runs, runs, scenarioId);
      return true;
    }

    /** The newest runs of a scenario, newest first. */
    method ListRunsForScenario(scenarioId: string, limit: int) returns (selected: seq<Run>)
      requires Valid()
      ensures var all := RunsFor(runs, scenarioId);
              var count := if limit < 1 then 1 else limit;
              && |selected| == (if |all| < count then |all| else count)
              && forall i :: 0 <= i < |selected| ==> selected[i] == all[|all| - 1 - i]
    {
      var ids := Entry(runsByScenario, scenarioId);
      IdsNameRuns(runs, runs, scenarioId);
      ghost var all := RunsFor(runs, scenarioId);
      var count := if limit < 1 then 1 else limit;
      var start := if |ids| > count then |ids| - count else 0;
      selected := [];
      var k := |ids|;
      while k > start
        invariant start <= k <= |ids| && |selected| == |ids| - k
        invariant forall i :: 0 <= i < |selected| ==> selected[i] == all[|all| - 1 - i]
      {
        k := k - 1;
        var run := Get(runs, ids[k]);
        if run.Some? { selected := selected + [run.value]; }
      }
    }
  }

  // ----- rebuilding from the saved file -----

  /** The list of runs a save writes. */
  function Saved(runs: Runs): seq<Run> { seq(|runs|, i requires 0 <= i < |runs| => runs[i].1) }

  /** An id that a reload keeps as it is. */
  predicate Proper(text: Text, id: string) { id != "" && text.strip(id) == id }

  /** The run part of `_load_state`: ids are stripped, blank ones skipped. */
  method LoadRuns(text: Text, saved: seq<Run>) returns (runs: Runs, index: Index)
    ensures runs == Reloaded(text, saved).0 && index == Reloaded(text, saved).1
  {
    runs, index := [], map[];
    for i := 0 to |saved|
      invariant (runs, index) == Reloaded(text, saved[..i])
    {
      assert saved[..i + 1][..i] == saved[..i];
      var runId, scenarioId := text.strip(saved[i].runId), text.strip(saved[i].scenarioId);
      if runId == "" || scenarioId == "" { continue; }
      runs := Put(runs, runId, saved[i]);
      index := Append(index, scenarioId, runId);
    }
    assert saved[..|saved|] == saved;
  }

  function Reloaded(text: Text, saved: seq<Run>): (Runs, Index) {
    if saved == [] then ([], map[])
    else
      var (runs, index) := Reloaded(text, saved[..|saved| - 1]);
      var run := saved[|saved| - 1];
      var runId, scenarioId := text.strip(run.runId), text.strip(run.scenarioId);
      if runId == "" || scenarioId == "" then (runs, index)
      else (Put(runs, runId, run), Append(index, scenarioId, runId))
  }

  ghost predicate AllProper(text: Text, runs: Runs) {
    forall i :: 0 <= i < |runs| ==> Proper(text, runs[i].1.runId) && Proper(text, runs[i].1.scenarioId)
  }

  /** Dictionary keys are the run ids. */
  predicate Keyed(runs: Runs) { forall i :: 0 <= i < |runs| ==> runs[i].0 == runs[i].1.runId }

  lemma {:induction false} ReloadRestores(text: Text, runs: Runs)
    requires Unique(runs) && Keyed(runs) && AllProper(text, runs)
    ensures Reloaded(text, Saved(runs)).0 == runs && Exact(Reloaded(text, Saved(runs)).1, runs)
    decreases |runs|
  {
    hide Exact, IdsFor;
    if runs == [] {
      assert Exact(map[], []) by { NothingIsExact(); }
    } else {
      var front, last := runs[..|runs| - 1], runs[|runs| - 1];
      assert Saved(runs)[..|runs| - 1] == Saved(front) && Saved(runs)[|runs| - 1] == last.1;
      assert forall i :: 0 <= i < |front| ==> front[i] == runs[i];
      ReloadRestores(text, front);
      assert !Has(front, last.0);
      PutFresh(front, last.0, last.1);
      ExactAfterAppend(Reloaded(text, Saved(front)).1, front, last.0, last.1);
      assert runs == front + [last];
    }
  }

  lemma NothingIsExact()
    ensures Exact(map[], [])
  {}

  lemma {:induction false} ReloadedIsProper(text: Text, saved: seq<Run>, s: string)
    requires IsText(text)
    ensures s in Reloaded(text, saved).1 ==> Proper(text, s)
    ensures forall id :: id in Entry(Reloaded(text, saved).1, s) ==> Proper(text, id)
    decreases |saved|
  {
    if saved != [] {
      ReloadedIsProper(text, saved[..|saved| - 1], s);
    }
  }

  /** Main result: rebuilding from the saved runs gives an index that lists exactly the runs
      again if and only if no id is blank or padded with white space. */
  lemma ReloadGivesTheSameIndex(text: Text, runs: Runs)
    requires IsText(text) && Unique(runs) && Keyed(runs)
    ensures Exact(Reloaded(text, Saved(runs)).1, runs) <==> AllProper(text, runs)
  {
    hide IdsFor, Proper;
    if AllProper(text, runs) { ReloadRestores(text, runs); }
    var index := Reloaded(text, Saved(runs)).1;
    if Exact(index, runs) {
      forall i | 0 <= i < |runs| ensures Proper(text, runs[i].1.runId) && Proper(text, runs[i].1.scenarioId) {
        var s := runs[i].1.scenarioId;
        IdsForHolds(runs, s, runs[i].0);
        ReloadedIsProper(text, Saved(runs), s);
        assert runs[i].0 in Entry(index, s);
      }
    }
  }
}
