/** `syncTables`: fan the pull and push callbacks of WatermelonDB's
    `synchronize` out to every table, merge the per-table pull results, and
    pass failures through a diagnostic handler that always rethrows. */
module SyncTables {
  import opened Common
  import opened WatermelonSync

  /** What `synchronize` passes to the pull callback. The schema version and
      the migration descriptor are opaque tokens that are only forwarded. */
  datatype PullArgs = PullArgs(lastPulledAt: Option<int>, schemaVersion: int, migration: Option<string>)

  /** What `synchronize` passes to the push callback: the local outstanding
      change set and the current watermark. */
  datatype PushArgs = PushArgs(changes: map<string, TableChanges>, lastPulledAt: int)

  /** A caller-supplied statistics callback (`onPull` / `onPush`), known to
      the model only by identity. */
  datatype Callback = Callback(tag: nat)

  /** One table's synchronizer: its name and the records its remote serves. */
  datatype Table = Table(name: string, remote: seq<Item>)

  /** One forwarded call, as the table's `pullChanges` / `pushChanges` receives it. */
  datatype PullCall = PullCall(table: string, args: PullArgs, onSync: Option<Callback>)
  datatype PushCall = PushCall(table: string, args: PushArgs, onSync: Option<Callback>)

  function Names(tables: seq<Table>): (names: set<string>)
    ensures forall i :: 0 <= i < |tables| ==> tables[i].name in names
    ensures forall n :: n in names ==> exists i :: 0 <= i < |tables| && tables[i].name == n
  {
    set i | 0 <= i < |tables| :: tables[i].name
  }

  predicate DistinctNames(tables: seq<Table>)
  {
    forall i, j :: 0 <= i < j < |tables| ==> tables[i].name != tables[j].name
  }

  // ---------------------------------------------------------------------
  // Merge of per-table change maps

  /** Two entries under the same table name, merged list by list; modelled
      as concatenation. Distinct table names never reach this. */
  function MergeEntry(a: TableChanges, b: TableChanges): TableChanges
  {
    TableChanges(a.created + b.created, a.updated + b.updated, a.deleted + b.deleted)
  }

  /** Deep-merge `m` into `acc`. */
  function MergeInto(acc: map<string, TableChanges>, m: map<string, TableChanges>): (r: map<string, TableChanges>)
    ensures r.Keys == acc.Keys + m.Keys
    ensures forall k :: k in m && k !in acc ==> r[k] == m[k]
    ensures forall k :: k in acc && k !in m ==> r[k] == acc[k]
  {
    map k | k in acc.Keys + m.Keys ::
      if k in acc && k in m then MergeEntry(acc[k], m[k])
      else if k in m then m[k]
      else acc[k]
  }

  /** `merge(...results)`, folded left to right. */
  function MergeAll(ms: seq<map<string, TableChanges>>): map<string, TableChanges>
  {
    if ms == [] then map[] else MergeInto(MergeAll(ms[..|ms| - 1]), ms[|ms| - 1])
  }

  /** The merged map has exactly the keys of the parts; with pairwise
      disjoint keys every part's entry comes through unchanged. */
  lemma {:induction false} MergeAllDisjoint(ms: seq<map<string, TableChanges>>)
    requires forall i, j :: 0 <= i < j < |ms| ==> ms[i].Keys !! ms[j].Keys
    ensures forall k :: k in MergeAll(ms) <==> exists i :: 0 <= i < |ms| && k in ms[i]
    ensures forall i, k :: 0 <= i < |ms| && k in ms[i] ==> MergeAll(ms)[k] == ms[i][k]
  {
    if ms != [] {
      var init := ms[..|ms| - 1];
      var last := ms[|ms| - 1];
      var prev := MergeAll(init);
      assert MergeAll(ms) == MergeInto(prev, last);
      assert forall i :: 0 <= i < |init| ==> init[i] == ms[i];
      MergeAllDisjoint(init);
      forall k | k in MergeAll(ms)
        ensures exists i :: 0 <= i < |ms| && k in ms[i]
      {
        if k !in last {
          assert k in prev;
          var i :| 0 <= i < |init| && k in init[i];
          assert k in ms[i];
        }
      }
      forall i, k | 0 <= i < |ms| && k in ms[i]
        ensures k in MergeAll(ms) && MergeAll(ms)[k] == ms[i][k]
      {
        if i < |ms| - 1 {
          assert k in init[i];
          assert k !in last by {
            assert ms[i].Keys !! ms[|ms| - 1].Keys;
          }
          assert prev[k] == ms[i][k];
        }
      }
    }
  }

  // ---------------------------------------------------------------------
  // Pull fan-out

  /** The merged pull answer handed back to `synchronize`; the timestamp is
      absent when there are no tables. */
  datatype MergedPull = MergedPull(changes: map<string, TableChanges>, timestamp: Option<int>)

  /** One pull round: the forwarded calls, each table's result, the merge. */
  datatype PullRound = PullRound(calls: seq<PullCall>, results: seq<PullResult>, merged: MergedPull)

  function PullCalls(tables: seq<Table>, args: PullArgs, onPull: Option<Callback>): (calls: seq<PullCall>)
    ensures |calls| == |tables|
    ensures forall i :: 0 <= i < |tables| ==> calls[i] == PullCall(tables[i].name, args, onPull)
  {
    if tables == [] then []
    else PullCalls(tables[..|tables| - 1], args, onPull) + [PullCall(tables[|tables| - 1].name, args, onPull)]
  }

  function PullResults(tables: seq<Table>, args: PullArgs, onPull: Option<Callback>, clocks: seq<int>): (rs: seq<PullResult>)
    requires |clocks| == |tables|
    ensures |rs| == |tables|
    ensures forall i :: 0 <= i < |tables| ==>
              rs[i] == PullChanges(tables[i].name, tables[i].remote, args.lastPulledAt, clocks[i], onPull.Some?)
  {
    seq(|tables|, i requires 0 <= i < |tables| =>
      PullChanges(tables[i].name, tables[i].remote, args.lastPulledAt, clocks[i], onPull.Some?))
  }

  function ChangeMaps(rs: seq<PullResult>): (ms: seq<map<string, TableChanges>>)
    ensures |ms| == |rs|
    ensures forall i :: 0 <= i < |rs| ==> ms[i] == rs[i].changes
  {
    if rs == [] then [] else ChangeMaps(rs[..|rs| - 1]) + [rs[|rs| - 1].changes]
  }

  /** The timestamp surviving the deep merge: the last result's. */
  function LastTimestamp(rs: seq<PullResult>): (t: Option<int>)
    ensures t.Some? <==> |rs| > 0
    ensures t.Some? ==> exists i :: 0 <= i < |rs| && rs[i].timestamp == t.value
  {
    if rs == [] then None else Some(rs[|rs| - 1].timestamp)
  }

  /** With distinct names, the per-table change maps have disjoint keys, so
      the merge keeps each table's entry. */
  lemma MergeDistinctTables(tables: seq<Table>, results: seq<PullResult>)
    requires |results| == |tables|
    requires forall i :: 0 <= i < |tables| ==> results[i].changes.Keys == {tables[i].name}
    ensures DistinctNames(tables) ==> MergeAll(ChangeMaps(results)).Keys == Names(tables)
    ensures DistinctNames(tables) ==> forall i :: 0 <= i < |tables| ==>
              MergeAll(ChangeMaps(results))[tables[i].name] == results[i].changes[tables[i].name]
  {
    if DistinctNames(tables) {
      var ms := ChangeMaps(results);
      MergeAllDisjoint(ms);
    }
  }

  /** Every table's pull answer is keyed by that table's name alone. */
  lemma PullResultsKeys(tables: seq<Table>, args: PullArgs, onPull: Option<Callback>, clocks: seq<int>)
    requires |clocks| == |tables|
    ensures forall i :: 0 <= i < |tables| ==> PullResults(tables, args, onPull, clocks)[i].changes.Keys == {tables[i].name}
  {
    var rs := PullResults(tables, args, onPull, clocks);
    forall i | 0 <= i < |tables|
      ensures rs[i].changes.Keys == {tables[i].name}
    {
      var r := PullChanges(tables[i].name, tables[i].remote, args.lastPulledAt, clocks[i], onPull.Some?);
      assert rs[i] == r;
    }
  }

  /** The pull callback: every table is pulled with the same arguments and
      the same `onPull`; `clocks[i]` is table i's clock read. With distinct
      table names the merged change set holds exactly one entry per table,
      equal to that table's own pull result. */
  function PullAll(tables: seq<Table>, args: PullArgs, onPull: Option<Callback>, clocks: seq<int>): (r: PullRound)
    requires |clocks| == |tables|
    ensures |r.calls| == |tables| && |r.results| == |tables|
    ensures forall i :: 0 <= i < |tables| ==> r.calls[i] == PullCall(tables[i].name, args, onPull)
    ensures forall i :: 0 <= i < |tables| ==>
              r.results[i] == PullChanges(tables[i].name, tables[i].remote, args.lastPulledAt, clocks[i], onPull.Some?)
    ensures forall i :: 0 <= i < |tables| ==> r.results[i].changes.Keys == {tables[i].name}
    ensures DistinctNames(tables) ==> r.merged.changes.Keys == Names(tables)
    ensures DistinctNames(tables) ==> forall i :: 0 <= i < |tables| ==>
              r.merged.changes[tables[i].name] == r.results[i].changes[tables[i].name]
    ensures r.merged.timestamp.Some? <==> |tables| > 0
    ensures r.merged.timestamp.Some? ==> r.merged.timestamp.value in clocks
  {
    var calls := PullCalls(tables, args, onPull);
    var results := PullResults(tables, args, onPull, clocks);
    PullResultsKeys(tables, args, onPull, clocks);
    MergeDistinctTables(tables, results);
    PullRound(calls, results, MergedPull(MergeAll(ChangeMaps(results)), LastTimestamp(results)))
  }

  // ---------------------------------------------------------------------
  // Push fan-out

  /** One push round: the forwarded calls and each table's plan. */
  datatype PushRound = PushRound(calls: seq<PushCall>, plans: seq<PushPlan>)

  /** The push callback: every table's `pushChanges` receives the same
      snapshot and the same `onPush`, and plans its calls from it. Tables
      run concurrently, so no order across tables is implied. */
  function PushAll(tables: seq<Table>, args: PushArgs, onPush: Option<Callback>): (r: PushRound)
    ensures |r.calls| == |tables| && |r.plans| == |tables|
    ensures forall i :: 0 <= i < |tables| ==> r.calls[i] == PushCall(tables[i].name, args, onPush)
    ensures forall i :: 0 <= i < |tables| ==> (r.plans[i].reported.Some? <==> onPush.Some?)
    ensures forall i :: 0 <= i < |tables| && onPush.Some? ==>
              r.plans[i].reported.value == SyncStats(|EntryOf(args.changes, tables[i].name).created|,
                                                     |EntryOf(args.changes, tables[i].name).updated|,
                                                     |EntryOf(args.changes, tables[i].name).deleted|)
    ensures forall i :: 0 <= i < |tables| ==> CreatesSent(r.plans[i].calls) == EntryOf(args.changes, tables[i].name).created
    ensures forall i :: 0 <= i < |tables| ==> UpdatesSent(r.plans[i].calls) == EntryOf(args.changes, tables[i].name).updated
    ensures forall i :: 0 <= i < |tables| ==> DeletesSent(r.plans[i].calls) == EntryOf(args.changes, tables[i].name).deleted
  {
    PushRound(
      seq(|tables|, i requires 0 <= i < |tables| => PushCall(tables[i].name, args, onPush)),
      seq(|tables|, i requires 0 <= i < |tables| => PushChanges(tables[i].name, args.changes, onPush.Some?)))
  }

  // ---------------------------------------------------------------------
  // Failure handling

  /** A thrown value: an `Error` instance with its message, or anything else. */
  datatype Thrown = ErrorObject(message: string) | OtherValue

  /** The diagnostic message of a local schema that changed without a migration. */
  const MissingMigrationMessage: string := "Cannot read properties of null (reading 'find')"

  /** Console lines written by the handler. */
  datatype LogLine = Diagnosed(error: Thrown) | MigrationHint

  /** What the handler logs and what it throws on. */
  datatype Caught = Caught(log: seq<LogLine>, rethrown: Thrown)

  /** `catchDiagnosticError`: log the error, add a hint when it is the
      missing-migration symptom, and rethrow the original error unchanged. */
  function CatchDiagnosticError(e: Thrown): (r: Caught)
    ensures r.rethrown == e
    ensures |r.log| >= 1 && r.log[0] == Diagnosed(e)
    ensures MigrationHint in r.log <==> e == ErrorObject(MissingMigrationMessage)
    ensures |r.log| == (if e == ErrorObject(MissingMigrationMessage) then 2 else 1)
  {
    if e.ErrorObject? && e.message == MissingMigrationMessage then Caught([Diagnosed(e), MigrationHint], e)
    else Caught([Diagnosed(e)], e)
  }

  /** How `synchronize` settles: the lines logged and the failure, if any. */
  datatype Settled = Settled(log: seq<LogLine>, failure: Option<Thrown>)

  /** The `.catch` on `synchronize`: a success passes through; a failure is
      rethrown as it was, never swallowed and never converted. */
  function SettleSynchronize(failure: Option<Thrown>): (r: Settled)
    ensures r.failure == failure
    ensures failure.None? ==> r.log == []
    ensures failure.Some? ==> |r.log| >= 1 && r.log[0] == Diagnosed(failure.value)
  {
    match failure
    case None => Settled([], None)
    case Some(e) =>
      var caught := CatchDiagnosticError(e);
      Settled(caught.log, Some(caught.rethrown))
  }
}
