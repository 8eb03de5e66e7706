/** `useWatermelonSync`: the per-table pull (fetch everything, classify each
    record against the watermark, report counts) and push (a fixed plan of at
    most three remote calls). */
module WatermelonSync {
  import opened Common
  import Grouping
  import Chunks

  /** A remote record after `parse`, reduced to what the sync layer reads:
      its id and its epoch-second timestamps, each possibly missing. */
  datatype Item = Item(id: Option<string>, createdAt: Option<int>, updatedAt: Option<int>, deletedAt: Option<int>)

  /** The four groups `pullChanges` sorts records into. */
  datatype Bucket = Created | Updated | Deleted | Ignored

  /** Per-table counts handed to the `onSync` callback. */
  datatype SyncStats = SyncStats(created: nat, updated: nat, deleted: nat)

  /** One table's entry of a change set: full records for creates and
      updates, ids only for deletes. */
  datatype TableChanges = TableChanges(created: seq<Item>, updated: seq<Item>, deleted: seq<string>)

  /** Page size of the pull enumeration. */
  const PageLimit: nat := 1000

  // ---------------------------------------------------------------------
  // The classifier

  /** `createdAfter(t)`: true when createdAt is falsy (missing or 0) or later than `t`. */
  predicate CreatedAfter(t: int, item: Item)
  {
    !Truthy(item.createdAt) || item.createdAt.value > t
  }

  /** `updatedAfter(t)`: updatedAt is truthy and later than `t`. */
  predicate UpdatedAfter(t: int, item: Item)
  {
    Truthy(item.updatedAt) && item.updatedAt.value > t
  }

  /** `deletedAfter(t)`: deletedAt is truthy and later than `t`. */
  predicate DeletedAfter(t: int, item: Item)
  {
    Truthy(item.deletedAt) && item.deletedAt.value > t
  }

  /** `isDeleted`, which is `deletedAfter(0)`: a tombstone with a positive time. */
  predicate IsDeleted(item: Item)
  {
    DeletedAfter(0, item)
  }

  /** The grouping callback of `pullChanges`. A falsy watermark (absent or 0)
      means a full sync. */
  function Classify(item: Item, lastPulledAt: Option<int>): (b: Bucket)
    // a tombstone newer than the watermark wins over any update or creation time
    ensures b == Deleted <==> Truthy(lastPulledAt) && DeletedAfter(lastPulledAt.value, item)
    // a tombstone at or before the watermark is already known: never re-sent as a change
    ensures Truthy(lastPulledAt) && item.deletedAt.Some? && 0 < item.deletedAt.value <= lastPulledAt.value
            ==> b == Ignored
    // a live record: update is checked before creation
    ensures Truthy(lastPulledAt) && !IsDeleted(item) && !DeletedAfter(lastPulledAt.value, item) ==>
              (b == Updated <==> UpdatedAfter(lastPulledAt.value, item)) &&
              (b == Created <==> !UpdatedAfter(lastPulledAt.value, item) && CreatedAfter(lastPulledAt.value, item))
    // a live record with a missing or zero createdAt is always a creation or an update
    ensures Truthy(lastPulledAt) && !IsDeleted(item) && !DeletedAfter(lastPulledAt.value, item) && !Truthy(item.createdAt)
            ==> b in {Created, Updated}
    // full sync: tombstones are skipped, everything else is created
    ensures !Truthy(lastPulledAt) ==> (b == Ignored <==> IsDeleted(item)) && (b == Created <==> !IsDeleted(item))
  {
    if Truthy(lastPulledAt) then
      if DeletedAfter(lastPulledAt.value, item) then Deleted
      else if IsDeleted(item) then Ignored
      else if UpdatedAfter(lastPulledAt.value, item) then Updated
      else if CreatedAfter(lastPulledAt.value, item) then Created
      else Ignored
    else if IsDeleted(item) then Ignored
    else Created
  }

  /** The plain precedence rules, stated on presence and order alone:
      deletion first, then "already deleted", then update, then creation,
      each compared strictly after the watermark; with no watermark
      tombstones are skipped and all else is created. */
  function PrecedenceClassify(item: Item, watermark: Option<int>): Bucket
  {
    if watermark.None? then
      if item.deletedAt.Some? then Ignored else Created
    else if item.deletedAt.Some? && item.deletedAt.value > watermark.value then Deleted
    else if item.deletedAt.Some? then Ignored
    else if item.updatedAt.Some? && item.updatedAt.value > watermark.value then Updated
    else if item.createdAt.Some? && item.createdAt.value > watermark.value then Created
    else Ignored
  }

  /** A record with both mandatory timestamps present and every timestamp a
      positive epoch time. */
  predicate WellFormed(item: Item)
  {
    && item.createdAt.Some? && item.createdAt.value > 0
    && item.updatedAt.Some? && item.updatedAt.value > 0
    && (item.deletedAt.Some? ==> item.deletedAt.value > 0)
  }

  /** On well-formed records and a watermark that is absent or positive, the
      code's truthiness-based chain and the plain precedence rules agree. */
  lemma ClassifyAgreesWithPrecedence(item: Item, watermark: Option<int>)
    requires WellFormed(item)
    requires watermark.Some? ==> watermark.value > 0
    ensures Classify(item, watermark) == PrecedenceClassify(item, watermark)
  {
  }

  /** A watermark of 0 is falsy, so every record is classified as if there
      were no watermark at all: the pull is a full sync. */
  lemma ZeroWatermarkIsFullSync(item: Item)
    ensures Classify(item, Some(0)) == Classify(item, None)
  {
  }

  /** Where the code and the precedence rules part: under a watermark of 0
      every tombstone with a positive deletedAt is skipped instead of
      delivered. */
  lemma ZeroWatermarkSkipsTombstone(item: Item)
    requires item.deletedAt.Some? && item.deletedAt.value > 0
    ensures Classify(item, Some(0)) == Ignored
    ensures PrecedenceClassify(item, Some(0)) == Deleted
  {
  }

  /** Where they part: a record with no createdAt and an old updatedAt is
      delivered as created on every pull, while the precedence rules would
      ignore it. */
  lemma MissingCreatedAtIsAlwaysCreated(item: Item, watermark: int)
    requires watermark > 0
    requires item.createdAt.None? && item.deletedAt.None?
    requires item.updatedAt.Some? && 0 < item.updatedAt.value <= watermark
    ensures Classify(item, Some(watermark)) == Created
    ensures PrecedenceClassify(item, Some(watermark)) == Ignored
  {
  }

  // ---------------------------------------------------------------------
  // Pull

  /** The grouping callback, ignoring the index. */
  function BucketKey(lastPulledAt: Option<int>): (Item, nat) -> Bucket
  {
    (item: Item, i: nat) => Classify(item, lastPulledAt)
  }

  /** The records of `items` that fall into bucket `b`, in fetch order. */
  function Bucketed(items: seq<Item>, lastPulledAt: Option<int>, b: Bucket): seq<Item>
  {
    Grouping.Selected(items, BucketKey(lastPulledAt), b, |items|)
  }

  /** The ids of `records`, with missing ids dropped. */
  function Ids(records: seq<Item>): (ids: seq<string>)
    ensures |ids| <= |records|
  {
    if records == [] then []
    else (if records[0].id.Some? then [records[0].id.value] else []) + Ids(records[1..])
  }

  /** The id list holds every present id and nothing else, and loses no
      entry when every record has an id. */
  lemma {:induction false} IdsMembers(records: seq<Item>)
    ensures forall r :: r in records && r.id.Some? ==> r.id.value in Ids(records)
    ensures forall id :: id in Ids(records) ==> exists r :: r in records && r.id == Some(id)
    ensures (forall r :: r in records ==> r.id.Some?) ==> |Ids(records)| == |records|
  {
    if records != [] {
      IdsMembers(records[1..]);
      assert records == [records[0]] + records[1..];
    }
  }

  /** The id list is built record by record, in record order: a record
      contributes its id when it has one and nothing otherwise. */
  lemma IdsCons(r: Item, rest: seq<Item>)
    ensures Ids([r] + rest) == (if r.id.Some? then [r.id.value] else []) + Ids(rest)
  {
    assert ([r] + rest)[1..] == rest;
  }

  /** Ids of a concatenation are the concatenation of the ids: together with
      IdsCons this fixes the order and multiplicity of the id list. */
  lemma {:induction false} IdsConcat(a: seq<Item>, b: seq<Item>)
    ensures Ids(a + b) == Ids(a) + Ids(b)
  {
    if a == [] {
      assert a + b == b;
    } else {
      assert a == [a[0]] + a[1..];
      assert a + b == [a[0]] + (a[1..] + b);
      IdsCons(a[0], a[1..] + b);
      IdsCons(a[0], a[1..]);
      IdsConcat(a[1..], b);
    }
  }

  /** Number of records lacking a truthy createdAt or updatedAt. */
  function InvalidRows(items: seq<Item>): (n: nat)
    ensures n <= |items|
    ensures n > 0 <==> exists i :: 0 <= i < |items| && !(Truthy(items[i].createdAt) && Truthy(items[i].updatedAt))
  {
    if items == [] then 0
    else (if Truthy(items[0].createdAt) && Truthy(items[0].updatedAt) then 0 else 1) + InvalidRows(items[1..])
  }

  /** What one table's pull returns, plus what it reports on the side: the
      counts passed to `onSync` (None when no callback was given, since
      `onSync?.(…)` then calls nothing) and the invalid-row count of the
      warning (None when no warning is logged). */
  datatype PullResult = PullResult(
    changes: map<string, TableChanges>,
    timestamp: int,
    reported: Option<SyncStats>,
    warning: Option<nat>)

  /** `pullChanges` over the fetched records `items`; `now` stands for the
      clock read that becomes the next watermark, and `notify` says whether
      an `onSync` callback was passed. */
  function PullChanges(table: string, items: seq<Item>, lastPulledAt: Option<int>, now: int, notify: bool): (r: PullResult)
    ensures r.changes.Keys == {table}
    ensures r.changes[table].created == Bucketed(items, lastPulledAt, Created)
    ensures r.changes[table].updated == Bucketed(items, lastPulledAt, Updated)
    ensures r.changes[table].deleted == Ids(Bucketed(items, lastPulledAt, Deleted))
    ensures r.reported.Some? <==> notify
    ensures r.reported.Some? ==>
              r.reported.value == SyncStats(|Bucketed(items, lastPulledAt, Created)|,
                                            |Bucketed(items, lastPulledAt, Updated)|,
                                            |Bucketed(items, lastPulledAt, Deleted)|)
    ensures |r.changes[table].deleted| <= |Bucketed(items, lastPulledAt, Deleted)|
    ensures r.timestamp == now
    ensures r.warning.Some? <==> exists i :: 0 <= i < |items| && !(Truthy(items[i].createdAt) && Truthy(items[i].updatedAt))
    ensures r.warning.Some? ==> 0 < r.warning.value <= |items|
    ensures r.warning.Some? ==> r.warning.value == InvalidRows(items)
  {
    var groups := Grouping.GroupBy(items, BucketKey(lastPulledAt));
    var created := Grouping.GroupOf(groups, Created);
    var updated := Grouping.GroupOf(groups, Updated);
    var deleted := Grouping.GroupOf(groups, Deleted);
    var bad := InvalidRows(items);
    PullResult(
      map[table := TableChanges(created, updated, Ids(deleted))],
      now,
      if notify then Some(SyncStats(|created|, |updated|, |deleted|)) else None,
      if bad > 0 then Some(bad) else None)
  }

  /** The four buckets partition the fetched records. */
  lemma BucketsPartition(items: seq<Item>, lastPulledAt: Option<int>)
    ensures |Bucketed(items, lastPulledAt, Created)| + |Bucketed(items, lastPulledAt, Updated)|
            + |Bucketed(items, lastPulledAt, Deleted)| + |Bucketed(items, lastPulledAt, Ignored)| == |items|
  {
    var key := BucketKey(lastPulledAt);
    var ks := [Created, Updated, Deleted, Ignored];
    var groups := Grouping.GroupBy(items, key);
    forall k | k in groups
      ensures k in ks
    {
      match k
      case Created => assert k == ks[0];
      case Updated => assert k == ks[1];
      case Deleted => assert k == ks[2];
      case Ignored => assert k == ks[3];
    }
    Grouping.GroupSizesSum(items, key, ks);
    Grouping.SumLengthsFour(groups, Created, Updated, Deleted, Ignored);
  }

  /** Every fetched record lands in exactly one bucket: the reported counts
      plus the ignored ones add up to the number of records. */
  lemma PullPartitionsItems(table: string, items: seq<Item>, lastPulledAt: Option<int>, now: int)
    ensures var r := PullChanges(table, items, lastPulledAt, now, true);
            r.reported.value.created + r.reported.value.updated + r.reported.value.deleted
            + |Bucketed(items, lastPulledAt, Ignored)| == |items|
  {
    BucketsPartition(items, lastPulledAt);
  }

  /** A record every one of whose timestamps is at or before `w`, with its
      createdAt present: a record that has not changed since `w`. */
  predicate SettledBy(item: Item, w: int)
  {
    && Truthy(item.createdAt) && item.createdAt.value <= w
    && (item.updatedAt.Some? ==> item.updatedAt.value <= w)
    && (item.deletedAt.Some? ==> item.deletedAt.value <= w)
  }

  /** Pulling again with a watermark no older than every record's timestamps
      yields an empty change set: nothing is delivered twice. */
  lemma PullAgainIsEmpty(table: string, items: seq<Item>, w: int, now: int, notify: bool)
    requires w != 0
    requires forall i :: 0 <= i < |items| ==> SettledBy(items[i], w)
    ensures PullChanges(table, items, Some(w), now, notify).changes[table] == TableChanges([], [], [])
    ensures notify ==> PullChanges(table, items, Some(w), now, notify).reported == Some(SyncStats(0, 0, 0))
  {
    var key := BucketKey(Some(w));
    forall b | b != Ignored
      ensures Bucketed(items, Some(w), b) == []
    {
      Grouping.SelectedNonEmpty(items, key, b, |items|);
    }
  }

  /** The pull as the table runs it: enumerate the remote table by pages of
      `PageLimit`, then classify. Every remote record reaches the
      classifier, after exactly |data| / 1000 + 1 list requests. */
  method PullFromRemote(table: string, data: seq<Item>, lastPulledAt: Option<int>, now: int, notify: bool)
    returns (r: PullResult, requests: nat)
    ensures r == PullChanges(table, data, lastPulledAt, now, notify)
    ensures requests == |data| / PageLimit + 1
  {
    var items, reqs, pages := Chunks.FetchItemsInChunks(data, PageLimit);
    r := PullChanges(table, items, lastPulledAt, now, notify);
    requests := |reqs|;
  }

  // ---------------------------------------------------------------------
  // Push

  /** The three remote batch operations. */
  datatype RemoteCall = CreateList(records: seq<Item>) | UpdateList(records: seq<Item>) | DeleteList(ids: seq<string>)

  /** Position of a call kind in the fixed create, update, delete order. */
  function Rank(c: RemoteCall): nat
  {
    match c
    case CreateList(_) => 0
    case UpdateList(_) => 1
    case DeleteList(_) => 2
  }

  function PayloadSize(c: RemoteCall): nat
  {
    match c
    case CreateList(rs) => |rs|
    case UpdateList(rs) => |rs|
    case DeleteList(ids) => |ids|
  }

  /** All records sent by create calls, in call order. */
  function CreatesSent(calls: seq<RemoteCall>): seq<Item>
  {
    if calls == [] then []
    else (if calls[0].CreateList? then calls[0].records else []) + CreatesSent(calls[1..])
  }

  /** All records sent by update calls, in call order. */
  function UpdatesSent(calls: seq<RemoteCall>): seq<Item>
  {
    if calls == [] then []
    else (if calls[0].UpdateList? then calls[0].records else []) + UpdatesSent(calls[1..])
  }

  /** All ids sent by delete calls, in call order. */
  function DeletesSent(calls: seq<RemoteCall>): seq<string>
  {
    if calls == [] then []
    else (if calls[0].DeleteList? then calls[0].ids else []) + DeletesSent(calls[1..])
  }

  /** `changes[table] || {}` with every missing list defaulting to empty. */
  function EntryOf(changes: map<string, TableChanges>, table: string): TableChanges
  {
    if table in changes then changes[table] else TableChanges([], [], [])
  }

  /** The push plan of one table: the counts reported to `onSync` (None
      when no callback was given) and the remote calls to await in order. */
  datatype PushPlan = PushPlan(reported: Option<SyncStats>, calls: seq<RemoteCall>)

  /** `pushChanges`: report the counts when an `onSync` callback was passed
      (`notify`), then create, update and delete, each only when its list
      is non-empty. Every local change is sent exactly once, in its own kind
      of call, in the fixed order. */
  function PushChanges(table: string, changes: map<string, TableChanges>, notify: bool): (p: PushPlan)
    ensures p.reported.Some? <==> notify
    ensures var e := EntryOf(changes, table);
            p.reported.Some? ==> p.reported.value == SyncStats(|e.created|, |e.updated|, |e.deleted|)
    ensures |p.calls| <= 3
    ensures Ascending(p.calls)
    ensures NoEmptyCall(p.calls)
    ensures CreatesSent(p.calls) == EntryOf(changes, table).created
    ensures UpdatesSent(p.calls) == EntryOf(changes, table).updated
    ensures DeletesSent(p.calls) == EntryOf(changes, table).deleted
    ensures table !in changes ==> p.calls == [] && (notify ==> p.reported == Some(SyncStats(0, 0, 0)))
  {
    var e := EntryOf(changes, table);
    PlanShape(e);
    PlanSendsEntry(e);
    PushPlan(if notify then Some(SyncStats(|e.created|, |e.updated|, |e.deleted|)) else None, Calls(e))
  }

  /** `if (list.length > 0) await api.<op>List(list)`, once per kind, in order. */
  function Calls(e: TableChanges): seq<RemoteCall>
  {
    CreatePart(e) + UpdatePart(e) + DeletePart(e)
  }

  function CreatePart(e: TableChanges): seq<RemoteCall>
  {
    if |e.created| > 0 then [CreateList(e.created)] else []
  }

  function UpdatePart(e: TableChanges): seq<RemoteCall>
  {
    if |e.updated| > 0 then [UpdateList(e.updated)] else []
  }

  function DeletePart(e: TableChanges): seq<RemoteCall>
  {
    if |e.deleted| > 0 then [DeleteList(e.deleted)] else []
  }

  /** Call kinds strictly increase along `calls`. */
  predicate Ascending(calls: seq<RemoteCall>)
  {
    forall i, j :: 0 <= i < j < |calls| ==> Rank(calls[i]) < Rank(calls[j])
  }

  lemma AscendingConcat(a: seq<RemoteCall>, b: seq<RemoteCall>)
    requires Ascending(a) && Ascending(b)
    requires forall i, j :: 0 <= i < |a| && 0 <= j < |b| ==> Rank(a[i]) < Rank(b[j])
    ensures Ascending(a + b)
  {
    forall i, j | 0 <= i < j < |a + b|
      ensures Rank((a + b)[i]) < Rank((a + b)[j])
    {
      if j < |a| {
      } else if i >= |a| {
        assert (a + b)[i] == b[i - |a|];
      } else {
        assert (a + b)[j] == b[j - |a|];
      }
    }
  }

  /** No call carries an empty list. */
  predicate NoEmptyCall(calls: seq<RemoteCall>)
  {
    forall i :: 0 <= i < |calls| ==> PayloadSize(calls[i]) > 0
  }

  lemma NoEmptyCallConcat(a: seq<RemoteCall>, b: seq<RemoteCall>)
    requires NoEmptyCall(a) && NoEmptyCall(b)
    ensures NoEmptyCall(a + b)
  {
    forall i | 0 <= i < |a + b|
      ensures PayloadSize((a + b)[i]) > 0
    {
      if i >= |a| {
        assert (a + b)[i] == b[i - |a|];
      }
    }
  }

  /** The plan holds at most one call per kind, in kind order, none empty. */
  lemma PlanShape(e: TableChanges)
    ensures |Calls(e)| <= 3
    ensures Ascending(Calls(e))
    ensures NoEmptyCall(Calls(e))
  {
    var creates, updates, deletes := CreatePart(e), UpdatePart(e), DeletePart(e);
    AscendingConcat(creates, updates);
    AscendingConcat(creates + updates, deletes);
    NoEmptyCallConcat(creates, updates);
    NoEmptyCallConcat(creates + updates, deletes);
  }

  /** Each part of the plan sends its own list and nothing of the others. */
  lemma PartsSend(e: TableChanges)
    ensures CreatesSent(CreatePart(e)) == e.created
    ensures UpdatesSent(CreatePart(e)) == [] && DeletesSent(CreatePart(e)) == []
    ensures UpdatesSent(UpdatePart(e)) == e.updated
    ensures CreatesSent(UpdatePart(e)) == [] && DeletesSent(UpdatePart(e)) == []
    ensures DeletesSent(DeletePart(e)) == e.deleted
    ensures CreatesSent(DeletePart(e)) == [] && UpdatesSent(DeletePart(e)) == []
  {
  }

  /** Each list of the entry is sent whole by the calls of its kind. */
  lemma PlanSendsEntry(e: TableChanges)
    ensures CreatesSent(Calls(e)) == e.created
    ensures UpdatesSent(Calls(e)) == e.updated
    ensures DeletesSent(Calls(e)) == e.deleted
  {
    var creates, updates, deletes := CreatePart(e), UpdatePart(e), DeletePart(e);
    PartsSend(e);
    CreatesDistribute(creates + updates, deletes);
    CreatesDistribute(creates, updates);
    UpdatesDistribute(creates + updates, deletes);
    UpdatesDistribute(creates, updates);
    DeletesDistribute(creates + updates, deletes);
    DeletesDistribute(creates, updates);
  }

  lemma {:induction false} CreatesDistribute(a: seq<RemoteCall>, b: seq<RemoteCall>)
    ensures CreatesSent(a + b) == CreatesSent(a) + CreatesSent(b)
  {
    if a != [] {
      assert (a + b)[0] == a[0];
      assert (a + b)[1..] == a[1..] + b;
      CreatesDistribute(a[1..], b);
    } else {
      assert a + b == b;
    }
  }

  lemma {:induction false} UpdatesDistribute(a: seq<RemoteCall>, b: seq<RemoteCall>)
    ensures UpdatesSent(a + b) == UpdatesSent(a) + UpdatesSent(b)
  {
    if a != [] {
      assert (a + b)[0] == a[0];
      assert (a + b)[1..] == a[1..] + b;
      UpdatesDistribute(a[1..], b);
    } else {
      assert a + b == b;
    }
  }

  lemma {:induction false} DeletesDistribute(a: seq<RemoteCall>, b: seq<RemoteCall>)
    ensures DeletesSent(a + b) == DeletesSent(a) + DeletesSent(b)
  {
    if a != [] {
      assert (a + b)[0] == a[0];
      assert (a + b)[1..] == a[1..] + b;
      DeletesDistribute(a[1..], b);
    } else {
      assert a + b == b;
    }
  }

  /** The outcome of awaiting calls in turn: the calls issued, and whether
      every one of them succeeded. */
  datatype Awaited = Awaited(issued: seq<RemoteCall>, ok: bool)

  /** Await `calls` one after another against a remote that accepts or
      rejects each call; the first rejection aborts the rest. */
  function Await(calls: seq<RemoteCall>, accepts: RemoteCall -> bool): (r: Awaited)
    ensures |r.issued| <= |calls| && r.issued == calls[..|r.issued|]
    ensures r.ok <==> forall i :: 0 <= i < |calls| ==> accepts(calls[i])
    ensures r.ok ==> r.issued == calls
    ensures !r.ok ==> |r.issued| > 0 && !accepts(r.issued[|r.issued| - 1])
    ensures forall i :: 0 <= i < |r.issued| - 1 ==> accepts(r.issued[i])
  {
    if calls == [] then Awaited([], true)
    else if !accepts(calls[0]) then Awaited([calls[0]], false)
    else
      var rest := Await(calls[1..], accepts);
      Awaited([calls[0]] + rest.issued, rest.ok)
  }

  /** What a push observably does, in order. */
  datatype PushEvent = Reported(table: string, stats: SyncStats) | Issued(call: RemoteCall)

  /** The observable run of one table's push and whether it succeeded. */
  datatype PushRun = PushRun(events: seq<PushEvent>, ok: bool)

  /** Run one table's push: when there is an `onSync` callback the counts
      are reported before the first remote call, so they are reported even
      when a call fails; without one nothing is reported. */
  function RunPush(table: string, plan: PushPlan, accepts: RemoteCall -> bool): (r: PushRun)
    ensures plan.reported.Some? ==>
              && 1 <= |r.events| <= |plan.calls| + 1
              && r.events[0] == Reported(table, plan.reported.value)
              && (forall i :: 1 <= i < |r.events| ==> r.events[i] == Issued(plan.calls[i - 1]))
              && (r.ok ==> |r.events| == |plan.calls| + 1)
    ensures plan.reported.None? ==>
              && |r.events| <= |plan.calls|
              && (forall i :: 0 <= i < |r.events| ==> r.events[i] == Issued(plan.calls[i]))
              && (r.ok ==> |r.events| == |plan.calls|)
    ensures r.ok <==> forall i :: 0 <= i < |plan.calls| ==> accepts(plan.calls[i])
  {
    var done := Await(plan.calls, accepts);
    EventsFollowPlan(table, plan.reported, plan.calls, done.issued);
    PushRun(Events(table, plan.reported, done.issued), done.ok)
  }

  /** The events of a push that issued `issued`: the report, when there is
      one, then one event per issued call. */
  function Events(table: string, reported: Option<SyncStats>, issued: seq<RemoteCall>): seq<PushEvent>
  {
    (if reported.Some? then [Reported(table, reported.value)] else []) + IssuedAll(issued)
  }

  /** When the issued calls are a prefix of the plan, the events after the
      report are the plan's calls, in order. */
  lemma EventsFollowPlan(table: string, reported: Option<SyncStats>, calls: seq<RemoteCall>, issued: seq<RemoteCall>)
    requires |issued| <= |calls| && issued == calls[..|issued|]
    ensures var ev := Events(table, reported, issued);
            reported.Some? ==>
              && |ev| == |issued| + 1 && ev[0] == Reported(table, reported.value)
              && forall i :: 1 <= i < |ev| ==> ev[i] == Issued(calls[i - 1])
    ensures var ev := Events(table, reported, issued);
            reported.None? ==>
              && |ev| == |issued|
              && forall i :: 0 <= i < |ev| ==> ev[i] == Issued(calls[i])
  {
    var tail := IssuedAll(issued);
    forall j | 0 <= j < |issued|
      ensures tail[j] == Issued(calls[j])
    {
      assert issued[j] == calls[..|issued|][j];
    }
  }

  function IssuedAll(calls: seq<RemoteCall>): (events: seq<PushEvent>)
    ensures |events| == |calls|
    ensures forall i :: 0 <= i < |calls| ==> events[i] == Issued(calls[i])
  {
    if calls == [] then [] else [Issued(calls[0])] + IssuedAll(calls[1..])
  }
}
