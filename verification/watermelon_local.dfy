/** `useWatermelonLocal`: the decision logic of the local CRUD hooks over
    the embedded store. The store's query engine and write primitives are
    abstract: queries are lists of clauses given a meaning below, writes are
    descriptions of the record change handed to the store. */
module WatermelonLocal {
  import opened Common

  /** A JavaScript value as it appears in a filter, an item or a record. */
  datatype Value = Undefined | Null | Bool(b: bool) | Num(n: int) | Str(s: string) | Arr(elems: seq<Value>)

  /** JavaScript truthiness. */
  predicate JsTruthy(v: Value)
  {
    match v
    case Undefined => false
    case Null => false
    case Bool(b) => b
    case Num(n) => n != 0
    case Str(s) => s != ""
    case Arr(_) => true
  }

  /** `v == null`: loose equality with null holds for null and undefined. */
  predicate IsNullish(v: Value)
  {
    v == Undefined || v == Null
  }

  /** A plain object: property name to value. */
  type Obj = map<string, Value>

  /** Property read: a missing property reads as `undefined`. */
  function Lookup(o: Obj, k: string): Value
  {
    if k in o then o[k] else Undefined
  }

  /** Object spread `{...a, ...b}`: properties of `b` override those of `a`. */
  function Spread(a: Obj, b: Obj): (r: Obj)
    ensures r.Keys == a.Keys + b.Keys
    ensures forall k :: k in b ==> r[k] == b[k]
    ensures forall k :: k in a && k !in b ==> r[k] == a[k]
  {
    a + b
  }

  /** `dropUndefined` on an object. */
  function DropUndefined(o: Obj): (r: Obj)
    ensures forall k :: k in r <==> k in o && o[k] != Undefined
    ensures forall k :: k in r ==> r[k] == o[k]
  {
    map k | k in o && o[k] != Undefined :: o[k]
  }

  const DeletedAt: string := "deletedAt"

  // ---------------------------------------------------------------------
  // Columns

  /** `s` keeps the elements of `t` it contains, in the order of `t`. */
  predicate SubsequenceOf<T(==)>(s: seq<T>, t: seq<T>)
  {
    if s == [] then true
    else if t == [] then false
    else if s[0] == t[0] then SubsequenceOf(s[1..], t[1..])
    else SubsequenceOf(s, t[1..])
  }

  /** `defaultGetColumns`: every column except "deletedAt", in order and
      with its multiplicity. */
  function DefaultGetColumns(allColumns: seq<string>): (cols: seq<string>)
    ensures DeletedAt !in cols
    ensures forall c :: c != DeletedAt ==> multiset(cols)[c] == multiset(allColumns)[c]
    ensures SubsequenceOf(cols, allColumns)
    ensures DeletedAt !in allColumns ==> cols == allColumns
  {
    if allColumns == [] then []
    else
      var rest := DefaultGetColumns(allColumns[1..]);
      assert allColumns == [allColumns[0]] + allColumns[1..];
      if allColumns[0] == DeletedAt then rest else [allColumns[0]] + rest
  }

  // ---------------------------------------------------------------------
  // Filter to query clauses

  /** A query clause: `Q.where(column, value)` or `Q.or(...)`. */
  datatype Clause = Where(column: string, value: Value) | Or(alternatives: seq<Clause>)

  /** A filter object as its list of entries, in property order. */
  type Entries = seq<(string, Value)>

  /** The clause for one defined filter entry: an array becomes an OR of
      equalities, anything else one equality. */
  function EntryClause(k: string, v: Value): Clause
  {
    if v.Arr? then Or(seq(|v.elems|, j requires 0 <= j < |v.elems| => Where(k, v.elems[j])))
    else Where(k, v)
  }

  /** `dropUndefined` on a filter's entries. */
  function DefinedEntries(entries: Entries): (d: Entries)
    ensures |d| <= |entries|
    ensures forall i :: 0 <= i < |d| ==> d[i] in entries && d[i].1 != Undefined
  {
    if entries == [] then []
    else
      var rest := DefinedEntries(entries[1..]);
      assert entries == [entries[0]] + entries[1..];
      if entries[0].1 == Undefined then rest else [entries[0]] + rest
  }

  /** `dropUndefined` drops only the undefined entries: every other entry
      survives, in its original order and as often as it occurs. */
  lemma {:induction false} DefinedEntriesKeeps(entries: Entries)
    ensures forall e: (string, Value) :: e.1 != Undefined ==>
              multiset(DefinedEntries(entries))[e] == multiset(entries)[e]
    ensures SubsequenceOf(DefinedEntries(entries), entries)
  {
    if entries != [] {
      DefinedEntriesKeeps(entries[1..]);
      assert entries == [entries[0]] + entries[1..];
    }
  }

  /** One clause per entry whose value is not `undefined`, in entry order. */
  function EntryClauses(entries: Entries): (cs: seq<Clause>)
    ensures |cs| <= |entries|
  {
    if entries == [] then []
    else
      (if entries[0].1 == Undefined then [] else [EntryClause(entries[0].0, entries[0].1)])
      + EntryClauses(entries[1..])
  }

  /** The clauses are exactly the defined entries, each turned into its
      clause, in the same order. */
  lemma {:induction false} EntryClausesFollowDefined(entries: Entries)
    ensures |EntryClauses(entries)| == |DefinedEntries(entries)|
    ensures forall i :: 0 <= i < |EntryClauses(entries)| ==>
              EntryClauses(entries)[i] == EntryClause(DefinedEntries(entries)[i].0, DefinedEntries(entries)[i].1)
  {
    if entries != [] {
      EntryClausesFollowDefined(entries[1..]);
    }
  }

  /** The clause list `useGetList` builds: with no filter, the single clause
      `id = null`; with a filter, the entry clauses followed by
      `deletedAt = null` unless the requested columns include "deletedAt". */
  function FilterClauses(filter: Option<Entries>, columns: seq<string>): (cs: seq<Clause>)
    ensures filter.None? ==> cs == [Where("id", Null)]
    ensures filter.Some? && DeletedAt !in columns ==>
              |cs| >= 1 && cs[|cs| - 1] == Where(DeletedAt, Null)
    ensures filter.Some? ==> |cs| <= |filter.value| + 1
  {
    match filter
    case None => [Where("id", Null)]
    case Some(entries) =>
      EntryClauses(entries) + (if DeletedAt in columns then [] else [Where(DeletedAt, Null)])
  }

  /** What a clause means for a stored record. */
  predicate Matches(rec: Obj, c: Clause)
    decreases c
  {
    match c
    case Where(k, v) => Lookup(rec, k) == v
    case Or(alts) => exists j :: 0 <= j < |alts| && Matches(rec, alts[j])
  }

  predicate MatchesAll(rec: Obj, cs: seq<Clause>)
  {
    forall i :: 0 <= i < |cs| ==> Matches(rec, cs[i])
  }

  /** The filter's meaning for one field: equal to the value, or, for an
      array, equal to one of its elements. */
  predicate FieldAccepts(rec: Obj, k: string, v: Value)
  {
    if v.Arr? then exists j :: 0 <= j < |v.elems| && Lookup(rec, k) == v.elems[j]
    else Lookup(rec, k) == v
  }

  /** The record satisfies every defined entry of the filter. */
  predicate SatisfiesFilter(rec: Obj, entries: Entries)
  {
    forall i :: 0 <= i < |entries| && entries[i].1 != Undefined ==> FieldAccepts(rec, entries[i].0, entries[i].1)
  }

  lemma EntryClauseMeaning(rec: Obj, k: string, v: Value)
    ensures Matches(rec, EntryClause(k, v)) <==> FieldAccepts(rec, k, v)
  {
    if v.Arr? {
      var alts := seq(|v.elems|, j requires 0 <= j < |v.elems| => Where(k, v.elems[j]));
      assert forall j :: 0 <= j < |alts| ==> (Matches(rec, alts[j]) <==> Lookup(rec, k) == v.elems[j]);
    }
  }

  lemma MatchesAllConcat(rec: Obj, a: seq<Clause>, b: seq<Clause>)
    ensures MatchesAll(rec, a + b) <==> MatchesAll(rec, a) && MatchesAll(rec, b)
  {
    if MatchesAll(rec, a + b) {
      forall i | 0 <= i < |b|
        ensures Matches(rec, b[i])
      {
        assert (a + b)[i + |a|] == b[i];
      }
      forall i | 0 <= i < |a|
        ensures Matches(rec, a[i])
      {
        assert (a + b)[i] == a[i];
      }
    }
    if MatchesAll(rec, a) && MatchesAll(rec, b) {
      forall i | 0 <= i < |a + b|
        ensures Matches(rec, (a + b)[i])
      {
        if i >= |a| {
          assert (a + b)[i] == b[i - |a|];
        }
      }
    }
  }

  lemma SatisfiesFilterCons(rec: Obj, entries: Entries)
    requires entries != []
    ensures SatisfiesFilter(rec, entries) <==>
              (entries[0].1 != Undefined ==> FieldAccepts(rec, entries[0].0, entries[0].1))
              && SatisfiesFilter(rec, entries[1..])
  {
    if (entries[0].1 != Undefined ==> FieldAccepts(rec, entries[0].0, entries[0].1))
       && SatisfiesFilter(rec, entries[1..]) {
      forall i | 0 <= i < |entries| && entries[i].1 != Undefined
        ensures FieldAccepts(rec, entries[i].0, entries[i].1)
      {
        if i > 0 {
          assert entries[i] == entries[1..][i - 1];
        }
      }
    }
    if SatisfiesFilter(rec, entries) {
      forall i | 0 <= i < |entries[1..]| && entries[1..][i].1 != Undefined
        ensures FieldAccepts(rec, entries[1..][i].0, entries[1..][i].1)
      {
        assert entries[1..][i] == entries[i + 1];
      }
    }
  }

  lemma {:induction false} EntryClausesMeaning(rec: Obj, entries: Entries)
    ensures MatchesAll(rec, EntryClauses(entries)) <==> SatisfiesFilter(rec, entries)
  {
    if entries != [] {
      EntryClausesMeaning(rec, entries[1..]);
      EntryClauseMeaning(rec, entries[0].0, entries[0].1);
      var head := if entries[0].1 == Undefined then [] else [EntryClause(entries[0].0, entries[0].1)];
      var tail := EntryClauses(entries[1..]);
      assert EntryClauses(entries) == head + tail;
      MatchesAllConcat(rec, head, tail);
      SatisfiesFilterCons(rec, entries);
    }
  }

  /** The query selects exactly the records that satisfy every defined
      filter entry and, unless "deletedAt" was requested as a column, are
      not soft-deleted. */
  lemma FilterQueryMeaning(rec: Obj, entries: Entries, columns: seq<string>)
    ensures MatchesAll(rec, FilterClauses(Some(entries), columns)) <==>
              SatisfiesFilter(rec, entries) && (DeletedAt in columns || Lookup(rec, DeletedAt) == Null)
  {
    var head := EntryClauses(entries);
    var tail := if DeletedAt in columns then [] else [Where(DeletedAt, Null)];
    EntryClausesMeaning(rec, entries);
    assert FilterClauses(Some(entries), columns) == head + tail;
    MatchesAllConcat(rec, head, tail);
  }

  /** With no filter the query selects no record that has an id. */
  lemma NoFilterSelectsNothing(rec: Obj, columns: seq<string>)
    requires Lookup(rec, "id") != Null
    ensures !MatchesAll(rec, FilterClauses(None, columns))
  {
    assert !Matches(rec, FilterClauses(None, columns)[0]);
  }

  /** Querying with the default columns always hides soft-deleted records. */
  lemma DefaultColumnsHideDeleted(rec: Obj, entries: Entries, allColumns: seq<string>)
    requires Lookup(rec, DeletedAt) != Null
    ensures !MatchesAll(rec, FilterClauses(Some(entries), DefaultGetColumns(allColumns)))
  {
    FilterQueryMeaning(rec, entries, DefaultGetColumns(allColumns));
  }

  // ---------------------------------------------------------------------
  // Reading

  /** What `useGetItem` yields: still loading (`undefined`), no match
      (`null`), or the record. */
  datatype ItemView<R> = Loading | Missing | Found(record: R)

  /** `JSON.stringify(filter ?? null)`: the text "null" without a filter,
      and an object text with one. The text between the braces (`members`)
      is left abstract. */
  function FilterKey(filter: Option<Entries>, members: string): string
  {
    if filter.None? then "null" else "{" + members + "}"
  }

  /** The selector `useGetList` memoises. Its second parameter, also named
      `filter`, receives the memo's second dependency, the filter's JSON
      text; so its test is the truthiness of a string. */
  function ListSelector<R>(rows: Option<seq<R>>, filterText: string): Option<seq<R>>
  {
    if filterText != "" then rows else None
  }

  /** `useGetList` as written: the selector tests the filter's JSON text,
      which is never empty, so the query's rows (`undefined` until the
      query has emitted) come back with or without a filter. `rows` are
      the rows of the query `FilterClauses` builds. */
  function GetList<R>(filter: Option<Entries>, members: string, rows: Option<seq<R>>): (r: Option<seq<R>>)
    ensures r == rows
  {
    ListSelector(rows, FilterKey(filter, members))
  }

  /** `useGetItem`: undefined stays undefined, an empty list is null, and
      otherwise the first row is the item. */
  function GetItem<R>(filter: Option<Entries>, members: string, rows: Option<seq<R>>): (v: ItemView<R>)
    ensures v.Loading? <==> rows.None?
    ensures v.Missing? <==> rows == Some([])
    ensures v.Found? ==> rows.Some? && |rows.value| > 0 && v.record == rows.value[0]
  {
    match GetList(filter, members, rows)
    case None => Loading
    case Some(list) => if |list| == 0 then Missing else Found(list[0])
  }

  /** Without a filter the query is `id = null`, which no stored record
      matches; so once loaded the list is empty and the item is null. */
  lemma NoFilterListIsEmpty(members: string, columns: seq<string>, rows: seq<Obj>)
    requires forall i :: 0 <= i < |rows| ==> MatchesAll(rows[i], FilterClauses(None, columns))
    requires forall i :: 0 <= i < |rows| ==> Lookup(rows[i], "id") != Null
    ensures GetList(None, members, Some(rows)) == Some([])
    ensures GetItem(None, members, Some(rows)) == Missing
  {
    if rows != [] {
      NoFilterSelectsNothing(rows[0], columns);
    }
  }

  /** The list as evidently intended: the query's rows with a filter,
      `undefined` without one. */
  function GetListIntended<R>(filter: Option<Entries>, rows: Option<seq<R>>): (r: Option<seq<R>>)
    ensures filter.None? ==> r.None?
    ensures filter.Some? ==> r == rows
  {
    if filter.Some? then rows else None
  }

  /** Where the two part: without a filter, a loaded list is returned as
      written, while the intended list stays `undefined`. */
  lemma GetListIgnoresMissingFilter<R>(members: string, rows: seq<R>)
    ensures GetList(None, members, Some(rows)) == Some(rows)
    ensures GetListIntended(None, Some(rows)) == None
  {
  }

  // ---------------------------------------------------------------------
  // Writing

  /** The store write an item operation turns into. */
  datatype DbWrite = CreateRecord(fields: Obj) | UpdateRecord(id: Value, patch: Obj)

  /** `updateItem`: an item whose id is null or undefined is created instead;
      otherwise its other properties are merged into the stored record.
      Either way the item's own properties win over the write timestamps
      the operation supplies. */
  function UpdateItem(item: Obj, now: int): (w: DbWrite)
    ensures w.CreateRecord? <==> IsNullish(Lookup(item, "id"))
    ensures w.UpdateRecord? ==> w.id == item["id"]
    ensures w.CreateRecord? ==> w.fields.Keys == item.Keys - {"id"} + {"createdAt2", "updatedAt2"}
    ensures w.UpdateRecord? ==> w.patch.Keys == item.Keys - {"id"} + {"updatedAt2"}
    ensures forall k :: k in item && k != "id" ==>
              (w.CreateRecord? ==> w.fields[k] == item[k]) && (w.UpdateRecord? ==> w.patch[k] == item[k])
    ensures "updatedAt2" !in item ==>
              (w.CreateRecord? ==> w.fields["updatedAt2"] == Num(now)) && (w.UpdateRecord? ==> w.patch["updatedAt2"] == Num(now))
  {
    var rest := item - {"id"};
    if IsNullish(Lookup(item, "id")) then
      CreateRecord(Spread(map["createdAt2" := Num(now), "updatedAt2" := Num(now)], rest))
    else
      UpdateRecord(item["id"], Spread(map["updatedAt2" := Num(now)], rest))
  }

  /** Whether the store can complete a write to record `id`, given the ids
      of the records it holds: a nullish id means a creation, which always
      completes; any other id must name a stored record, since `find`
      rejects otherwise. A record created in the same batch gets a fresh
      id from the store, so `stored` does not change along a batch. */
  predicate Lands(id: Value, stored: set<Value>)
  {
    IsNullish(id) || id in stored
  }

  /** `updateItems`: the items are written one after another, each in its
      own store transaction. The first item whose id names no stored record
      rejects, and the loop stops there: the writes before it are already
      committed, the ones after it never happen. `ok` says whether every
      item was written. */
  method UpdateItems(items: seq<Obj>, stored: set<Value>, now: int) returns (writes: seq<DbWrite>, ok: bool)
    ensures ok <==> forall i :: 0 <= i < |items| ==> Lands(Lookup(items[i], "id"), stored)
    ensures |writes| <= |items|
    ensures ok ==> |writes| == |items|
    ensures !ok ==> |writes| < |items| && !Lands(Lookup(items[|writes|], "id"), stored)
    ensures forall i :: 0 <= i < |writes| ==>
              Lands(Lookup(items[i], "id"), stored) && writes[i] == UpdateItem(items[i], now)
  {
    writes := [];
    var i := 0;
    while i < |items| && Lands(Lookup(items[i], "id"), stored)
      invariant 0 <= i <= |items|
      invariant |writes| == i
      invariant forall j :: 0 <= j < i ==> Lands(Lookup(items[j], "id"), stored)
      invariant forall j :: 0 <= j < i ==> writes[j] == UpdateItem(items[j], now)
    {
      writes := writes + [UpdateItem(items[i], now)];
      i := i + 1;
    }
    ok := i == |items|;
  }

  /** The item marked deleted at `now`: `{...v, deletedAt2: now}`. */
  function MarkDeleted(item: Obj, now: int): Obj
  {
    item["deletedAt2" := Num(now)]
  }

  /** `deleteItems` is a soft delete: every item with an id becomes an update
      of that record that sets `deletedAt2` to `now` and leaves its other
      properties as given; nothing is removed from the store. */
  method DeleteItems(items: seq<Obj>, stored: set<Value>, now: int) returns (writes: seq<DbWrite>, ok: bool)
    ensures ok <==> forall i :: 0 <= i < |items| ==> Lands(Lookup(items[i], "id"), stored)
    ensures |writes| <= |items|
    ensures ok ==> |writes| == |items|
    ensures !ok ==> |writes| < |items| && !Lands(Lookup(items[|writes|], "id"), stored)
    ensures forall i :: 0 <= i < |writes| && !IsNullish(Lookup(items[i], "id")) ==>
              writes[i].UpdateRecord? && writes[i].id == items[i]["id"]
              && Lookup(writes[i].patch, "deletedAt2") == Num(now)
              && forall k :: k in items[i] && k != "id" && k != "deletedAt2" ==> Lookup(writes[i].patch, k) == items[i][k]
    ensures forall i :: 0 <= i < |writes| && IsNullish(Lookup(items[i], "id")) ==> writes[i].CreateRecord?
    ensures forall i :: 0 <= i < |writes| ==> StampedFrom(writes[i], items[i].Keys + {"deletedAt2"}, now)
    ensures forall i :: 0 <= i < |writes| ==> writes[i] == UpdateItem(MarkDeleted(items[i], now), now)
  {
    var marked := seq(|items|, i requires 0 <= i < |items| => MarkDeleted(items[i], now));
    writes, ok := UpdateItems(marked, stored, now);
    forall i | 0 <= i < |items|
      ensures Lookup(marked[i], "id") == Lookup(items[i], "id")
    {
    }
    forall i | 0 <= i < |writes|
      ensures StampedFrom(writes[i], items[i].Keys + {"deletedAt2"}, now)
    {
      UpdateItemStamped(marked[i], now);
      assert marked[i].Keys == items[i].Keys + {"deletedAt2"};
    }
  }

  /** The properties a write stores: the new record's fields or the patch. */
  function Written(w: DbWrite): Obj
  {
    match w
    case CreateRecord(fields) => fields
    case UpdateRecord(_, patch) => patch
  }

  /** The frame of an item write whose given properties are named by
      `keys`: it stores exactly those properties except `id`, plus the
      timestamps the write supplies (`updatedAt2`, and `createdAt2` for a
      creation), and a supplied timestamp the item does not override is
      `now`. */
  predicate StampedFrom(w: DbWrite, keys: set<string>, now: int)
  {
    && Written(w).Keys == keys - {"id"} + {"updatedAt2"} + (if w.CreateRecord? then {"createdAt2"} else {})
    && ("updatedAt2" !in keys ==> Written(w)["updatedAt2"] == Num(now))
    && (w.CreateRecord? && "createdAt2" !in keys ==> Written(w)["createdAt2"] == Num(now))
  }

  /** `UpdateItem` keeps that frame. */
  lemma UpdateItemStamped(item: Obj, now: int)
    ensures StampedFrom(UpdateItem(item, now), item.Keys, now)
  {
  }

  /** The record an item of `useSetList(filter)` is written to: the
      filter's id when the filter defines one, the item's own otherwise. */
  function ScopedId(filter: Obj, item: Obj): Value
  {
    if Lookup(filter, "id") != Undefined then filter["id"] else Lookup(item, "id")
  }

  /** `useSetList(filter)`: every item is written with the filter's defined
      properties laid over it. A defined filter property always wins over
      the item's; the item's other properties are written as given. When
      the filter carries a non-null id, every item is redirected to an
      update of that one record, and a null id in the filter makes every
      item a creation; without an id in the filter, each item's own id
      decides between creating and updating. As in `updateItems`, the
      writes stop at the first item whose record is not stored. */
  method SetList(filter: Obj, items: seq<Obj>, stored: set<Value>, now: int) returns (writes: seq<DbWrite>, ok: bool)
    ensures ok <==> forall i :: 0 <= i < |items| ==> Lands(ScopedId(filter, items[i]), stored)
    ensures |writes| <= |items|
    ensures ok ==> |writes| == |items|
    ensures !ok ==> |writes| < |items| && !Lands(ScopedId(filter, items[|writes|]), stored)
    ensures forall i :: 0 <= i < |writes| ==>
              forall k :: k in filter && k != "id" && filter[k] != Undefined ==>
                Lookup(Written(writes[i]), k) == filter[k]
    ensures forall i :: 0 <= i < |writes| ==>
              forall k :: k in items[i] && k != "id" && Lookup(filter, k) == Undefined ==>
                Lookup(Written(writes[i]), k) == items[i][k]
    ensures forall i :: 0 <= i < |writes| && !IsNullish(Lookup(filter, "id")) ==>
              writes[i] == UpdateRecord(filter["id"], Written(writes[i]))
    ensures forall i :: 0 <= i < |writes| && Lookup(filter, "id") == Undefined ==>
              (writes[i].CreateRecord? <==> IsNullish(Lookup(items[i], "id")))
              && (writes[i].UpdateRecord? ==> writes[i].id == items[i]["id"])
    ensures forall i :: 0 <= i < |writes| && Lookup(filter, "id") == Null ==> writes[i].CreateRecord?
    ensures forall i :: 0 <= i < |writes| ==> StampedFrom(writes[i], items[i].Keys + DropUndefined(filter).Keys, now)
    ensures forall i :: 0 <= i < |writes| ==> writes[i] == UpdateItem(Spread(items[i], DropUndefined(filter)), now)
  {
    var scoped := seq(|items|, i requires 0 <= i < |items| => Spread(items[i], DropUndefined(filter)));
    forall i | 0 <= i < |items|
      ensures Lookup(scoped[i], "id") == ScopedId(filter, items[i])
    {
      ScopedWrite(filter, items[i], now);
    }
    writes, ok := UpdateItems(scoped, stored, now);
    forall i | 0 <= i < |writes|
      ensures ScopedFacts(filter, items[i], writes[i], now)
    {
      ScopedWrite(filter, items[i], now);
    }
  }

  /** What `SetList` promises of the write of one item. */
  predicate ScopedFacts(filter: Obj, item: Obj, w: DbWrite, now: int)
  {
    && StampedFrom(w, item.Keys + DropUndefined(filter).Keys, now)
    && (forall k :: k in filter && k != "id" && filter[k] != Undefined ==> Lookup(Written(w), k) == filter[k])
    && (forall k :: k in item && k != "id" && Lookup(filter, k) == Undefined ==> Lookup(Written(w), k) == item[k])
    && (!IsNullish(Lookup(filter, "id")) ==> w == UpdateRecord(filter["id"], Written(w)))
    && (Lookup(filter, "id") == Undefined ==>
          (w.CreateRecord? <==> IsNullish(Lookup(item, "id")))
          && (w.UpdateRecord? ==> w.id == item["id"]))
    && (Lookup(filter, "id") == Null ==> w.CreateRecord?)
  }

  /** One item of `useSetList(filter)`: the filter laid over it decides the
      target record and wins over the item's own properties. */
  lemma ScopedWrite(filter: Obj, item: Obj, now: int)
    ensures Lookup(Spread(item, DropUndefined(filter)), "id") == ScopedId(filter, item)
    ensures ScopedFacts(filter, item, UpdateItem(Spread(item, DropUndefined(filter)), now), now)
  {
    UpdateItemStamped(Spread(item, DropUndefined(filter)), now);
  }

  /** The argument of a `setItem` call: a value (`None` for null or
      undefined) or an updater function. */
  datatype SetArg = Replace(value: Option<Obj>) | Updater(f: Obj -> Option<Obj>)

  /** What `setItem` asks for: write an item, delete by id, or nothing. */
  datatype ItemWrite = WriteItem(item: Obj) | DeleteById(id: Value) | NoWrite

  /** `useSetItem({id, ...filter})`: the id and the defined filter
      properties the hook was given. */
  function HookBase(hookArg: Obj): Obj
  {
    Spread(map["id" := Lookup(hookArg, "id")], DropUndefined(hookArg - {"id"}))
  }

  /** The next value: the given one, or the updater applied to the base. */
  function NextValue(hookArg: Obj, v: SetArg): Option<Obj>
  {
    match v
    case Replace(x) => x
    case Updater(f) => f(HookBase(hookArg))
  }

  /** `setItem` dispatch: a value becomes a write of `{id, ...next,
      ...filter}`, in which the hook's filter wins over the value and the
      value wins over the hook's id; null with a truthy id becomes a delete
      of that id; null without one does nothing. */
  function SetItem(hookArg: Obj, v: SetArg): (w: ItemWrite)
    ensures w.WriteItem? <==> NextValue(hookArg, v).Some?
    ensures w.WriteItem? ==>
              && "id" in w.item
              && (forall k :: k in hookArg && k != "id" && hookArg[k] != Undefined ==> Lookup(w.item, k) == hookArg[k])
              && (forall k :: k in NextValue(hookArg, v).value && (k == "id" || k !in hookArg || hookArg[k] == Undefined)
                    ==> Lookup(w.item, k) == NextValue(hookArg, v).value[k])
              && ("id" !in NextValue(hookArg, v).value ==> w.item["id"] == Lookup(hookArg, "id"))
    ensures w.WriteItem? ==>
              w.item.Keys == {"id"} + NextValue(hookArg, v).value.Keys + DropUndefined(hookArg - {"id"}).Keys
    ensures w.DeleteById? <==> NextValue(hookArg, v).None? && JsTruthy(Lookup(hookArg, "id"))
    ensures w.DeleteById? ==> w.id == Lookup(hookArg, "id")
  {
    var id := Lookup(hookArg, "id");
    var filter := DropUndefined(hookArg - {"id"});
    match NextValue(hookArg, v)
    case Some(next) => WriteItem(Spread(Spread(map["id" := id], next), filter))
    case None => if JsTruthy(id) then DeleteById(id) else NoWrite
  }

  /** The store write a `setItem` call ends in: a value goes through
      `updateItem`, a delete through `deleteItems`. */
  function SetItemWrite(hookArg: Obj, v: SetArg, now: int): Option<DbWrite>
  {
    match SetItem(hookArg, v)
    case WriteItem(item) => Some(UpdateItem(item, now))
    case DeleteById(id) => Some(UpdateItem(MarkDeleted(map["id" := id], now), now))
    case NoWrite => None
  }

  /** Setting null on an item hook that has an id soft-deletes that record. */
  lemma SetNullSoftDeletes(hookArg: Obj, now: int)
    requires JsTruthy(Lookup(hookArg, "id"))
    ensures var w := SetItemWrite(hookArg, Replace(None), now);
            w.Some? && w.value.UpdateRecord? && w.value.id == Lookup(hookArg, "id")
            && w.value.patch == map["updatedAt2" := Num(now), "deletedAt2" := Num(now)]
  {
    var item := MarkDeleted(map["id" := Lookup(hookArg, "id")], now);
    assert item - {"id"} == map["deletedAt2" := Num(now)];
  }

  /** A value without an id, on a hook without an id, creates a record. */
  lemma SetWithoutIdCreates(hookArg: Obj, next: Obj, now: int)
    requires "id" !in hookArg && "id" !in next
    ensures var w := SetItemWrite(hookArg, Replace(Some(next)), now);
            w.Some? && w.value.CreateRecord?
  {
  }

  // ---------------------------------------------------------------------
  // The `useItem` setter

  /** The `useItem` setter as written: `setItem({...getItem, ...newValue})`.
      Spreading a null value yields an object, so the argument is never
      null. */
  function ItemSetterArgAsWritten(current: Option<Obj>, newValue: Option<Obj>): Option<Obj>
  {
    var base := if current.Some? then current.value else map[];
    var over := if newValue.Some? then newValue.value else map[];
    Some(Spread(base, over))
  }

  /** Hence setting null through `useItem` never deletes: it writes the
      current item back, and with no current item it still updates the
      hook's record, touching only its timestamp and the filter's
      properties. */
  lemma ItemSetterAsWrittenNeverDeletes(hookArg: Obj, current: Option<Obj>, now: int)
    requires JsTruthy(Lookup(hookArg, "id"))
    ensures SetItem(hookArg, Replace(ItemSetterArgAsWritten(current, None))).WriteItem?
    ensures SetItem(hookArg, Replace(None)).DeleteById?
    ensures current.None? ==>
              var w := SetItemWrite(hookArg, Replace(ItemSetterArgAsWritten(current, None)), now);
              && w.Some? && w.value.UpdateRecord? && w.value.id == Lookup(hookArg, "id")
              && w.value.patch.Keys == DropUndefined(hookArg - {"id"}).Keys + {"updatedAt2"}
  {
  }

  /** The setter as evidently intended: null passes through as null, any
      other value is laid over the current item. */
  function ItemSetterArg(current: Option<Obj>, newValue: Option<Obj>): (r: Option<Obj>)
    ensures newValue.None? ==> r.None?
    ensures newValue.Some? ==> r.Some? && forall k :: k in newValue.value ==> Lookup(r.value, k) == newValue.value[k]
    ensures newValue.Some? && current.Some? ==>
              forall k :: k in current.value && k !in newValue.value ==> Lookup(r.value, k) == current.value[k]
  {
    match newValue
    case None => None
    case Some(n) => Some(Spread(if current.Some? then current.value else map[], n))
  }

  /** With the intended setter, null on an item with an id deletes it. */
  lemma ItemSetterDeletes(hookArg: Obj, current: Option<Obj>)
    requires JsTruthy(Lookup(hookArg, "id"))
    ensures SetItem(hookArg, Replace(ItemSetterArg(current, None))) == DeleteById(Lookup(hookArg, "id"))
  {
  }
}
