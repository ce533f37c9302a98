/**
 The import_history table behind
 src/Infrastructure/Repository/SQLiteImportHistoryRepository.php: rows keyed by an
 AUTOINCREMENT id, with the status CHECK of the table definition. `Save` is the code as
 written, which inserts a row but leaves the entity without its id; `SaveAssigningId` is
 the evidently intended variant that hands the new id back.
 */
module ImportHistoryRepository {
  import opened Core
  import opened ImportHistories
  import opened Ordering

  /** A stored row: every column but the id, which is the row's key. */
  datatype HistoryRow = HistoryRow(
    filename: string,
    productsImported: int,
    startedAt: Timestamp,
    completedAt: Option<Timestamp>,
    status: string,
    errorMessage: Option<string>)

  /** The rows and the AUTOINCREMENT counter: the largest id ever handed out. */
  datatype HistoryStore = HistoryStore(rows: map<int, HistoryRow>, lastId: nat)

  /** Ids are positive and never above the counter; every status passed the status CHECK constraint. */
  predicate Valid(st: HistoryStore) {
    forall id :: id in st.rows ==> 1 <= id <= st.lastId && IsKnownStatus(st.rows[id].status)
  }

  type Ledger = st: HistoryStore | Valid(st) witness HistoryStore(map[], 0)

  const MissingIdMessage: string := "Cannot update import history without ID"
  /** SQLite names an unnamed CHECK constraint by its expression. */
  const StatusCheckMessage: string :=
    "SQLSTATE[23000]: Integrity constraint violation: 19 CHECK constraint failed: status IN ('running','completed','failed')"

  /** The columns the statements bind from an entry. */
  function RowOf(h: ImportHistory): HistoryRow {
    HistoryRow(h.filename, h.productsImported, h.startedAt, h.completedAt, h.status, h.errorMessage)
  }

  /** `save($history)` as written: an INSERT under the next id. The entity is left as it
      was, so its id stays null. */
  function Save(st: Ledger, h: ImportHistory): (r: Result<Ledger>)
    ensures r.Failure? <==> !IsKnownStatus(h.status)
    ensures r.Failure? ==> r.error == Database(StatusCheckMessage)
    ensures r.Success? ==> r.value.lastId == st.lastId + 1 && st.lastId + 1 !in st.rows
    ensures r.Success? ==> r.value.rows == st.rows[st.lastId + 1 := RowOf(h)]
  {
    if !IsKnownStatus(h.status) then Failure(Database(StatusCheckMessage))
    else
      var id := st.lastId + 1;
      Success(HistoryStore(st.rows[id := RowOf(h)], id))
  }

  /** The intended `save`: the same INSERT, and the entity comes back carrying the id
      SQLite assigned. */
  function SaveAssigningId(st: Ledger, h: ImportHistory): (r: Result<(Ledger, ImportHistory)>)
    ensures r.Failure? <==> Save(st, h).Failure?
    ensures r.Failure? ==> r.error == Save(st, h).error
    ensures r.Success? ==> r.value.0 == Save(st, h).value
    ensures r.Success? ==> r.value.1 == h.(id := Some(r.value.0.lastId))
  {
    match Save(st, h)
    case Failure(e) => Failure(e)
    case Success(st') => Success((st', h.(id := Some(st'.lastId))))
  }

  /** `update($history)`: an entry without id is refused before any statement runs.
      Otherwise the UPDATE touches only the row with that id: with no such row nothing
      changes and no constraint is checked; with one, the status CHECK applies to the new
      status and every column of the row is rewritten. */
  function Update(st: Ledger, h: ImportHistory): (r: Result<Ledger>)
    ensures h.id.None? ==> r == Failure(Runtime(MissingIdMessage))
    ensures h.id.Some? && h.id.value !in st.rows ==> r == Success(st)
    ensures h.id.Some? && h.id.value in st.rows && !IsKnownStatus(h.status) ==>
      r == Failure(Database(StatusCheckMessage))
    ensures r.Success? <==> h.id.Some? && (h.id.value in st.rows ==> IsKnownStatus(h.status))
    ensures r.Success? ==> r.value.lastId == st.lastId && r.value.rows.Keys == st.rows.Keys
    ensures r.Success? && h.id.value in st.rows ==> r.value.rows[h.id.value] == RowOf(h)
    ensures r.Success? ==> forall id :: id in st.rows && id != h.id.value ==> r.value.rows[id] == st.rows[id]
  {
    if h.id.None? then Failure(Runtime(MissingIdMessage))
    else if h.id.value !in st.rows then Success(st)
    else if !IsKnownStatus(h.status) then Failure(Database(StatusCheckMessage))
    else Success(st.(rows := st.rows[h.id.value := RowOf(h)]))
  }

  /** `hydrate($row)`: the entity a stored row reads back as. */
  function Hydrate(id: int, row: HistoryRow): (h: ImportHistory)
    ensures h.id == Some(id) && RowOf(h) == row
  {
    Construct(row.filename, row.productsImported, Some(row.startedAt), row.completedAt,
              row.status, row.errorMessage, Some(id), row.startedAt)
  }

  /** The value `ORDER BY started_at DESC` sorts on. */
  function StartedScore(st: Ledger): int -> int {
    id => if id in st.rows then st.rows[id].startedAt.seconds else 0
  }

  /** Row ids by descending start time. */
  function Chronology(st: Ledger): (ids: seq<int>)
    ensures |ids| == |st.rows.Keys|
    ensures forall id :: id in ids <==> id in st.rows
    ensures forall i :: 0 <= i < |ids| ==> ids[i] in st.rows
    ensures forall i, j :: 0 <= i < j < |ids| ==> ids[i] != ids[j]
    ensures forall i, j :: 0 <= i < j < |ids| ==>
      st.rows[ids[i]].startedAt.seconds >= st.rows[ids[j]].startedAt.seconds
  {
    RankedByStart(st);
    Ranked(st.rows.Keys, StartedScore(st))
  }

  lemma RankedByStart(st: Ledger)
    ensures var r := Ranked(st.rows.Keys, StartedScore(st));
      forall i, j :: 0 <= i < j < |r| ==>
        st.rows[r[i]].startedAt.seconds >= st.rows[r[j]].startedAt.seconds
  {
    var r := Ranked(st.rows.Keys, StartedScore(st));
    forall i, j | 0 <= i < j < |r|
      ensures st.rows[r[i]].startedAt.seconds >= st.rows[r[j]].startedAt.seconds
    {
      assert Precedes(StartedScore(st), r[i], r[j]);
      assert r[i] in st.rows && r[j] in st.rows;
      assert StartedScore(st)(r[i]) == st.rows[r[i]].startedAt.seconds;
      assert StartedScore(st)(r[j]) == st.rows[r[j]].startedAt.seconds;
    }
  }

  function HydrateAll(st: Ledger, ids: seq<int>): (r: seq<ImportHistory>)
    requires forall i :: 0 <= i < |ids| ==> ids[i] in st.rows
    ensures |r| == |ids|
    ensures forall i :: 0 <= i < |r| ==> r[i] == Hydrate(ids[i], st.rows[ids[i]])
    ensures forall i :: 0 <= i < |r| ==> r[i].id == Some(ids[i]) && RowOf(r[i]) == st.rows[ids[i]]
  {
    if ids == [] then [] else [Hydrate(ids[0], st.rows[ids[0]])] + HydrateAll(st, ids[1..])
  }

  /** `findLast()`: an entry with the latest start, or null for an empty table. */
  function FindLast(st: Ledger): (r: Option<ImportHistory>)
    ensures r.None? <==> st.rows == map[]
    ensures r.Some? ==> r.value.id.Some? && r.value.id.value in st.rows
    ensures r.Some? ==> RowOf(r.value) == st.rows[r.value.id.value]
    ensures r.Some? ==> forall id :: id in st.rows ==> st.rows[id].startedAt.seconds <= r.value.startedAt.seconds
  {
    var ids := Chronology(st);
    if ids == [] then
      assert st.rows.Keys == {};
      None
    else
      Some(Hydrate(ids[0], st.rows[ids[0]]))
  }

  /** The first `limit` ids of the chronology (all of them for a negative limit). */
  function HeadOfChronology(st: Ledger, limit: int): (ids: seq<int>)
    ensures |ids| == (if limit < 0 || limit > |st.rows.Keys| then |st.rows.Keys| else limit)
    ensures ids == Chronology(st)[..|ids|]
    ensures forall i :: 0 <= i < |ids| ==> ids[i] in st.rows
    ensures forall i, j :: 0 <= i < j < |ids| ==> ids[i] != ids[j]
    ensures forall i, j :: 0 <= i < j < |ids| ==>
      st.rows[ids[i]].startedAt.seconds >= st.rows[ids[j]].startedAt.seconds
  {
    var all := Chronology(st);
    var n := if limit < 0 || limit > |all| then |all| else limit;
    PrefixIsNewestFirst(st.rows, all, n);
    Head(all, limit)
  }

  /** A prefix of a newest-first id list is newest first. */
  lemma PrefixIsNewestFirst(rows: map<int, HistoryRow>, all: seq<int>, n: nat)
    requires n <= |all|
    requires forall i :: 0 <= i < |all| ==> all[i] in rows
    requires forall i, j :: 0 <= i < j < |all| ==> rows[all[i]].startedAt.seconds >= rows[all[j]].startedAt.seconds
    ensures forall i, j :: 0 <= i < j < n ==> rows[all[..n][i]].startedAt.seconds >= rows[all[..n][j]].startedAt.seconds
  {
  }

  /** `findAll($limit)`: at most `limit` entries (all of them for a negative limit), latest
      start first. */
  function FindAll(st: Ledger, limit: int): (r: seq<ImportHistory>)
    ensures limit >= 0 ==> |r| == (if limit < |st.rows.Keys| then limit else |st.rows.Keys|)
    ensures limit < 0 ==> |r| == |st.rows.Keys|
    ensures forall i :: 0 <= i < |r| ==>
      r[i].id.Some? && r[i].id.value in st.rows && RowOf(r[i]) == st.rows[r[i].id.value]
    ensures |r| == |HeadOfChronology(st, limit)|
    ensures forall i :: 0 <= i < |r| ==> r[i].id == Some(HeadOfChronology(st, limit)[i])
    ensures forall i, j :: 0 <= i < j < |r| ==> r[i].id != r[j].id
    ensures forall i, j :: 0 <= i < j < |r| ==> r[i].startedAt.seconds >= r[j].startedAt.seconds
  {
    var ids := HeadOfChronology(st, limit);
    HydrateAll(st, ids)
  }

  /** What `findAll` leaves out started no later than anything it returns: the limit
      keeps the newest entries. */
  lemma FindAllKeepsNewest(st: Ledger, limit: int)
    ensures forall id, i :: id in st.rows && id !in HeadOfChronology(st, limit) && 0 <= i < |FindAll(st, limit)| ==>
      st.rows[id].startedAt.seconds <= FindAll(st, limit)[i].startedAt.seconds
  {
    var ids := HeadOfChronology(st, limit);
    var r := FindAll(st, limit);
    HeadKeepsNewest(st, limit);
    forall id, i | id in st.rows && id !in ids && 0 <= i < |r|
      ensures st.rows[id].startedAt.seconds <= r[i].startedAt.seconds
    {
      assert r[i].id == Some(ids[i]) && RowOf(r[i]) == st.rows[ids[i]];
    }
  }

  /** The same for the ids the limit keeps. */
  lemma HeadKeepsNewest(st: Ledger, limit: int)
    ensures forall id, i :: id in st.rows && id !in HeadOfChronology(st, limit) && 0 <= i < |HeadOfChronology(st, limit)| ==>
      st.rows[id].startedAt.seconds <= st.rows[HeadOfChronology(st, limit)[i]].startedAt.seconds
  {
    var ids := HeadOfChronology(st, limit);
    forall id, i | id in st.rows && id !in ids && 0 <= i < |ids|
      ensures st.rows[id].startedAt.seconds <= st.rows[ids[i]].startedAt.seconds
    {
      ChronologyOutsidePrefix(st, |ids|, id, i);
    }
  }

  lemma ChronologyOutsidePrefix(st: Ledger, n: nat, id: int, i: int)
    requires n <= |Chronology(st)| && 0 <= i < n
    requires id in st.rows && id !in Chronology(st)[..n]
    ensures st.rows[id].startedAt.seconds <= st.rows[Chronology(st)[i]].startedAt.seconds
  {
    OutsidePrefixIsOlder(st.rows, Chronology(st), n, id, i);
  }

  /** An id of a newest-first list that is not among its first `n` started no later than
      any of them. */
  lemma OutsidePrefixIsOlder(rows: map<int, HistoryRow>, all: seq<int>, n: nat, id: int, i: int)
    requires n <= |all| && 0 <= i < n
    requires forall j :: 0 <= j < |all| ==> all[j] in rows
    requires forall a, b :: 0 <= a < b < |all| ==> rows[all[a]].startedAt.seconds >= rows[all[b]].startedAt.seconds
    requires id in all && id !in all[..n]
    ensures id in rows && rows[id].startedAt.seconds <= rows[all[i]].startedAt.seconds
  {
    var k :| 0 <= k < |all| && all[k] == id;
    if k < n {
      assert false;
    }
  }

  // ----- properties -----

  /** Hydration gives back everything the row stores, under the row's id. */
  lemma HydrateOfSaved(id: int, h: ImportHistory)
    ensures Hydrate(id, RowOf(h)) == h.(id := Some(id))
  {
  }

  /** The defect: an entry started and saved as written still has no id, so updating it
      after `complete` or `fail` is refused and its row keeps saying running. */
  lemma SavedEntryCannotBeUpdated(st: Ledger, f: string, t: Timestamp, n: int, m: string, t2: Timestamp)
    ensures var h := Start(f, t);
      && Save(st, h).Success?
      && Update(Save(st, h).value, Complete(h, n, t2)) == Failure(Runtime(MissingIdMessage))
      && Update(Save(st, h).value, Fail(h, m, t2)) == Failure(Runtime(MissingIdMessage))
      && Save(st, h).value.rows[st.lastId + 1].status == Running
  {
  }

  /** With the id handed back, the update after `complete` rewrites the saved row. */
  lemma AssignedEntryIsUpdated(st: Ledger, f: string, t: Timestamp, n: int, t2: Timestamp)
    ensures var h := Start(f, t);
      && SaveAssigningId(st, h).Success?
      && var (st', h') := SaveAssigningId(st, h).value;
      && Update(st', Complete(h', n, t2)).Success?
      && Update(st', Complete(h', n, t2)).value.rows[st'.lastId] == RowOf(Complete(h, n, t2))
  {
  }

  /** `findLast` is the head of `findAll`. */
  lemma FindLastIsFirstOfAll(st: Ledger)
    ensures FindLast(st).None? <==> FindAll(st, 1) == []
    ensures FindLast(st).Some? ==> FindAll(st, 1) == [FindLast(st).value]
  {
  }
}
