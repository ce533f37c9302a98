/**
 The import ledger entry (src/Domain/Entity/ImportHistory.php): one per processed feed
 file, created running and closed as completed or failed. The status is a free string
 and nothing guards the transitions.
 */
module ImportHistories {
  import opened Core

  const Running: string := "running"
  const Completed: string := "completed"
  const Failed: string := "failed"

  /** The three statuses the entity names (and the ledger table's CHECK accepts). */
  predicate IsKnownStatus(s: string) {
    s == Running || s == Completed || s == Failed
  }

  datatype ImportHistory = ImportHistory(
    id: Option<int>,
    filename: string,
    productsImported: int,
    startedAt: Timestamp,
    completedAt: Option<Timestamp>,
    status: string,
    errorMessage: Option<string>)

  /** The constructor: every field as given, except that a missing start time is the
      current time `now`. Any status string is accepted. */
  function Construct(
    filename: string, productsImported: int, startedAt: Option<Timestamp>,
    completedAt: Option<Timestamp>, status: string, errorMessage: Option<string>,
    id: Option<int>, now: Timestamp): (h: ImportHistory)
    ensures h.filename == filename && h.productsImported == productsImported
    ensures h.startedAt == (if startedAt.Some? then startedAt.value else now)
    ensures h.completedAt == completedAt && h.status == status
    ensures h.errorMessage == errorMessage && h.id == id
  {
    var started := if startedAt.Some? then startedAt.value else now;
    ImportHistory(id, filename, productsImported, started, completedAt, status, errorMessage)
  }

  /** `ImportHistory::start($filename)` at time `now`. */
  function Start(filename: string, now: Timestamp): (h: ImportHistory)
    ensures h.filename == filename && h.status == Running && h.productsImported == 0
    ensures h.startedAt == now
    ensures h.completedAt.None? && h.errorMessage.None? && h.id.None?
  {
    Construct(filename, 0, Some(now), None, Running, None, None, now)
  }

  /** `complete($n)` at time `now`, whatever the current status. */
  function Complete(h: ImportHistory, n: int, now: Timestamp): (c: ImportHistory)
    ensures c.status == Completed && c.productsImported == n && c.completedAt == Some(now)
    ensures c.id == h.id && c.filename == h.filename && c.startedAt == h.startedAt
    ensures c.errorMessage == h.errorMessage
  {
    h.(productsImported := n, completedAt := Some(now), status := Completed)
  }

  /** `fail($message)` at time `now`, whatever the current status. */
  function Fail(h: ImportHistory, message: string, now: Timestamp): (f: ImportHistory)
    ensures f.status == Failed && f.errorMessage == Some(message) && f.completedAt == Some(now)
    ensures f.id == h.id && f.filename == h.filename && f.startedAt == h.startedAt
    ensures f.productsImported == h.productsImported
  {
    h.(completedAt := Some(now), status := Failed, errorMessage := Some(message))
  }

  predicate IsRunning(h: ImportHistory) { h.status == Running }
  predicate IsCompleted(h: ImportHistory) { h.status == Completed }
  predicate IsFailed(h: ImportHistory) { h.status == Failed }

  function OptionalInt(v: Option<int>): Json {
    if v.Some? then JInt(v.value) else JNull
  }

  function OptionalTime(v: Option<Timestamp>): Json {
    if v.Some? then JTime(v.value) else JNull
  }

  function OptionalString(v: Option<string>): Json {
    if v.Some? then JString(v.value) else JNull
  }

  /** `toArray()`: the seven fields, nulls where the entity has none. */
  function ToArray(h: ImportHistory): (r: seq<(string, Json)>)
    ensures |r| == 7
    ensures KeysOf(r) ==
      ["id", "filename", "products_imported", "started_at", "completed_at", "status", "error_message"]
    ensures r[0].1 == JNull <==> h.id.None?
    ensures h.id.Some? ==> r[0].1 == JInt(h.id.value)
    ensures r[1].1 == JString(h.filename) && r[2].1 == JInt(h.productsImported)
    ensures r[3].1 == JTime(h.startedAt) && r[5].1 == JString(h.status)
    ensures r[4].1 == JNull <==> h.completedAt.None?
    ensures h.completedAt.Some? ==> r[4].1 == JTime(h.completedAt.value)
    ensures r[6].1 == JNull <==> h.errorMessage.None?
    ensures h.errorMessage.Some? ==> r[6].1 == JString(h.errorMessage.value)
  {
    [ ("id", OptionalInt(h.id)),
      ("filename", JString(h.filename)),
      ("products_imported", JInt(h.productsImported)),
      ("started_at", JTime(h.startedAt)),
      ("completed_at", OptionalTime(h.completedAt)),
      ("status", JString(h.status)),
      ("error_message", OptionalString(h.errorMessage)) ]
  }

  // ----- properties -----

  /** The array determines the entry: no two entries serialize alike. */
  lemma ToArrayInjective(a: ImportHistory, b: ImportHistory)
    requires ToArray(a) == ToArray(b)
    ensures a == b
  {
    var ra, rb := ToArray(a), ToArray(b);
    assert ra[0] == rb[0] && ra[1] == rb[1] && ra[2] == rb[2] && ra[3] == rb[3];
    assert ra[4] == rb[4] && ra[5] == rb[5] && ra[6] == rb[6];
  }

  /** For one of the three statuses exactly one predicate holds; for any other string
      (which the constructor accepts) none does. */
  lemma StatusPredicates(h: ImportHistory)
    ensures IsKnownStatus(h.status) ==>
      (IsRunning(h) && !IsCompleted(h) && !IsFailed(h))
      || (!IsRunning(h) && IsCompleted(h) && !IsFailed(h))
      || (!IsRunning(h) && !IsCompleted(h) && IsFailed(h))
    ensures !IsKnownStatus(h.status) ==> !IsRunning(h) && !IsCompleted(h) && !IsFailed(h)
  {
  }

  /** Failing a completed entry keeps its count: the status becomes failed with `n`. */
  lemma FailAfterComplete(h: ImportHistory, n: int, m: string, t1: Timestamp, t2: Timestamp)
    ensures var f := Fail(Complete(h, n, t1), m, t2);
      f.status == Failed && f.productsImported == n && f.errorMessage == Some(m)
      && f.completedAt == Some(t2)
  {
  }

  /** A mutator call on an entry: `complete` or `fail`, with the clock reading it takes. */
  datatype Transition =
    | CompleteWith(count: int, at: Timestamp)
    | FailWith(message: string, at: Timestamp)

  function Apply(h: ImportHistory, t: Transition): ImportHistory {
    match t
    case CompleteWith(n, at) => Complete(h, n, at)
    case FailWith(m, at) => Fail(h, m, at)
  }

  function ApplyAll(h: ImportHistory, ts: seq<Transition>): ImportHistory
    decreases |ts|
  {
    if ts == [] then h else ApplyAll(Apply(h, ts[0]), ts[1..])
  }

  /** Id, filename and start time have no mutator: no sequence of `complete`/`fail`
      calls changes them. */
  lemma {:induction false} IdentityIsFixed(h: ImportHistory, ts: seq<Transition>)
    ensures ApplyAll(h, ts).id == h.id
    ensures ApplyAll(h, ts).filename == h.filename
    ensures ApplyAll(h, ts).startedAt == h.startedAt
    decreases |ts|
  {
    if ts != [] {
      IdentityIsFixed(Apply(h, ts[0]), ts[1..]);
    }
  }

  /** After any non-empty sequence of mutator calls the status is the one the last call
      set, and the entry has a completion time. */
  lemma {:induction false} LastTransitionDecides(h: ImportHistory, ts: seq<Transition>)
    requires ts != []
    ensures ApplyAll(h, ts).status == (if ts[|ts| - 1].CompleteWith? then Completed else Failed)
    ensures ApplyAll(h, ts).completedAt == Some(ts[|ts| - 1].at)
    decreases |ts|
  {
    if |ts| > 1 {
      LastTransitionDecides(Apply(h, ts[0]), ts[1..]);
    }
  }
}
