/**
 The catalog import run (src/Infrastructure/Cron/ImportCronJob.php) as a pure function:
 a fold over the feed's file list and, inside each file, over its records, threading the
 product store and the import ledger. The network, the JSON decoder and the clock are
 inputs. `AsWritten` runs the ledger exactly as the repository is written, where a saved
 entry never learns its id; `AssignsId` runs it with the id handed back.
 */
module ImportCronJob {
  import opened Core
  import opened ProductCodes
  import opened ProductStatuses
  import opened Products
  import opened ImportHistories
  import PR = ProductRepository
  import HR = ImportHistoryRepository
  import opened OpenFoodFactsClient

  datatype Job = Job(client: Client, limitPerFile: int)

  /** The outside world of one run: the attempt outcomes each URL yields, what the JSON
      decoder makes of a body, and the clock reading taken for the file at each position
      of the listing. */
  datatype Environment = Environment(
    network: string -> Answers,
    decode: string -> Decoded,
    clock: nat -> Timestamp)

  datatype Tables = Tables(products: PR.ProductStore, history: HR.Ledger)

  /** Whether saving a ledger entry hands its id back (see `HR.SaveAssigningId`). */
  datatype IdMode = AsWritten | AssignsId

  // ----- one record -----

  predicate HasPositiveCode(d: Payload) {
    d.code.Some? && d.code.value > 0
  }

  /** The body of the per-record `try`: skip a record without code; refuse a code that is
      not positive; update a stored product in place or create and save a new one. The
      boolean says whether the record was counted. */
  function ImportRecord(products: PR.ProductStore, d: Payload, now: Timestamp): (r: (PR.ProductStore, bool))
    ensures !HasPositiveCode(d) ==> r == (products, false)
    ensures HasPositiveCode(d) ==> r.1 && r.0.Keys == products.Keys + {d.code.value}
    ensures HasPositiveCode(d) && d.code.value in products ==>
      r.0[d.code.value] == Products.Update(products[d.code.value], d)
    ensures HasPositiveCode(d) && d.code.value !in products ==>
      r.0[d.code.value] == Create(ProductCode(d.code.value), d, now)
    ensures forall k :: k in products && !(HasPositiveCode(d) && k == d.code.value) ==> r.0[k] == products[k]
  {
    if d.code.None? then (products, false)
    else
      match FromInt(d.code.value)
      case Failure(_) => (products, false)
      case Success(code) =>
        if PR.Exists(products, code) then
          match PR.FindByCode(products, code)
          case Some(p) => (PR.Update(products, Products.Update(p, d)), true)
          case None => (products, true)
        else
          match PR.Save(products, Create(code, d, now))
          case Failure(_) => (products, false)
          case Success(saved) => (saved, true)
  }

  /** `after` extends `before`: every stored product keeps its code, status and import
      date, and every new one is a draft imported at `now`. */
  predicate Extends(before: PR.ProductStore, after: PR.ProductStore, now: Timestamp) {
    && before.Keys <= after.Keys
    && (forall k :: k in before ==>
         after[k].code == before[k].code && after[k].status == before[k].status
         && after[k].importedDate == before[k].importedDate)
    && (forall k :: k in after && k !in before ==> after[k].status == Draft && after[k].importedDate == now)
  }

  lemma RecordExtends(products: PR.ProductStore, d: Payload, now: Timestamp)
    ensures Extends(products, ImportRecord(products, d, now).0, now)
  {
  }

  lemma ExtendsTransitive(a: PR.ProductStore, b: PR.ProductStore, c: PR.ProductStore, now: Timestamp)
    requires Extends(a, b, now) && Extends(b, c, now)
    ensures Extends(a, c, now)
  {
  }

  /** The number of records that carry a positive code. */
  function CountPositive(records: seq<Payload>): (n: nat)
    ensures n <= |records|
  {
    if records == [] then 0
    else (if HasPositiveCode(records[0]) then 1 else 0) + CountPositive(records[1..])
  }

  /** The positive codes the records carry. */
  function CodesOf(records: seq<Payload>): set<int> {
    set i | 0 <= i < |records| && HasPositiveCode(records[i]) :: records[i].code.value
  }

  lemma CodesOfCons(records: seq<Payload>)
    requires records != []
    ensures CodesOf(records) ==
      (if HasPositiveCode(records[0]) then {records[0].code.value} else {}) + CodesOf(records[1..])
  {
    var rest := records[1..];
    forall k | k in CodesOf(records)
      ensures k in (if HasPositiveCode(records[0]) then {records[0].code.value} else {}) + CodesOf(rest)
    {
      var i :| 0 <= i < |records| && HasPositiveCode(records[i]) && records[i].code.value == k;
      if i > 0 {
        assert rest[i - 1] == records[i];
      }
    }
    forall k | k in CodesOf(rest)
      ensures k in CodesOf(records)
    {
      var i :| 0 <= i < |rest| && HasPositiveCode(rest[i]) && rest[i].code.value == k;
      assert records[i + 1] == rest[i];
    }
  }

  /** The record loop of `importFile`: every record in order, with the count of those
      that reached the increment. */
  function ImportRecords(products: PR.ProductStore, records: seq<Payload>, now: Timestamp): (r: (PR.ProductStore, nat))
    ensures r.1 == CountPositive(records)
    ensures r.0.Keys == products.Keys + CodesOf(records)
    ensures Extends(products, r.0, now)
    decreases |records|
  {
    if records == [] then (products, 0)
    else
      var (first, counted) := ImportRecord(products, records[0], now);
      var (rest, n) := ImportRecords(first, records[1..], now);
      CodesOfCons(records);
      RecordExtends(products, records[0], now);
      ExtendsTransitive(products, first, rest, now);
      (rest, n + (if counted then 1 else 0))
  }

  // ----- one file -----

  /** What `importFile` returned or threw, and the stores afterwards. */
  datatype FileOutcome = FileOutcome(result: Result<nat>, stores: Tables)

  /** The records the client hands `importFile` for a file, or what it threw. */
  function Fetched(job: Job, env: Environment, filename: string): Result<seq<Payload>> {
    FetchProducts(job.client, filename, job.limitPerFile, env.network(FileUrl(job.client, filename)), env.decode)
  }

  /** The ledger entry as it comes out of `save`, in the given mode. */
  function SaveEntry(mode: IdMode, ledger: HR.Ledger, h: ImportHistory): (r: Result<(HR.Ledger, ImportHistory)>)
    ensures r.Failure? <==> HR.Save(ledger, h).Failure?
    ensures r.Success? ==> r.value.0 == HR.Save(ledger, h).value
    ensures r.Success? && mode.AsWritten? ==> r.value.1 == h
    ensures r.Success? && mode.AssignsId? ==> r.value.1 == h.(id := Some(r.value.0.lastId))
  {
    match mode
    case AsWritten =>
      (match HR.Save(ledger, h)
       case Failure(e) => Failure(e)
       case Success(saved) => Success((saved, h)))
    case AssignsId => HR.SaveAssigningId(ledger, h)
  }

  /** The `catch` of `importFile`: mark the entry failed and write it, then rethrow. When
      that write throws, its exception is the one that leaves. */
  function Recover(entry: ImportHistory, e: Exception, products: PR.ProductStore,
                   ledger: HR.Ledger, now: Timestamp): (r: FileOutcome)
    ensures r.result.Failure? && r.stores.products == products
    ensures HR.Update(ledger, Fail(entry, e.message, now)).Success? ==>
      r.result.error == e && r.stores.history == HR.Update(ledger, Fail(entry, e.message, now)).value
    ensures HR.Update(ledger, Fail(entry, e.message, now)).Failure? ==>
      r.result.error == HR.Update(ledger, Fail(entry, e.message, now)).error && r.stores.history == ledger
  {
    match HR.Update(ledger, Fail(entry, e.message, now))
    case Success(updated) => FileOutcome(Failure(e), Tables(products, updated))
    case Failure(e2) => FileOutcome(Failure(e2), Tables(products, ledger))
  }

  /** `importFile($filename)` at clock reading `now`. A count comes back only for a file
      whose records were fetched, and it is the number of those records with a positive
      code, so never more than the per-file limit. The catalog keeps the records of every
      fetched file, whether the ledger write that follows succeeds or not. */
  function ImportFile(job: Job, env: Environment, mode: IdMode, stores: Tables,
                      filename: string, now: Timestamp): (r: FileOutcome)
    ensures r.result.Success? ==>
      Fetched(job, env, filename).Success?
      && r.result.value == CountPositive(Fetched(job, env, filename).value)
    ensures r.result.Success? && job.limitPerFile >= 0 ==> r.result.value <= job.limitPerFile
    ensures Fetched(job, env, filename).Failure? ==> r.stores.products == stores.products
    ensures Fetched(job, env, filename).Success? ==>
      r.stores.products == ImportRecords(stores.products, Fetched(job, env, filename).value, now).0
  {
    var h := Start(filename, now);
    match SaveEntry(mode, stores.history, h)
    case Failure(e) =>
      assert false;
      FileOutcome(Failure(e), stores)
    case Success((ledger, entry)) =>
      match Fetched(job, env, filename)
      case Failure(e) => Recover(entry, e, stores.products, ledger, now)
      case Success(records) =>
        var (products, n) := ImportRecords(stores.products, records, now);
        var completed := Complete(entry, n, now);
        match HR.Update(ledger, completed)
        case Success(updated) => FileOutcome(Success(n), Tables(products, updated))
        case Failure(e) => Recover(completed, e, products, ledger, now)
  }

  // ----- the run -----

  /** An entry of the `errors` list: a failed file with its name, or the failed listing
      without one. */
  datatype ErrorEntry = ErrorEntry(filename: Option<string>, error: string)

  /** The array `execute` returns. */
  datatype Stats = Stats(success: bool, filesProcessed: nat, productsImported: nat, errors: seq<ErrorEntry>)

  /** The accumulators of the file loop, and what each file returned. */
  datatype Progress = Progress(
    totalFiles: nat, totalImported: nat, errors: seq<ErrorEntry>,
    outcomes: seq<Result<nat>>, stores: Tables)

  /** The number of files that returned. */
  function CountOk(outcomes: seq<Result<nat>>): nat {
    if outcomes == [] then 0
    else CountOk(outcomes[..|outcomes| - 1]) + (if outcomes[|outcomes| - 1].Success? then 1 else 0)
  }

  /** The sum of the counts the files returned. */
  function SumOk(outcomes: seq<Result<nat>>): nat {
    if outcomes == [] then 0
    else
      var last := outcomes[|outcomes| - 1];
      SumOk(outcomes[..|outcomes| - 1]) + (if last.Success? then last.value else 0)
  }

  /** One error entry per file that threw, in listing order. */
  function ErrorsOf(files: seq<string>, outcomes: seq<Result<nat>>): seq<ErrorEntry>
    requires |files| == |outcomes|
  {
    if outcomes == [] then []
    else
      var k := |outcomes| - 1;
      ErrorsOf(files[..k], outcomes[..k])
        + (if outcomes[k].Failure? then [ErrorEntry(Some(files[k]), outcomes[k].error.message)] else [])
  }

  /** Every file either returned or has its error entry. */
  lemma {:induction false} EveryFileAccounted(files: seq<string>, outcomes: seq<Result<nat>>)
    requires |files| == |outcomes|
    ensures CountOk(outcomes) + |ErrorsOf(files, outcomes)| == |outcomes|
    decreases |outcomes|
  {
    if outcomes != [] {
      var k := |outcomes| - 1;
      EveryFileAccounted(files[..k], outcomes[..k]);
    }
  }

  /** The accumulators agree with the outcomes of the files seen so far. */
  predicate Consistent(seen: seq<string>, p: Progress) {
    |p.outcomes| == |seen|
    && p.totalFiles == CountOk(p.outcomes)
    && p.totalImported == SumOk(p.outcomes)
    && p.errors == ErrorsOf(seen, p.outcomes)
  }

  /** One turn of the file loop: add the count of a file that returned, or record the
      error of one that threw. */
  function Advance(seen: seq<string>, acc: Progress, filename: string, out: FileOutcome): (r: Progress)
    requires Consistent(seen, acc)
    ensures Consistent(seen + [filename], r)
    ensures r.outcomes == acc.outcomes + [out.result] && r.stores == out.stores
  {
    var outcomes := acc.outcomes + [out.result];
    assert outcomes[..|outcomes| - 1] == acc.outcomes;
    assert (seen + [filename])[..|seen|] == seen;
    match out.result
    case Success(n) =>
      Progress(acc.totalFiles + 1, acc.totalImported + n, acc.errors, outcomes, out.stores)
    case Failure(e) =>
      Progress(acc.totalFiles, acc.totalImported,
               acc.errors + [ErrorEntry(Some(filename), e.message)], outcomes, out.stores)
  }

  /** `importFile` as the file loop sees it: the stores before, the file name and its
      position in the listing (which picks the clock reading). */
  type FileStep = (Tables, string, nat) -> FileOutcome

  function StepOf(job: Job, env: Environment, mode: IdMode): FileStep {
    (stores: Tables, filename: string, k: nat) => ImportFile(job, env, mode, stores, filename, env.clock(k))
  }

  /** The `foreach` over the listing from position `i` on. Every later file is still
      imported after one throws. */
  function RunFiles(step: FileStep, files: seq<string>, i: nat, acc: Progress): (r: Progress)
    requires i <= |files| && Consistent(files[..i], acc)
    ensures Consistent(files, r)
    ensures r.outcomes[..i] == acc.outcomes
    decreases |files| - i
  {
    if i == |files| then
      assert files[..i] == files;
      acc
    else
      assert files[..i] + [files[i]] == files[..i + 1];
      var next := Advance(files[..i], acc, files[i], step(acc.stores, files[i], i));
      var r := RunFiles(step, files, i + 1, next);
      assert r.outcomes[..i + 1][..i] == r.outcomes[..i];
      r
  }

  /** The download of the index file succeeds, which is exactly when `fetchFileList`
      returns a listing and the file loop runs. */
  predicate ListingReceived(job: Job, env: Environment) {
    FetchUrl(ListUrl(job.client), env.network(ListUrl(job.client)), 3).result.Success?
  }

  /** `execute()` in the given ledger mode. */
  function Run(job: Job, env: Environment, mode: IdMode, stores: Tables): (r: (Stats, Tables))
    ensures var listing := FetchFileList(job.client, env.network(ListUrl(job.client)));
      listing.Failure? ==>
        r == (Stats(false, 0, 0, [ErrorEntry(None, listing.error.message)]), stores)
    ensures r.0.success <==> ListingReceived(job, env)
    ensures r.0.success ==>
      (r.0.filesProcessed + |r.0.errors| == |FetchFileList(job.client, env.network(ListUrl(job.client))).value|)
  {
    var listing := FetchFileList(job.client, env.network(ListUrl(job.client)));
    match listing
    case Failure(e) => (Stats(false, 0, 0, [ErrorEntry(None, e.message)]), stores)
    case Success(files) =>
      assert files[..0] == [];
      var p := RunFiles(StepOf(job, env, mode), files, 0, Progress(0, 0, [], [], stores));
      EveryFileAccounted(files, p.outcomes);
      (Stats(true, p.totalFiles, p.totalImported, p.errors), p.stores)
  }

  /** `execute()` with the ledger as written. */
  function ExecuteAsWritten(job: Job, env: Environment, stores: Tables): (r: (Stats, Tables))
    ensures r.0.success <==> ListingReceived(job, env)
    ensures !ListingReceived(job, env) ==>
      r.1 == stores && r.0.filesProcessed == 0 && r.0.productsImported == 0 && |r.0.errors| == 1
  {
    Run(job, env, AsWritten, stores)
  }

  /** `execute()` with ids handed back by the ledger. */
  function Execute(job: Job, env: Environment, stores: Tables): (r: (Stats, Tables))
    ensures r.0.success <==> ListingReceived(job, env)
    ensures !ListingReceived(job, env) ==>
      r.1 == stores && r.0.filesProcessed == 0 && r.0.productsImported == 0 && |r.0.errors| == 1
  {
    Run(job, env, AssignsId, stores)
  }

  /** `getLastImportTime()`: the start of the latest ledger entry. */
  function LastImportTime(history: HR.Ledger): (t: Option<Timestamp>)
    ensures t.None? <==> HR.FindLast(history).None?
    ensures t.Some? ==> t.value == HR.FindLast(history).value.startedAt
  {
    match HR.FindLast(history)
    case None => None
    case Some(h) => Some(h.startedAt)
  }

  // ----- properties of the run -----

  /** Importing the same record again changes nothing: a stored product updated with the
      payload it already carries, or a freshly created one updated with the payload it was
      created from, stays as it is. */
  lemma RecordReimportIsNoOp(products: PR.ProductStore, d: Payload, now: Timestamp, later: Timestamp)
    ensures var once := ImportRecord(products, d, now).0;
      ImportRecord(once, d, later).0 == once
  {
    var once := ImportRecord(products, d, now).0;
    var twice := ImportRecord(once, d, later).0;
    if HasPositiveCode(d) {
      var k := d.code.value;
      if k in products {
        UpdateIdempotent(products[k], d);
      } else {
        UpdateOfCreated(ProductCode(k), d, now);
      }
      assert twice.Keys == once.Keys;
      assert forall j :: j in once ==> twice[j] == once[j];
    }
  }

  /** The count a file should report if the ledger writes succeed: the number of its
      records with a positive code, or the client's exception. */
  function Expected(job: Job, env: Environment, filename: string): Result<nat> {
    match Fetched(job, env, filename)
    case Success(records) => Success(CountPositive(records))
    case Failure(e) => Failure(e)
  }

  function ExpectedOutcomes(job: Job, env: Environment, files: seq<string>): (r: seq<Result<nat>>)
    ensures |r| == |files|
    ensures forall k :: 0 <= k < |files| ==> r[k] == Expected(job, env, files[k])
  {
    if files == [] then [] else [Expected(job, env, files[0])] + ExpectedOutcomes(job, env, files[1..])
  }

  /** The entry a file leaves in the corrected ledger: completed with its count, or
      failed with the client's message. */
  function FinalEntry(job: Job, env: Environment, filename: string, id: int, now: Timestamp): ImportHistory {
    var entry := Start(filename, now).(id := Some(id));
    match Fetched(job, env, filename)
    case Success(records) => Complete(entry, CountPositive(records), now)
    case Failure(e) => Fail(entry, e.message, now)
  }

  /** As written, every file ends in the missing-id exception: completing the entry
      cannot be written, and neither can failing it in the `catch`. The entry stays in
      the ledger as running, while the fetched records are already in the catalog. */
  lemma AsWrittenFileFails(job: Job, env: Environment, stores: Tables, filename: string, now: Timestamp)
    ensures var out := ImportFile(job, env, AsWritten, stores, filename, now);
      && out.result == Failure(Runtime(HR.MissingIdMessage))
      && out.stores.history == AppendRow(stores.history, HR.RowOf(Start(filename, now)))
  {
  }

  /** With the id handed back, a file returns what its fetch decides, and its entry ends
      completed or failed. */
  lemma CorrectedFileOutcome(job: Job, env: Environment, stores: Tables, filename: string, now: Timestamp)
    ensures var out := ImportFile(job, env, AssignsId, stores, filename, now);
      var id := stores.history.lastId + 1;
      && out.result == Expected(job, env, filename)
      && out.stores.history == AppendRow(stores.history, HR.RowOf(FinalEntry(job, env, filename, id, now)))
  {
    var id := stores.history.lastId + 1;
    var h := Start(filename, now);
    RewriteAppended(stores.history, HR.RowOf(h), FinalEntry(job, env, filename, id, now));
  }

  /** Rewriting the row just appended leaves the ledger as if the new row had been
      appended in its place. */
  lemma RewriteAppended(st: HR.Ledger, first: HR.HistoryRow, h: ImportHistory)
    requires IsKnownStatus(first.status)
    requires h.id == Some(st.lastId + 1) && IsKnownStatus(h.status)
    ensures HR.Update(AppendRow(st, first), h) == Success(AppendRow(st, HR.RowOf(h)))
  {
    var id := st.lastId + 1;
    assert st.rows[id := first][id := HR.RowOf(h)] == st.rows[id := HR.RowOf(h)];
  }

  /** The error entries of a listing whose every file threw `message`. */
  function FailedEntries(files: seq<string>, message: string): (r: seq<ErrorEntry>)
    ensures |r| == |files|
    ensures forall k :: 0 <= k < |files| ==> r[k] == ErrorEntry(Some(files[k]), message)
  {
    if files == [] then []
    else FailedEntries(files[..|files| - 1], message) + [ErrorEntry(Some(files[|files| - 1]), message)]
  }

  lemma {:induction false} AllFailed(files: seq<string>, outcomes: seq<Result<nat>>, message: string)
    requires |files| == |outcomes|
    requires forall k :: 0 <= k < |outcomes| ==> outcomes[k] == Failure(Runtime(message))
    ensures CountOk(outcomes) == 0 && SumOk(outcomes) == 0
    ensures ErrorsOf(files, outcomes) == FailedEntries(files, message)
    decreases |outcomes|
  {
    if outcomes != [] {
      var k := |outcomes| - 1;
      AllFailed(files[..k], outcomes[..k], message);
    }
  }

  /** One turn of the file loop, unfolded. */
  lemma RunFilesStep(step: FileStep, files: seq<string>, i: nat, acc: Progress)
    requires i < |files| && Consistent(files[..i], acc)
    ensures files[..i] + [files[i]] == files[..i + 1]
    ensures var next := Advance(files[..i], acc, files[i], step(acc.stores, files[i], i));
      && RunFiles(step, files, i, acc) == RunFiles(step, files, i + 1, next)
      && RunFiles(step, files, i, acc).outcomes[i] == step(acc.stores, files[i], i).result
  {
    assert files[..i] + [files[i]] == files[..i + 1];
    var next := Advance(files[..i], acc, files[i], step(acc.stores, files[i], i));
    var r := RunFiles(step, files, i + 1, next);
    assert r.outcomes[..i + 1] == next.outcomes;
    assert r.outcomes[i] == r.outcomes[..i + 1][i];
  }

  /** A file loop whose step returns what the file name alone decides reports exactly
      that for every file. */
  lemma {:induction false} RunFilesOutcomes(step: FileStep, decide: string -> Result<nat>,
                                            files: seq<string>, i: nat, acc: Progress)
    requires i <= |files| && Consistent(files[..i], acc)
    requires forall st: Tables, f: string, k: nat :: step(st, f, k).result == decide(f)
    ensures var r := RunFiles(step, files, i, acc);
      forall k :: i <= k < |files| ==> r.outcomes[k] == decide(files[k])
    decreases |files| - i
  {
    if i < |files| {
      RunFilesStep(step, files, i, acc);
      var next := Advance(files[..i], acc, files[i], step(acc.stores, files[i], i));
      RunFilesOutcomes(step, decide, files, i + 1, next);
    }
  }

  /** The stores after the file loop: each file's step applied to the stores the
      previous one left. */
  function StoresAfter(step: FileStep, files: seq<string>, i: nat, stores: Tables): Tables
    requires i <= |files|
    decreases |files| - i
  {
    if i == |files| then stores else StoresAfter(step, files, i + 1, step(stores, files[i], i).stores)
  }

  lemma {:induction false} RunFilesStores(step: FileStep, files: seq<string>, i: nat, acc: Progress)
    requires i <= |files| && Consistent(files[..i], acc)
    ensures RunFiles(step, files, i, acc).stores == StoresAfter(step, files, i, acc.stores)
    decreases |files| - i
  {
    if i < |files| {
      RunFilesStep(step, files, i, acc);
      var next := Advance(files[..i], acc, files[i], step(acc.stores, files[i], i));
      RunFilesStores(step, files, i + 1, next);
    }
  }

  /** The ledger with one more row under the next id. */
  function AppendRow(st: HR.HistoryStore, row: HR.HistoryRow): HR.HistoryStore {
    HR.HistoryStore(st.rows[st.lastId + 1 := row], st.lastId + 1)
  }

  /** The ledger with one row per file from position `i` on, in listing order; `entry`
      decides each row from the file, its position and the id it gets. */
  function AppendAll(st: HR.HistoryStore, entry: (string, nat, int) -> HR.HistoryRow,
                     files: seq<string>, i: nat): HR.HistoryStore
    requires i <= |files|
    decreases |files| - i
  {
    if i == |files| then st
    else AppendAll(AppendRow(st, entry(files[i], i, st.lastId + 1)), entry, files, i + 1)
  }

  /** Appending keeps every earlier row and puts the row of the file at position
      `i + j` under id `lastId + 1 + j`. */
  lemma AppendAllRows(st: HR.HistoryStore, entry: (string, nat, int) -> HR.HistoryRow,
                      files: seq<string>, i: nat)
    requires i <= |files|
    requires forall id :: id in st.rows ==> id <= st.lastId
    ensures var r := AppendAll(st, entry, files, i);
      && r.lastId == st.lastId + (|files| - i)
      && (forall id :: id in st.rows ==> id in r.rows && r.rows[id] == st.rows[id])
      && (forall id :: id in r.rows <==> id in st.rows || st.lastId < id <= r.lastId)
      && (forall id :: st.lastId < id <= r.lastId ==>
            r.rows[id] == entry(files[i + (id - st.lastId - 1)], i + (id - st.lastId - 1), id))
  {
    AppendAllKeeps(st, entry, files, i);
    AppendAllKeys(st, entry, files, i);
    AppendAllNewRows(st, entry, files, i);
  }

  lemma {:induction false} AppendAllKeeps(st: HR.HistoryStore, entry: (string, nat, int) -> HR.HistoryRow,
                                          files: seq<string>, i: nat)
    requires i <= |files|
    requires forall id :: id in st.rows ==> id <= st.lastId
    ensures var r := AppendAll(st, entry, files, i);
      && r.lastId == st.lastId + (|files| - i)
      && (forall id :: id in st.rows ==> id in r.rows && r.rows[id] == st.rows[id])
    decreases |files| - i
  {
    if i < |files| {
      var next := AppendRow(st, entry(files[i], i, st.lastId + 1));
      AppendAllKeeps(next, entry, files, i + 1);
    }
  }

  lemma {:induction false} AppendAllKeys(st: HR.HistoryStore, entry: (string, nat, int) -> HR.HistoryRow,
                                         files: seq<string>, i: nat)
    requires i <= |files|
    ensures var r := AppendAll(st, entry, files, i);
      && r.lastId == st.lastId + (|files| - i)
      && (forall id :: id in r.rows <==> id in st.rows || st.lastId < id <= r.lastId)
    decreases |files| - i
  {
    if i < |files| {
      var next := AppendRow(st, entry(files[i], i, st.lastId + 1));
      AppendAllKeys(next, entry, files, i + 1);
    }
  }

  lemma {:induction false} AppendAllNewRows(st: HR.HistoryStore, entry: (string, nat, int) -> HR.HistoryRow,
                                            files: seq<string>, i: nat)
    requires i <= |files|
    requires forall id :: id in st.rows ==> id <= st.lastId
    ensures var r := AppendAll(st, entry, files, i);
      && r.lastId == st.lastId + (|files| - i)
      && (forall id :: st.lastId < id <= r.lastId ==>
            id in r.rows && r.rows[id] == entry(files[i + (id - st.lastId - 1)], i + (id - st.lastId - 1), id))
    decreases |files| - i
  {
    if i < |files| {
      var row := entry(files[i], i, st.lastId + 1);
      var next := AppendRow(st, row);
      AppendAllNewRows(next, entry, files, i + 1);
      AppendAllKeeps(next, entry, files, i + 1);
      var r := AppendAll(st, entry, files, i);
      assert r == AppendAll(next, entry, files, i + 1);
      forall id | st.lastId < id <= r.lastId
        ensures id in r.rows && r.rows[id] == entry(files[i + (id - st.lastId - 1)], i + (id - st.lastId - 1), id)
      {
        if id == st.lastId + 1 {
          assert next.rows[id] == row;
        } else {
          assert i + (id - st.lastId - 1) == i + 1 + (id - next.lastId - 1);
        }
      }
    }
  }

  /** A loop whose step appends one decided row per file leaves the ledger `AppendAll`
      describes. */
  lemma {:induction false} LedgerAfter(step: FileStep, entry: (string, nat, int) -> HR.HistoryRow,
                                       files: seq<string>, i: nat, stores: Tables)
    requires i <= |files|
    requires forall st: Tables, f: string, k: nat ::
      step(st, f, k).stores.history == AppendRow(st.history, entry(f, k, st.history.lastId + 1))
    ensures StoresAfter(step, files, i, stores).history == AppendAll(stores.history, entry, files, i)
    decreases |files| - i
  {
    if i < |files| {
      LedgerAfter(step, entry, files, i + 1, step(stores, files[i], i).stores);
    }
  }

  /** Stored products keep their status and new ones are drafts. */
  predicate KeepsStatuses(before: PR.ProductStore, after: PR.ProductStore) {
    && before.Keys <= after.Keys
    && (forall k :: k in before ==> after[k].status == before[k].status)
    && (forall k :: k in after && k !in before ==> after[k].status == Draft)
  }

  lemma KeepsStatusesTransitive(a: PR.ProductStore, b: PR.ProductStore, c: PR.ProductStore)
    requires KeepsStatuses(a, b) && KeepsStatuses(b, c)
    ensures KeepsStatuses(a, c)
  {
  }

  function UnionOf(codes: string -> set<int>, files: seq<string>): set<int> {
    if files == [] then {} else codes(files[0]) + UnionOf(codes, files[1..])
  }

  /** A loop whose step adds the codes the file decides and keeps statuses ends with all
      those codes added and statuses kept. */
  lemma {:induction false} CatalogAfter(step: FileStep, codes: string -> set<int>,
                                        files: seq<string>, i: nat, stores: Tables)
    requires i <= |files|
    requires forall st: Tables, f: string, k: nat ::
      step(st, f, k).stores.products.Keys == st.products.Keys + codes(f)
      && KeepsStatuses(st.products, step(st, f, k).stores.products)
    ensures var after := StoresAfter(step, files, i, stores).products;
      && after.Keys == stores.products.Keys + UnionOf(codes, files[i..])
      && KeepsStatuses(stores.products, after)
    decreases |files| - i
  {
    if i < |files| {
      var next := step(stores, files[i], i).stores;
      CatalogAfter(step, codes, files, i + 1, next);
      assert files[i..] == [files[i]] + files[i + 1..];
      KeepsStatusesTransitive(stores.products, next.products, StoresAfter(step, files, i + 1, next).products);
    } else {
      assert files[i..] == [];
    }
  }

  /** The codes a file adds to the catalog: those of its fetched records. */
  function FetchedCodes(job: Job, env: Environment, filename: string): set<int> {
    match Fetched(job, env, filename)
    case Success(records) => CodesOf(records)
    case Failure(_) => {}
  }

  /** The as-written file step, for every stores, file and position. */
  lemma AsWrittenSteps(job: Job, env: Environment)
    ensures forall st: Tables, f: string, k: nat ::
      && StepOf(job, env, AsWritten)(st, f, k).result == Failure(Runtime(HR.MissingIdMessage))
      && StepOf(job, env, AsWritten)(st, f, k).stores.history == AppendRow(st.history, HR.RowOf(Start(f, env.clock(k))))
  {
    forall st: Tables, f: string, k: nat
      ensures StepOf(job, env, AsWritten)(st, f, k).result == Failure(Runtime(HR.MissingIdMessage))
      ensures StepOf(job, env, AsWritten)(st, f, k).stores.history == AppendRow(st.history, HR.RowOf(Start(f, env.clock(k))))
    {
      AsWrittenFileFails(job, env, st, f, env.clock(k));
    }
  }

  /** The corrected file step, for every stores, file and position. */
  lemma CorrectedSteps(job: Job, env: Environment)
    ensures forall st: Tables, f: string, k: nat ::
      && StepOf(job, env, AssignsId)(st, f, k).result == Expected(job, env, f)
      && StepOf(job, env, AssignsId)(st, f, k).stores.history
         == AppendRow(st.history, HR.RowOf(FinalEntry(job, env, f, st.history.lastId + 1, env.clock(k))))
  {
    forall st: Tables, f: string, k: nat
      ensures StepOf(job, env, AssignsId)(st, f, k).result == Expected(job, env, f)
      ensures StepOf(job, env, AssignsId)(st, f, k).stores.history
         == AppendRow(st.history, HR.RowOf(FinalEntry(job, env, f, st.history.lastId + 1, env.clock(k))))
    {
      CorrectedFileOutcome(job, env, st, f, env.clock(k));
    }
  }

  /** Either file step adds the codes of the fetched records and keeps statuses. */
  lemma CatalogSteps(job: Job, env: Environment, mode: IdMode)
    ensures forall st: Tables, f: string, k: nat ::
      && StepOf(job, env, mode)(st, f, k).stores.products.Keys == st.products.Keys + FetchedCodes(job, env, f)
      && KeepsStatuses(st.products, StepOf(job, env, mode)(st, f, k).stores.products)
  {
    forall st: Tables, f: string, k: nat
      ensures StepOf(job, env, mode)(st, f, k).stores.products.Keys == st.products.Keys + FetchedCodes(job, env, f)
      ensures KeepsStatuses(st.products, StepOf(job, env, mode)(st, f, k).stores.products)
    {
      var out := ImportFile(job, env, mode, st, f, env.clock(k));
      assert StepOf(job, env, mode)(st, f, k) == out;
      if Fetched(job, env, f).Success? {
        assert out.stores.products == ImportRecords(st.products, Fetched(job, env, f).value, env.clock(k)).0;
      }
    }
  }

  /** `execute()` after a successful listing: the statistics and stores the file loop
      leaves. */
  lemma RunUnfolded(job: Job, env: Environment, mode: IdMode, stores: Tables)
    requires ListingReceived(job, env)
    ensures var files := FetchFileList(job.client, env.network(ListUrl(job.client))).value;
      && files[..0] == []
      && var p := RunFiles(StepOf(job, env, mode), files, 0, Progress(0, 0, [], [], stores));
         Run(job, env, mode, stores) == (Stats(true, p.totalFiles, p.totalImported, p.errors), p.stores)
  {
    var files := FetchFileList(job.client, env.network(ListUrl(job.client))).value;
    assert files[..0] == [];
  }

  /** The run as written: the listing is processed to the end, yet no file counts as
      processed, nothing counts as imported, and every file has a missing-id error entry. */
  lemma AsWrittenEveryFileFails(job: Job, env: Environment, stores: Tables)
    requires ListingReceived(job, env)
    ensures var files := FetchFileList(job.client, env.network(ListUrl(job.client))).value;
      ExecuteAsWritten(job, env, stores).0 == Stats(true, 0, 0, FailedEntries(files, HR.MissingIdMessage))
  {
    var files := FetchFileList(job.client, env.network(ListUrl(job.client))).value;
    var step := StepOf(job, env, AsWritten);
    var acc := Progress(0, 0, [], [], stores);
    RunUnfolded(job, env, AsWritten, stores);
    AsWrittenSteps(job, env);
    var decide := (f: string) => Failure(Runtime(HR.MissingIdMessage));
    RunFilesOutcomes(step, decide, files, 0, acc);
    var p := RunFiles(step, files, 0, acc);
    AllFailed(files, p.outcomes, HR.MissingIdMessage);
  }

  /** As written, the ledger gains one entry per listed file, and every one of them stays
      running. */
  lemma AsWrittenEntriesStayRunning(job: Job, env: Environment, stores: Tables)
    requires ListingReceived(job, env)
    ensures var files := FetchFileList(job.client, env.network(ListUrl(job.client))).value;
      var after := ExecuteAsWritten(job, env, stores).1.history;
      var base := stores.history.lastId;
      && after.lastId == base + |files|
      && (forall id :: id in after.rows <==> id in stores.history.rows || base < id <= base + |files|)
      && (forall id :: id in stores.history.rows ==> after.rows[id] == stores.history.rows[id])
      && (forall k :: 0 <= k < |files| ==> after.rows[base + 1 + k] == HR.RowOf(Start(files[k], env.clock(k))))
  {
    var files := FetchFileList(job.client, env.network(ListUrl(job.client))).value;
    var entry := (f: string, k: nat, id: int) => HR.RowOf(Start(f, env.clock(k)));
    AsWrittenLedger(job, env, stores, entry);
    AppendAllRows(stores.history, entry, files, 0);
  }

  lemma AsWrittenLedger(job: Job, env: Environment, stores: Tables, entry: (string, nat, int) -> HR.HistoryRow)
    requires ListingReceived(job, env)
    requires forall f: string, k: nat, id: int :: entry(f, k, id) == HR.RowOf(Start(f, env.clock(k)))
    ensures var files := FetchFileList(job.client, env.network(ListUrl(job.client))).value;
      ExecuteAsWritten(job, env, stores).1.history == AppendAll(stores.history, entry, files, 0)
  {
    var files := FetchFileList(job.client, env.network(ListUrl(job.client))).value;
    var step := StepOf(job, env, AsWritten);
    var acc := Progress(0, 0, [], [], stores);
    RunUnfolded(job, env, AsWritten, stores);
    AsWrittenSteps(job, env);
    RunFilesStores(step, files, 0, acc);
    LedgerAfter(step, entry, files, 0, stores);
  }

  /** The corrected run: the statistics are those of the fetches alone. A file counts as
      processed exactly when its records were fetched, with as many imported products as
      those records with a positive code; every other file has its error entry. */
  lemma CorrectedRunFollowsFetches(job: Job, env: Environment, stores: Tables)
    requires ListingReceived(job, env)
    ensures var files := FetchFileList(job.client, env.network(ListUrl(job.client))).value;
      var expected := ExpectedOutcomes(job, env, files);
      Execute(job, env, stores).0 == Stats(true, CountOk(expected), SumOk(expected), ErrorsOf(files, expected))
  {
    var files := FetchFileList(job.client, env.network(ListUrl(job.client))).value;
    var step := StepOf(job, env, AssignsId);
    var acc := Progress(0, 0, [], [], stores);
    RunUnfolded(job, env, AssignsId, stores);
    CorrectedSteps(job, env);
    var decide := (f: string) => Expected(job, env, f);
    RunFilesOutcomes(step, decide, files, 0, acc);
    var p := RunFiles(step, files, 0, acc);
    assert p.outcomes == ExpectedOutcomes(job, env, files);
  }

  /** With ids handed back, every listed file's ledger entry ends completed with its
      count or failed with the client's message. */
  lemma CorrectedEntriesAreClosed(job: Job, env: Environment, stores: Tables)
    requires ListingReceived(job, env)
    ensures var files := FetchFileList(job.client, env.network(ListUrl(job.client))).value;
      var after := Execute(job, env, stores).1.history;
      var base := stores.history.lastId;
      && after.lastId == base + |files|
      && (forall id :: id in after.rows <==> id in stores.history.rows || base < id <= base + |files|)
      && (forall id :: id in stores.history.rows ==> after.rows[id] == stores.history.rows[id])
      && (forall k :: 0 <= k < |files| ==>
            after.rows[base + 1 + k] == HR.RowOf(FinalEntry(job, env, files[k], base + 1 + k, env.clock(k))))
  {
    var files := FetchFileList(job.client, env.network(ListUrl(job.client))).value;
    var entry := (f: string, k: nat, id: int) => HR.RowOf(FinalEntry(job, env, f, id, env.clock(k)));
    CorrectedLedger(job, env, stores, entry);
    AppendAllRows(stores.history, entry, files, 0);
  }

  lemma CorrectedLedger(job: Job, env: Environment, stores: Tables, entry: (string, nat, int) -> HR.HistoryRow)
    requires ListingReceived(job, env)
    requires forall f: string, k: nat, id: int :: entry(f, k, id) == HR.RowOf(FinalEntry(job, env, f, id, env.clock(k)))
    ensures var files := FetchFileList(job.client, env.network(ListUrl(job.client))).value;
      Execute(job, env, stores).1.history == AppendAll(stores.history, entry, files, 0)
  {
    var files := FetchFileList(job.client, env.network(ListUrl(job.client))).value;
    var step := StepOf(job, env, AssignsId);
    var acc := Progress(0, 0, [], [], stores);
    RunUnfolded(job, env, AssignsId, stores);
    CorrectedSteps(job, env);
    RunFilesStores(step, files, 0, acc);
    LedgerAfter(step, entry, files, 0, stores);
  }

  /** In either mode, a run adds the codes of every fetched record to the catalog, never
      changes the status of a stored product, and stores new products as drafts. */
  lemma RunKeepsStatuses(job: Job, env: Environment, mode: IdMode, stores: Tables)
    requires ListingReceived(job, env)
    ensures var files := FetchFileList(job.client, env.network(ListUrl(job.client))).value;
      var after := Run(job, env, mode, stores).1;
      && after.products.Keys == stores.products.Keys + UnionOf(f => FetchedCodes(job, env, f), files)
      && KeepsStatuses(stores.products, after.products)
  {
    var files := FetchFileList(job.client, env.network(ListUrl(job.client))).value;
    var step := StepOf(job, env, mode);
    var acc := Progress(0, 0, [], [], stores);
    assert files[..0] == [];
    assert files[0..] == files;
    var codes := (f: string) => FetchedCodes(job, env, f);
    CatalogSteps(job, env, mode);
    RunFilesStores(step, files, 0, acc);
    CatalogAfter(step, codes, files, 0, stores);
  }
}
