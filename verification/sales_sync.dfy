/** The partners job that syncs royalty reports: ISBN resolution for parsed rows, and the
    `sync_sales_reports` endpoint as a state machine over an abstract file source (the listed
    files and their workbooks) and a record store (sale records and ISBN codes). */
module SalesSync {
  import opened Wrappers
  import opened Text
  import opened Workbook
  import opened ReportFormat
  import Findaway

  // ----- ISBN resolution -----

  /** A sale record ready to save: the draft and the code of the ISBN it links to, if any. */
  datatype Linked = Linked(draft: Findaway.SaleDraft, isbn: Option<string>)

  /** What `_create_isbns_and_assign` does: the records, the ISBN codes stored afterwards, the
      codes it created, and whether it queried the store at all. */
  datatype Resolution = Resolution(records: seq<Linked>, isbns: set<string>, created: set<string>, queried: bool)

  /** The distinct non-empty codes of the parsed rows. */
  function Codes(pairs: seq<Findaway.Parsed>): (r: set<string>)
    ensures forall k | 0 <= k < |pairs| && pairs[k].code != "" :: pairs[k].code in r
  {
    set k | 0 <= k < |pairs| && pairs[k].code != "" :: pairs[k].code
  }

  /** The link a row gets: its own code, or none for an empty code. */
  function LinkOf(code: string): Option<string> {
    if code == "" then None else Some(code)
  }

  function Link(pairs: seq<Findaway.Parsed>): (r: seq<Linked>)
    ensures |r| == |pairs|
  {
    if |pairs| == 0 then [] else [Linked(pairs[0].draft, LinkOf(pairs[0].code))] + Link(pairs[1..])
  }

  /** Each row becomes one record carrying its draft and its own code. */
  lemma {:induction false} LinkElements(pairs: seq<Findaway.Parsed>)
    ensures forall k | 0 <= k < |pairs| :: Link(pairs)[k] == Linked(pairs[k].draft, LinkOf(pairs[k].code))
    decreases |pairs|
  {
    if |pairs| > 0 {
      LinkElements(pairs[1..]);
      assert forall k | 1 <= k < |pairs| :: pairs[k] == pairs[1..][k - 1] && Link(pairs)[k] == Link(pairs[1..])[k - 1];
    }
  }

  /** `_create_isbns_and_assign` against a store holding the ISBN codes `isbns`. */
  function Resolve(pairs: seq<Findaway.Parsed>, isbns: set<string>): (r: Resolution)
    ensures |r.records| == |pairs|
    ensures forall k | 0 <= k < |pairs| ::
      r.records[k].draft == pairs[k].draft && r.records[k].isbn == LinkOf(pairs[k].code)
    ensures forall k | 0 <= k < |pairs| && pairs[k].code != "" :: pairs[k].code in r.isbns
    ensures forall c | c in r.created :: c !in isbns && exists k | 0 <= k < |pairs| :: pairs[k].code == c
    ensures r.isbns == isbns + r.created
    ensures r.queried <==> exists k | 0 <= k < |pairs| :: pairs[k].code != ""
  {
    var codes := Codes(pairs);
    LinkElements(pairs);
    if codes == {} then
      Resolution(Link(pairs), isbns, {}, false)
    else
      var missing := codes - isbns;
      assert forall k | 0 <= k < |pairs| && pairs[k].code != "" :: pairs[k].code in codes;
      Resolution(Link(pairs), isbns + missing, missing, true)
  }

  /** Exactly the row codes not yet stored are created. */
  lemma CreatedExactly(pairs: seq<Findaway.Parsed>, isbns: set<string>, c: string)
    ensures c in Resolve(pairs, isbns).created <==>
      c !in isbns && exists k | 0 <= k < |pairs| :: pairs[k].code == c && c != ""
  {
    if c !in isbns && exists k | 0 <= k < |pairs| :: pairs[k].code == c && c != "" {
      var k :| 0 <= k < |pairs| && pairs[k].code == c && c != "";
      assert c in Codes(pairs);
    }
  }

  // ----- the sync job -----

  /** A listed Drive file. */
  datatype FileRef = FileRef(id: string, name: string)

  /** The record store: saved sale records, in insertion order, and the stored ISBN codes. */
  datatype Store = Store(records: seq<Linked>, isbns: set<string>)

  /** Exceptions that escape the job. */
  datatype SyncError =
    | BadSamples(samples: string)                       // ValueError from `int(samples)`
    | DownloadFailed(file: string)
    | ParseFailed(file: string, error: ReportError)
    | UnpackFailed(file: string)                        // TypeError unpacking a record as a pair

  /** How the job ended: an HTTP response, or an exception; either way with the store as it was
      left and the number of delete-all calls made. */
  datatype Outcome =
    | Responded(status: int, body: string, store: Store, deletes: nat)
    | Raised(error: SyncError, store: Store, deletes: nat)

  const MissingFolderMessage := "Missing GOOGLE_DRIVE_FOLDER_ID environment variable"
  const NoFilesMessage := "No xlsx files found in Google Drive folder."

  /** The `samples` query parameter: a non-negative limit keeps the first files only. */
  function Limit(files: seq<FileRef>, samples: Option<string>): (r: Result<seq<FileRef>, SyncError>)
    ensures samples.None? ==> r == Success(files)
    ensures samples.Some? ==> (r.Failure? <==> ParseInt(samples.value).None?)
    ensures r.Success? && samples.Some? && ParseInt(samples.value).value >= 0 ==>
      |r.value| == (if ParseInt(samples.value).value < |files| then ParseInt(samples.value).value else |files|)
    ensures r.Success? && samples.Some? && ParseInt(samples.value).value < 0 ==> r.value == files
    ensures r.Success? ==> r.value <= files
  {
    match samples
    case None => Success(files)
    case Some(text) =>
      match ParseInt(text)
      case None => Failure(BadSamples(text))
      case Some(n) =>
        if n < 0 then Success(files)
        else if n < |files| then Success(files[..n])
        else Success(files)
  }

  /** Downloading a file and parsing it as a Findaway report. */
  function Fetch(f: FileRef, contents: map<string, Book>): (r: Result<seq<Findaway.Parsed>, SyncError>)
    ensures f.id !in contents ==> r == Failure(DownloadFailed(f.name))
  {
    if f.id !in contents then Failure(DownloadFailed(f.name))
    else
      match Findaway.ParseReport(contents[f.id], f.name, f.id)
      case Failure(e) => Failure(ParseFailed(f.name, e))
      case Success(pairs) => Success(pairs)
  }

  /** The outcome of fetching each file in turn. The job stops at the first failure, so later
      outcomes are never looked at. */
  type Fetched = seq<Result<seq<Findaway.Parsed>, SyncError>>

  function FetchAll(files: seq<FileRef>, contents: map<string, Book>): (r: Fetched)
    ensures |r| == |files|
  {
    if |files| == 0 then [] else [Fetch(files[0], contents)] + FetchAll(files[1..], contents)
  }

  /** Fetching a list splits at any file: the files before it, that file, and the rest. */
  lemma {:induction false} FetchAllSplits(files: seq<FileRef>, contents: map<string, Book>, k: nat)
    requires k < |files|
    ensures FetchAll(files, contents)
      == FetchAll(files[..k], contents) + [Fetch(files[k], contents)] + FetchAll(files[k + 1..], contents)
    decreases k
  {
    if k > 0 {
      FetchAllSplits(files[1..], contents, k - 1);
      assert files[1..][..k - 1] == files[..k][1..];
      assert files[1..][k - 1] == files[k];
      assert files[1..][k..] == files[k + 1..];
      assert files[..k][0] == files[0];
    } else {
      assert files[1..] == files[k + 1..];
    }
  }

  /** One file's rows saved: ISBNs resolved against the store, then the linked records appended. */
  function Save(store: Store, pairs: seq<Findaway.Parsed>): (r: Store)
    ensures r.records == store.records + Link(pairs)
    ensures store.isbns <= r.isbns
  {
    var res := Resolve(pairs, store.isbns);
    Store(store.records + res.records, res.isbns)
  }

  /** The progress of the per-file loop. */
  datatype Progress = Progress(store: Store, saved: nat, failure: Option<SyncError>)

  /** The per-file loop: take the fetched report, resolve ISBNs, insert, count; stop at the first
      failure. */
  function ProcessFiles(fetched: Fetched, store: Store): (p: Progress)
    ensures store.records <= p.store.records
    ensures p.failure.None? ==> |p.store.records| == |store.records| + p.saved
  {
    if |fetched| == 0 then Progress(store, 0, None)
    else
      match fetched[0]
      case Failure(e) => Progress(store, 0, Some(e))
      case Success(pairs) =>
        var rest := ProcessFiles(fetched[1..], Save(store, pairs));
        Progress(rest.store, |pairs| + rest.saved, rest.failure)
  }

  /** The linked rows of all fetched reports, concatenated in file order; `None` if one failed. */
  function RowsOf(fetched: Fetched): Option<seq<Linked>>
  {
    if |fetched| == 0 then Some([])
    else
      match fetched[0]
      case Failure(_) => None
      case Success(pairs) =>
        match RowsOf(fetched[1..])
        case None => None
        case Some(rest) => Some(Link(pairs) + rest)
  }

  /** The loop fails exactly when one of the fetched reports failed. */
  lemma {:induction false} ProcessFailsIff(fetched: Fetched, store: Store)
    ensures ProcessFiles(fetched, store).failure.None? <==> RowsOf(fetched).Some?
    decreases |fetched|
  {
    if |fetched| > 0 && fetched[0].Success? {
      ProcessFailsIff(fetched[1..], Save(store, fetched[0].value));
    }
  }

  /** Without failure, the loop appends exactly the files' rows, in file order. */
  lemma {:induction false} ProcessAppends(fetched: Fetched, store: Store)
    requires RowsOf(fetched).Some?
    ensures ProcessFiles(fetched, store).failure.None?
    ensures ProcessFiles(fetched, store).store.records == store.records + RowsOf(fetched).value
    decreases |fetched|
  {
    if |fetched| > 0 {
      var pairs := fetched[0].value;
      var next := Save(store, pairs);
      ProcessAppends(fetched[1..], next);
      var rest := RowsOf(fetched[1..]).value;
      assert RowsOf(fetched).value == Link(pairs) + rest;
      assert ProcessFiles(fetched, store).store == ProcessFiles(fetched[1..], next).store;
      assert store.records + Link(pairs) + rest == store.records + (Link(pairs) + rest);
    }
  }

  /** A failure after the reports `done` leaves in the store exactly the rows of `done`. */
  lemma {:induction false} ProcessStopsAtFailure(done: Fetched, e: SyncError, later: Fetched, store: Store)
    requires RowsOf(done).Some?
    ensures ProcessFiles(done + [Failure(e)] + later, store).failure == Some(e)
    ensures ProcessFiles(done + [Failure(e)] + later, store).store.records == store.records + RowsOf(done).value
    decreases |done|
  {
    var fetched := done + [Failure(e)] + later;
    if |done| == 0 {
      assert fetched[0] == Failure(e);
    } else {
      var pairs := done[0].value;
      var next := Save(store, pairs);
      var tail := done[1..] + [Failure(e)] + later;
      ProcessStopsAtFailure(done[1..], e, later, next);
      assert ProcessFiles(fetched, store).store == ProcessFiles(tail, next).store
          && ProcessFiles(fetched, store).failure == ProcessFiles(tail, next).failure by {
        assert fetched[0] == Success(pairs);
        assert fetched[1..] == tail;
      }
      var rest := RowsOf(done[1..]).value;
      assert RowsOf(done).value == Link(pairs) + rest;
      assert store.records + Link(pairs) + rest == store.records + (Link(pairs) + rest);
    }
  }

  /** The summary line of a completed sync. */
  function CompleteMessage(processed: nat, saved: nat): string {
    "Sync complete. Processed " + IntText(processed) + " file(s), saved " + IntText(saved) + " row(s)."
  }

  /** What the job does before the delete: the files to process, or the outcome it ends with
      early (no folder id, an unreadable `samples`, no file). */
  function Prepare(folder: Option<string>, listed: seq<FileRef>, samples: Option<string>, store: Store)
    : (r: Result<seq<FileRef>, Outcome>)
    ensures r.Failure? ==> r.error.store == store && r.error.deletes == 0
    ensures r.Success? <==>
      folder.Some? && folder.value != "" && Limit(listed, samples).Success? && |Limit(listed, samples).value| > 0
    ensures r.Success? ==> r.value == Limit(listed, samples).value
  {
    if folder.None? || folder.value == "" then Failure(Responded(500, MissingFolderMessage, store, 0))
    else
      match Limit(listed, samples)
      case Failure(e) => Failure(Raised(e, store, 0))
      case Success(files) =>
        if |files| == 0 then Failure(Responded(200, NoFilesMessage, store, 0))
        else Success(files)
  }

  /** The delete and the per-file loop over the fetched reports of `files`. */
  function Replace(files: seq<FileRef>, fetched: Fetched, store: Store): (r: Outcome)
    ensures r.deletes == 1
    ensures r.Responded? <==> RowsOf(fetched).Some?
    ensures r.Responded? ==> r.status == 200 && r.store.records == RowsOf(fetched).value
  {
    var cleared := Store([], store.isbns);
    var p := ProcessFiles(fetched, cleared);
    ProcessFailsIff(fetched, cleared);
    match p.failure
    case Some(e) => Raised(e, p.store, 1)
    case None =>
      ProcessAppends(fetched, cleared);
      assert [] + RowsOf(fetched).value == RowsOf(fetched).value;
      Responded(200, CompleteMessage(|files|, p.saved), p.store, 1)
  }

  /** `sync_sales_reports`. `folder` is the `GOOGLE_DRIVE_FOLDER_ID` setting, `listed` the xlsx
      files of the folder, `contents` their workbooks by file id, `samples` the query parameter.
      The records are deleted once exactly when there are files to process; a run that then
      answers leaves exactly this run's rows, in file order. */
  function Sync(folder: Option<string>, listed: seq<FileRef>, contents: map<string, Book>,
                samples: Option<string>, store: Store): (r: Outcome)
    ensures r.deletes <= 1
    ensures r.deletes == 1 <==>
      folder.Some? && folder.value != "" && Limit(listed, samples).Success? && |Limit(listed, samples).value| > 0
    ensures r.Responded? && r.deletes == 1 ==>
      && Limit(listed, samples).Success?
      && RowsOf(FetchAll(Limit(listed, samples).value, contents)).Some?
      && r.status == 200
      && r.store.records == RowsOf(FetchAll(Limit(listed, samples).value, contents)).value
  {
    match Prepare(folder, listed, samples, store)
    case Failure(early) => early
    case Success(files) => Replace(files, FetchAll(files, contents), store)
  }

  /** Without a folder id the job answers 500 and touches nothing. */
  lemma MissingFolderLeavesStore(folder: Option<string>, listed: seq<FileRef>, contents: map<string, Book>,
                                 samples: Option<string>, store: Store)
    requires folder.None? || folder == Some("")
    ensures Sync(folder, listed, contents, samples, store).Responded?
    ensures Sync(folder, listed, contents, samples, store).status == 500
    ensures Sync(folder, listed, contents, samples, store).body == MissingFolderMessage
    ensures Sync(folder, listed, contents, samples, store).store == store
    ensures Sync(folder, listed, contents, samples, store).deletes == 0
  {
  }

  /** With no file to process the job answers 200 before deleting anything, so the existing
      records survive. */
  lemma NoFilesKeepsRecords(folder: string, listed: seq<FileRef>, contents: map<string, Book>,
                            samples: Option<string>, store: Store)
    requires folder != ""
    requires Limit(listed, samples) == Success([])
    ensures Sync(Some(folder), listed, contents, samples, store) == Responded(200, NoFilesMessage, store, 0)
  {
  }

  /** A successful run deletes once and leaves exactly this run's rows, in file order; the body
      reports the number of files processed and rows saved. */
  lemma SyncReplaces(folder: string, listed: seq<FileRef>, contents: map<string, Book>,
                     samples: Option<string>, store: Store)
    requires folder != ""
    requires Limit(listed, samples).Success? && |Limit(listed, samples).value| > 0
    requires RowsOf(FetchAll(Limit(listed, samples).value, contents)).Some?
    ensures Sync(Some(folder), listed, contents, samples, store).Responded?
    ensures Sync(Some(folder), listed, contents, samples, store).status == 200
    ensures Sync(Some(folder), listed, contents, samples, store).deletes == 1
    ensures Sync(Some(folder), listed, contents, samples, store).store.records
      == RowsOf(FetchAll(Limit(listed, samples).value, contents)).value
    ensures Sync(Some(folder), listed, contents, samples, store).body == CompleteMessage(
      |Limit(listed, samples).value|, |RowsOf(FetchAll(Limit(listed, samples).value, contents)).value|)
  {
    var fetched := FetchAll(Limit(listed, samples).value, contents);
    ProcessAppends(fetched, Store([], store.isbns));
    assert [] + RowsOf(fetched).value == RowsOf(fetched).value;
  }

  /** A failing file aborts the run after the delete with that file's error; the store keeps the
      rows of the files before it and nothing older. */
  lemma SyncFailureKeepsEarlierFiles(folder: string, listed: seq<FileRef>, contents: map<string, Book>,
                                     samples: Option<string>, store: Store, k: nat)
    requires folder != ""
    requires Limit(listed, samples).Success? && k < |Limit(listed, samples).value|
    requires Fetch(Limit(listed, samples).value[k], contents).Failure?
    requires RowsOf(FetchAll(Limit(listed, samples).value[..k], contents)).Some?
    ensures Sync(Some(folder), listed, contents, samples, store).Raised?
    ensures Sync(Some(folder), listed, contents, samples, store).error
      == Fetch(Limit(listed, samples).value[k], contents).error
    ensures Sync(Some(folder), listed, contents, samples, store).deletes == 1
    ensures Sync(Some(folder), listed, contents, samples, store).store.records
      == RowsOf(FetchAll(Limit(listed, samples).value[..k], contents)).value
  {
    var files := Limit(listed, samples).value;
    var done := FetchAll(files[..k], contents);
    FetchAllSplits(files, contents, k);
    ProcessStopsAtFailure(done, Fetch(files[k], contents).error, FetchAll(files[k + 1..], contents), Store([], store.isbns));
    assert [] + RowsOf(done).value == RowsOf(done).value;
  }

  /** Running the job twice stores the same records as running it once: nothing accumulates. */
  lemma SyncIdempotent(folder: string, listed: seq<FileRef>, contents: map<string, Book>,
                       samples: Option<string>, store: Store)
    requires folder != ""
    requires Limit(listed, samples).Success? && |Limit(listed, samples).value| > 0
    requires RowsOf(FetchAll(Limit(listed, samples).value, contents)).Some?
    ensures var once := Sync(Some(folder), listed, contents, samples, store);
      Sync(Some(folder), listed, contents, samples, once.store).store.records == once.store.records
  {
    var once := Sync(Some(folder), listed, contents, samples, store);
    SyncReplaces(folder, listed, contents, samples, store);
    SyncReplaces(folder, listed, contents, samples, once.store);
  }

  // ----- the job as written -----

  /** Downloading and parsing a file as the code is written: the parser yields bare records,
      and the first row the job tries to unpack as a `(record, code)` pair raises `TypeError`.
      A report without data rows passes and saves nothing. */
  function FetchAsWritten(f: FileRef, contents: map<string, Book>): (r: Result<seq<Findaway.Parsed>, SyncError>)
    ensures r.Success? ==> r.value == []
    ensures Fetch(f, contents).Failure? ==> r == Fetch(f, contents)
    ensures Fetch(f, contents).Success? && |Fetch(f, contents).value| > 0 ==> r == Failure(UnpackFailed(f.name))
  {
    match Fetch(f, contents)
    case Failure(e) => Failure(e)
    case Success(pairs) => if |pairs| == 0 then Success([]) else Failure(UnpackFailed(f.name))
  }

  function FetchAllAsWritten(files: seq<FileRef>, contents: map<string, Book>): (r: Fetched)
    ensures |r| == |files|
    ensures forall k | 0 <= k < |files| :: r[k] == FetchAsWritten(files[k], contents)
    decreases |files|
  {
    if |files| == 0 then []
    else
      var rest := FetchAllAsWritten(files[1..], contents);
      assert forall k | 1 <= k < |files| :: files[k] == files[1..][k - 1];
      [FetchAsWritten(files[0], contents)] + rest
  }

  /** `sync_sales_reports` as written. */
  function SyncAsWritten(folder: Option<string>, listed: seq<FileRef>, contents: map<string, Book>,
                         samples: Option<string>, store: Store): Outcome
  {
    match Prepare(folder, listed, samples, store)
    case Failure(early) => early
    case Success(files) => Replace(files, FetchAllAsWritten(files, contents), store)
  }

  /** Reports that all yield no rows leave the store as it was. */
  lemma {:induction false} ProcessSavesNothing(fetched: Fetched, store: Store)
    requires forall k | 0 <= k < |fetched| :: fetched[k].Success? ==> fetched[k].value == []
    ensures ProcessFiles(fetched, store).store == store
    decreases |fetched|
  {
    if |fetched| > 0 && fetched[0].Success? {
      assert Save(store, []) == store;
      assert forall k | 0 <= k < |fetched[1..]| :: fetched[1..][k] == fetched[k + 1];
      ProcessSavesNothing(fetched[1..], Save(store, []));
    }
  }

  /** Once the job as written gets past the delete it never saves a record: whatever the
      reports hold, the store ends empty. */
  lemma SyncAsWrittenEmpties(folder: string, listed: seq<FileRef>, contents: map<string, Book>,
                             samples: Option<string>, store: Store)
    requires folder != ""
    requires Limit(listed, samples).Success? && |Limit(listed, samples).value| > 0
    ensures SyncAsWritten(Some(folder), listed, contents, samples, store).deletes == 1
    ensures SyncAsWritten(Some(folder), listed, contents, samples, store).store == Store([], store.isbns)
  {
    var files := Limit(listed, samples).value;
    ProcessSavesNothing(FetchAllAsWritten(files, contents), Store([], store.isbns));
  }

  /** The loop as written stops with `TypeError` at the first report holding a data row. */
  lemma {:induction false} ProcessAsWrittenRaises(files: seq<FileRef>, contents: map<string, Book>,
                                                  store: Store, k: nat)
    requires k < |files|
    requires forall j | 0 <= j < k :: Fetch(files[j], contents) == Success([])
    requires Fetch(files[k], contents).Success? && |Fetch(files[k], contents).value| > 0
    ensures ProcessFiles(FetchAllAsWritten(files, contents), store).failure == Some(UnpackFailed(files[k].name))
    decreases k
  {
    var fetched := FetchAllAsWritten(files, contents);
    if k > 0 {
      assert fetched[0] == Success([]);
      assert Save(store, []) == Store(store.records, store.isbns);
      assert fetched[1..] == FetchAllAsWritten(files[1..], contents);
      assert forall j | 0 <= j < k - 1 :: files[1..][j] == files[j + 1];
      ProcessAsWrittenRaises(files[1..], contents, Save(store, []), k - 1);
    }
  }

  /** A report with a data row, every file before it parsing to no rows: the job as written
      deletes all records, then raises `TypeError` for that file, and the store is left empty. */
  lemma SyncAsWrittenRaises(folder: string, listed: seq<FileRef>, contents: map<string, Book>,
                            samples: Option<string>, store: Store, k: nat)
    requires folder != ""
    requires Limit(listed, samples).Success? && k < |Limit(listed, samples).value|
    requires forall j | 0 <= j < k :: Fetch(Limit(listed, samples).value[j], contents) == Success([])
    requires Fetch(Limit(listed, samples).value[k], contents).Success?
    requires |Fetch(Limit(listed, samples).value[k], contents).value| > 0
    ensures SyncAsWritten(Some(folder), listed, contents, samples, store)
      == Raised(UnpackFailed(Limit(listed, samples).value[k].name), Store([], store.isbns), 1)
  {
    var files := Limit(listed, samples).value;
    ProcessAsWrittenRaises(files, contents, Store([], store.isbns), k);
    SyncAsWrittenEmpties(folder, listed, contents, samples, store);
  }
}
