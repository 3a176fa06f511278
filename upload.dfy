/** Choosing which processed files to upload and sending one file's records in
    fixed-size batches (scripts/03_upload_to_supabase.py). File existence, the file
    reader and the remote upsert are oracles. */
module Upload {
  import opened Wrappers
  import opened Seqs

  const BatchSize: nat := 300

  /** The fields of one run-summary entry the upload stage reads; `None` for a
      missing key. */
  datatype Entry = Entry(
    processedFile: Option<string>, app: Option<string>, country: Option<string>,
    status: Option<string>)

  /** `entry.get("processed_file")` when it is truthy. */
  function NameOf(entry: Entry): Option<string> {
    if entry.processedFile.Some? && entry.processedFile.value != "" then entry.processedFile else None
  }

  // ---- _describe_entry (lines 38-39) ----

  function DescribeEntry(entry: Entry): string {
    match NameOf(entry)
    case Some(name) => name
    case None => entry.app.GetOr("unknown") + "_" + entry.country.GetOr("xx") + "_clean.csv"
  }

  /** The description of an entry is its processed file when it names one, and
      otherwise `<app>_<country>_clean.csv` built from its app and country (or their
      defaults "unknown" and "xx"); it is never empty. */
  lemma DescribeEntryProperties(entry: Entry)
    ensures var r := DescribeEntry(entry);
      && r != ""
      && (entry.processedFile.Some? && entry.processedFile.value != "" ==> r == entry.processedFile.value)
      && (NameOf(entry).None? ==>
            |r| >= 11 && r[|r| - 10..] == "_clean.csv" &&
            r[..|entry.app.GetOr("unknown")|] == entry.app.GetOr("unknown") &&
            r[|entry.app.GetOr("unknown")|] == '_' &&
            r[|entry.app.GetOr("unknown")| + 1..|r| - 10] == entry.country.GetOr("xx"))
  {
    if NameOf(entry).None? {
      var app := entry.app.GetOr("unknown");
      var head := app + "_" + entry.country.GetOr("xx");
      assert DescribeEntry(entry) == head + "_clean.csv";
      assert (head + "_clean.csv")[|head|..] == "_clean.csv";
      assert (head + "_clean.csv")[..|app|] == app;
      assert (head + "_clean.csv")[|app|] == '_';
      assert (head + "_clean.csv")[|app| + 1..|head|] == entry.country.GetOr("xx");
    }
  }

  // ---- determine_target_files (lines 111-139) ----

  /** The truthy `processed_file` names, in entry order. */
  function ProcessedNames(entries: seq<Entry>): seq<string> {
    if entries == [] then []
    else
      var front := ProcessedNames(entries[..|entries| - 1]);
      match NameOf(entries[|entries| - 1])
      case Some(name) => front + [name]
      case None => front
  }

  /** `{entry.get("processed_file"): entry for entry in entries if entry.get("processed_file")}`. */
  function StatusByFile(entries: seq<Entry>): map<string, Entry> {
    if entries == [] then map[]
    else
      var front := StatusByFile(entries[..|entries| - 1]);
      var last := entries[|entries| - 1];
      match NameOf(last)
      case Some(name) => front[name := last]
      case None => front
  }

  lemma {:induction false} ProcessedNamesMembers(entries: seq<Entry>)
    ensures forall n :: n in ProcessedNames(entries) <==>
      exists i :: 0 <= i < |entries| && NameOf(entries[i]) == Some(n)
    decreases |entries|
  {
    if entries != [] {
      var front := entries[..|entries| - 1];
      ProcessedNamesMembers(front);
      forall n ensures (exists i :: 0 <= i < |entries| && NameOf(entries[i]) == Some(n)) <==>
        (exists i :: 0 <= i < |front| && NameOf(front[i]) == Some(n)) ||
        NameOf(entries[|entries| - 1]) == Some(n)
      {
        if exists i :: 0 <= i < |entries| && NameOf(entries[i]) == Some(n) {
          var i :| 0 <= i < |entries| && NameOf(entries[i]) == Some(n);
          if i < |front| { assert front[i] == entries[i]; }
        }
        if exists i :: 0 <= i < |front| && NameOf(front[i]) == Some(n) {
          var i :| 0 <= i < |front| && NameOf(front[i]) == Some(n);
          assert entries[i] == front[i];
        }
      }
    }
  }

  /** `status_by_file` has a key for each named file, mapped to the last entry that
      names it. */
  lemma {:induction false} StatusByFileLastEntry(entries: seq<Entry>)
    ensures forall n :: n in StatusByFile(entries) <==> n in ProcessedNames(entries)
    ensures forall n :: n in StatusByFile(entries) ==> exists i :: (
      0 <= i < |entries| && NameOf(entries[i]) == Some(n) && StatusByFile(entries)[n] == entries[i] &&
      forall j :: i < j < |entries| ==> NameOf(entries[j]) != Some(n))
    decreases |entries|
  {
    if entries != [] {
      var front := entries[..|entries| - 1];
      var last := entries[|entries| - 1];
      var m := StatusByFile(entries);
      StatusByFileLastEntry(front);
      forall n | n in m
        ensures exists i :: (
          0 <= i < |entries| && NameOf(entries[i]) == Some(n) && m[n] == entries[i] &&
          forall j :: i < j < |entries| ==> NameOf(entries[j]) != Some(n))
      {
        if NameOf(last) == Some(n) {
          assert NameOf(entries[|entries| - 1]) == Some(n) && m[n] == entries[|entries| - 1];
        } else {
          var i :| 0 <= i < |front| && NameOf(front[i]) == Some(n) && StatusByFile(front)[n] == front[i] &&
            forall j :: i < j < |front| ==> NameOf(front[j]) != Some(n);
          assert entries[i] == front[i];
          forall j | i < j < |entries| ensures NameOf(entries[j]) != Some(n) {
            if j < |front| { assert entries[j] == front[j]; }
          }
        }
      }
    }
  }

  function Absent(fileExists: string -> bool): string -> bool {
    (name: string) => !fileExists(name)
  }

  /** The files found before deduplication: the named files that exist when there is
      metadata, and otherwise the sorted `*_clean_*.csv` listing. */
  function FoundFiles(entries: seq<Entry>, fileExists: string -> bool, listing: seq<string>): seq<string> {
    if entries == [] then listing else Filter(ProcessedNames(entries), fileExists)
  }

  function TargetFiles(entries: seq<Entry>, fileExists: string -> bool, listing: seq<string>): seq<string> {
    Dedupe(FoundFiles(entries, fileExists, listing))
  }

  function MissingFiles(entries: seq<Entry>, fileExists: string -> bool): seq<string> {
    if entries == [] then [] else Filter(ProcessedNames(entries), Absent(fileExists))
  }

  lemma ProcessedNamesSnoc(entries: seq<Entry>, i: nat)
    requires i < |entries|
    ensures NameOf(entries[i]).None? ==> ProcessedNames(entries[..i + 1]) == ProcessedNames(entries[..i])
    ensures NameOf(entries[i]).Some? ==>
      ProcessedNames(entries[..i + 1]) == ProcessedNames(entries[..i]) + [NameOf(entries[i]).value]
  {
    assert entries[..i + 1][..i] == entries[..i];
  }

  /** The metadata loop: sort the named files into those that exist and those that
      do not. */
  method SortNamedFiles(entries: seq<Entry>, fileExists: string -> bool)
    returns (found: seq<string>, missing: seq<string>)
    ensures found == Filter(ProcessedNames(entries), fileExists)
    ensures missing == Filter(ProcessedNames(entries), Absent(fileExists))
  {
    found, missing := [], [];
    var i := 0;
    while i < |entries|
      invariant 0 <= i <= |entries|
      invariant found == Filter(ProcessedNames(entries[..i]), fileExists)
      invariant missing == Filter(ProcessedNames(entries[..i]), Absent(fileExists))
    {
      ghost var before := ProcessedNames(entries[..i]);
      ProcessedNamesSnoc(entries, i);
      var name := NameOf(entries[i]);
      if name.Some? {
        var n := name.value;
        FilterSnoc(before, n, fileExists);
        FilterSnoc(before, n, Absent(fileExists));
        if fileExists(n) {
          assert !Absent(fileExists)(n);
          found := found + [n];
        } else {
          assert Absent(fileExists)(n);
          missing := missing + [n];
        }
      }
      i := i + 1;
    }
    assert entries[..i] == entries;
  }

  /** The `seen`-set loop: keep the first occurrence of each name. */
  method UniqueFiles(files: seq<string>) returns (unique: seq<string>)
    ensures unique == Dedupe(files)
  {
    unique := [];
    var seen: set<string> := {};
    var j := 0;
    while j < |files|
      invariant 0 <= j <= |files|
      invariant unique == Dedupe(files[..j])
      invariant forall x :: x in seen <==> x in unique
    {
      DedupeSnoc(files[..j], files[j]);
      assert files[..j + 1] == files[..j] + [files[j]];
      if files[j] !in seen {
        unique := unique + [files[j]];
        seen := seen + {files[j]};
      }
      j := j + 1;
    }
    assert files[..j] == files;
  }

  method DetermineTargetFiles(entries: seq<Entry>, fileExists: string -> bool, listing: seq<string>)
    returns (targets: seq<string>, statusByFile: map<string, Entry>, missing: seq<string>)
    ensures targets == TargetFiles(entries, fileExists, listing)
    ensures statusByFile == StatusByFile(entries)
    ensures missing == MissingFiles(entries, fileExists)
  {
    statusByFile := StatusByFile(entries);
    var found: seq<string>;
    if entries != [] {
      found, missing := SortNamedFiles(entries, fileExists);
    } else {
      found, missing := listing, [];
    }
    targets := UniqueFiles(found);
  }

  /** With metadata, each named entry goes to exactly one list: the targets when its
      file exists and the missing list when not, in entry order. The targets are
      distinct and keep first-occurrence order; with no metadata they are the
      deduplicated listing and nothing is missing. */
  lemma TargetFilesProperties(entries: seq<Entry>, fileExists: string -> bool, listing: seq<string>)
    ensures var targets := TargetFiles(entries, fileExists, listing);
      var found := FoundFiles(entries, fileExists, listing);
      var missing := MissingFiles(entries, fileExists);
      && Distinct(targets)
      && (forall i, j :: 0 <= i < j < |targets| ==> FirstIndex(found, targets[i]) < FirstIndex(found, targets[j]))
      && (entries != [] ==>
            (forall n :: n in targets <==> n in ProcessedNames(entries) && fileExists(n)) &&
            (forall n :: n in missing <==> n in ProcessedNames(entries) && !fileExists(n)) &&
            |found| + |missing| == |ProcessedNames(entries)|)
      && (entries == [] ==> targets == Dedupe(listing) && missing == [])
  {
    DedupeFirstOccurrenceOrder(FoundFiles(entries, fileExists, listing));
    FilterPartition(ProcessedNames(entries), fileExists, Absent(fileExists));
  }

  // ---- The skip rule and the upload loop of main (lines 157-176) ----

  /** The names whose last entry has status "no_new_reviews". */
  function SkipNames(statusByFile: map<string, Entry>): set<string> {
    set name | name in statusByFile && statusByFile[name].status == Some("no_new_reviews")
  }

  function NotSkipped(skip: set<string>): string -> bool {
    (name: string) => name !in skip
  }

  /** The files handed to the uploader, in target order. */
  function UploadPlan(targets: seq<string>, statusByFile: map<string, Entry>): seq<string> {
    if targets == [] then [] else Filter(targets, NotSkipped(SkipNames(statusByFile)))
  }

  /** The loop over the targets: a skipped name is passed over. */
  method UnskippedFiles(targets: seq<string>, skip: set<string>) returns (uploads: seq<string>)
    ensures uploads == Filter(targets, NotSkipped(skip))
  {
    uploads := [];
    var i := 0;
    while i < |targets|
      invariant 0 <= i <= |targets|
      invariant uploads == Filter(targets[..i], NotSkipped(skip))
    {
      FilterSnoc(targets[..i], targets[i], NotSkipped(skip));
      assert targets[..i + 1] == targets[..i] + [targets[i]];
      if targets[i] !in skip {
        uploads := uploads + [targets[i]];
      }
      i := i + 1;
    }
    assert targets[..i] == targets;
  }

  method SelectUploads(entries: seq<Entry>, fileExists: string -> bool, listing: seq<string>)
    returns (uploads: seq<string>)
    ensures uploads == UploadPlan(TargetFiles(entries, fileExists, listing), StatusByFile(entries))
  {
    var targets, statusByFile, missing := DetermineTargetFiles(entries, fileExists, listing);
    if targets == [] {
      return [];
    }
    uploads := UnskippedFiles(targets, SkipNames(statusByFile));
  }

  /** A target is uploaded exactly when its last entry is not marked "no_new_reviews";
      the uploads are distinct, and there are none without targets. */
  lemma UploadPlanProperties(entries: seq<Entry>, fileExists: string -> bool, listing: seq<string>)
    ensures var targets := TargetFiles(entries, fileExists, listing);
      var statusByFile := StatusByFile(entries);
      var plan := UploadPlan(targets, statusByFile);
      && (targets == [] ==> plan == [])
      && Distinct(plan)
      && (forall n :: n in plan <==> (
            n in targets && !(n in statusByFile && statusByFile[n].status == Some("no_new_reviews"))))
  {
    var targets := TargetFiles(entries, fileExists, listing);
    FilterDistinct(targets, NotSkipped(SkipNames(StatusByFile(entries))));
  }

  // ---- upload_csv (lines 80-108) ----

  /** What `upload_csv` ends with: skipped (unreadable or empty file), every batch
      sent, or stopped at a failed batch (numbered from 1) after `total` rows. */
  datatype UploadOutcome = Skipped | Uploaded(total: nat) | FailedAt(batch: nat, total: nat)

  /** The number of leading chunks the upsert accepts. */
  function FirstFailed<R>(chunks: seq<seq<R>>, upsert: seq<R> -> bool): nat {
    LeadingCount(chunks, upsert)
  }

  /** An accepted chunk moves the first failure past it. */
  lemma FirstFailedNext<R>(chunks: seq<seq<R>>, upsert: seq<R> -> bool, j: nat)
    requires j < |chunks| && FirstFailed(chunks, upsert) >= j && upsert(chunks[j])
    ensures FirstFailed(chunks, upsert) >= j + 1
  {
  }

  /** One batch of the loop: the next chunk is the slice at `total`. */
  lemma SendStep<R>(records: seq<R>, chunks: seq<seq<R>>, sent: seq<seq<R>>, total: nat, end: nat)
    requires total < |records| && chunks == sent + Chunks(records[total..], BatchSize)
    requires end == if total + BatchSize < |records| then total + BatchSize else |records|
    ensures chunks == (sent + [records[total..end]]) + Chunks(records[end..], BatchSize)
    ensures |sent| < |chunks| && chunks[|sent|] == records[total..end]
  {
    ChunksFrom(records, BatchSize, total);
    ConcatParts(sent, [records[total..end]] + Chunks(records[end..], BatchSize));
  }

  /** The outcome of the batch loop: every batch accepted, or stopped at the first
      rejected batch after the full batches before it. */
  function SendResult<R>(records: seq<R>, upsert: seq<R> -> bool): UploadOutcome {
    var chunks := Chunks(records, BatchSize);
    var n := FirstFailed(chunks, upsert);
    if n == |chunks| then Uploaded(|records|) else FailedAt(n + 1, BatchSize * n)
  }

  /** The loop's early exit: chunk `|sent|` rejected after the accepted chunks `sent`. */
  lemma SendRejected<R>(records: seq<R>, sent: seq<seq<R>>, upsert: seq<R> -> bool)
    requires |sent| < |Chunks(records, BatchSize)|
    requires FirstFailed(Chunks(records, BatchSize), upsert) >= |sent|
    requires !upsert(Chunks(records, BatchSize)[|sent|])
    ensures SendResult(records, upsert) == FailedAt(|sent| + 1, BatchSize * |sent|)
  {
  }

  /** One pass of the batch loop at `offset`: an accepted chunk extends the accepted
      prefix, a rejected one is the failure the outcome reports. */
  lemma BatchStep<R>(records: seq<R>, upsert: seq<R> -> bool, chunks: seq<seq<R>>,
                     sent: seq<seq<R>>, offset: nat, end: nat)
    requires chunks == Chunks(records, BatchSize)
    requires offset < |records| && offset == BatchSize * |sent|
    requires chunks == sent + Chunks(records[offset..], BatchSize)
    requires FirstFailed(chunks, upsert) >= |sent|
    requires end == if offset + BatchSize < |records| then offset + BatchSize else |records|
    ensures upsert(records[offset..end]) ==>
      chunks == (sent + [records[offset..end]]) + Chunks(records[end..], BatchSize) &&
      FirstFailed(chunks, upsert) >= |sent| + 1
    ensures !upsert(records[offset..end]) ==>
      SendResult(records, upsert) == FailedAt(offset / BatchSize + 1, offset)
  {
    SendStep(records, chunks, sent, offset, end);
    if upsert(records[offset..end]) {
      FirstFailedNext(chunks, upsert, |sent|);
    } else {
      SendRejected(records, sent, upsert);
      assert offset / BatchSize == |sent|;
    }
  }

  /** The outcome for a table (`None` when the file cannot be read). */
  function UploadResult<R>(table: Option<seq<R>>, upsert: seq<R> -> bool): UploadOutcome {
    match table
    case None => Skipped
    case Some(records) => if records == [] then Skipped else SendResult(records, upsert)
  }

  method UploadCsv<R>(table: Option<seq<R>>, upsert: seq<R> -> bool) returns (outcome: UploadOutcome)
    ensures outcome == UploadResult(table, upsert)
  {
    if table.None? {
      return Skipped;
    }
    var records := table.value;
    if |records| == 0 {
      return Skipped;
    }
    outcome := SendBatches(records, upsert);
  }

  /** `for offset in range(0, len(records), BATCH_SIZE)`, returning at the first failure. */
  method SendBatches<R>(records: seq<R>, upsert: seq<R> -> bool) returns (outcome: UploadOutcome)
    ensures outcome == SendResult(records, upsert)
  {
    ghost var chunks := Chunks(records, BatchSize);
    ghost var sent: seq<seq<R>> := [];
    var total := 0;
    var offset := 0;
    while offset < |records|
      invariant 0 <= total <= |records| && chunks == sent + Chunks(records[total..], BatchSize)
      invariant FirstFailed(chunks, upsert) >= |sent|
      invariant offset == BatchSize * |sent|
      invariant offset < |records| ==> total == offset
      invariant offset >= |records| ==> total == |records|
      decreases |records| - offset
    {
      var end := if offset + BatchSize < |records| then offset + BatchSize else |records|;
      var chunk := records[offset..end];
      BatchStep(records, upsert, chunks, sent, offset, end);
      if !upsert(chunk) {
        return FailedAt(offset / BatchSize + 1, total);
      }
      sent := sent + [chunk];
      total := total + |chunk|;
      offset := offset + BatchSize;
    }
    assert records[total..] == [];
    assert chunks == sent + [];
    return Uploaded(total);
  }


  /** An unreadable or empty table uploads nothing. Otherwise either every batch is
      accepted and all rows are uploaded, or sending stops at the first rejected batch,
      after the full batches before it: `total` is `BatchSize` times their number, they
      are the first `total` records, and at least one record is not sent. */
  lemma UploadResultProperties<R>(table: Option<seq<R>>, upsert: seq<R> -> bool)
    ensures var r := UploadResult(table, upsert);
      && (r == Skipped <==> table.None? || table.value == [])
      && (r.Uploaded? ==> (
            r.total == |table.value| && forall c :: c in Chunks(table.value, BatchSize) ==> upsert(c)))
      && (r.FailedAt? ==>
            var chunks := Chunks(table.value, BatchSize);
            && 1 <= r.batch <= |chunks| && !upsert(chunks[r.batch - 1])
            && (forall i :: 0 <= i < r.batch - 1 ==> upsert(chunks[i]))
            && r.total == BatchSize * (r.batch - 1) == |Flatten(chunks[..r.batch - 1])|
            && r.total < |table.value|
            && Flatten(chunks[..r.batch - 1]) == table.value[..r.total])
  {
    var r := UploadResult(table, upsert);
    if table.Some? && table.value != [] {
      var records := table.value;
      var chunks := Chunks(records, BatchSize);
      var n := FirstFailed(chunks, upsert);
      if n < |chunks| {
        ChunksBeforeIndex(records, BatchSize, n);
      } else {
        forall c | c in chunks ensures upsert(c) {
          var i :| 0 <= i < |chunks| && chunks[i] == c;
        }
      }
    }
  }
}
