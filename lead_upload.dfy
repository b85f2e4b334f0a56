/** The whole upload handler `uploadLeads`
    (src/controller/AdminController/leadController.js, lines 5-181): rows
    from the sheet, the row loop against the ids and sequence numbers
    already stored, the insert with its fallback, and the response. */
module LeadUpload {
  import opened JsValues
  import opened SheetRows
  import opened LeadIngest
  import opened LeadStore

  /** The response body of lines 166-176, or the 400 answer of line 10. The
      `message` text only repeats `uploaded`. */
  datatype Summary = Summary(uploaded: nat, skipped: nat, errors: nat, totalProcessed: nat,
                             skippedDetails: seq<Message>, errorDetails: seq<Message>)
  datatype Response = FileRequired | Completed(summary: Summary)

  /** `list.slice(0, 10)` */
  function First10<T>(s: seq<T>): (r: seq<T>)
    ensures |r| <= 10 && |r| == (if |s| < 10 then |s| else 10)
    ensures forall k | 0 <= k < |r| :: r[k] == s[k]
  {
    if |s| <= 10 then s else s[..10]
  }

  /** Every extracted row is a well-formed object, so it can be normalised. */
  lemma RowsStored(sh: Sheet)
    ensures AllStored(Rows(sh))
  {
    RowsValid(sh, sh.endRow + 1);
  }

  /** The lists the row loop builds for a sheet against a store. */
  function IngestSheet(sh: Sheet, store: seq<Record>, parseDate: Value -> Option<int>): Ingested {
    RowsStored(sh);
    var data := Rows(sh);
    Ingest(NormalizedRows(data, |data|), Ids(store), MaxSequence(store), parseDate)
  }

  /** The response and the new store for an upload. */
  function Upload(file: Option<Sheet>, store: seq<Record>, faults: Faults,
                  parseDate: Value -> Option<int>): (Response, seq<Record>)
  {
    match file
    case None => (FileRequired, store)
    case Some(sh) =>
      var ing := IngestSheet(sh, store, parseDate);
      var o := InsertOutcome(store, ing.errors, ing.queued, faults);
      (Completed(Summary(o.inserted, |ing.skipped|, |o.errors|, |Rows(sh)|,
                         First10(ing.skipped), First10(o.errors))),
       o.store)
  }

  /** Lines 5-181; `file` is the uploaded workbook's first sheet, if any. */
  method UploadLeads(file: Option<Sheet>, store: seq<Record>, faults: Faults,
                     parseDate: Value -> Option<int>)
    returns (response: Response, store': seq<Record>)
    ensures (response, store') == Upload(file, store, faults, parseDate)
  {
    if file.None? {
      return FileRequired, store;
    }
    var sh := file.value;
    var data := ExtractRows(sh);
    RowsStored(sh);
    var existingLeadIds := Ids(store);
    var maxSequence := MaxSequence(store);
    var leadsToInsert, errors, skipped := ProcessRows(data, existingLeadIds, maxSequence, parseDate);
    var totalInserted;
    store', totalInserted, errors := InsertLeads(store, errors, leadsToInsert, faults);
    response := Completed(Summary(totalInserted, |skipped|, |errors|, |data|,
                                  First10(skipped), First10(errors)));
  }

  // ---------------------------------------------------------------------
  // What the response promises

  /** The summary counts every extracted row once: `totalProcessed` is the
      number of rows, `uploaded` and `errors` are the insert's counter and
      error list (the row errors first), the details are the first ten of
      each list, and every row was queued, reported or skipped unless it was
      blank. Without a failure beside the unique index, each queued lead is
      either counted in `uploaded` or adds one error. */
  lemma UploadAccounting(sh: Sheet, store: seq<Record>, faults: Faults, parseDate: Value -> Option<int>)
    ensures var (resp, _) := Upload(Some(sh), store, faults, parseDate);
      var ing := IngestSheet(sh, store, parseDate);
      var o := InsertOutcome(store, ing.errors, ing.queued, faults);
      && resp.Completed?
      && resp.summary.totalProcessed == |Rows(sh)|
      && resp.summary.skipped == |ing.skipped|
      && resp.summary.uploaded == o.inserted
      && resp.summary.errors == |o.errors|
      && |resp.summary.skippedDetails| <= 10 && |resp.summary.errorDetails| <= 10
      && resp.summary.skippedDetails == First10(ing.skipped)
      && resp.summary.errorDetails == First10(o.errors)
      && |ing.errors| <= |o.errors| && o.errors[..|ing.errors|] == ing.errors
      && |ing.queued| + |ing.errors| + |ing.skipped| <= resp.summary.totalProcessed
      && (faults.bulkFailure.None? ==>
            resp.summary.uploaded + resp.summary.errors == |ing.queued| + |ing.errors|)
  {
    RowsStored(sh);
    var data := Rows(sh);
    var nrs := NormalizedRows(data, |data|);
    var vs := Verdicts(nrs, Ids(store), parseDate, |nrs|);
    TallyAccounting(vs, |nrs|, MaxSequence(store));
    var ing := IngestSheet(sh, store, parseDate);
    InsertAccounting(store, ing.errors, ing.queued, faults);
  }

  /** The new leads are numbered after every stored one: the queued leads
      carry `maxSequence + 1`, `maxSequence + 2`, ... in row order, and
      every stored sequence number (a missing one read as 0) is at most
      `maxSequence`. */
  lemma UploadSequences(sh: Sheet, store: seq<Record>, parseDate: Value -> Option<int>)
    ensures var q := IngestSheet(sh, store, parseDate).queued;
      && (forall k | 0 <= k < |q| :: q[k].uploadSequence == MaxSequence(store) + 1 + k)
      && (forall j | 0 <= j < |store| :: SequenceOrZero(store[j]) <= MaxSequence(store))
  {
    RowsStored(sh);
    var data := Rows(sh);
    var nrs := NormalizedRows(data, |data|);
    TallyQueued(Verdicts(nrs, Ids(store), parseDate, |nrs|), |nrs|, MaxSequence(store));
    MaxSequenceIsMax(store);
  }

  /** `r` is the record of one of the queued leads. */
  predicate IsQueuedRecord(q: seq<Lead>, r: Record) {
    exists k | 0 <= k < |q| :: r == ToRecord(q[k])
  }

  /** What the upload writes, whatever fails: every appended record is the
      record of a queued lead, its `uploadSequence` is above every stored
      one, and the numbers rise strictly in the order the records are
      appended. */
  lemma UploadAppendsSequences(sh: Sheet, store: seq<Record>, faults: Faults,
                               parseDate: Value -> Option<int>)
    ensures var store' := Upload(Some(sh), store, faults, parseDate).1;
      var q := IngestSheet(sh, store, parseDate).queued;
      && |store| <= |store'| && store'[..|store|] == store
      && (forall j | |store| <= j < |store'| ::
            && IsQueuedRecord(q, store'[j])
            && store'[j].uploadSequence.Some?
            && SequenceOrZero(store'[j]) > MaxSequence(store)
            && (forall i | 0 <= i < |store| :: SequenceOrZero(store[i]) < SequenceOrZero(store'[j])))
      && (forall j, j' | |store| <= j < j' < |store'| :: SequenceOrZero(store'[j]) < SequenceOrZero(store'[j']))
  {
    var ing := IngestSheet(sh, store, parseDate);
    var q := ing.queued;
    var store' := InsertOutcome(store, ing.errors, q, faults).store;
    assert Upload(Some(sh), store, faults, parseDate).1 == store';
    var ps := InsertAppendsAt(store, ing.errors, q, faults);
    UploadSequences(sh, store, parseDate);
    forall j | |store| <= j < |store'|
      ensures IsQueuedRecord(q, store'[j])
      ensures SequenceOrZero(store'[j]) == MaxSequence(store) + 1 + ps[j - |store|]
    {
      assert store'[j] == ToRecord(q[ps[j - |store|]]);
    }
    forall j, j' | |store| <= j < j' < |store'|
      ensures SequenceOrZero(store'[j]) < SequenceOrZero(store'[j'])
    {
      assert ps[j - |store|] < ps[j' - |store|];
    }
  }

  /** The upload keeps the unique index and only appends to the store. */
  lemma UploadKeepsStore(file: Option<Sheet>, store: seq<Record>, faults: Faults,
                         parseDate: Value -> Option<int>)
    requires UniqueIds(store)
    ensures var store' := Upload(file, store, faults, parseDate).1;
      UniqueIds(store') && |store| <= |store'| && store'[..|store|] == store
  {
    if file.Some? {
      var ing := IngestSheet(file.value, store, parseDate);
      InsertKeepsStore(store, ing.errors, ing.queued, faults);
    }
  }

  /** Two valid rows of one upload with the same new id are both queued; the
      batch then stops at the second one at the latest, the fallback reports
      a duplicate, and `uploaded` is less than the number of queued leads. */
  lemma RepeatedIdReported(sh: Sheet, store: seq<Record>, faults: Faults,
                           parseDate: Value -> Option<int>, i: nat, j: nat)
    requires faults.bulkFailure.None?
    ensures var data := (RowsStored(sh); Rows(sh));
      var nrs := NormalizedRows(data, |data|);
      (i < j < |data|
       && Classify(nrs[i], i, Ids(store), parseDate).Accepted?
       && Classify(nrs[j], j, Ids(store), parseDate).Accepted?
       && LeadIdOf(nrs[i]) == LeadIdOf(nrs[j]))
      ==>
      var (resp, _) := Upload(Some(sh), store, faults, parseDate);
      var ing := IngestSheet(sh, store, parseDate);
      && resp.summary.uploaded < |ing.queued|
      && resp.summary.errors > |ing.errors|
      && InsertOutcome(store, ing.errors, ing.queued, faults).errors[|ing.errors|].DuplicateLeadId?
  {
    RowsStored(sh);
    var data := Rows(sh);
    var nrs := NormalizedRows(data, |data|);
    if i < j < |data|
       && Classify(nrs[i], i, Ids(store), parseDate).Accepted?
       && Classify(nrs[j], j, Ids(store), parseDate).Accepted?
       && LeadIdOf(nrs[i]) == LeadIdOf(nrs[j])
    {
      RepeatedIdQueuedTwice(nrs, Ids(store), MaxSequence(store), parseDate, i, j);
      var ing := IngestSheet(sh, store, parseDate);
      var q := ing.queued;
      var a, b :| 0 <= a < b < |q| && q[a].fields.leadId == q[b].fields.leadId;
      StopsAtRepeat(store, q, a, b);
      DuplicateReported(store, ing.errors, q, faults);
    }
  }

  // ---------------------------------------------------------------------
  // Uploading the same file again

  /** After an upload with no failure beside the unique index, every lead
      the same sheet queues again has its id stored already. */
  lemma ReuploadQueuedStored(sh: Sheet, store: seq<Record>, reportsInsertedDocs: bool,
                             parseDate: Value -> Option<int>)
    ensures var store' := Upload(Some(sh), store, Faults(None, reportsInsertedDocs, map[]), parseDate).1;
      var q2 := IngestSheet(sh, store', parseDate).queued;
      forall k | 0 <= k < |q2| :: q2[k].fields.leadId in Ids(store')
  {
    var faults := Faults(None, reportsInsertedDocs, map[]);
    var ing1 := IngestSheet(sh, store, parseDate);
    var store' := InsertOutcome(store, ing1.errors, ing1.queued, faults).store;
    assert Upload(Some(sh), store, faults, parseDate).1 == store';
    InsertStoresAll(store, ing1.errors, ing1.queued, reportsInsertedDocs);
    InsertAppends(store, ing1.errors, ing1.queued, faults);
    forall id | id in Ids(store) ensures id in Ids(store') {
      IdsPrefix(store', |store|, id);
    }
    RowsStored(sh);
    var data := Rows(sh);
    var nrs := NormalizedRows(data, |data|);
    QueuedWithMoreIds(nrs, Ids(store), Ids(store'), MaxSequence(store), MaxSequence(store'), parseDate);
    var q1, q2 := ing1.queued, IngestSheet(sh, store', parseDate).queued;
    forall k | 0 <= k < |q2| ensures q2[k].fields.leadId in Ids(store') {
      assert HasLeadWith(q1, q2[k].fields);
      var m :| 0 <= m < |q1| && q1[m].fields == q2[k].fields;
    }
  }

  /** Uploading the same sheet a second time inserts nothing and leaves the
      store as it is, whatever fails the second time. Without a batch
      failure, every lead queued again is reported as a `Duplicate leadId`
      error, in queue order. This assumes a first upload with no failure but
      the unique index. */
  lemma ReuploadInsertsNothing(sh: Sheet, store: seq<Record>, reportsInsertedDocs: bool, faults: Faults,
                               parseDate: Value -> Option<int>)
    ensures var store' := Upload(Some(sh), store, Faults(None, reportsInsertedDocs, map[]), parseDate).1;
      var (resp, store'') := Upload(Some(sh), store', faults, parseDate);
      var ing := IngestSheet(sh, store', parseDate);
      && store'' == store'
      && resp.summary.uploaded == 0
      && (faults.bulkFailure.None? ==> resp.summary.errors == |ing.errors| + |ing.queued|)
      && (faults.bulkFailure.None? ==>
            var o := InsertOutcome(store', ing.errors, ing.queued, faults);
            forall t | 0 <= t < |ing.queued| ::
              o.errors[|ing.errors| + t] == DuplicateLeadId(ing.queued[t].fields.leadId))
  {
    ReuploadQueuedStored(sh, store, reportsInsertedDocs, parseDate);
    var store' := Upload(Some(sh), store, Faults(None, reportsInsertedDocs, map[]), parseDate).1;
    var ing := IngestSheet(sh, store', parseDate);
    InsertAllStored(store', ing.errors, ing.queued, faults);
    InsertAccounting(store', ing.errors, ing.queued, faults);
  }

  /** On the second upload a valid row is queued again only when its id was
      read as a number: a string id is found among the stored ones and the
      row is skipped, while a numeric one never matches them. */
  lemma ReuploadQueuesOnlyNumericIds(sh: Sheet, store: seq<Record>, reportsInsertedDocs: bool,
                                     parseDate: Value -> Option<int>)
    ensures var store' := Upload(Some(sh), store, Faults(None, reportsInsertedDocs, map[]), parseDate).1;
      var nrs := (RowsStored(sh); NormalizedRows(Rows(sh), |Rows(sh)|));
      forall i | 0 <= i < |nrs| && Classify(nrs[i], i, Ids(store'), parseDate).Accepted? ::
        LeadIdOf(nrs[i]).Some? && LeadIdOf(nrs[i]).value.Num?
  {
    ReuploadQueuedStored(sh, store, reportsInsertedDocs, parseDate);
    var store' := Upload(Some(sh), store, Faults(None, reportsInsertedDocs, map[]), parseDate).1;
    RowsStored(sh);
    var data := Rows(sh);
    var nrs := NormalizedRows(data, |data|);
    var existing := Ids(store');
    var vs := Verdicts(nrs, existing, parseDate, |nrs|);
    var q, rows := Ingest(nrs, existing, MaxSequence(store'), parseDate).queued, RowsTo(vs, |nrs|, Queued);
    IngestQueued(nrs, existing, MaxSequence(store'), parseDate);
    forall i | 0 <= i < |nrs| && Classify(nrs[i], i, existing, parseDate).Accepted?
      ensures LeadIdOf(nrs[i]).Some? && LeadIdOf(nrs[i]).value.Num?
    {
      ClassifyCases(nrs[i], i, existing, parseDate);
      VerdictAt(nrs, existing, parseDate, |nrs|, i);
      assert Lands(vs[i], Queued);
      var k :| 0 <= k < |rows| && rows[k] == i;
      assert q[k].fields.leadId == Text(LeadIdOf(nrs[i])) && q[k].fields.leadId in existing;
    }
  }
}
