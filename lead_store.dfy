/** The lead collection as the upload sees it
    (src/controller/AdminController/leadController.js, lines 44-46 and
    133-164): stored records with a unique `leadId`, the ordered batch insert
    that stops at the first conflicting lead, and the one-by-one retry of
    the rest. */
module LeadStore {
  import opened JsValues
  import opened LeadIngest

  /** A stored lead as line 44 reads it back: its id and its upload-sequence
      number, which a document may lack. */
  datatype Record = Record(leadId: string, uploadSequence: Option<int>)

  /** The record a queued lead becomes once written. */
  function ToRecord(l: Lead): Record {
    Record(l.fields.leadId, Some(l.uploadSequence))
  }

  /** The ids of the stored records (line 45). */
  function Ids(store: seq<Record>): set<string> {
    if store == [] then {} else Ids(store[..|store| - 1]) + {store[|store| - 1].leadId}
  }

  lemma {:induction false} IdsIff(store: seq<Record>, k: string)
    ensures k in Ids(store) <==> exists i | 0 <= i < |store| :: store[i].leadId == k
  {
    if store != [] {
      var prefix := store[..|store| - 1];
      IdsIff(prefix, k);
      if exists i | 0 <= i < |store| :: store[i].leadId == k {
        var i :| 0 <= i < |store| && store[i].leadId == k;
        if i < |prefix| { assert prefix[i] == store[i]; }
      }
      if exists i | 0 <= i < |prefix| :: prefix[i].leadId == k {
        var i :| 0 <= i < |prefix| && prefix[i].leadId == k;
        assert store[i] == prefix[i];
      }
    }
  }

  /** The unique index on `leadId`: no record's id occurs earlier in the store. */
  predicate UniqueIds(store: seq<Record>) {
    store == [] || (UniqueIds(store[..|store| - 1]) && store[|store| - 1].leadId !in Ids(store[..|store| - 1]))
  }

  /** UniqueIds says what it should: no two records share an id. */
  lemma {:induction false} UniqueIdsPairwise(store: seq<Record>, i: nat, j: nat)
    requires UniqueIds(store) && i < j < |store|
    ensures store[i].leadId != store[j].leadId
  {
    var prefix := store[..|store| - 1];
    if j < |store| - 1 {
      UniqueIdsPairwise(prefix, i, j);
    } else {
      IdsIff(prefix, store[j].leadId);
      assert prefix[i] == store[i];
    }
  }

  /** The converse: records with pairwise distinct ids satisfy the index. */
  lemma {:induction false} PairwiseUniqueIds(store: seq<Record>)
    requires forall i, j | 0 <= i < j < |store| :: store[i].leadId != store[j].leadId
    ensures UniqueIds(store)
  {
    if store != [] {
      var prefix := store[..|store| - 1];
      forall i, j | 0 <= i < j < |prefix| ensures prefix[i].leadId != prefix[j].leadId {
        assert prefix[i] == store[i] && prefix[j] == store[j];
      }
      PairwiseUniqueIds(prefix);
      var last := store[|store| - 1].leadId;
      forall i | 0 <= i < |prefix| ensures prefix[i].leadId != last {
        assert store[i] == prefix[i];
      }
      IdsIff(prefix, last);
    }
  }

  /** `lead.uploadSequence || 0` */
  function SequenceOrZero(r: Record): int {
    match r.uploadSequence
    case Some(n) => n
    case None => 0
  }

  /** Line 46: 0 for an empty store, otherwise the largest stored sequence
      number, a missing one counting as 0. */
  function MaxSequence(store: seq<Record>): int {
    if |store| == 0 then 0
    else if |store| == 1 then SequenceOrZero(store[0])
    else
      var m, last := MaxSequence(store[..|store| - 1]), SequenceOrZero(store[|store| - 1]);
      if m < last then last else m
  }

  lemma {:induction false} MaxSequenceIsMax(store: seq<Record>)
    ensures |store| == 0 ==> MaxSequence(store) == 0
    ensures forall k | 0 <= k < |store| :: SequenceOrZero(store[k]) <= MaxSequence(store)
    ensures |store| > 0 ==> exists k | 0 <= k < |store| :: SequenceOrZero(store[k]) == MaxSequence(store)
  {
    if |store| == 1 {
      assert SequenceOrZero(store[0]) == MaxSequence(store);
    } else if |store| > 1 {
      var prefix, last := store[..|store| - 1], |store| - 1;
      MaxSequenceIsMax(prefix);
      assert forall k | 0 <= k < |prefix| :: prefix[k] == store[k];
      var k :| 0 <= k < |prefix| && SequenceOrZero(prefix[k]) == MaxSequence(prefix);
      if MaxSequence(prefix) < SequenceOrZero(store[last]) {
        assert SequenceOrZero(store[last]) == MaxSequence(store);
      } else {
        assert SequenceOrZero(store[k]) == MaxSequence(store);
      }
    }
  }

  // ---------------------------------------------------------------------
  // The ordered batch insert (line 138)

  /** `insertMany(batch, { ordered: true })` against the unique index: the
      leads are written in order until the first one whose id is stored
      (or was written earlier in the batch). The new store and the number
      of leads written. */
  function WriteOrdered(store: seq<Record>, batch: seq<Lead>): (seq<Record>, nat)
    decreases |batch|
  {
    if batch == [] || batch[0].fields.leadId in Ids(store) then (store, 0)
    else
      var (s, n) := WriteOrdered(store + [ToRecord(batch[0])], batch[1..]);
      (s, n + 1)
  }

  /** The batch only appends to the store, at most one record per lead. */
  lemma {:induction false} WriteOrderedGrows(store: seq<Record>, batch: seq<Lead>)
    ensures var (s, n) := WriteOrdered(store, batch);
      n <= |batch| && |s| == |store| + n && s[..|store|] == store
    decreases |batch|
  {
    if batch != [] && batch[0].fields.leadId !in Ids(store) {
      var store' := store + [ToRecord(batch[0])];
      WriteOrderedGrows(store', batch[1..]);
      var s := WriteOrdered(store', batch[1..]).0;
      assert s[..|store'|][..|store|] == store;
    }
  }

  /** The batch writes a prefix of itself, in order, and the lead it stops
      at conflicts with what is then stored. */
  lemma {:induction false} WriteOrderedWrites(store: seq<Record>, batch: seq<Lead>)
    ensures var (s, n) := WriteOrdered(store, batch);
      && n <= |batch| && |s| == |store| + n
      && (forall t | 0 <= t < n :: s[|store| + t] == ToRecord(batch[t]))
      && (n < |batch| ==> batch[n].fields.leadId in Ids(s))
    decreases |batch|
  {
    WriteOrderedGrows(store, batch);
    if batch != [] && batch[0].fields.leadId !in Ids(store) {
      var store' := store + [ToRecord(batch[0])];
      WriteOrderedGrows(store', batch[1..]);
      WriteOrderedWrites(store', batch[1..]);
      var (s, n) := WriteOrdered(store', batch[1..]);
      forall t | 0 <= t < n + 1 ensures s[|store| + t] == ToRecord(batch[t]) {
        if t == 0 {
          assert s[..|store'|][|store|] == ToRecord(batch[0]);
        } else {
          assert batch[1..][t - 1] == batch[t];
        }
      }
    }
  }

  /** Writing a batch never breaks the unique index. */
  lemma {:induction false} WriteOrderedUnique(store: seq<Record>, batch: seq<Lead>)
    requires UniqueIds(store)
    ensures UniqueIds(WriteOrdered(store, batch).0)
    decreases |batch|
  {
    if batch != [] && batch[0].fields.leadId !in Ids(store) {
      var store' := store + [ToRecord(batch[0])];
      assert store'[..|store'| - 1] == store;
      WriteOrderedUnique(store', batch[1..]);
    }
  }

  /** Appending a record keeps every stored id. */
  lemma IdsGrow(store: seq<Record>, r: Record)
    ensures Ids(store + [r]) == Ids(store) + {r.leadId}
  {
    assert (store + [r])[..|store|] == store;
  }

  /** A lead whose id is already stored stops the batch at or before it. */
  lemma {:induction false} StopsAtStored(store: seq<Record>, batch: seq<Lead>, b: nat)
    requires b < |batch| && batch[b].fields.leadId in Ids(store)
    ensures WriteOrdered(store, batch).1 <= b
    decreases |batch|
  {
    if batch[0].fields.leadId !in Ids(store) {
      var store' := store + [ToRecord(batch[0])];
      IdsGrow(store, ToRecord(batch[0]));
      assert batch[1..][b - 1] == batch[b];
      StopsAtStored(store', batch[1..], b - 1);
    }
  }

  /** An id that occurs twice in the batch stops it at or before the second
      occurrence: the batch cannot write both. */
  lemma {:induction false} StopsAtRepeat(store: seq<Record>, batch: seq<Lead>, a: nat, b: nat)
    requires a < b < |batch| && batch[a].fields.leadId == batch[b].fields.leadId
    ensures WriteOrdered(store, batch).1 <= b
    decreases |batch|
  {
    if batch[0].fields.leadId !in Ids(store) {
      var store' := store + [ToRecord(batch[0])];
      IdsGrow(store, ToRecord(batch[0]));
      assert batch[1..][b - 1] == batch[b];
      if a == 0 {
        StopsAtStored(store', batch[1..], b - 1);
      } else {
        assert batch[1..][a - 1] == batch[a];
        StopsAtRepeat(store', batch[1..], a - 1, b - 1);
      }
    }
  }

  // ---------------------------------------------------------------------
  // The one-by-one retry (lines 144-159)

  /** The store, the `totalInserted` counter and the error list. */
  datatype Outcome = Outcome(store: seq<Record>, inserted: nat, errors: seq<Message>)

  /** What the store does besides the unique index: the batch insert can
      fail for another reason (a message, nothing written), the duplicate
      error may or may not report the documents it wrote, and a single
      `create` can fail for another reason (a message per position). */
  datatype Faults = Faults(bulkFailure: Option<string>, reportsInsertedDocs: bool,
                           createFailures: map<nat, string>)

  /** Lines 149-158 for the lead at position `i`: written and counted, or a
      duplicate error, or another error. A stored id is always the
      duplicate; `createFailures` only applies to a new id. */
  function CreateStep(o: Outcome, lead: Lead, i: nat, createFailures: map<nat, string>): Outcome {
    var id := lead.fields.leadId;
    if id in Ids(o.store) then o.(errors := o.errors + [DuplicateLeadId(id)])
    else if i in createFailures then o.(errors := o.errors + [InsertFailed(id, createFailures[i])])
    else Outcome(o.store + [ToRecord(lead)], o.inserted + 1, o.errors)
  }

  /** The outcome once the leads at positions `from` to `n - 1` are retried. */
  function RetryUpTo(o: Outcome, batch: seq<Lead>, from: nat, n: nat, createFailures: map<nat, string>): Outcome
    requires from <= n <= |batch|
    decreases n - from
  {
    if n == from then o else CreateStep(RetryUpTo(o, batch, from, n - 1, createFailures), batch[n - 1], n - 1, createFailures)
  }

  /** Lines 133-164: the new store, `totalInserted` and the error list after
      inserting `batch`, the row errors `errors` coming first. */
  function InsertOutcome(store: seq<Record>, errors: seq<Message>, batch: seq<Lead>, faults: Faults): Outcome {
    if batch == [] then Outcome(store, 0, errors)
    else match faults.bulkFailure
      case Some(reason) => Outcome(store, 0, errors + [BulkInsertFailed(reason)])
      case None =>
        var (s, k) := WriteOrdered(store, batch);
        if k == |batch| then Outcome(s, k, errors)
        else
          WriteOrderedGrows(store, batch);
          var insertedCount := if faults.reportsInsertedDocs then k else 0;
          RetryUpTo(Outcome(s, insertedCount, errors), batch, insertedCount, |batch|, faults.createFailures)
  }

  /** The retry loop of lines 148-159. */
  method Retry(store: seq<Record>, errors: seq<Message>, batch: seq<Lead>, insertedCount: nat,
               createFailures: map<nat, string>)
    returns (store': seq<Record>, totalInserted: nat, errors': seq<Message>)
    requires insertedCount <= |batch|
    ensures Outcome(store', totalInserted, errors')
            == RetryUpTo(Outcome(store, insertedCount, errors), batch, insertedCount, |batch|, createFailures)
  {
    store', totalInserted, errors' := store, insertedCount, errors;
    for i := insertedCount to |batch|
      invariant Outcome(store', totalInserted, errors')
                == RetryUpTo(Outcome(store, insertedCount, errors), batch, insertedCount, i, createFailures)
    {
      var id := batch[i].fields.leadId;
      if id in Ids(store') {
        errors' := errors' + [DuplicateLeadId(id)];
      } else if i in createFailures {
        errors' := errors' + [InsertFailed(id, createFailures[i])];
      } else {
        store' := store' + [ToRecord(batch[i])];
        totalInserted := totalInserted + 1;
      }
    }
  }

  /** Lines 133-164. */
  method InsertLeads(store: seq<Record>, errors: seq<Message>, batch: seq<Lead>, faults: Faults)
    returns (store': seq<Record>, totalInserted: nat, errors': seq<Message>)
    ensures Outcome(store', totalInserted, errors') == InsertOutcome(store, errors, batch, faults)
  {
    store', totalInserted, errors' := store, 0, errors;
    if |batch| > 0 {
      match faults.bulkFailure {
        case Some(reason) =>
          errors' := errors + [BulkInsertFailed(reason)];
        case None =>
          var result := WriteOrdered(store, batch);
          var written := result.1;
          store' := result.0;
          if written == |batch| {
            totalInserted := written;
          } else {
            WriteOrderedGrows(store, batch);
            var insertedCount := if faults.reportsInsertedDocs then written else 0;
            store', totalInserted, errors' := Retry(store', errors, batch, insertedCount, faults.createFailures);
          }
      }
    }
  }

  // ---------------------------------------------------------------------
  // What the insert promises

  /** `r` continues `o`: the stored records, the errors and the counter
      are kept, and more may follow. */
  predicate Extends(r: Outcome, o: Outcome) {
    && |o.store| <= |r.store| && r.store[..|o.store|] == o.store
    && |o.errors| <= |r.errors| && r.errors[..|o.errors|] == o.errors
    && o.inserted <= r.inserted
  }

  lemma ExtendsTrans(a: Outcome, b: Outcome, c: Outcome)
    requires Extends(b, a) && Extends(c, b)
    ensures Extends(c, a)
  {
    assert c.store[..|a.store|] == c.store[..|b.store|][..|a.store|];
    assert c.errors[..|a.errors|] == c.errors[..|b.errors|][..|a.errors|];
  }

  /** One retried lead is either counted and stored, or adds one error. */
  lemma CreateStepShape(p: Outcome, lead: Lead, i: nat, createFailures: map<nat, string>)
    ensures var r := CreateStep(p, lead, i, createFailures);
      && Extends(r, p)
      && |r.store| - |p.store| == r.inserted - p.inserted
      && r.inserted - p.inserted + |r.errors| - |p.errors| == 1
  {
    var r := CreateStep(p, lead, i, createFailures);
    assert r.store[..|p.store|] == p.store;
    assert r.errors[..|p.errors|] == p.errors;
  }

  /** Each retried lead is either counted or adds one error; the store grows
      by exactly the counted leads, and what was there stays in front. */
  lemma {:induction false} RetryAccounting(o: Outcome, batch: seq<Lead>, from: nat, n: nat, createFailures: map<nat, string>)
    requires from <= n <= |batch|
    ensures var r := RetryUpTo(o, batch, from, n, createFailures);
      && Extends(r, o)
      && |r.store| - |o.store| == r.inserted - o.inserted
      && r.inserted - o.inserted + |r.errors| - |o.errors| == n - from
    decreases n - from
  {
    if n > from {
      RetryAccounting(o, batch, from, n - 1, createFailures);
      var p := RetryUpTo(o, batch, from, n - 1, createFailures);
      var r := CreateStep(p, batch[n - 1], n - 1, createFailures);
      assert RetryUpTo(o, batch, from, n, createFailures) == r;
      CreateStepShape(p, batch[n - 1], n - 1, createFailures);
      ExtendsTrans(o, p, r);
    }
  }

  /** The retry keeps the unique index. */
  lemma {:induction false} RetryUnique(o: Outcome, batch: seq<Lead>, from: nat, n: nat, createFailures: map<nat, string>)
    requires from <= n <= |batch| && UniqueIds(o.store)
    ensures UniqueIds(RetryUpTo(o, batch, from, n, createFailures).store)
    decreases n - from
  {
    if n > from {
      RetryUnique(o, batch, from, n - 1, createFailures);
      var p := RetryUpTo(o, batch, from, n - 1, createFailures);
      var s := p.store + [ToRecord(batch[n - 1])];
      assert s[..|s| - 1] == p.store;
    }
  }

  /** Retrying `from .. m - 1` and then `m .. n - 1` is retrying `from .. n - 1`. */
  lemma {:induction false} RetryComposes(o: Outcome, batch: seq<Lead>, from: nat, m: nat, n: nat, createFailures: map<nat, string>)
    requires from <= m <= n <= |batch|
    ensures RetryUpTo(RetryUpTo(o, batch, from, m, createFailures), batch, m, n, createFailures)
            == RetryUpTo(o, batch, from, n, createFailures)
    decreases n - m
  {
    if n > m {
      RetryComposes(o, batch, from, m, n - 1, createFailures);
      var mid := RetryUpTo(o, batch, from, m, createFailures);
      var p := RetryUpTo(o, batch, from, n - 1, createFailures);
      assert RetryUpTo(mid, batch, m, n, createFailures) == CreateStep(p, batch[n - 1], n - 1, createFailures);
    }
  }

  /** The retry of the lead the batch stopped at reports it as a duplicate. */
  lemma RetryStartsWithDuplicate(o: Outcome, batch: seq<Lead>, from: nat, createFailures: map<nat, string>)
    requires from < |batch| && batch[from].fields.leadId in Ids(o.store)
    ensures var r := RetryUpTo(o, batch, from, |batch|, createFailures);
      |r.errors| > |o.errors| && r.errors[|o.errors|] == DuplicateLeadId(batch[from].fields.leadId)
  {
    var first := CreateStep(o, batch[from], from, createFailures);
    assert RetryUpTo(o, batch, from, from + 1, createFailures) == first;
    assert first.errors == o.errors + [DuplicateLeadId(batch[from].fields.leadId)];
    RetryAccounting(first, batch, from + 1, |batch|, createFailures);
    RetryComposes(o, batch, from, from + 1, |batch|, createFailures);
    var r := RetryUpTo(first, batch, from + 1, |batch|, createFailures);
    assert r.errors[..|first.errors|][|o.errors|] == r.errors[|o.errors|];
  }

  /** Insert accounting. Without a batch there is nothing to do. A failure
      other than a duplicate adds exactly one error and counts nothing.
      Otherwise every queued lead is either counted in `uploaded` or adds
      exactly one error; the row errors stay in front in every case. */
  lemma InsertAccounting(store: seq<Record>, errors: seq<Message>, batch: seq<Lead>, faults: Faults)
    ensures var o := InsertOutcome(store, errors, batch, faults);
      && |errors| <= |o.errors| && o.errors[..|errors|] == errors
      && (batch == [] ==> o == Outcome(store, 0, errors))
      && (batch != [] && faults.bulkFailure.Some? ==>
            o == Outcome(store, 0, errors + [BulkInsertFailed(faults.bulkFailure.value)]))
      && (faults.bulkFailure.None? ==> o.inserted + |o.errors| - |errors| == |batch|)
  {
    if batch != [] && faults.bulkFailure.None? {
      var (s, k) := WriteOrdered(store, batch);
      WriteOrderedGrows(store, batch);
      if k < |batch| {
        var insertedCount := if faults.reportsInsertedDocs then k else 0;
        RetryAccounting(Outcome(s, insertedCount, errors), batch, insertedCount, |batch|, faults.createFailures);
      }
    }
  }

  /** The insert only appends: every record stored before stays where it was. */
  lemma InsertAppends(store: seq<Record>, errors: seq<Message>, batch: seq<Lead>, faults: Faults)
    ensures var o := InsertOutcome(store, errors, batch, faults);
      |store| <= |o.store| && o.store[..|store|] == store
  {
    if batch != [] && faults.bulkFailure.None? {
      var (s, k) := WriteOrdered(store, batch);
      WriteOrderedGrows(store, batch);
      if k < |batch| {
        var insertedCount := if faults.reportsInsertedDocs then k else 0;
        var o := Outcome(s, insertedCount, errors);
        RetryAccounting(o, batch, insertedCount, |batch|, faults.createFailures);
        var r := RetryUpTo(o, batch, insertedCount, |batch|, faults.createFailures);
        assert r.store[..|store|] == r.store[..|s|][..|store|];
      }
    }
  }

  /** The insert never breaks the unique index, and it only appends: every
      record stored before stays where it was. */
  lemma InsertKeepsStore(store: seq<Record>, errors: seq<Message>, batch: seq<Lead>, faults: Faults)
    requires UniqueIds(store)
    ensures var o := InsertOutcome(store, errors, batch, faults);
      && UniqueIds(o.store)
      && |store| <= |o.store| && o.store[..|store|] == store
  {
    InsertAppends(store, errors, batch, faults);
    if batch != [] && faults.bulkFailure.None? {
      var (s, k) := WriteOrdered(store, batch);
      WriteOrderedGrows(store, batch);
      WriteOrderedUnique(store, batch);
      if k < |batch| {
        var insertedCount := if faults.reportsInsertedDocs then k else 0;
        RetryUnique(Outcome(s, insertedCount, errors), batch, insertedCount, |batch|, faults.createFailures);
      }
    }
  }

  /** `uploaded` counts exactly the leads written, unless the duplicate error
      does not report the documents the batch wrote: then the retry starts
      over from the first lead and those documents count as duplicates. */
  lemma InsertedCount(store: seq<Record>, errors: seq<Message>, batch: seq<Lead>, faults: Faults)
    ensures var o, k := InsertOutcome(store, errors, batch, faults), WriteOrdered(store, batch).1;
      && (faults.bulkFailure.Some? || faults.reportsInsertedDocs || k == |batch| ==>
            |o.store| - |store| == o.inserted)
      && (faults.bulkFailure.None? && !faults.reportsInsertedDocs && k < |batch| ==>
            |o.store| - |store| == o.inserted + k)
  {
    if batch != [] && faults.bulkFailure.None? {
      var (s, k) := WriteOrdered(store, batch);
      WriteOrderedGrows(store, batch);
      if k < |batch| {
        var insertedCount := if faults.reportsInsertedDocs then k else 0;
        RetryAccounting(Outcome(s, insertedCount, errors), batch, insertedCount, |batch|, faults.createFailures);
      }
    }
  }

  /** When the batch hits the unique index, the first error the fallback adds
      is a duplicate error for the lead it retries first, so not every queued
      lead is counted. */
  lemma DuplicateReported(store: seq<Record>, errors: seq<Message>, batch: seq<Lead>, faults: Faults)
    requires faults.bulkFailure.None? && WriteOrdered(store, batch).1 < |batch|
    ensures var o := InsertOutcome(store, errors, batch, faults);
      var first := if faults.reportsInsertedDocs then WriteOrdered(store, batch).1 else 0;
      && |o.errors| > |errors|
      && o.errors[|errors|] == DuplicateLeadId(batch[first].fields.leadId)
      && o.inserted < |batch|
  {
    var (s, k) := WriteOrdered(store, batch);
    WriteOrderedWrites(store, batch);
    var insertedCount := if faults.reportsInsertedDocs then k else 0;
    var o := Outcome(s, insertedCount, errors);
    if !faults.reportsInsertedDocs && k > 0 {
      IdsIff(s, batch[0].fields.leadId);
      assert s[|store| + 0] == ToRecord(batch[0]);
    }
    RetryStartsWithDuplicate(o, batch, insertedCount, faults.createFailures);
    InsertAccounting(store, errors, batch, faults);
  }

  // ---------------------------------------------------------------------
  // Uploading the same leads again

  /** The ids of a prefix of the store are ids of the store. */
  lemma IdsPrefix(s: seq<Record>, m: nat, k: string)
    requires m <= |s| && k in Ids(s[..m])
    ensures k in Ids(s)
  {
    IdsIff(s[..m], k);
    IdsIff(s, k);
    var i :| 0 <= i < m && s[..m][i].leadId == k;
    assert s[i] == s[..m][i];
  }

  /** Without other failures, the retry leaves the id of every lead it
      visits stored: written by it, or stored already. */
  lemma {:induction false} RetryStoresAll(o: Outcome, batch: seq<Lead>, from: nat, n: nat)
    requires from <= n <= |batch|
    ensures forall t | from <= t < n :: batch[t].fields.leadId in Ids(RetryUpTo(o, batch, from, n, map[]).store)
    decreases n - from
  {
    if n > from {
      RetryStoresAll(o, batch, from, n - 1);
      RetryStoresStep(RetryUpTo(o, batch, from, n - 1, map[]), batch[n - 1], n - 1);
      assert RetryUpTo(o, batch, from, n, map[])
          == CreateStep(RetryUpTo(o, batch, from, n - 1, map[]), batch[n - 1], n - 1, map[]);
    }
  }

  /** Without other failures, one retried lead leaves its id stored and
      every stored id stays stored. */
  lemma RetryStoresStep(p: Outcome, lead: Lead, i: nat)
    ensures var s := CreateStep(p, lead, i, map[]).store;
      Ids(p.store) <= Ids(s) && lead.fields.leadId in Ids(s)
  {
    if lead.fields.leadId !in Ids(p.store) {
      IdsGrow(p.store, ToRecord(lead));
    }
  }

  /** A retry of leads whose ids are all stored writes and counts nothing:
      each of them is a duplicate. */
  lemma {:induction false} RetryAllDuplicates(o: Outcome, batch: seq<Lead>, from: nat, n: nat,
                                              createFailures: map<nat, string>)
    requires from <= n <= |batch|
    requires forall t | from <= t < n :: batch[t].fields.leadId in Ids(o.store)
    ensures var r := RetryUpTo(o, batch, from, n, createFailures);
      r.store == o.store && r.inserted == o.inserted
    decreases n - from
  {
    if n > from {
      RetryAllDuplicates(o, batch, from, n - 1, createFailures);
    }
  }

  /** The `Duplicate leadId` errors of the leads at positions `from` to
      `n - 1`, in order. */
  function DuplicateErrors(batch: seq<Lead>, from: nat, n: nat): (e: seq<Message>)
    requires from <= n <= |batch|
    ensures |e| == n - from
    decreases n - from
  {
    if n == from then [] else DuplicateErrors(batch, from, n - 1) + [DuplicateLeadId(batch[n - 1].fields.leadId)]
  }

  /** The j-th of them is the error of the lead at `from + j`. */
  lemma {:induction false} DuplicateErrorsAt(batch: seq<Lead>, from: nat, n: nat)
    requires from <= n <= |batch|
    ensures forall j | 0 <= j < n - from ::
      DuplicateErrors(batch, from, n)[j] == DuplicateLeadId(batch[from + j].fields.leadId)
    decreases n - from
  {
    if n > from {
      DuplicateErrorsAt(batch, from, n - 1);
    }
  }

  /** Such a retry adds one `Duplicate leadId` error per lead, in order. */
  lemma {:induction false} RetryAllDuplicateErrors(o: Outcome, batch: seq<Lead>, from: nat, n: nat,
                                                   createFailures: map<nat, string>)
    requires from <= n <= |batch|
    requires forall t | from <= t < n :: batch[t].fields.leadId in Ids(o.store)
    ensures RetryUpTo(o, batch, from, n, createFailures).errors == o.errors + DuplicateErrors(batch, from, n)
    decreases n - from
  {
    if n > from {
      RetryAllDuplicates(o, batch, from, n - 1, createFailures);
      RetryAllDuplicateErrors(o, batch, from, n - 1, createFailures);
      var p := RetryUpTo(o, batch, from, n - 1, createFailures);
      assert RetryUpTo(o, batch, from, n, createFailures) == CreateStep(p, batch[n - 1], n - 1, createFailures);
      assert batch[n - 1].fields.leadId in Ids(p.store);
      var x := DuplicateLeadId(batch[n - 1].fields.leadId);
      assert o.errors + DuplicateErrors(batch, from, n) == (o.errors + DuplicateErrors(batch, from, n - 1)) + [x];
    }
  }

  /** Without other failures, every lead of the batch has its id stored
      once the insert and its fallback are done. */
  lemma InsertStoresAll(store: seq<Record>, errors: seq<Message>, batch: seq<Lead>, reportsInsertedDocs: bool)
    ensures var s' := InsertOutcome(store, errors, batch, Faults(None, reportsInsertedDocs, map[])).store;
      forall t | 0 <= t < |batch| :: batch[t].fields.leadId in Ids(s')
  {
    if batch != [] {
      var (s, k) := WriteOrdered(store, batch);
      WriteOrderedGrows(store, batch);
      WriteOrderedWrites(store, batch);
      forall t | 0 <= t < k ensures batch[t].fields.leadId in Ids(s) {
        IdsIff(s, batch[t].fields.leadId);
        assert s[|store| + t] == ToRecord(batch[t]);
      }
      if k < |batch| {
        var insertedCount := if reportsInsertedDocs then k else 0;
        var o := Outcome(s, insertedCount, errors);
        RetryStoresAll(o, batch, insertedCount, |batch|);
        RetryAccounting(o, batch, insertedCount, |batch|, map[]);
        var r := RetryUpTo(o, batch, insertedCount, |batch|, map[]);
        forall t | 0 <= t < insertedCount ensures batch[t].fields.leadId in Ids(r.store) {
          IdsPrefix(r.store, |s|, batch[t].fields.leadId);
        }
      }
    }
  }

  /** A batch whose ids are all stored changes nothing and counts nothing,
      whatever else fails; without a batch failure each of its leads adds a
      `Duplicate leadId` error, in order. */
  lemma InsertAllStored(store: seq<Record>, errors: seq<Message>, batch: seq<Lead>, faults: Faults)
    requires forall t | 0 <= t < |batch| :: batch[t].fields.leadId in Ids(store)
    ensures var o := InsertOutcome(store, errors, batch, faults);
      && o.store == store && o.inserted == 0
      && (faults.bulkFailure.None? ==>
            && |o.errors| == |errors| + |batch| && o.errors[..|errors|] == errors
            && (forall t | 0 <= t < |batch| :: o.errors[|errors| + t] == DuplicateLeadId(batch[t].fields.leadId)))
  {
    assert errors[..|errors|] == errors;
    if batch != [] && faults.bulkFailure.None? {
      assert WriteOrdered(store, batch) == (store, 0);
      RetryAllDuplicates(Outcome(store, 0, errors), batch, 0, |batch|, faults.createFailures);
      RetryAllDuplicateErrors(Outcome(store, 0, errors), batch, 0, |batch|, faults.createFailures);
      var dups := DuplicateErrors(batch, 0, |batch|);
      DuplicateErrorsAt(batch, 0, |batch|);
      assert (errors + dups)[..|errors|] == errors;
      forall t | 0 <= t < |batch| ensures (errors + dups)[|errors| + t] == DuplicateLeadId(batch[t].fields.leadId) {
        assert (errors + dups)[|errors| + t] == dups[t];
      }
    }
  }

  // ---------------------------------------------------------------------
  // What the insert appends

  /** `after` is `before` followed by the records of the leads of `batch` at
      the strictly increasing positions `ps`, all between `lo` and `hi`,
      each with an id `before` does not hold. */
  predicate AppendedAt(before: seq<Record>, after: seq<Record>, batch: seq<Lead>, ps: seq<nat>, lo: nat, hi: nat) {
    && |after| == |before| + |ps| && after[..|before|] == before
    && (forall j | 0 <= j < |ps| ::
          && lo <= ps[j] < hi <= |batch|
          && batch[ps[j]].fields.leadId !in Ids(before)
          && after[|before| + j] == ToRecord(batch[ps[j]]))
    && (forall j, j' | 0 <= j < j' < |ps| :: ps[j] < ps[j'])
  }

  /** Appending the lead at the next position keeps `AppendedAt`. */
  lemma AppendedAtExtend(before: seq<Record>, mid: seq<Record>, batch: seq<Lead>, ps: seq<nat>, lo: nat, hi: nat)
    requires AppendedAt(before, mid, batch, ps, lo, hi) && lo <= hi < |batch|
    requires batch[hi].fields.leadId !in Ids(mid)
    ensures AppendedAt(before, mid + [ToRecord(batch[hi])], batch, ps + [hi], lo, hi + 1)
  {
    var after := mid + [ToRecord(batch[hi])];
    assert after[..|mid|] == mid;
    assert after[..|before|] == mid[..|before|];
    if batch[hi].fields.leadId in Ids(before) {
      IdsPrefix(mid, |before|, batch[hi].fields.leadId);
    }
    var ps' := ps + [hi];
    forall j | 0 <= j < |ps'|
      ensures lo <= ps'[j] < hi + 1 <= |batch|
      ensures batch[ps'[j]].fields.leadId !in Ids(before)
      ensures after[|before| + j] == ToRecord(batch[ps'[j]])
    {
      if j < |ps| {
        assert ps'[j] == ps[j];
        assert after[|before| + j] == mid[|before| + j];
      }
    }
  }

  /** A lead the retry does not write keeps `AppendedAt`. */
  lemma AppendedAtWiden(before: seq<Record>, after: seq<Record>, batch: seq<Lead>, ps: seq<nat>, lo: nat, hi: nat)
    requires AppendedAt(before, after, batch, ps, lo, hi) && hi < |batch|
    ensures AppendedAt(before, after, batch, ps, lo, hi + 1)
  {
  }

  /** The retry appends the records of the leads at some strictly
      increasing positions between `from` and `n`, each with an id the
      store did not hold before the retry. */
  lemma {:induction false} RetryAppendsAt(o: Outcome, batch: seq<Lead>, from: nat, n: nat,
                                          createFailures: map<nat, string>)
    returns (ps: seq<nat>)
    requires from <= n <= |batch|
    ensures AppendedAt(o.store, RetryUpTo(o, batch, from, n, createFailures).store, batch, ps, from, n)
    decreases n - from
  {
    if n == from {
      ps := [];
      assert o.store[..|o.store|] == o.store;
    } else {
      ps := RetryAppendsAt(o, batch, from, n - 1, createFailures);
      var i: nat := n - 1;
      var p := RetryUpTo(o, batch, from, i, createFailures);
      var lead := batch[i];
      var r := RetryUpTo(o, batch, from, n, createFailures);
      assert r == CreateStep(p, lead, i, createFailures);
      if lead.fields.leadId !in Ids(p.store) && i !in createFailures {
        assert r.store == p.store + [ToRecord(batch[i])];
        AppendedAtExtend(o.store, p.store, batch, ps, from, i);
        ps := ps + [i];
      } else {
        assert r.store == p.store;
        AppendedAtWiden(o.store, p.store, batch, ps, from, i);
      }
    }
  }

  /** `after` is `before` followed by the records of the leads of `batch` at
      the strictly increasing positions `ps`. */
  predicate AppendsLeads(before: seq<Record>, after: seq<Record>, batch: seq<Lead>, ps: seq<nat>) {
    && |after| == |before| + |ps| && after[..|before|] == before
    && (forall j | 0 <= j < |ps| :: ps[j] < |batch| && after[|before| + j] == ToRecord(batch[ps[j]]))
    && (forall j, j' | 0 <= j < j' < |ps| :: ps[j] < ps[j'])
  }

  /** The ordered batch appends the leads at positions 0, 1, ... up to where
      it stops. */
  lemma WriteOrderedAppends(store: seq<Record>, batch: seq<Lead>) returns (ps: seq<nat>)
    ensures var (s, k) := WriteOrdered(store, batch);
      && AppendsLeads(store, s, batch, ps)
      && |ps| == k && (forall j | 0 <= j < |ps| :: ps[j] == j)
  {
    var (s, k) := WriteOrdered(store, batch);
    WriteOrderedGrows(store, batch);
    WriteOrderedWrites(store, batch);
    ps := seq(k, t => t);
  }

  /** Two appends one after the other, the second at later positions, are
      one append. */
  lemma AppendsLeadsConcat(a: seq<Record>, b: seq<Record>, c: seq<Record>, batch: seq<Lead>,
                           ps: seq<nat>, qs: seq<nat>)
    requires AppendsLeads(a, b, batch, ps) && AppendsLeads(b, c, batch, qs)
    requires forall j, j' | 0 <= j < |ps| && 0 <= j' < |qs| :: ps[j] < qs[j']
    ensures AppendsLeads(a, c, batch, ps + qs)
  {
    assert c[..|a|] == c[..|b|][..|a|];
    forall j | 0 <= j < |ps| ensures c[|a| + j] == ToRecord(batch[ps[j]]) {
      assert c[..|b|][|a| + j] == c[|a| + j];
    }
  }

  /** The insert appends the records of the batch's leads at some strictly
      increasing positions: the ordered batch writes a prefix, and the
      fallback only leads after it, since the prefix's ids are then
      stored. */
  lemma InsertAppendsAt(store: seq<Record>, errors: seq<Message>, batch: seq<Lead>, faults: Faults)
    returns (ps: seq<nat>)
    ensures AppendsLeads(store, InsertOutcome(store, errors, batch, faults).store, batch, ps)
  {
    ps := [];
    assert store[..|store|] == store;
    if batch != [] && faults.bulkFailure.None? {
      var (s, k) := WriteOrdered(store, batch);
      var prefix := WriteOrderedAppends(store, batch);
      if k == |batch| {
        ps := prefix;
      } else {
        WriteOrderedWrites(store, batch);
        var insertedCount := if faults.reportsInsertedDocs then k else 0;
        var o := Outcome(s, insertedCount, errors);
        var rest := RetryAppendsAt(o, batch, insertedCount, |batch|, faults.createFailures);
        var r := RetryUpTo(o, batch, insertedCount, |batch|, faults.createFailures).store;
        forall t | 0 <= t < k ensures batch[t].fields.leadId in Ids(s) {
          IdsIff(s, batch[t].fields.leadId);
          assert s[|store| + t] == ToRecord(batch[t]);
        }
        assert forall j | 0 <= j < |rest| :: k <= rest[j];
        AppendsLeadsConcat(store, s, r, batch, prefix, rest);
        ps := prefix + rest;
      }
    }
  }
}
