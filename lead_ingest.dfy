/** The per-row part of the lead upload
    (src/controller/AdminController/leadController.js, lines 48-130): every
    extracted row is normalised, validated in a fixed order, checked against
    the ids already stored, and, when it passes, shaped into a lead record
    with the next upload-sequence number. */
module LeadIngest {
  import opened JsValues
  import opened JsObject
  import opened EmailPattern

  /** The fields of a queued record that come from its row (lines 114-127).
      Optional fields are absent (`null`) when the row has no truthy value
      for them. */
  datatype LeadFields = LeadFields(
    leadId: string, name: string, email: string,
    phone: Option<Value>, category: Option<Value>, city: Option<Value>, country: Option<Value>,
    addressStreet: Option<Value>, linkedin: Option<Value>, facebookLink: Option<Value>,
    websiteLink: Option<Value>, googleMapLink: Option<Value>, instagram: Option<Value>,
    lastVerifiedAt: Option<int>)

  /** The record queued for insertion (lines 113-129): the row's fields and
      the upload-sequence number the loop hands out. */
  datatype Lead = Lead(fields: LeadFields, uploadSequence: int)

  /** The entries of the `errors` and `skipped` lists. The first five carry
      the displayed sheet row number `i + 2`. */
  datatype Message =
    | MissingLeadId(row: int)
    | MissingName(row: int)
    | MissingEmail(row: int)
    | InvalidEmail(row: int, email: string)
    | AlreadyExists(row: int, leadId: string)
    | DuplicateLeadId(leadId: string)
    | InsertFailed(leadId: string, reason: string)
    | BulkInsertFailed(reason: string)

  predicate RowLabelled(m: Message) {
    m.MissingLeadId? || m.MissingName? || m.MissingEmail? || m.InvalidEmail? || m.AlreadyExists?
  }

  // ---------------------------------------------------------------------
  // Normalisation (lines 58-62)

  /** `key.toLowerCase().trim()` */
  function NormKey(k: string): string { Trim(Lower(k)) }

  /** String values are trimmed, numbers kept. */
  function NormValue(v: Value): Value {
    match v
    case Str(s) => Str(Trim(s))
    case Num(_) => v
  }

  /** `normalizedRow` once the first `n` keys of `row` are visited. */
  function NormalizedUpTo(row: Row, n: nat): Row
    requires Stored(row) && n <= |row.keys|
  {
    if n == 0 then Empty
    else
      var key := row.keys[n - 1];
      Assign(NormalizedUpTo(row, n - 1), NormKey(key), NormValue(row.values[key]))
  }

  /** `normalizedRow` once every key of `row` is visited. */
  function Normalized(row: Row): Row
    requires Stored(row)
  {
    NormalizedUpTo(row, |row.keys|)
  }

  /** Lines 58-62: the `forEach` over `Object.keys(row)`. */
  method NormalizeRow(row: Row) returns (normalizedRow: Row)
    requires Stored(row)
    ensures normalizedRow == Normalized(row)
  {
    normalizedRow := Empty;
    for i := 0 to |row.keys|
      invariant normalizedRow == NormalizedUpTo(row, i)
    {
      var key := row.keys[i];
      normalizedRow := Assign(normalizedRow, NormKey(key), NormValue(row.values[key]));
    }
  }

  /** The normalised row is a well-formed object. */
  lemma {:induction false} NormalizedValid(row: Row, n: nat)
    requires Stored(row) && n <= |row.keys|
    ensures Valid(NormalizedUpTo(row, n))
  {
    if n > 0 {
      NormalizedValid(row, n - 1);
      NormalizedValidStep(row, n);
    }
  }

  lemma NormalizedValidStep(row: Row, n: nat)
    requires Stored(row) && 0 < n <= |row.keys|
    requires Valid(NormalizedUpTo(row, n - 1))
    ensures Valid(NormalizedUpTo(row, n))
  {
    var key := row.keys[n - 1];
    var prev, k, v := NormalizedUpTo(row, n - 1), NormKey(key), NormValue(row.values[key]);
    assert NormalizedUpTo(row, n) == Assign(prev, k, v);
    AssignValid(prev, k, v);
  }

  /** A key no original key normalises to is absent from the normalised row. */
  lemma {:induction false} NormalizedAbsent(row: Row, n: nat, k: string)
    requires Stored(row) && n <= |row.keys|
    requires forall j | 0 <= j < n :: NormKey(row.keys[j]) != k
    ensures Lookup(NormalizedUpTo(row, n), k) == None
  {
    if n > 0 {
      NormalizedAbsent(row, n - 1, k);
      var key := row.keys[n - 1];
      AssignLookup(NormalizedUpTo(row, n - 1), NormKey(key), NormValue(row.values[key]), k);
    }
  }

  /** When several keys normalise to the same key, the last of them in key
      order gives the (normalised) value. */
  lemma {:induction false} NormalizedLast(row: Row, n: nat, j: nat)
    requires Stored(row) && j < n <= |row.keys|
    requires forall j' | j < j' < n :: NormKey(row.keys[j']) != NormKey(row.keys[j])
    ensures Lookup(NormalizedUpTo(row, n), NormKey(row.keys[j])) == Some(NormValue(row.values[row.keys[j]]))
  {
    var key, target := row.keys[n - 1], NormKey(row.keys[j]);
    var prev := NormalizedUpTo(row, n - 1);
    assert NormalizedUpTo(row, n) == Assign(prev, NormKey(key), NormValue(row.values[key]));
    AssignLookup(prev, NormKey(key), NormValue(row.values[key]), target);
    if j < n - 1 {
      NormalizedLast(row, n - 1, j);
    }
  }

  /** A normalised key has no upper-case letter. */
  lemma NormKeyLowerCase(k: string)
    ensures forall i | 0 <= i < |NormKey(k)| :: !IsUpperLetter(NormKey(k)[i])
  {
    var l := Lower(k);
    LowerAt(k);
    TrimSpec(l);
  }

  /** `normalizedRow.leadId` of line 65 never exists: normalised keys are lower case. */
  lemma NoCamelCaseKey(row: Row)
    requires Stored(row)
    ensures Lookup(Normalized(row), "leadId") == None
  {
    forall j | 0 <= j < |row.keys| ensures NormKey(row.keys[j]) != "leadId" {
      NormKeyLowerCase(row.keys[j]);
      assert "leadId"[4] == 'I';
    }
    NormalizedAbsent(row, |row.keys|, "leadId");
  }

  // ---------------------------------------------------------------------
  // Field resolution and validation (lines 65-101)

  /** Line 65: `id || leadid || 'lead id' || leadId`. */
  function LeadIdOf(nr: Row): Option<Value> {
    Or(Or(Or(Lookup(nr, "id"), Lookup(nr, "leadid")), Lookup(nr, "lead id")), Lookup(nr, "leadId"))
  }

  /** The first truthy spelling wins; when none is truthy the last one is read. */
  lemma LeadIdOfCases(nr: Row)
    ensures var r := LeadIdOf(nr);
      && (Truthy(Lookup(nr, "id")) ==> r == Lookup(nr, "id"))
      && (!Truthy(Lookup(nr, "id")) && Truthy(Lookup(nr, "leadid")) ==> r == Lookup(nr, "leadid"))
      && ((!Truthy(Lookup(nr, "id")) && !Truthy(Lookup(nr, "leadid")) && Truthy(Lookup(nr, "lead id")))
          ==> r == Lookup(nr, "lead id"))
      && (!Truthy(r) ==> r == Lookup(nr, "leadId"))
  {
  }

  /** On a normalised row the resolved id is truthy or `undefined`. */
  lemma NormalizedLeadId(row: Row)
    requires Stored(row)
    ensures Truthy(LeadIdOf(Normalized(row))) || LeadIdOf(Normalized(row)) == None
  {
    NoCamelCaseKey(row);
  }

  /** Line 98: `existingLeadIds.has(leadId)`. The stored ids are strings and a
      `Set` compares without conversion, so a numeric id never matches. */
  predicate IdExists(existing: set<string>, id: Option<Value>) {
    id.Some? && id.value.Str? && id.value.s in existing
  }

  /** What the loop body does with one normalised row: pass it over, report
      it, skip it, or queue a record with the given fields. */
  datatype Verdict = Blank | Invalid(msg: Message) | AlreadyStored(msg: Message) | Accepted(fields: LeadFields)

  /** Lines 65-101 for row `i` (0-based among the extracted rows): a blank
      row is passed over, the checks run in the order id, name, email, email
      format, and only then is the id looked up among the stored ones; a row
      that passes every check is shaped into a record (lines 104-127). */
  function Classify(nr: Row, i: nat, existing: set<string>, parseDate: Value -> Option<int>): Verdict {
    var id, name, email := LeadIdOf(nr), Lookup(nr, "name"), Lookup(nr, "email");
    if !Truthy(id) && !Truthy(name) && !Truthy(email) then Blank
    else if !Truthy(id) then Invalid(MissingLeadId(i + 2))
    else if !Truthy(name) then Invalid(MissingName(i + 2))
    else if !Truthy(email) then Invalid(MissingEmail(i + 2))
    else if !IsEmail(ToStr(email.value)) then Invalid(InvalidEmail(i + 2, ToStr(email.value)))
    else if IdExists(existing, id) then AlreadyStored(AlreadyExists(i + 2, ToStr(id.value)))
    else Accepted(Shape(nr, parseDate))
  }

  /** Each verdict, characterised by the row's fields alone. */
  lemma ClassifyCases(nr: Row, i: nat, existing: set<string>, parseDate: Value -> Option<int>)
    ensures var v, id, name, email := Classify(nr, i, existing, parseDate), LeadIdOf(nr), Lookup(nr, "name"), Lookup(nr, "email");
      && (v == Blank <==> !Truthy(id) && !Truthy(name) && !Truthy(email))
      && (v.Invalid? ==> RowLabelled(v.msg) && v.msg.row == i + 2)
      && (v == Invalid(MissingLeadId(i + 2)) <==> !Truthy(id) && (Truthy(name) || Truthy(email)))
      && (v == Invalid(MissingName(i + 2)) <==> Truthy(id) && !Truthy(name))
      && (v == Invalid(MissingEmail(i + 2)) <==> Truthy(id) && Truthy(name) && !Truthy(email))
      && ((v.Invalid? && v.msg.InvalidEmail?) <==>
            (Truthy(id) && Truthy(name) && Truthy(email) && !IsEmail(ToStr(email.value))))
      && (v.Invalid? && v.msg.InvalidEmail? ==> v.msg.email == ToStr(email.value))
      && (v.AlreadyStored? <==>
            (Truthy(id) && Truthy(name) && Truthy(email) && IsEmail(ToStr(email.value))
             && IdExists(existing, id)))
      && (v.AlreadyStored? ==> v.msg == AlreadyExists(i + 2, ToStr(id.value)) && id.value.Str?)
      && (v.Accepted? <==>
            (Truthy(id) && Truthy(name) && Truthy(email) && IsEmail(ToStr(email.value))
             && !IdExists(existing, id)))
      && (v.Accepted? ==> v.fields == Shape(nr, parseDate))
  {
  }

  /** Lines 104-111: the date is read from either spelling and parsed by the
      runtime's date parser, here a parameter; an unparseable date is absent. */
  function LastVerifiedAt(nr: Row, parseDate: Value -> Option<int>): Option<int> {
    var raw := Or(Lookup(nr, "lastverifiedat"), Lookup(nr, "last verified at"));
    if Truthy(raw) then parseDate(raw.value) else None
  }

  /** `String(x)` of a property known to be present (`""` otherwise, a case
      the handler never reaches). */
  function Text(o: Option<Value>): string {
    if o.Some? then ToStr(o.value) else ""
  }

  /** Lines 114-127: the fields of the record queued for an accepted row. */
  function Shape(nr: Row, parseDate: Value -> Option<int>): LeadFields {
    LeadFields(
      leadId := Text(LeadIdOf(nr)),
      name := Text(Lookup(nr, "name")),
      email := Lower(Text(Lookup(nr, "email"))),
      phone := OrNull(Lookup(nr, "phone")),
      category := OrNull(Lookup(nr, "category")),
      city := OrNull(Lookup(nr, "city")),
      country := OrNull(Lookup(nr, "country")),
      addressStreet := OrNull(Or(Lookup(nr, "addressstreet"), Lookup(nr, "address street"))),
      linkedin := OrNull(Lookup(nr, "linkedin")),
      facebookLink := OrNull(Or(Lookup(nr, "facebooklink"), Lookup(nr, "facebook link"))),
      websiteLink := OrNull(Or(Lookup(nr, "websitelink"), Lookup(nr, "website link"))),
      googleMapLink := OrNull(Or(Lookup(nr, "googlemaplink"), Lookup(nr, "google map link"))),
      instagram := OrNull(Lookup(nr, "instagram")),
      lastVerifiedAt := LastVerifiedAt(nr, parseDate))
  }

  /** `x || null`: the field is the value when that is truthy, absent otherwise. */
  predicate TruthyOrAbsent(field: Option<Value>, v: Option<Value>) {
    (Truthy(v) ==> field == v) && (!Truthy(v) ==> field == None)
  }

  /** `a || b || null`: the field is the first truthy spelling, absent when
      neither is truthy. */
  predicate FirstTruthyOrAbsent(field: Option<Value>, a: Option<Value>, b: Option<Value>) {
    && (Truthy(a) ==> field == a)
    && (!Truthy(a) && Truthy(b) ==> field == b)
    && (!Truthy(a) && !Truthy(b) ==> field == None)
  }

  /** Lines 104-111: the date is the parse of the first truthy spelling
      (`None` when it is not a valid date), absent when neither is truthy. */
  predicate DateOfFirstTruthy(field: Option<int>, a: Option<Value>, b: Option<Value>,
                              parseDate: Value -> Option<int>) {
    && (Truthy(a) ==> field == parseDate(a.value))
    && (!Truthy(a) && Truthy(b) ==> field == parseDate(b.value))
    && (!Truthy(a) && !Truthy(b) ==> field == None)
  }

  /** An accepted row's record: the id and name are the row's (non-empty)
      values as text, the email is the row's lower-cased and still passes the
      check, every optional field is the row's value (the first truthy
      spelling, for the fields with two) when that is truthy and absent
      otherwise, and the date is the parse of the first truthy date spelling. */
  lemma AcceptedShape(nr: Row, i: nat, existing: set<string>, parseDate: Value -> Option<int>)
    requires Classify(nr, i, existing, parseDate).Accepted?
    ensures var f := Classify(nr, i, existing, parseDate).fields;
      && f.leadId == ToStr(LeadIdOf(nr).value) != ""
      && f.name == ToStr(Lookup(nr, "name").value) != ""
      && f.email == Lower(ToStr(Lookup(nr, "email").value))
      && IsEmail(f.email)
      && (forall k | 0 <= k < |f.email| :: !IsUpperLetter(f.email[k]))
      && TruthyOrAbsent(f.phone, Lookup(nr, "phone"))
      && TruthyOrAbsent(f.category, Lookup(nr, "category"))
      && TruthyOrAbsent(f.city, Lookup(nr, "city"))
      && TruthyOrAbsent(f.country, Lookup(nr, "country"))
      && TruthyOrAbsent(f.linkedin, Lookup(nr, "linkedin"))
      && TruthyOrAbsent(f.instagram, Lookup(nr, "instagram"))
      && FirstTruthyOrAbsent(f.addressStreet, Lookup(nr, "addressstreet"), Lookup(nr, "address street"))
      && FirstTruthyOrAbsent(f.facebookLink, Lookup(nr, "facebooklink"), Lookup(nr, "facebook link"))
      && FirstTruthyOrAbsent(f.websiteLink, Lookup(nr, "websitelink"), Lookup(nr, "website link"))
      && FirstTruthyOrAbsent(f.googleMapLink, Lookup(nr, "googlemaplink"), Lookup(nr, "google map link"))
      && DateOfFirstTruthy(f.lastVerifiedAt, Lookup(nr, "lastverifiedat"), Lookup(nr, "last verified at"), parseDate)
  {
    ClassifyCases(nr, i, existing, parseDate);
    TruthyToStrNonEmpty(LeadIdOf(nr).value);
    TruthyToStrNonEmpty(Lookup(nr, "name").value);
    var e := ToStr(Lookup(nr, "email").value);
    LowerKeepsEmail(e);
    LowerAt(e);
  }

  // ---------------------------------------------------------------------
  // The row loop (lines 48-130)

  datatype Ingested = Ingested(queued: seq<Lead>, errors: seq<Message>, skipped: seq<Message>)

  /** The three lists after one more row with verdict `v`: unchanged for a
      blank row, one more error or skip message, or one more record, numbered
      with the next sequence number (`currentSequence++`). */
  function Step(acc: Ingested, v: Verdict, maxSequence: int): Ingested {
    match v
    case Blank => acc
    case Invalid(m) => acc.(errors := acc.errors + [m])
    case AlreadyStored(m) => acc.(skipped := acc.skipped + [m])
    case Accepted(f) => acc.(queued := acc.queued + [Lead(f, maxSequence + 1 + |acc.queued|)])
  }

  /** The three lists after the first `n` verdicts. */
  function Tally(vs: seq<Verdict>, n: nat, maxSequence: int): Ingested
    requires n <= |vs|
  {
    if n == 0 then Ingested([], [], []) else Step(Tally(vs, n - 1, maxSequence), vs[n - 1], maxSequence)
  }

  /** The verdicts of the first `n` normalised rows. */
  function Verdicts(nrs: seq<Row>, existing: set<string>, parseDate: Value -> Option<int>, n: nat): (vs: seq<Verdict>)
    requires n <= |nrs|
    ensures |vs| == n
  {
    if n == 0 then [] else Verdicts(nrs, existing, parseDate, n - 1) + [Classify(nrs[n - 1], n - 1, existing, parseDate)]
  }

  lemma {:induction false} VerdictAt(nrs: seq<Row>, existing: set<string>, parseDate: Value -> Option<int>, n: nat, i: nat)
    requires i < n <= |nrs|
    ensures Verdicts(nrs, existing, parseDate, n)[i] == Classify(nrs[i], i, existing, parseDate)
  {
    if i < n - 1 {
      VerdictAt(nrs, existing, parseDate, n - 1, i);
    }
  }

  /** `leadsToInsert`, `errors` and `skipped` once every normalised row is visited. */
  function Ingest(nrs: seq<Row>, existing: set<string>, maxSequence: int,
                  parseDate: Value -> Option<int>): Ingested
  {
    Tally(Verdicts(nrs, existing, parseDate, |nrs|), |nrs|, maxSequence)
  }

  /** Every extracted row has a value for each of its keys. */
  predicate AllStored(data: seq<Row>) {
    forall i | 0 <= i < |data| :: Stored(data[i])
  }

  /** The first `n` extracted rows, each normalised. */
  function NormalizedRows(data: seq<Row>, n: nat): (nrs: seq<Row>)
    requires n <= |data| && AllStored(data)
    ensures |nrs| == n
  {
    if n == 0 then [] else NormalizedRows(data, n - 1) + [Normalized(data[n - 1])]
  }

  lemma {:induction false} NormalizedRowAt(data: seq<Row>, n: nat, i: nat)
    requires i < n <= |data| && AllStored(data)
    ensures NormalizedRows(data, n)[i] == Normalized(data[i])
  {
    if i < n - 1 {
      NormalizedRowAt(data, n - 1, i);
    }
  }

  /** Lines 65-129: the body of the loop for the `i`-th normalised row. */
  method HandleRow(normalizedRow: Row, i: nat, existing: set<string>, maxSequence: int,
                   parseDate: Value -> Option<int>, leadsToInsert: seq<Lead>, errors: seq<Message>,
                   skipped: seq<Message>, currentSequence: int)
    returns (leadsToInsert': seq<Lead>, errors': seq<Message>, skipped': seq<Message>, currentSequence': int)
    requires currentSequence == maxSequence + 1 + |leadsToInsert|
    ensures Ingested(leadsToInsert', errors', skipped')
            == Step(Ingested(leadsToInsert, errors, skipped), Classify(normalizedRow, i, existing, parseDate), maxSequence)
    ensures currentSequence' == maxSequence + 1 + |leadsToInsert'|
  {
    leadsToInsert', errors', skipped', currentSequence' := leadsToInsert, errors, skipped, currentSequence;
    var leadId := LeadIdOf(normalizedRow);
    var name, email := Lookup(normalizedRow, "name"), Lookup(normalizedRow, "email");
    if !Truthy(leadId) && !Truthy(name) && !Truthy(email) {
      return;
    }
    if !Truthy(leadId) {
      errors' := errors + [MissingLeadId(i + 2)];
      return;
    }
    if !Truthy(name) {
      errors' := errors + [MissingName(i + 2)];
      return;
    }
    if !Truthy(email) {
      errors' := errors + [MissingEmail(i + 2)];
      return;
    }
    if !IsEmail(ToStr(email.value)) {
      errors' := errors + [InvalidEmail(i + 2, ToStr(email.value))];
      return;
    }
    if IdExists(existing, leadId) {
      skipped' := skipped + [AlreadyExists(i + 2, ToStr(leadId.value))];
      return;
    }
    var fields := Shape(normalizedRow, parseDate);
    leadsToInsert' := leadsToInsert + [Lead(fields, currentSequence)];
    currentSequence' := currentSequence + 1;
  }

  /** Lines 48-130: the loop over the extracted rows. */
  method ProcessRows(data: seq<Row>, existing: set<string>, maxSequence: int,
                     parseDate: Value -> Option<int>)
    returns (leadsToInsert: seq<Lead>, errors: seq<Message>, skipped: seq<Message>)
    requires AllStored(data)
    ensures Ingested(leadsToInsert, errors, skipped)
            == Ingest(NormalizedRows(data, |data|), existing, maxSequence, parseDate)
  {
    ghost var nrs := NormalizedRows(data, |data|);
    ghost var vs := Verdicts(nrs, existing, parseDate, |data|);
    leadsToInsert, errors, skipped := [], [], [];
    var currentSequence := maxSequence + 1;
    for i := 0 to |data|
      invariant Ingested(leadsToInsert, errors, skipped) == Tally(vs, i, maxSequence)
      invariant currentSequence == maxSequence + 1 + |leadsToInsert|
    {
      var normalizedRow := NormalizeRow(data[i]);
      NormalizedRowAt(data, |data|, i);
      VerdictAt(nrs, existing, parseDate, |data|, i);
      leadsToInsert, errors, skipped, currentSequence :=
        HandleRow(normalizedRow, i, existing, maxSequence, parseDate, leadsToInsert, errors, skipped, currentSequence);
    }
  }

  // ---------------------------------------------------------------------
  // What the three lists hold

  function BlankCount(vs: seq<Verdict>, n: nat): nat
    requires n <= |vs|
  {
    if n == 0 then 0 else BlankCount(vs, n - 1) + (if vs[n - 1] == Blank then 1 else 0)
  }

  /** Every row lands in exactly one place: queued, an error, skipped, or
      (a blank row) nowhere. */
  lemma {:induction false} TallyAccounting(vs: seq<Verdict>, n: nat, maxSequence: int)
    requires n <= |vs|
    ensures var r := Tally(vs, n, maxSequence);
      |r.queued| + |r.errors| + |r.skipped| + BlankCount(vs, n) == n
  {
    if n > 0 {
      TallyAccounting(vs, n - 1, maxSequence);
    }
  }

  /** Where a verdict sends its row. */
  datatype Outcome = Queued | Rejected | Skipped

  predicate Lands(v: Verdict, o: Outcome) {
    match o
    case Queued => v.Accepted?
    case Rejected => v.Invalid?
    case Skipped => v.AlreadyStored?
  }

  /** The positions, in order, of the rows among the first `n` whose verdict
      sends them to `o`. */
  function RowsTo(vs: seq<Verdict>, n: nat, o: Outcome): (rows: seq<nat>)
    requires n <= |vs|
    ensures forall k | 0 <= k < |rows| :: rows[k] < n && Lands(vs[rows[k]], o)
    ensures forall a, b | 0 <= a < b < |rows| :: rows[a] < rows[b]
    ensures forall i | 0 <= i < n && Lands(vs[i], o) :: i in rows
  {
    if n == 0 then [] else RowsTo(vs, n - 1, o) + (if Lands(vs[n - 1], o) then [n - 1] else [])
  }

  /** The queue holds the accepted rows' records, in row order, numbered
      with the consecutive numbers `maxSequence + 1`, `maxSequence + 2`, ... */
  lemma {:induction false} TallyQueued(vs: seq<Verdict>, n: nat, maxSequence: int)
    requires n <= |vs|
    ensures var q, rows := Tally(vs, n, maxSequence).queued, RowsTo(vs, n, Queued);
      && |rows| == |q|
      && forall k | 0 <= k < |rows| :: q[k] == Lead(vs[rows[k]].fields, maxSequence + 1 + k)
  {
    if n > 0 {
      TallyQueued(vs, n - 1, maxSequence);
      var prev, q := Tally(vs, n - 1, maxSequence).queued, Tally(vs, n, maxSequence).queued;
      var prevRows, rows := RowsTo(vs, n - 1, Queued), RowsTo(vs, n, Queued);
      if vs[n - 1].Accepted? {
        assert q == prev + [Lead(vs[n - 1].fields, maxSequence + 1 + |prev|)];
        assert rows == prevRows + [n - 1];
        forall k | 0 <= k < |rows| ensures q[k] == Lead(vs[rows[k]].fields, maxSequence + 1 + k) {
          if k < |prevRows| { assert q[k] == prev[k] && rows[k] == prevRows[k]; }
        }
      } else {
        assert q == prev;
        assert rows == prevRows;
      }
    }
  }

  /** The error list holds the rejected rows' messages, in row order. */
  lemma {:induction false} TallyErrors(vs: seq<Verdict>, n: nat, maxSequence: int)
    requires n <= |vs|
    ensures var errs, rows := Tally(vs, n, maxSequence).errors, RowsTo(vs, n, Rejected);
      && |rows| == |errs|
      && forall k | 0 <= k < |rows| :: vs[rows[k]] == Invalid(errs[k])
  {
    if n > 0 {
      TallyErrors(vs, n - 1, maxSequence);
      var prev, errs := Tally(vs, n - 1, maxSequence).errors, Tally(vs, n, maxSequence).errors;
      var prevRows, rows := RowsTo(vs, n - 1, Rejected), RowsTo(vs, n, Rejected);
      if vs[n - 1].Invalid? {
        assert errs == prev + [vs[n - 1].msg];
        assert rows == prevRows + [n - 1];
        forall k | 0 <= k < |rows| ensures vs[rows[k]] == Invalid(errs[k]) {
          if k < |prevRows| { assert errs[k] == prev[k] && rows[k] == prevRows[k]; }
        }
      } else {
        assert errs == prev;
        assert rows == prevRows;
      }
    }
  }

  /** The skipped list holds the messages of the rows whose id was already
      stored, in row order. */
  lemma {:induction false} TallySkipped(vs: seq<Verdict>, n: nat, maxSequence: int)
    requires n <= |vs|
    ensures var sk, rows := Tally(vs, n, maxSequence).skipped, RowsTo(vs, n, Skipped);
      && |rows| == |sk|
      && forall k | 0 <= k < |rows| :: vs[rows[k]] == AlreadyStored(sk[k])
  {
    if n > 0 {
      TallySkipped(vs, n - 1, maxSequence);
      var prev, sk := Tally(vs, n - 1, maxSequence).skipped, Tally(vs, n, maxSequence).skipped;
      var prevRows, rows := RowsTo(vs, n - 1, Skipped), RowsTo(vs, n, Skipped);
      if vs[n - 1].AlreadyStored? {
        assert sk == prev + [vs[n - 1].msg];
        assert rows == prevRows + [n - 1];
        forall k | 0 <= k < |rows| ensures vs[rows[k]] == AlreadyStored(sk[k]) {
          if k < |prevRows| { assert sk[k] == prev[k] && rows[k] == prevRows[k]; }
        }
      } else {
        assert sk == prev;
        assert rows == prevRows;
      }
    }
  }

  /** The error list of an upload: the messages of the rejected rows, in row
      order, each naming its row's displayed number and being that row's
      verdict. */
  lemma IngestErrors(nrs: seq<Row>, existing: set<string>, maxSequence: int,
                     parseDate: Value -> Option<int>)
    ensures var errs, rows := Ingest(nrs, existing, maxSequence, parseDate).errors,
                              RowsTo(Verdicts(nrs, existing, parseDate, |nrs|), |nrs|, Rejected);
      && |errs| == |rows|
      && (forall k | 0 <= k < |rows| ::
            RowLabelled(errs[k]) && errs[k].row == rows[k] + 2
            && Classify(nrs[rows[k]], rows[k], existing, parseDate) == Invalid(errs[k]))
      && (forall a, b | 0 <= a < b < |errs| :: errs[a].row < errs[b].row)
  {
    var vs := Verdicts(nrs, existing, parseDate, |nrs|);
    TallyErrors(vs, |nrs|, maxSequence);
    var errs, rows := Tally(vs, |nrs|, maxSequence).errors, RowsTo(vs, |nrs|, Rejected);
    forall k | 0 <= k < |rows|
      ensures RowLabelled(errs[k]) && errs[k].row == rows[k] + 2
              && Classify(nrs[rows[k]], rows[k], existing, parseDate) == Invalid(errs[k])
    {
      VerdictAt(nrs, existing, parseDate, |nrs|, rows[k]);
      ClassifyCases(nrs[rows[k]], rows[k], existing, parseDate);
    }
  }

  /** The skipped list of an upload: the messages of the rows whose id is
      already stored, in row order, each naming its row's displayed number
      and its id. */
  lemma IngestSkipped(nrs: seq<Row>, existing: set<string>, maxSequence: int,
                      parseDate: Value -> Option<int>)
    ensures var sk, rows := Ingest(nrs, existing, maxSequence, parseDate).skipped,
                            RowsTo(Verdicts(nrs, existing, parseDate, |nrs|), |nrs|, Skipped);
      && |sk| == |rows|
      && (forall k | 0 <= k < |rows| ::
            IdExists(existing, LeadIdOf(nrs[rows[k]]))
            && sk[k] == AlreadyExists(rows[k] + 2, LeadIdOf(nrs[rows[k]]).value.s))
      && (forall a, b | 0 <= a < b < |sk| :: sk[a].row < sk[b].row)
  {
    var vs := Verdicts(nrs, existing, parseDate, |nrs|);
    TallySkipped(vs, |nrs|, maxSequence);
    var sk, rows := Tally(vs, |nrs|, maxSequence).skipped, RowsTo(vs, |nrs|, Skipped);
    forall k | 0 <= k < |rows|
      ensures IdExists(existing, LeadIdOf(nrs[rows[k]]))
              && sk[k] == AlreadyExists(rows[k] + 2, LeadIdOf(nrs[rows[k]]).value.s)
    {
      VerdictAt(nrs, existing, parseDate, |nrs|, rows[k]);
      ClassifyCases(nrs[rows[k]], rows[k], existing, parseDate);
    }
  }

  /** The queue of an upload: the records of the rows that pass every check,
      in row order, each with that row's fields and the sequence numbers
      from `maxSequence + 1` on, without gaps. */
  lemma IngestQueued(nrs: seq<Row>, existing: set<string>, maxSequence: int,
                     parseDate: Value -> Option<int>)
    ensures var q, rows := Ingest(nrs, existing, maxSequence, parseDate).queued,
                           RowsTo(Verdicts(nrs, existing, parseDate, |nrs|), |nrs|, Queued);
      && |q| == |rows|
      && (forall k | 0 <= k < |rows| ::
            Classify(nrs[rows[k]], rows[k], existing, parseDate).Accepted?
            && q[k] == Lead(Shape(nrs[rows[k]], parseDate), maxSequence + 1 + k))
  {
    var vs := Verdicts(nrs, existing, parseDate, |nrs|);
    TallyQueued(vs, |nrs|, maxSequence);
    var q, rows := Tally(vs, |nrs|, maxSequence).queued, RowsTo(vs, |nrs|, Queued);
    forall k | 0 <= k < |rows|
      ensures Classify(nrs[rows[k]], rows[k], existing, parseDate).Accepted?
              && q[k] == Lead(Shape(nrs[rows[k]], parseDate), maxSequence + 1 + k)
    {
      VerdictAt(nrs, existing, parseDate, |nrs|, rows[k]);
      ClassifyCases(nrs[rows[k]], rows[k], existing, parseDate);
    }
  }

  /** In a strictly increasing list, a smaller entry sits at an earlier position. */
  lemma OrderedPositions(rows: seq<nat>, a: nat, b: nat)
    requires a < |rows| && b < |rows| && rows[a] < rows[b]
    requires forall x, y | 0 <= x < y < |rows| :: rows[x] < rows[y]
    ensures a < b
  {
  }

  /** Two accepted verdicts with the same id put two records with that id
      in the queue. */
  lemma TallyRepeated(vs: seq<Verdict>, n: nat, maxSequence: int, i: nat, j: nat)
    requires i < j < n <= |vs|
    requires vs[i].Accepted? && vs[j].Accepted? && vs[i].fields.leadId == vs[j].fields.leadId
    ensures var q := Tally(vs, n, maxSequence).queued;
      exists a, b | 0 <= a < b < |q| :: q[a].fields.leadId == q[b].fields.leadId == vs[i].fields.leadId
  {
    TallyQueued(vs, n, maxSequence);
    var q, rows := Tally(vs, n, maxSequence).queued, RowsTo(vs, n, Queued);
    assert Lands(vs[i], Queued) && Lands(vs[j], Queued);
    var a :| 0 <= a < |rows| && rows[a] == i;
    var b :| 0 <= b < |rows| && rows[b] == j;
    OrderedPositions(rows, a, b);
    assert q[a].fields == vs[i].fields && q[b].fields == vs[j].fields;
  }

  /** Two valid rows with the same new id are both queued: the id set the
      duplicate check reads is never extended inside the loop. */
  lemma RepeatedIdQueuedTwice(nrs: seq<Row>, existing: set<string>, maxSequence: int,
                              parseDate: Value -> Option<int>, i: nat, j: nat)
    requires i < j < |nrs|
    requires Classify(nrs[i], i, existing, parseDate).Accepted?
    requires Classify(nrs[j], j, existing, parseDate).Accepted?
    requires LeadIdOf(nrs[i]) == LeadIdOf(nrs[j])
    ensures var q := Ingest(nrs, existing, maxSequence, parseDate).queued;
      exists a, b | 0 <= a < b < |q| ::
        q[a].fields.leadId == q[b].fields.leadId == ToStr(LeadIdOf(nrs[i]).value)
  {
    var vs := Verdicts(nrs, existing, parseDate, |nrs|);
    VerdictAt(nrs, existing, parseDate, |nrs|, i);
    VerdictAt(nrs, existing, parseDate, |nrs|, j);
    AcceptedShape(nrs[i], i, existing, parseDate);
    AcceptedShape(nrs[j], j, existing, parseDate);
    TallyRepeated(vs, |nrs|, maxSequence, i, j);
  }

  /** A row accepted against a larger set of stored ids is accepted, with
      the same fields, against a smaller one. */
  lemma AcceptedWithFewerIds(nr: Row, i: nat, fewer: set<string>, more: set<string>,
                             parseDate: Value -> Option<int>)
    requires fewer <= more && Classify(nr, i, more, parseDate).Accepted?
    ensures Classify(nr, i, fewer, parseDate) == Classify(nr, i, more, parseDate)
  {
  }

  /** Some lead of `q` carries the fields `f`. */
  predicate HasLeadWith(q: seq<Lead>, f: LeadFields) {
    exists m | 0 <= m < |q| :: q[m].fields == f
  }

  /** Against a larger set of stored ids the queue only loses leads: each
      lead queued then carries the fields of a lead queued before. */
  lemma QueuedWithMoreIds(nrs: seq<Row>, fewer: set<string>, more: set<string>,
                          seqFewer: int, seqMore: int, parseDate: Value -> Option<int>)
    requires fewer <= more
    ensures var q1, q2 := Ingest(nrs, fewer, seqFewer, parseDate).queued, Ingest(nrs, more, seqMore, parseDate).queued;
      forall k | 0 <= k < |q2| :: HasLeadWith(q1, q2[k].fields)
  {
    var q2 := Ingest(nrs, more, seqMore, parseDate).queued;
    forall k | 0 <= k < |q2| ensures HasLeadWith(Ingest(nrs, fewer, seqFewer, parseDate).queued, q2[k].fields) {
      QueuedWithMoreIdsAt(nrs, fewer, more, seqFewer, seqMore, parseDate, k);
    }
  }

  lemma QueuedWithMoreIdsAt(nrs: seq<Row>, fewer: set<string>, more: set<string>,
                            seqFewer: int, seqMore: int, parseDate: Value -> Option<int>, k: nat)
    requires fewer <= more && k < |Ingest(nrs, more, seqMore, parseDate).queued|
    ensures HasLeadWith(Ingest(nrs, fewer, seqFewer, parseDate).queued, Ingest(nrs, more, seqMore, parseDate).queued[k].fields)
  {
    var vs1, vs2 := Verdicts(nrs, fewer, parseDate, |nrs|), Verdicts(nrs, more, parseDate, |nrs|);
    var q1, q2 := Ingest(nrs, fewer, seqFewer, parseDate).queued, Ingest(nrs, more, seqMore, parseDate).queued;
    var rows1, rows2 := RowsTo(vs1, |nrs|, Queued), RowsTo(vs2, |nrs|, Queued);
    IngestQueued(nrs, fewer, seqFewer, parseDate);
    IngestQueued(nrs, more, seqMore, parseDate);
    var i := rows2[k];
    AcceptedWithFewerIds(nrs[i], i, fewer, more, parseDate);
    VerdictAt(nrs, fewer, parseDate, |nrs|, i);
    assert Lands(vs1[i], Queued);
    var m :| 0 <= m < |rows1| && rows1[m] == i;
    assert q1[m].fields == Shape(nrs[i], parseDate) == q2[k].fields;
  }
}
