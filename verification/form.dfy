/**
 The entry form's side of saving: the default status it preselects and the
 record it builds from the submitted widgets before handing it to the store.
 */
module Form {
  import opened Strings
  import opened Dates
  import opened Config
  import opened Records
  import opened Utils
  import opened Database

  /** What the form's widgets hold on submission: text inputs, the date picker, the status box. */
  datatype FormInput = FormInput(
    clientName: string,
    company: string,
    meetingDate: Date,
    commercial: string,
    metrics: string,
    economicBuyer: string,
    decisionCriteria: string,
    decisionProcess: string,
    identifyPain: string,
    champion: string,
    status: string,
    notes: string)

  /** Position of the first occurrence of `x` in `xs` (`list.index`). */
  function FirstIndex(xs: seq<string>, x: string): (i: nat)
    requires x in xs
    ensures i < |xs| && xs[i] == x
    ensures forall j :: 0 <= j < i ==> xs[j] != x
  {
    if xs[0] == x then 0 else 1 + FirstIndex(xs[1..], x)
  }

  /**
   The status box's initial position: the edited record's status when it is
   one of the enumerated statuses, else the first ("En cours").
   */
  function DefaultStatusIndex(existing: Option<Row>): (i: nat)
    ensures i < |MeddicStatus|
    ensures existing.Some? && existing.value.data.status.Str? && existing.value.data.status.text in MeddicStatus
            ==> MeddicStatus[i] == existing.value.data.status.text
    ensures !(existing.Some? && existing.value.data.status.Str? && existing.value.data.status.text in MeddicStatus)
            ==> i == 0 && MeddicStatus[i] == "En cours"
  {
    if existing.Some? && existing.value.data.status.Str? && existing.value.data.status.text in MeddicStatus then
      FirstIndex(MeddicStatus, existing.value.data.status.text)
    else 0
  }

  /** The six MEDDIC inputs as typed, in the order of the required-field list. */
  function TypedMeddic(input: FormInput): (cs: seq<Cell>)
    ensures |cs| == 6
  {
    [Str(input.metrics), Str(input.economicBuyer), Str(input.decisionCriteria),
     Str(input.decisionProcess), Str(input.identifyPain), Str(input.champion)]
  }

  /**
   The submission handler: nothing when the raw client name or company is
   empty; otherwise the record to save, with every text stripped, the date as
   `YYYY-MM-DD`, the status as chosen, the edited record's identifier if any,
   and neither priority nor update time. Every column is present, so the
   store can only refuse the record through validation.
   */
  function PrepareRecord(input: FormInput, existing: Option<Row>): (r: Option<Fiche>)
    requires ValidDate(input.meetingDate)
    ensures r.None? <==> input.clientName == "" || input.company == ""
    ensures r.Some? ==>
              && r.value.data.clientName == Str(Strip(input.clientName))
              && r.value.data.company == Str(Strip(input.company))
              && r.value.data.meetingDate.Str? && ParseDate(r.value.data.meetingDate.text) == Some(input.meetingDate)
              && r.value.data.status == Str(input.status)
              && r.value.data.commercial == Str(Strip(input.commercial))
              && r.value.data.metrics == Str(Strip(input.metrics))
              && r.value.data.economicBuyer == Str(Strip(input.economicBuyer))
              && r.value.data.decisionCriteria == Str(Strip(input.decisionCriteria))
              && r.value.data.decisionProcess == Str(Strip(input.decisionProcess))
              && r.value.data.identifyPain == Str(Strip(input.identifyPain))
              && r.value.data.champion == Str(Strip(input.champion))
              && r.value.data.notes == Str(Strip(input.notes))
              && Complete(r.value.data)
              && r.value.priority.Missing? && r.value.updatedAt.Missing?
              && (r.value.id.Some? <==> existing.Some?)
              && (existing.Some? ==> r.value.id.value == existing.value.id)
  {
    if input.clientName == "" || input.company == "" then None
    else
      ParseIsoRoundTrip(input.meetingDate);
      var data := Fields(
        Str(Strip(input.clientName)),
        Str(Strip(input.company)),
        Str(IsoString(input.meetingDate)),
        Str(Strip(input.commercial)),
        Str(Strip(input.metrics)),
        Str(Strip(input.economicBuyer)),
        Str(Strip(input.decisionCriteria)),
        Str(Strip(input.decisionProcess)),
        Str(Strip(input.identifyPain)),
        Str(Strip(input.champion)),
        Str(input.status),
        Str(Strip(input.notes)));
      var id := if existing.Some? then Some(existing.value.id) else None;
      Some(Fiche(id, data, Missing, Missing))
  }

  /**
   A prepared record with an enumerated status passes validation exactly
   when the stripped client name and company are non-empty; the form's own
   check only rejects empty raw texts, so a blank-only name reaches the store
   and is refused there.
   */
  lemma PreparedRecordValidIff(input: FormInput, existing: Option<Row>)
    requires ValidDate(input.meetingDate) && input.status in MeddicStatus
    requires input.clientName != "" && input.company != ""
    ensures Validate(PrepareRecord(input, existing).value.data).0 <==>
              Strip(input.clientName) != "" && Strip(input.company) != ""
  {
    var d := PrepareRecord(input, existing).value.data;
    ValidIff(d);
    FilledIsStripTest(d.clientName);
    FilledIsStripTest(d.company);
    StripIdempotent(input.clientName);
    StripIdempotent(input.company);
  }

  /**
   Stripping the inputs never changes the completion: the prepared record
   has a MEDDIC field filled exactly when the typed text has a character
   that is not whitespace, so its count is that of the typed texts.
   */
  lemma PreparedCompletionCount(input: FormInput, existing: Option<Row>)
    requires ValidDate(input.meetingDate)
    requires input.clientName != "" && input.company != ""
    ensures var d := PrepareRecord(input, existing).value.data;
      forall i :: 0 <= i < 6 ==> (Filled(d.MeddicCells()[i]) <==> Filled(TypedMeddic(input)[i]))
    ensures CompletionCount(PrepareRecord(input, existing).value.data) == CountFilled(TypedMeddic(input), 6)
  {
    StrippedMeddicCount(PrepareRecord(input, existing).value.data, input);
  }

  /** A record whose MEDDIC fields are the stripped inputs counts as the typed inputs do. */
  lemma StrippedMeddicCount(d: Fields, input: FormInput)
    requires d.metrics == Str(Strip(input.metrics)) && d.economicBuyer == Str(Strip(input.economicBuyer))
    requires d.decisionCriteria == Str(Strip(input.decisionCriteria))
    requires d.decisionProcess == Str(Strip(input.decisionProcess))
    requires d.identifyPain == Str(Strip(input.identifyPain)) && d.champion == Str(Strip(input.champion))
    ensures forall i :: 0 <= i < 6 ==> (Filled(d.MeddicCells()[i]) <==> Filled(TypedMeddic(input)[i]))
    ensures CompletionCount(d) == CountFilled(TypedMeddic(input), 6)
  {
    var typed := TypedMeddic(input);
    StrippedFilled(d.metrics, input.metrics);
    StrippedFilled(d.economicBuyer, input.economicBuyer);
    StrippedFilled(d.decisionCriteria, input.decisionCriteria);
    StrippedFilled(d.decisionProcess, input.decisionProcess);
    StrippedFilled(d.identifyPain, input.identifyPain);
    StrippedFilled(d.champion, input.champion);
    SameFilled(d.MeddicCells(), typed);
  }

  /** A cell holding a stripped text is filled exactly when the text was. */
  lemma StrippedFilled(c: Cell, raw: string)
    requires c == Str(Strip(raw))
    ensures Filled(c) <==> Filled(Str(raw))
  {
    StripKeepsContent(raw);
  }

  /** Cells filled at the same positions count the same. */
  lemma SameFilled(a: seq<Cell>, b: seq<Cell>)
    requires |a| == |b| == 6
    requires Filled(a[0]) == Filled(b[0]) && Filled(a[1]) == Filled(b[1]) && Filled(a[2]) == Filled(b[2])
    requires Filled(a[3]) == Filled(b[3]) && Filled(a[4]) == Filled(b[4]) && Filled(a[5]) == Filled(b[5])
    ensures forall i :: 0 <= i < 6 ==> (Filled(a[i]) <==> Filled(b[i]))
    ensures CountFilled(a, 6) == CountFilled(b, 6)
  {
    CountMonotone(a, b, 6);
    CountMonotone(b, a, 6);
  }

  /**
   A record saved from the form carries no update time, so its recency tier
   is 0 and the priority stored for it is never "Haute", whatever it holds.
   */
  lemma FormRecordNeverHaute(s: Store, input: FormInput, existing: Option<Row>, clock: Clock)
    requires Valid(s) && ValidDate(input.meetingDate)
    requires input.clientName != "" && input.company != ""
    ensures var f := PrepareRecord(input, existing).value;
      var (t, r) := SaveFiche(s, f, clock);
      r.Saved? && r.id in t.rows ==> t.rows[r.id].priority != Haute
  {
    var f := PrepareRecord(input, existing).value;
    NoUpdateNeverHaute(f.data, f.updatedAt, clock.today);
    PriorityIsRecomputed(s, f, f.priority, clock);
  }
}
