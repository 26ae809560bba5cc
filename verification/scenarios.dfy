/**
 Worked examples: concrete records and dates, and what the model's scores,
 advisories, date handling and search give for them.
 */
module Scenarios {
  import opened Strings
  import opened Dates
  import opened Config
  import opened Records
  import opened Utils

  /** A prospect with the names filled, no MEDDIC field and an open status. */
  const JeanDupont := Fields(
    Str("Jean Dupont"), Str("Acme"), Str("2024-03-15"), Str(""),
    Str(""), Str(""), Str(""), Str(""), Str(""), Str(""),
    Str("En cours"), Str(""))

  /** The same prospect with all six MEDDIC fields filled and the opportunity qualified. */
  const Qualified := JeanDupont.(
    metrics := Str("ROI 20%"), economicBuyer := Str("CFO"), decisionCriteria := Str("Prix"),
    decisionProcess := Str("Comité"), identifyPain := Str("Coûts"), champion := Str("DSI"),
    status := Str("Qualifié"))

  /** `updated_at` as `CURRENT_TIMESTAMP` writes it on day `d`. */
  function StampOn(d: Date): (c: Cell)
    requires ValidDate(d)
    ensures c.Str? && First10(c.text) == IsoString(d)
  {
    var s := IsoString(d) + " 09:30:00";
    assert s[..10] == IsoString(d);
    Str(s)
  }

  lemma EmptyMeddicCountsZero()
    ensures CompletionCount(JeanDupont) == 0 && CompletionScore(JeanDupont) == 0.0
  {
    assert AllSpace("");
  }

  /**
   The empty prospect gets the "complete missing data" advisory first. Saved
   from the form it has no update time and lands in "Basse" (1 + 2 + 0 = 3);
   once stored and re-read with an update time of today it is "Moyenne"
   (1 + 2 + 3 = 6).
   */
  lemma EmptyProspect(today: Date)
    requires ValidDate(today)
    ensures Advices(JeanDupont)[0] == CompleteMissing
    ensures PriorityLevel(JeanDupont, Missing, DayNumber(today)) == Basse
    ensures PriorityLevel(JeanDupont, StampOn(today), DayNumber(today)) == Moyenne
  {
    EmptyMeddicCountsZero();
    CompletionAdviceFirst(JeanDupont);
    ParseIsoRoundTrip(today);
  }

  lemma FullMeddicCountsSix()
    ensures CompletionCount(Qualified) == 6
  {
    assert "ROI 20%"[0] == 'R' && "CFO"[0] == 'C' && "Prix"[0] == 'P';
    assert "Comité"[0] == 'C' && "Coûts"[0] == 'C' && "DSI"[0] == 'D';
  }

  /** The qualified prospect updated today is "Haute" (3 + 3 + 3) and gets no advice at all. */
  lemma QualifiedProspect(today: Date)
    requires ValidDate(today)
    ensures PriorityScore(Qualified, StampOn(today), DayNumber(today)) == 9
    ensures PriorityLevel(Qualified, StampOn(today), DayNumber(today)) == Haute
    ensures Advices(Qualified) == [] && Recommendations(Qualified) == []
  {
    assert PriorityScore(Qualified, StampOn(today), DayNumber(today)) == 9 by {
      QualifiedTiers(today);
    }
    QualifiedGetsNoAdvice();
  }

  /** Each tier of the qualified prospect updated today is the top one. */
  lemma QualifiedTiers(today: Date)
    requires ValidDate(today)
    ensures CompletionPoints(Qualified) == 3 && StatusPoints(Qualified.status) == 3
    ensures RecencyPoints(StampOn(today), DayNumber(today)) == 3
  {
    FullMeddicCountsSix();
    ParseIsoRoundTrip(today);
  }

  /** No rule fires for the qualified prospect: every field is filled and its status is neither open nor on hold. */
  lemma QualifiedGetsNoAdvice()
    ensures Advices(Qualified) == [] && Recommendations(Qualified) == []
  {
    FullMeddicCountsSix();
    assert Advices(Qualified) == [];
  }

  /**
   The recency tiers on calendar dates, across the end of February in a leap
   year: updated on 28 February, 6 March is 7 days later ("this week") and
   7 March is 8 days later.
   */
  lemma RecencyAcrossLeapFebruary(u: Cell)
    requires Truthy(u) && ParseDate(First10(u.text)) == Some(Date(2024, 2, 28))
    ensures RecencyPoints(u, DayNumber(Date(2024, 3, 6))) == 3
    ensures RecencyPoints(u, DayNumber(Date(2024, 3, 7))) == 2
  {
  }

  /** Updated on 31 January 2024, 1 March is 30 days later ("this month") and 2 March is 31. */
  lemma RecencyAcrossMonthEnd(u: Cell)
    requires Truthy(u) && ParseDate(First10(u.text)) == Some(Date(2024, 1, 31))
    ensures RecencyPoints(u, DayNumber(Date(2024, 3, 1))) == 2
    ensures RecencyPoints(u, DayNumber(Date(2024, 3, 2))) == 1
  {
  }

  /** Updated on 28 December 2023, 4 January 2024 is 7 days later and 5 January is 8. */
  lemma RecencyAcrossYearEnd(u: Cell)
    requires Truthy(u) && ParseDate(First10(u.text)) == Some(Date(2023, 12, 28))
    ensures RecencyPoints(u, DayNumber(Date(2024, 1, 4))) == 3
    ensures RecencyPoints(u, DayNumber(Date(2024, 1, 5))) == 2
  {
    var last := DayNumber(Date(2023, 12, 28));
    NextYear(Date(2023, 12, 31));
    assert DayNumber(Date(2023, 12, 31)) == last + 3;
    assert DayNumber(Date(2024, 1, 4)) == DayNumber(Date(2024, 1, 1)) + 3;
    assert DayNumber(Date(2024, 1, 4)) == last + 7;
    assert DayNumber(Date(2024, 1, 5)) == last + 8;
    RecencyBoundaries(u, Date(2023, 12, 28));
  }

  /** Searching "acme" finds a company written "ACME Corp". */
  lemma SearchAcme(r: Row)
    requires r.data.company == Str("ACME Corp")
    ensures Search([r], Some("acme")) == [r]
  {
    assert Lower("acme") == "acme";
    assert Lower("ACME Corp")[0..4] == "acme";
    assert OccursAt(Lower("ACME Corp"), "acme", 0);
    assert CellContains(r.data.company, "acme");
    assert r.data.company in r.data.SearchCells();
  }

  /** 30 February and 31 April are refused. */
  lemma ImpossibleDatesRejected()
    ensures ParseDate("2024-02-30") == None && ParseDate("2024-04-31") == None
  {
    assert "2024-02-30" == "2024" + "-" + "02" + "-" + "30";
    assert "2024-04-31" == "2024" + "-" + "04" + "-" + "31";
    Year2024();
    ParseParts("2024", "02", "30");
    ParseParts("2024", "04", "31");
  }

  /** Validation reports a meeting date of 30 February. */
  lemma ImpossibleMeetingDateReported()
    ensures BadMeetingDate in Validate(JeanDupont.(meetingDate := Str("2024-02-30"))).1
  {
    ImpossibleDatesRejected();
  }

  lemma Year2024()
    ensures AllDigits("2024") && Number("2024") == 2024
  {
    assert "2024"[..3] == "202" && "202"[..2] == "20" && "20"[..1] == "2";
  }

  /** An unpadded date is accepted and formatted with padding. */
  lemma UnpaddedDateFormatted()
    ensures ParseDate("2024-3-5") == Some(Date(2024, 3, 5))
    ensures FormatDate(Str("2024-3-5")) == Str("05/03/2024")
  {
    assert "2024-3-5" == "2024" + "-" + "3" + "-" + "5";
    Year2024();
    ParseParts("2024", "3", "5");
    March5Rendered();
  }

  lemma March5Rendered()
    ensures DayFirst(Date(2024, 3, 5)) == "05/03/2024"
  {
    assert Pad2(5) == "05" && Pad2(3) == "03";
    assert Pad4(2024) == "2024";
  }
}
