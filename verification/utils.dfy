/**
 The scoring and qualification engine: completion score, priority level,
 recommendations, validation, search and the display helpers (colours,
 date formatting). Every function is a pure function of a record; the
 current day is a parameter.
 */
module Utils {
  import opened Strings
  import opened Dates
  import opened Config
  import opened Records

  // ---------------------------------------------------------------------------
  // Completion score
  // ---------------------------------------------------------------------------

  /** How many of the first `n` cells are filled: the loop counter after `n` iterations. */
  function CountFilled(cells: seq<Cell>, n: nat): (k: nat)
    requires n <= |cells|
    ensures k <= n
  {
    if n == 0 then 0 else CountFilled(cells, n - 1) + (if Filled(cells[n - 1]) then 1 else 0)
  }

  /** Positions among the first `n` cells that are filled. */
  ghost function FilledPositions(cells: seq<Cell>, n: nat): set<int>
    requires n <= |cells|
  {
    set i | 0 <= i < n && Filled(cells[i])
  }

  /** The counter counts exactly the filled positions. */
  lemma {:induction false} CountIsCardinality(cells: seq<Cell>, n: nat)
    requires n <= |cells|
    ensures CountFilled(cells, n) == |FilledPositions(cells, n)|
  {
    if n > 0 {
      CountIsCardinality(cells, n - 1);
      var before := FilledPositions(cells, n - 1);
      if Filled(cells[n - 1]) {
        assert FilledPositions(cells, n) == before + {n - 1};
      } else {
        assert FilledPositions(cells, n) == before;
      }
    }
  }

  /** Filling more fields never lowers the count. */
  lemma {:induction false} CountMonotone(a: seq<Cell>, b: seq<Cell>, n: nat)
    requires n <= |a| && n <= |b|
    requires forall i :: 0 <= i < n && Filled(a[i]) ==> Filled(b[i])
    ensures CountFilled(a, n) <= CountFilled(b, n)
  {
    if n > 0 {
      CountMonotone(a, b, n - 1);
    }
  }

  /** k: how many of the six MEDDIC fields are filled. */
  function CompletionCount(d: Fields): (k: nat)
    ensures k <= 6
  {
    CountFilled(d.MeddicCells(), |RequiredMeddicFields|)
  }

  /** The MEDDIC fields (by position in the required-field list) that are filled. */
  ghost function FilledFields(d: Fields): set<int> {
    FilledPositions(d.MeddicCells(), 6)
  }

  /** k is the number of filled MEDDIC fields, whichever ones they are. */
  lemma CompletionCountsFilledFields(d: Fields)
    ensures CompletionCount(d) == |FilledFields(d)|
  {
    CountIsCardinality(d.MeddicCells(), 6);
  }

  /**
   `calculate_completion_score`: filled fields over the number of required
   fields, as a percentage. It is 100k/6 and lies in [0, 100].
   */
  function CompletionScore(d: Fields): (pct: real)
    ensures pct == 100.0 * (CompletionCount(d) as real) / 6.0
    ensures 0.0 <= pct <= 100.0
  {
    (CompletionCount(d) as real / |RequiredMeddicFields| as real) * 100.0
  }

  /** The score thresholds the engine tests are exact thresholds on k. */
  lemma CompletionThresholds(d: Fields)
    ensures CompletionScore(d) >= 80.0 <==> CompletionCount(d) >= 5
    ensures CompletionScore(d) >= 50.0 <==> CompletionCount(d) >= 3
    ensures CompletionScore(d) == 100.0 <==> CompletionCount(d) == 6
    ensures CompletionScore(d) == 0.0 <==> CompletionCount(d) == 0
  {
    var k := CompletionCount(d);
    assert k == 0 || k == 1 || k == 2 || k == 3 || k == 4 || k == 5 || k == 6;
  }

  /** Two records with as many filled fields get the same score, whichever fields those are. */
  lemma ScoreDependsOnlyOnFilledCount(d1: Fields, d2: Fields)
    requires |FilledFields(d1)| == |FilledFields(d2)|
    ensures CompletionScore(d1) == CompletionScore(d2)
  {
    CompletionCountsFilledFields(d1);
    CompletionCountsFilledFields(d2);
  }

  // ---------------------------------------------------------------------------
  // Priority level
  // ---------------------------------------------------------------------------

  /** Completion tier: 3 at 80% or more, 2 at 50% or more, else 1. */
  function CompletionPoints(d: Fields): (p: int)
    ensures p == 3 <==> CompletionCount(d) >= 5
    ensures p == 2 <==> 3 <= CompletionCount(d) < 5
    ensures p == 1 <==> CompletionCount(d) < 3
  {
    CompletionThresholds(d);
    var completion := CompletionScore(d);
    if completion >= 80.0 then 3 else if completion >= 50.0 then 2 else 1
  }

  /** Status tier: 3 for "Qualifié", 2 for "En cours", 1 for anything else. */
  function StatusPoints(status: Cell): (p: int)
    ensures p == 3 <==> status == Str("Qualifié")
    ensures p == 2 <==> status == Str("En cours")
    ensures p == 1 <==> status != Str("Qualifié") && status != Str("En cours")
  {
    assert "Qualifié"[0] != "En cours"[0];
    if status == Str("Qualifié") then 3 else if status == Str("En cours") then 2 else 1
  }

  /** `value[:10]`. */
  function First10(s: string): (r: string)
    ensures |r| <= 10 && |r| <= |s| && r == s[..|r|]
  {
    if |s| <= 10 then s else s[..10]
  }

  /**
   A timestamp that starts with a `%Y-%m-%d` date (`CURRENT_TIMESTAMP` writes
   `YYYY-MM-DD HH:MM:SS`) is read as that date once cut to ten characters,
   while the whole timestamp would not parse: the cut is what makes the
   recency tier work.
   */
  lemma TimestampDateParses(d: Date, time: string)
    requires ValidDate(d)
    ensures ParseDate(First10(IsoString(d) + time)) == Some(d)
    ensures time != "" ==> ParseDate(IsoString(d) + time).None?
  {
    assert (IsoString(d) + time)[..10] == IsoString(d);
    ParseIsoRoundTrip(d);
  }

  /**
   Recency tier: nothing when `updated_at` is absent or empty; 1 when its
   first ten characters do not parse as a date; otherwise 3 within a week,
   2 within thirty days, 1 beyond. `today` is the current day number.
   */
  function RecencyPoints(updatedAt: Cell, today: int): (p: int)
    ensures 0 <= p <= 3
    ensures p == 0 <==> !Truthy(updatedAt)
    ensures Truthy(updatedAt) && ParseDate(First10(updatedAt.text)).None? ==> p == 1
    ensures Truthy(updatedAt) && ParseDate(First10(updatedAt.text)).Some? ==>
              var days := today - DayNumber(ParseDate(First10(updatedAt.text)).value);
              && (p == 3 <==> days <= 7)
              && (p == 2 <==> 7 < days <= 30)
              && (p == 1 <==> 30 < days)
  {
    if !Truthy(updatedAt) then 0
    else match ParseDate(First10(updatedAt.text))
      case None => 1
      case Some(last) =>
        var daysSinceUpdate := today - DayNumber(last);
        if daysSinceUpdate <= 7 then 3 else if daysSinceUpdate <= 30 then 2 else 1
  }

  /** The summed score: at least 1 + 1 + 0, at most 3 + 3 + 3. */
  function PriorityScore(d: Fields, updatedAt: Cell, today: int): (score: int)
    ensures 2 <= score <= 9
  {
    CompletionPoints(d) + StatusPoints(d.status) + RecencyPoints(updatedAt, today)
  }

  /** The step function from the summed score to a level. */
  function LevelOf(score: int): Priority {
    if score >= 8 then Haute else if score >= 6 then Moyenne else Basse
  }

  /** `get_priority_level` of a record whose `updated_at` is `updatedAt`. */
  function PriorityLevel(d: Fields, updatedAt: Cell, today: int): (r: Priority)
    ensures var total := CompletionPoints(d) + StatusPoints(d.status) + RecencyPoints(updatedAt, today);
      && (r == Haute <==> total >= 8)
      && (r == Moyenne <==> 6 <= total < 8)
      && (r == Basse <==> total < 6)
  {
    LevelOf(PriorityScore(d, updatedAt, today))
  }

  /**
   The recency tiers change between 7 and 8 days and between 30 and 31 days
   after the last update.
   */
  lemma RecencyBoundaries(updatedAt: Cell, last: Date)
    requires Truthy(updatedAt) && ParseDate(First10(updatedAt.text)) == Some(last)
    ensures RecencyPoints(updatedAt, DayNumber(last)) == 3
    ensures RecencyPoints(updatedAt, DayNumber(last) + 7) == 3
    ensures RecencyPoints(updatedAt, DayNumber(last) + 8) == 2
    ensures RecencyPoints(updatedAt, DayNumber(last) + 30) == 2
    ensures RecencyPoints(updatedAt, DayNumber(last) + 31) == 1
  {
  }

  /** Tier boundaries are inclusive on their lower end. */
  lemma LevelBoundaries()
    ensures LevelOf(9) == Haute && LevelOf(8) == Haute
    ensures LevelOf(7) == Moyenne && LevelOf(6) == Moyenne
    ensures LevelOf(5) == Basse && LevelOf(3) == Basse
  {
  }

  /** A higher score never gives a lower level. */
  lemma LevelMonotone(a: int, b: int)
    requires a <= b
    ensures LevelOf(a).Rank() <= LevelOf(b).Rank()
  {
  }

  /** Raising any of the three tiers, the others fixed or raised too, never lowers the level. */
  lemma PriorityMonotoneInTiers(d1: Fields, u1: Cell, d2: Fields, u2: Cell, today: int)
    requires CompletionPoints(d1) <= CompletionPoints(d2)
    requires StatusPoints(d1.status) <= StatusPoints(d2.status)
    requires RecencyPoints(u1, today) <= RecencyPoints(u2, today)
    ensures PriorityLevel(d1, u1, today).Rank() <= PriorityLevel(d2, u2, today).Rank()
  {
  }

  /** Filling more MEDDIC fields, status and update date unchanged, never lowers the level. */
  lemma MoreFilledNeverLowersPriority(d1: Fields, d2: Fields, updatedAt: Cell, today: int)
    requires d1.status == d2.status
    requires forall i :: 0 <= i < 6 && Filled(d1.MeddicCells()[i]) ==> Filled(d2.MeddicCells()[i])
    ensures PriorityLevel(d1, updatedAt, today).Rank() <= PriorityLevel(d2, updatedAt, today).Rank()
  {
    CountMonotone(d1.MeddicCells(), d2.MeddicCells(), 6);
  }

  /** A more recent parseable update date never lowers the level. */
  lemma FresherUpdateNeverLowersPriority(d: Fields, u1: Cell, u2: Cell, today: int)
    requires Truthy(u1) && Truthy(u2)
    requires ParseDate(First10(u1.text)).Some? && ParseDate(First10(u2.text)).Some?
    requires DayNumber(ParseDate(First10(u1.text)).value) <= DayNumber(ParseDate(First10(u2.text)).value)
    ensures PriorityLevel(d, u1, today).Rank() <= PriorityLevel(d, u2, today).Rank()
  {
  }

  /** Without an update date the score is at most 6, so the level is never "Haute". */
  lemma NoUpdateNeverHaute(d: Fields, updatedAt: Cell, today: int)
    requires !Truthy(updatedAt)
    ensures PriorityScore(d, updatedAt, today) <= 6
    ensures PriorityLevel(d, updatedAt, today) != Haute
  {
  }

  /** "Haute" needs at least half the fields filled and an open or qualified status. */
  lemma HauteNeedsProgress(d: Fields, updatedAt: Cell, today: int)
    requires PriorityLevel(d, updatedAt, today) == Haute
    ensures CompletionCount(d) >= 3
    ensures d.status == Str("Qualifié") || d.status == Str("En cours")
    ensures Truthy(updatedAt)
  {
  }

  // ---------------------------------------------------------------------------
  // Recommendations
  // ---------------------------------------------------------------------------

  /** The advisories, in the order the rules are evaluated. */
  datatype Advice =
    | CompleteMissing | FinalizeQualification
    | DefineMetrics | IdentifyBuyer | DevelopChampion | MapProcess
    | ProposeDemo | FollowUp
  {
    /** The advisory's text: its symbol, then the wording. */
    function Text(): string {
      [Symbol()] + Wording()
    }

    /** The advisory's text after its opening symbol. */
    function Wording(): string {
      match this
      case CompleteMissing => " Priorité haute: Compléter les informations MEDDIC manquantes"
      case FinalizeQualification => " Finaliser la qualification MEDDIC"
      case DefineMetrics => " Définir des métriques quantifiables avec le client"
      case IdentifyBuyer => " Identifier et qualifier l'Economic Buyer"
      case DevelopChampion => " Développer un Champion interne"
      case MapProcess => "\U{FE0F} Cartographier le processus de décision"
      case ProposeDemo => " Opportunité bien qualifiée - Proposer une démonstration"
      case FollowUp => " Relancer le contact et identifier les blocages"
    }

    /** The symbol the advisory's text opens with. */
    function Symbol(): char {
      match this
      case CompleteMissing => '\U{1F534}'
      case FinalizeQualification => '\U{1F7E1}'
      case DefineMetrics => '\U{1F4CA}'
      case IdentifyBuyer => '\U{1F4B0}'
      case DevelopChampion => '\U{1F91D}'
      case MapProcess => '\U{2699}'
      case ProposeDemo => '\U{2705}'
      case FollowUp => '\U{23F0}'
    }

    /** Position of the advisory's rule in the rule list. */
    function Order(): nat {
      match this
      case CompleteMissing => 0
      case FinalizeQualification => 1
      case DefineMetrics => 2
      case IdentifyBuyer => 3
      case DevelopChampion => 4
      case MapProcess => 5
      case ProposeDemo => 6
      case FollowUp => 7
    }
  }

  /**
   When an advisory's rule fires, stated on k and the fields. Decision
   criteria and identify pain have no rule of their own.
   */
  predicate Fires(d: Fields, a: Advice) {
    var k := CompletionCount(d);
    match a
    case CompleteMissing => k <= 2
    case FinalizeQualification => 3 <= k <= 4
    case DefineMetrics => !Filled(d.metrics)
    case IdentifyBuyer => !Filled(d.economicBuyer)
    case DevelopChampion => !Filled(d.champion)
    case MapProcess => !Filled(d.decisionProcess)
    case ProposeDemo => d.status == Str("En cours") && k >= 5
    case FollowUp => d.status == Str("En attente")
  }

  /** Advisories listed in strictly increasing rule order (hence none twice). */
  predicate InRuleOrder(r: seq<Advice>) {
    forall i, j :: 0 <= i < j < |r| ==> r[i].Order() < r[j].Order()
  }

  /** Every advisory of `r` comes from a rule before rule `n`. */
  predicate Below(r: seq<Advice>, n: nat) {
    forall i :: 0 <= i < |r| ==> r[i].Order() < n
  }

  /** The singleton `[a]` when `fires`, else nothing. */
  function When(fires: bool, a: Advice): (r: seq<Advice>)
    ensures forall b :: b in r <==> fires && b == a
  {
    if fires then [a] else []
  }

  /** Appending the advisory of a later rule keeps the list in rule order. */
  lemma AppendLater(p: seq<Advice>, fires: bool, a: Advice)
    requires InRuleOrder(p) && Below(p, a.Order())
    ensures InRuleOrder(p + When(fires, a)) && Below(p + When(fires, a), a.Order() + 1)
  {
  }

  /** Appending the per-field and status advisories after a completion advisory keeps rule order. */
  lemma RuleChainOrdered(head: seq<Advice>, metrics: bool, buyer: bool, champion: bool, process: bool, demo: bool, followUp: bool)
    requires InRuleOrder(head) && Below(head, 2)
    ensures InRuleOrder(head + When(metrics, DefineMetrics) + When(buyer, IdentifyBuyer)
      + When(champion, DevelopChampion) + When(process, MapProcess)
      + When(demo, ProposeDemo) + When(followUp, FollowUp))
  {
    var p2 := head + When(metrics, DefineMetrics);
    AppendLater(head, metrics, DefineMetrics);
    var p3 := p2 + When(buyer, IdentifyBuyer);
    AppendLater(p2, buyer, IdentifyBuyer);
    var p4 := p3 + When(champion, DevelopChampion);
    AppendLater(p3, champion, DevelopChampion);
    var p5 := p4 + When(process, MapProcess);
    AppendLater(p4, process, MapProcess);
    var p6 := p5 + When(demo, ProposeDemo);
    AppendLater(p5, demo, ProposeDemo);
    AppendLater(p6, followUp, FollowUp);
  }

  /** The completion rule: "complete" below 50%, "finalize" below 80%, nothing from 80% on. */
  function CompletionAdvice(d: Fields): (head: seq<Advice>)
    ensures forall a :: a in head <==> (a == CompleteMissing || a == FinalizeQualification) && Fires(d, a)
    ensures InRuleOrder(head) && Below(head, 2)
  {
    var completionScore := CompletionScore(d);
    CompletionThresholds(d);
    if completionScore < 50.0 then [CompleteMissing]
    else if completionScore < 80.0 then [FinalizeQualification]
    else []
  }

  /**
   The rules of `generate_recommendations`, evaluated in the source's order:
   an advisory is listed exactly when its rule fires, and the advisories
   come in rule order, none twice.
   */
  function Advices(d: Fields): (r: seq<Advice>)
    ensures forall a :: a in r <==> Fires(d, a)
    ensures InRuleOrder(r)
  {
    var head := CompletionAdvice(d);
    var demo := d.status == Str("En cours") && CompletionScore(d) >= 80.0;
    var followUp := d.status == Str("En attente");
    CompletionThresholds(d);
    RuleChainOrdered(head, !Filled(d.metrics), !Filled(d.economicBuyer), !Filled(d.champion),
      !Filled(d.decisionProcess), demo, followUp);
    RuleChainFires(d, head, demo, followUp);
    head
    + When(!Filled(d.metrics), DefineMetrics)
    + When(!Filled(d.economicBuyer), IdentifyBuyer)
    + When(!Filled(d.champion), DevelopChampion)
    + When(!Filled(d.decisionProcess), MapProcess)
    + When(demo, ProposeDemo)
    + When(followUp, FollowUp)
  }

  /** The chain of rules lists an advisory exactly when its rule fires. */
  lemma RuleChainFires(d: Fields, head: seq<Advice>, demo: bool, followUp: bool)
    requires forall a :: a in head <==> (a == CompleteMissing || a == FinalizeQualification) && Fires(d, a)
    requires demo == Fires(d, ProposeDemo) && followUp == Fires(d, FollowUp)
    ensures forall a ::
      a in (head + When(!Filled(d.metrics), DefineMetrics) + When(!Filled(d.economicBuyer), IdentifyBuyer)
            + When(!Filled(d.champion), DevelopChampion) + When(!Filled(d.decisionProcess), MapProcess)
            + When(demo, ProposeDemo) + When(followUp, FollowUp))
      <==> Fires(d, a)
  {
  }




  /** Each advisory opens with its own symbol, so no two advisories share a text. */
  lemma TextInjective(a: Advice, b: Advice)
    ensures a.Text() == b.Text() ==> a == b
  {
    SameHead(a.Symbol(), a.Wording(), b.Symbol(), b.Wording());
    SymbolInjective(a, b);
  }

  /** Texts that are equal open with the same character. */
  lemma SameHead(c: char, w: string, e: char, v: string)
    ensures [c] + w == [e] + v ==> c == e
  {
    if [c] + w == [e] + v {
      assert ([c] + w)[0] == ([e] + v)[0];
    }
  }

  lemma SymbolInjective(a: Advice, b: Advice)
    ensures a.Symbol() == b.Symbol() ==> a == b
  {
  }

  /** The text of some advisory whose rule fires. */
  predicate FiredText(d: Fields, t: string) {
    exists a: Advice :: Fires(d, a) && t == a.Text()
  }

  /**
   `generate_recommendations`: a text is recommended exactly when its
   advisory's rule fires; no text comes twice, and the texts come in rule
   order.
   */
  function Recommendations(d: Fields): (r: seq<string>)
    ensures forall a: Advice :: a.Text() in r <==> Fires(d, a)
    ensures forall i :: 0 <= i < |r| ==> FiredText(d, r[i])
    ensures forall i, j :: 0 <= i < j < |r| ==> r[i] != r[j]
    ensures forall i, j, a: Advice, b: Advice :: 0 <= i < j < |r| && r[i] == a.Text() && r[j] == b.Text() ==> a.Order() < b.Order()
  {
    var advices := Advices(d);
    var r := seq(|advices|, i requires 0 <= i < |advices| => advices[i].Text());
    RecommendationTexts(d, advices, r);
    r
  }

  /** Texts listed position by position from the advisories that fire, in rule order. */
  lemma RecommendationTexts(d: Fields, advices: seq<Advice>, r: seq<string>)
    requires forall a :: a in advices <==> Fires(d, a)
    requires InRuleOrder(advices)
    requires |r| == |advices| && forall i :: 0 <= i < |r| ==> r[i] == advices[i].Text()
    ensures forall a: Advice :: a.Text() in r <==> Fires(d, a)
    ensures forall i :: 0 <= i < |r| ==> FiredText(d, r[i])
    ensures forall i, j :: 0 <= i < j < |r| ==> r[i] != r[j]
    ensures forall i, j, a: Advice, b: Advice :: 0 <= i < j < |r| && r[i] == a.Text() && r[j] == b.Text() ==> a.Order() < b.Order()
  {
    forall a: Advice ensures a.Text() in r <==> a in advices {
      if a.Text() in r {
        var i :| 0 <= i < |r| && r[i] == a.Text();
        TextInjective(a, advices[i]);
      }
    }
    forall i, j, a: Advice, b: Advice | 0 <= i < j < |r| && r[i] == a.Text() && r[j] == b.Text()
      ensures a.Order() < b.Order()
    {
      TextInjective(a, advices[i]);
      TextInjective(b, advices[j]);
    }
    forall i | 0 <= i < |r| ensures FiredText(d, r[i]) {
      var a := advices[i];
      assert a in advices;
      assert Fires(d, a) && r[i] == a.Text();
    }
  }

  /** At most six advisories, and the demonstration advice never accompanies a completion advisory. */
  lemma AdvicesBounded(d: Fields)
    ensures |Advices(d)| <= 6
    ensures ProposeDemo in Advices(d) ==> CompleteMissing !in Advices(d) && FinalizeQualification !in Advices(d)
  {
  }

  /** The demonstration advisory appears exactly for open opportunities with at least five fields filled. */
  lemma DemoAdviceIff(d: Fields)
    ensures ProposeDemo in Advices(d) <==> d.status == Str("En cours") && CompletionCount(d) >= 5
  {
  }

  /** A completion advisory is given exactly when at most four fields are filled, and then it comes first. */
  lemma CompletionAdviceFirst(d: Fields)
    ensures CompletionCount(d) <= 4 <==> |Advices(d)| > 0 && Advices(d)[0] in {CompleteMissing, FinalizeQualification}
  {
    var r := Advices(d);
    if CompletionCount(d) <= 4 {
      var a := if CompletionCount(d) <= 2 then CompleteMissing else FinalizeQualification;
      assert Fires(d, a);
      var i :| 0 <= i < |r| && r[i] == a;
      assert r[0].Order() <= r[i].Order();
    } else if |r| > 0 {
      assert Fires(d, r[0]);
    }
  }

  // ---------------------------------------------------------------------------
  // Validation
  // ---------------------------------------------------------------------------

  datatype ValidationError = Required(field: string) | BadMeetingDate | BadStatus(status: string)

  /** A non-empty meeting date that is not `%Y-%m-%d`. */
  predicate BadDate(c: Cell) {
    Truthy(c) && ParseDate(c.text).None?
  }

  /** A non-empty status outside the enumeration. */
  predicate UnknownStatus(c: Cell) {
    Truthy(c) && c.text !in MeddicStatus
  }

  /** The condition on the record that justifies error `e`. */
  predicate Explains(d: Fields, e: ValidationError) {
    match e
    case Required(f) =>
      (f == "client_name" && !Filled(d.clientName)) || (f == "company" && !Filled(d.company))
    case BadMeetingDate => BadDate(d.meetingDate)
    case BadStatus(s) => UnknownStatus(d.status) && s == d.status.text
  }

  /** Position of an error's check in the validation order. */
  function CheckOrder(e: ValidationError): nat {
    match e
    case Required(f) => if f == "client_name" then 0 else 1
    case BadMeetingDate => 2
    case BadStatus(_) => 3
  }

  /**
   `validate_fiche_data`: `(ok, errors)`. `ok` holds exactly when there is no
   error; every error is justified by the record, every failed check produces
   its error, and errors come in check order (names, date, status), each once.
   */
  function Validate(d: Fields): (r: (bool, seq<ValidationError>))
    ensures r.0 <==> |r.1| == 0
    ensures forall e :: e in r.1 ==> Explains(d, e)
    ensures !Filled(d.clientName) ==> Required("client_name") in r.1
    ensures !Filled(d.company) ==> Required("company") in r.1
    ensures BadDate(d.meetingDate) ==> BadMeetingDate in r.1
    ensures UnknownStatus(d.status) ==> BadStatus(d.status.text) in r.1
    ensures forall i, j :: 0 <= i < j < |r.1| ==> CheckOrder(r.1[i]) < CheckOrder(r.1[j])
  {
    var errors :=
      (if !Filled(d.clientName) then [Required("client_name")] else [])
      + (if !Filled(d.company) then [Required("company")] else [])
      + (if Truthy(d.meetingDate) && ParseDate(d.meetingDate.text).None? then [BadMeetingDate] else [])
      + (if Truthy(d.status) && d.status.text !in MeddicStatus then [BadStatus(d.status.text)] else []);
    (|errors| == 0, errors)
  }

  /** A record passes validation exactly when none of the checks fails. */
  lemma ValidIff(d: Fields)
    ensures Validate(d).0 <==>
      Filled(d.clientName) && Filled(d.company) && !BadDate(d.meetingDate) && !UnknownStatus(d.status)
  {
    var r := Validate(d);
    if !r.0 {
      assert r.1[0] in r.1;
      assert Explains(d, r.1[0]);
    }
  }

  // ---------------------------------------------------------------------------
  // Search
  // ---------------------------------------------------------------------------

  /** A string column whose lower-cased text contains `needle`. */
  predicate CellContains(c: Cell, needle: string) {
    c.Str? && Contains(Lower(c.text), needle)
  }

  /** Some searched column of the row contains `needle`. */
  predicate RowMatches(d: Fields, needle: string) {
    exists c :: c in d.SearchCells() && CellContains(c, needle)
  }

  /** The rows that match, in their original order. */
  function KeepMatching(rows: seq<Row>, needle: string): (r: seq<Row>)
    ensures IsSubsequence(r, rows)
    ensures forall x :: x in r ==> RowMatches(x.data, needle)
    ensures forall x: Row :: RowMatches(x.data, needle) ==> multiset(r)[x] == multiset(rows)[x]
  {
    if |rows| == 0 then []
    else
      var rest := KeepMatching(rows[1..], needle);
      assert rows == [rows[0]] + rows[1..];
      if RowMatches(rows[0].data, needle) then [rows[0]] + rest else rest
  }

  /**
   `search_fiches`: an empty or absent term returns the rows unchanged;
   otherwise exactly the rows (with their multiplicity, in their order) where
   one of the ten text columns, lower-cased, contains the lower-cased term.
   */
  function Search(rows: seq<Row>, term: Option<string>): (r: seq<Row>)
    ensures term.None? || term.value == "" ==> r == rows
    ensures IsSubsequence(r, rows)
    ensures term.Some? && term.value != "" ==> forall x :: x in r ==> RowMatches(x.data, Lower(term.value))
    ensures term.Some? && term.value != "" ==>
      forall x: Row :: RowMatches(x.data, Lower(term.value)) ==> multiset(r)[x] == multiset(rows)[x]
  {
    if term.None? || term.value == "" then
      SubsequenceReflexive(rows);
      rows
    else
      KeepMatching(rows, Lower(term.value))
  }

  lemma {:induction false} SubsequenceReflexive(xs: seq<Row>)
    ensures IsSubsequence(xs, xs)
    decreases |xs|
  {
    if |xs| > 0 {
      SubsequenceReflexive(xs[1..]);
    }
  }

  /** The search ignores case: a term and its lower-cased form select the same rows. */
  lemma SearchIgnoresCase(rows: seq<Row>, term: string)
    ensures Search(rows, Some(term)) == Search(rows, Some(Lower(term)))
  {
    LowerIdempotent(term);
  }

  // ---------------------------------------------------------------------------
  // Display helpers
  // ---------------------------------------------------------------------------

  /** `get_status_color`: the status's colour, grey for anything not in the enumeration. */
  function StatusColor(status: Cell): (r: string)
    ensures status.Str? && status.text in MeddicStatus ==> r == StatusColors[status.text]
    ensures r == Grey <==> !(status.Str? && status.text in MeddicStatus)
  {
    if status.Str? && status.text in StatusColors then StatusColors[status.text] else Grey
  }

  const PriorityColors: map<string, string> := map["Haute" := "#FF4B4B", "Moyenne" := "#FFA500", "Basse" := "#00D4AA"]

  /** `get_priority_color`: grey unless the value names one of the three levels. */
  function PriorityColor(priority: Cell): (r: string)
    ensures r == Grey <==> !(exists p: Priority :: priority == Str(p.Name()))
    ensures priority == Str(Haute.Name()) ==> r == "#FF4B4B"
    ensures priority == Str(Moyenne.Name()) ==> r == "#FFA500"
    ensures priority == Str(Basse.Name()) ==> r == "#00D4AA"
  {
    if priority.Str? && priority.text in PriorityColors then
      assert priority.text == Haute.Name() || priority.text == Moyenne.Name() || priority.text == Basse.Name();
      PriorityColors[priority.text]
    else
      assert forall p: Priority :: p.Name() in PriorityColors;
      Grey
  }

  /**
   `format_date`: a string that parses as `%Y-%m-%d` is rendered `%d/%m/%Y`;
   anything else (another string, `None`, an absent value) is returned as is.
   */
  function FormatDate(c: Cell): (r: Cell)
    ensures !(c.Str? && ParseDate(c.text).Some?) ==> r == c
    ensures c.Str? && ParseDate(c.text).Some? ==> r.Str? && |r.text| == 10
  {
    if c.Str? then
      match ParseDate(c.text)
      case Some(d) => Str(DayFirst(d))
      case None => c
    else c
  }

  /** Any text that spells a real date, padded or not, is rendered as that date in `%d/%m/%Y`. */
  lemma FormatDateReads(c: Cell, date: Date)
    requires c.Str? && ReadsAs(c.text, date) && ValidDate(date)
    ensures FormatDate(c) == Str(DayFirst(date))
  {
    ParseDateIff(c.text, date);
  }

  /** A canonical `YYYY-MM-DD` date becomes `DD/MM/YYYY`, the same digits rearranged. */
  lemma FormatDateRearranges(d: Date)
    requires ValidDate(d)
    ensures var s := IsoString(d); FormatDate(Str(s)) == Str(s[8..10] + "/" + s[5..7] + "/" + s[..4])
  {
    ParseIsoRoundTrip(d);
    DayFirstRearrangesIso(d);
  }

  /** Formatting twice is formatting once: a formatted date no longer parses. */
  lemma FormatDateIdempotent(c: Cell)
    ensures FormatDate(FormatDate(c)) == FormatDate(c)
  {
    var r := FormatDate(c);
    if r != c {
      var s := r.text;
      assert s[2] == '/';
      assert !AllDigits(s[..4]) by {
        assert s[..4][2] == '/';
      }
    }
  }
}
