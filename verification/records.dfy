/**
 The data model: a record ("fiche") as the program passes it around — a
 dictionary from column names to values — and as the store keeps it.
 */
module Records {
  import opened Strings

  /**
   The value a record dictionary holds under one key: the key may be absent,
   hold `None` (SQL NULL), or hold a string.
   */
  datatype Cell = Missing | Null | Str(text: string)

  /** Python truthiness of the value: a non-empty string. */
  predicate Truthy(c: Cell) {
    c.Str? && c.text != ""
  }

  /** A string value with a character that is not whitespace. */
  predicate Filled(c: Cell) {
    c.Str? && !AllSpace(c.text)
  }

  /**
   Filled is exactly the test `value and str(value).strip()`: a truthy
   string that stripping does not empty.
   */
  lemma FilledIsStripTest(c: Cell)
    ensures Filled(c) <==> Truthy(c) && Strip(c.text) != ""
  {
  }

  /** The twelve data columns a save writes, under their column names. */
  datatype Fields = Fields(
    clientName: Cell,
    company: Cell,
    meetingDate: Cell,
    commercial: Cell,
    metrics: Cell,
    economicBuyer: Cell,
    decisionCriteria: Cell,
    decisionProcess: Cell,
    identifyPain: Cell,
    champion: Cell,
    status: Cell,
    notes: Cell)
  {
    /** The six MEDDIC fields, in the order of the required-field list. */
    function MeddicCells(): (cs: seq<Cell>)
      ensures |cs| == 6
    {
      [metrics, economicBuyer, decisionCriteria, decisionProcess, identifyPain, champion]
    }

    /** The ten text columns the search looks into, in the order it visits them. */
    function SearchCells(): (cs: seq<Cell>)
      ensures |cs| == 10
    {
      [company, clientName, commercial, metrics, economicBuyer,
       decisionCriteria, decisionProcess, identifyPain, champion, notes]
    }
  }

  /**
   A record submitted for saving: an identifier when it is an edit, the data
   columns, and whatever `priority` and `updated_at` the caller left in it.
   */
  datatype Fiche = Fiche(id: Option<int>, data: Fields, priority: Cell, updatedAt: Cell)

  /** Python truthiness of the identifier: present and non-zero. */
  predicate HasId(f: Fiche) {
    f.id.Some? && f.id.value != 0
  }

  datatype Priority = Haute | Moyenne | Basse {
    /** The text stored in the `priority` column. */
    function Name(): string {
      match this
      case Haute => "Haute"
      case Moyenne => "Moyenne"
      case Basse => "Basse"
    }

    /** Urgency order: Basse < Moyenne < Haute. */
    function Rank(): nat {
      match this
      case Haute => 2
      case Moyenne => 1
      case Basse => 0
    }
  }

  /**
   A stored row: its identifier, the data columns, the priority computed at
   save time, and creation and update timestamps (clock readings).
   */
  datatype Row = Row(id: int, data: Fields, priority: Priority, createdAt: int, updatedAt: int)

  datatype Action = Create | Update | Delete

  /** One audit-log line: which record, what happened, when. */
  datatype AuditEntry = AuditEntry(ficheId: int, action: Action, timestamp: int)
}
