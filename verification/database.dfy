/**
 The record store (`MEDDICDatabase`) as a state machine: the table of
 records keyed by identifier, the next identifier `AUTOINCREMENT` hands out,
 and the append-only audit log. Each operation is a pure transition; the
 clock (`CURRENT_TIMESTAMP` and the current day) is a parameter.
 */
module Database {
  import opened Strings
  import opened Config
  import opened Records
  import opened Utils

  /** What the store holds: the rows by identifier, the next identifier, the audit log. */
  datatype Store = Store(rows: map<int, Row>, nextId: int, audit: seq<AuditEntry>)

  /** A clock reading: the timestamp stamped on rows and audit entries, and the current day number. */
  datatype Clock = Clock(stamp: int, today: int)

  /** Every stored row sits under its own identifier, below the next identifier, and passed validation. */
  predicate Valid(s: Store) {
    && s.nextId >= 1
    && forall id :: id in s.rows ==>
         && 1 <= id < s.nextId
         && s.rows[id].id == id
         && Validate(s.rows[id].data).0
         && Complete(s.rows[id].data)
  }

  /** The store of a freshly created database. */
  const Empty := Store(map[], 1, [])

  lemma EmptyValid()
    ensures Valid(Empty) && |Empty.rows| == 0 && Empty.audit == []
  {
  }

  // ---------------------------------------------------------------------------
  // Saving
  // ---------------------------------------------------------------------------

  /** The twelve data columns in the order the INSERT and UPDATE statements read them. */
  function Columns(d: Fields): (cs: seq<(string, Cell)>)
    ensures |cs| == 12
  {
    [("client_name", d.clientName), ("company", d.company),
     ("meeting_date", d.meetingDate), ("commercial", d.commercial),
     ("metrics", d.metrics), ("economic_buyer", d.economicBuyer),
     ("decision_criteria", d.decisionCriteria), ("decision_process", d.decisionProcess),
     ("identify_pain", d.identifyPain), ("champion", d.champion),
     ("status", d.status), ("notes", d.notes)]
  }

  /** Every column is present in the record (possibly as `None`). */
  predicate Complete(d: Fields) {
    && !d.clientName.Missing? && !d.company.Missing? && !d.meetingDate.Missing?
    && !d.commercial.Missing? && !d.metrics.Missing? && !d.economicBuyer.Missing?
    && !d.decisionCriteria.Missing? && !d.decisionProcess.Missing? && !d.identifyPain.Missing?
    && !d.champion.Missing? && !d.status.Missing? && !d.notes.Missing?
  }

  /** A `KeyError` is raised exactly for records with an absent column. */
  lemma CompleteIffNoKeyError(d: Fields)
    ensures Complete(d) <==> FirstMissing(Columns(d)).None?
  {
    var cs := Columns(d);
    assert Complete(d) <==> forall i :: 0 <= i < 12 ==> !cs[i].1.Missing? by {
      if !Complete(d) {
        assert cs[0].1 == d.clientName && cs[1].1 == d.company && cs[2].1 == d.meetingDate;
        assert cs[3].1 == d.commercial && cs[4].1 == d.metrics && cs[5].1 == d.economicBuyer;
        assert cs[6].1 == d.decisionCriteria && cs[7].1 == d.decisionProcess && cs[8].1 == d.identifyPain;
        assert cs[9].1 == d.champion && cs[10].1 == d.status && cs[11].1 == d.notes;
      }
    }
  }

  /** The first absent column, the key whose lookup raises `KeyError`. */
  function FirstMissing(cols: seq<(string, Cell)>): (r: Option<string>)
    ensures r.None? <==> forall i :: 0 <= i < |cols| ==> !cols[i].1.Missing?
    ensures r.Some? ==> exists i :: 0 <= i < |cols| && cols[i] == (r.value, Missing)
  {
    if |cols| == 0 then None
    else if cols[0].1.Missing? then Some(cols[0].0)
    else
      assert forall i :: 1 <= i < |cols| ==> cols[i] == cols[1..][i - 1];
      FirstMissing(cols[1..])
  }

  /** The key reported is the first absent one: every column before it is present. */
  lemma {:induction false} FirstMissingIsFirst(cols: seq<(string, Cell)>)
    requires FirstMissing(cols).Some?
    ensures exists i :: 0 <= i < |cols| && cols[i] == (FirstMissing(cols).value, Missing)
                        && (forall j :: 0 <= j < i ==> !cols[j].1.Missing?)
  {
    if !cols[0].1.Missing? {
      var tail := cols[1..];
      FirstMissingIsFirst(tail);
      var i :| 0 <= i < |tail| && tail[i] == (FirstMissing(tail).value, Missing)
        && forall j :: 0 <= j < i ==> !tail[j].1.Missing?;
      assert cols[i + 1] == tail[i];
      assert forall j :: 1 <= j < i + 1 ==> cols[j] == tail[j - 1];
    } else {
      assert cols[0] == (FirstMissing(cols).value, Missing);
    }
  }

  /** Why a save wrote nothing. */
  datatype SaveError =
    | Invalid(errors: seq<ValidationError>)  // `ValueError` from validation
    | MissingKey(key: string)                // `KeyError` while binding the statement

  /** The outcome of a save: the identifier written to, or the error raised. */
  datatype SaveResult = Saved(id: int) | Failed(error: SaveError)

  /** The audit log after an action, when the audit trail is switched on. */
  function Log(audit: seq<AuditEntry>, id: int, action: Action, clock: Clock): (r: seq<AuditEntry>)
    ensures AuditTrailEnabled ==> r == audit + [AuditEntry(id, action, clock.stamp)]
    ensures !AuditTrailEnabled ==> r == audit
  {
    if AuditTrailEnabled then audit + [AuditEntry(id, action, clock.stamp)] else audit
  }

  /**
   `save_fiche`: validate, compute the priority, then update the row named by
   a truthy identifier or insert a new row under the next identifier, logging
   the action. A failed validation or an absent column writes nothing.
   */
  function SaveFiche(s: Store, f: Fiche, clock: Clock): (out: (Store, SaveResult))
    requires Valid(s)
    ensures Valid(out.0)
    ensures out.1.Failed? ==> out.0 == s
    ensures out.1.Failed? <==> !Validate(f.data).0 || !Complete(f.data)
    ensures out.1 == Failed(Invalid(Validate(f.data).1)) <==> !Validate(f.data).0
    ensures Validate(f.data).0 && !Complete(f.data) ==>
              FirstMissing(Columns(f.data)).Some? && out.1 == Failed(MissingKey(FirstMissing(Columns(f.data)).value))
    ensures out.1.Saved? ==>
              && |out.0.audit| == |s.audit| + 1
              && out.0.audit[..|s.audit|] == s.audit
              && out.0.audit[|s.audit|] == AuditEntry(out.1.id, if HasId(f) then Update else Create, clock.stamp)
  {
    var (ok, errors) := Validate(f.data);
    CompleteIffNoKeyError(f.data);
    if !ok then (s, Failed(Invalid(errors)))
    else
      var priority := PriorityLevel(f.data, f.updatedAt, clock.today);
      match FirstMissing(Columns(f.data))
      case Some(key) => (s, Failed(MissingKey(key)))
      case None =>
        if HasId(f) then
          var id := f.id.value;
          var rows :=
            if id in s.rows then
              s.rows[id := s.rows[id].(data := f.data, priority := priority, updatedAt := clock.stamp)]
            else s.rows;
          (Store(rows, s.nextId, Log(s.audit, id, Update, clock)), Saved(id))
        else
          var id := s.nextId;
          var row := Row(id, f.data, priority, clock.stamp, clock.stamp);
          (Store(s.rows[id := row], s.nextId + 1, Log(s.audit, id, Create, clock)), Saved(id))
  }

  /**
   A successful creation adds exactly one row, under a fresh identifier,
   holding the given columns, the computed priority and the clock's
   timestamp; every other row is kept.
   */
  lemma CreateAddsOneRow(s: Store, f: Fiche, clock: Clock)
    requires Valid(s) && !HasId(f)
    requires SaveFiche(s, f, clock).1.Saved?
    ensures var (t, r) := SaveFiche(s, f, clock);
      && r.id !in s.rows
      && t.rows.Keys == s.rows.Keys + {r.id}
      && t.rows[r.id] == Row(r.id, f.data, PriorityLevel(f.data, f.updatedAt, clock.today), clock.stamp, clock.stamp)
      && (forall id :: id in s.rows ==> t.rows[id] == s.rows[id])
  {
  }

  /**
   A successful update rewrites the data columns, the priority and the
   update time of the named row only; its identifier and creation time stay,
   and so does every other row. An identifier no row has changes no row.
   */
  lemma UpdateTouchesOnlyItsRow(s: Store, f: Fiche, clock: Clock)
    requires Valid(s) && HasId(f)
    requires SaveFiche(s, f, clock).1.Saved?
    ensures var (t, r) := SaveFiche(s, f, clock);
      && r.id == f.id.value
      && t.rows.Keys == s.rows.Keys
      && t.nextId == s.nextId
      && (forall id :: id in s.rows && id != r.id ==> t.rows[id] == s.rows[id])
      && (r.id in s.rows ==>
            var old_ := s.rows[r.id];
            t.rows[r.id] == Row(r.id, f.data, PriorityLevel(f.data, f.updatedAt, clock.today), old_.createdAt, clock.stamp))
  {
  }

  /** The stored priority is computed from the record; whatever priority the caller supplied is ignored. */
  lemma PriorityIsRecomputed(s: Store, f: Fiche, p: Cell, clock: Clock)
    requires Valid(s)
    ensures SaveFiche(s, f.(priority := p), clock) == SaveFiche(s, f, clock)
    ensures var (t, r) := SaveFiche(s, f, clock);
      r.Saved? && r.id in t.rows ==> t.rows[r.id].priority == PriorityLevel(f.data, f.updatedAt, clock.today)
  {
  }

  // ---------------------------------------------------------------------------
  // Deleting and reading back
  // ---------------------------------------------------------------------------

  /** `delete_fiche`: log the deletion, then remove the row if there is one. */
  function DeleteFiche(s: Store, id: int, clock: Clock): (t: Store)
    requires Valid(s)
    ensures Valid(t)
    ensures t.rows.Keys == s.rows.Keys - {id}
    ensures forall k :: k in t.rows ==> t.rows[k] == s.rows[k]
    ensures t.nextId == s.nextId
    ensures AuditTrailEnabled ==> t.audit == s.audit + [AuditEntry(id, Action.Delete, clock.stamp)]
  {
    Store(s.rows - {id}, s.nextId, Log(s.audit, id, Action.Delete, clock))
  }

  /** `get_fiche_by_id`: the row under `id`, if any. */
  function GetFicheById(s: Store, id: int): (r: Option<Row>)
    ensures r.Some? <==> id in s.rows
    ensures r.Some? ==> r.value == s.rows[id]
  {
    if id in s.rows then Some(s.rows[id]) else None
  }

  /** Reading back a saved record gives the saved columns and the computed priority. */
  lemma SaveThenGet(s: Store, f: Fiche, clock: Clock)
    requires Valid(s)
    requires SaveFiche(s, f, clock).1.Saved?
    requires !HasId(f) || f.id.value in s.rows
    ensures var (t, r) := SaveFiche(s, f, clock);
      && GetFicheById(t, r.id).Some?
      && GetFicheById(t, r.id).value.data == f.data
      && GetFicheById(t, r.id).value.priority == PriorityLevel(f.data, f.updatedAt, clock.today)
      && GetFicheById(t, r.id).value.updatedAt == clock.stamp
  {
  }

  /** A deleted record can no longer be read; deleting an unknown identifier changes no row but is still logged. */
  lemma DeleteThenGet(s: Store, id: int, clock: Clock)
    requires Valid(s)
    ensures GetFicheById(DeleteFiche(s, id, clock), id).None?
    ensures id !in s.rows ==> DeleteFiche(s, id, clock).rows == s.rows
    ensures |DeleteFiche(s, id, clock).audit| == |s.audit| + 1
  {
    var t := DeleteFiche(s, id, clock);
    if id !in s.rows {
      assert t.rows.Keys == s.rows.Keys;
    }
  }

  /**
   Saves never shrink the audit log and keep its existing entries; with the
   shipped configuration every delete appends exactly one entry.
   */
  lemma AuditLogOnlyGrows(s: Store, f: Fiche, id: int, clock: Clock)
    requires Valid(s)
    ensures var t := SaveFiche(s, f, clock).0; |t.audit| >= |s.audit| && t.audit[..|s.audit|] == s.audit
    ensures var t := DeleteFiche(s, id, clock); |t.audit| == |s.audit| + 1 && t.audit[..|s.audit|] == s.audit
  {
    assert AuditTrailEnabled;
  }

  // ---------------------------------------------------------------------------
  // Listing and searching
  // ---------------------------------------------------------------------------

  /** Each row is filed under its own identifier. */
  predicate KeyedById(rows: map<int, Row>) {
    forall id :: id in rows ==> rows[id].id == id
  }

  predicate IdsIncreasing(r: seq<Row>) {
    forall i, j :: 0 <= i < j < |r| ==> r[i].id < r[j].id
  }

  /** The table scan in identifier order: the rows with identifiers in `[lo, hi)`. */
  function Scan(rows: map<int, Row>, lo: int, hi: int): (r: seq<Row>)
    requires KeyedById(rows)
    ensures forall x :: x in r <==> x.id in rows && rows[x.id] == x && lo <= x.id < hi
    ensures IdsIncreasing(r)
    decreases hi - lo
  {
    if lo >= hi then []
    else
      var rest := Scan(rows, lo + 1, hi);
      if lo in rows then [rows[lo]] + rest else rest
  }

  /** Rows in non-increasing order of update time. */
  predicate NewestFirst(r: seq<Row>) {
    forall i, j :: 0 <= i < j < |r| ==> r[i].updatedAt >= r[j].updatedAt
  }

  /** Putting a row no older than the head in front keeps the order. */
  lemma ConsNewestFirst(a: Row, r: seq<Row>)
    requires NewestFirst(r) && (|r| == 0 || r[0].updatedAt <= a.updatedAt)
    ensures NewestFirst([a] + r)
  {
    forall i, j | 0 <= i < j < |[a] + r| ensures ([a] + r)[i].updatedAt >= ([a] + r)[j].updatedAt {
      if i == 0 {
        assert ([a] + r)[j] == r[j - 1];
      } else {
        assert ([a] + r)[i] == r[i - 1] && ([a] + r)[j] == r[j - 1];
      }
    }
  }

  /** Inserts `x` before the first row updated no later than it. */
  function InsertByUpdate(x: Row, r: seq<Row>): (t: seq<Row>)
    requires NewestFirst(r)
    ensures NewestFirst(t)
    ensures multiset(t) == multiset(r) + multiset{x}
    ensures |t| > 0 && (t[0] == x || (|r| > 0 && t[0] == r[0]))
  {
    if |r| == 0 || r[0].updatedAt <= x.updatedAt then
      ConsNewestFirst(x, r);
      [x] + r
    else
      var tail := r[1..];
      assert NewestFirst(tail) by {
        forall i, j | 0 <= i < j < |tail| ensures tail[i].updatedAt >= tail[j].updatedAt {
          assert tail[i] == r[i + 1] && tail[j] == r[j + 1];
        }
      }
      var rest := InsertByUpdate(x, tail);
      ConsNewestFirst(r[0], rest);
      assert r == [r[0]] + tail;
      [r[0]] + rest
  }

  /** `ORDER BY updated_at DESC`: a stable insertion sort, rows updated at the same time keep their scan order. */
  function SortNewestFirst(r: seq<Row>): (t: seq<Row>)
    ensures NewestFirst(t)
    ensures multiset(t) == multiset(r)
  {
    if |r| == 0 then []
    else
      assert r == [r[0]] + r[1..];
      InsertByUpdate(r[0], SortNewestFirst(r[1..]))
  }

  /** The rows `get_all_fiches` returns, with the derived columns when statistics are requested. */
  datatype Listing = Listing(rows: seq<Row>, stats: Option<seq<RowStats>>)

  /** Derived columns: completion percentage and the formatted meeting date. */
  datatype RowStats = RowStats(completionScore: real, formattedDate: Cell)

  /** Every stored row, each once, newest update first. */
  function Listed(s: Store): (r: seq<Row>)
    requires Valid(s)
    ensures forall x :: x in r <==> x.id in s.rows && s.rows[x.id] == x
    ensures forall i, j :: 0 <= i < j < |r| ==> r[i].id != r[j].id
    ensures NewestFirst(r)
  {
    var scanned := Scan(s.rows, 1, s.nextId);
    var rows := SortNewestFirst(scanned);
    SameElements(scanned, rows);
    SortedKeepsDistinctIds(scanned, rows);
    rows
  }

  /** Two lists with the same multiset have the same members. */
  lemma SameElements(a: seq<Row>, b: seq<Row>)
    requires multiset(a) == multiset(b)
    ensures forall x :: x in a <==> x in b
  {
    forall x ensures x in a <==> x in b {
      assert x in a <==> x in multiset(a);
      assert x in b <==> x in multiset(b);
    }
  }

  /** `get_all_fiches(include_stats)`. */
  function GetAllFiches(s: Store, includeStats: bool): (l: Listing)
    requires Valid(s)
    ensures forall x :: x in l.rows <==> x.id in s.rows && s.rows[x.id] == x
    ensures forall i, j :: 0 <= i < j < |l.rows| ==> l.rows[i].id != l.rows[j].id
    ensures NewestFirst(l.rows)
    ensures l.stats.Some? <==> includeStats && |l.rows| > 0
    ensures l.stats.Some? ==>
              && |l.stats.value| == |l.rows|
              && forall i :: 0 <= i < |l.rows| ==>
                   l.stats.value[i] == RowStats(CompletionScore(l.rows[i].data), FormatDate(l.rows[i].data.meetingDate))
  {
    var rows := Listed(s);
    if includeStats && |rows| > 0 then
      Listing(rows, Some(seq(|rows|, i requires 0 <= i < |rows| =>
        RowStats(CompletionScore(rows[i].data), FormatDate(rows[i].data.meetingDate)))))
    else Listing(rows, None)
  }

  /** A permutation of rows with pairwise distinct identifiers has pairwise distinct identifiers. */
  lemma SortedKeepsDistinctIds(a: seq<Row>, b: seq<Row>)
    requires IdsIncreasing(a) && multiset(a) == multiset(b)
    ensures forall i, j :: 0 <= i < j < |b| ==> b[i].id != b[j].id
  {
    forall i, j | 0 <= i < j < |b| ensures b[i].id != b[j].id {
      if b[i].id == b[j].id {
        assert b[i] in multiset(a) && b[j] in multiset(a);
        var p :| 0 <= p < |a| && a[p] == b[i];
        var q :| 0 <= q < |a| && a[q] == b[j];
        assert p == q;
        OnceInIncreasing(a, p);
        TwiceInSeq(b, i, j);
        assert false;
      }
    }
  }

  /** An element at two positions occurs at least twice. */
  lemma TwiceInSeq(b: seq<Row>, i: int, j: int)
    requires 0 <= i < j < |b| && b[i] == b[j]
    ensures multiset(b)[b[i]] >= 2
  {
    assert b == b[..i] + [b[i]] + b[i + 1..j] + [b[j]] + b[j + 1..];
  }

  /** In a list with increasing identifiers every row occurs once. */
  lemma {:induction false} OnceInIncreasing(a: seq<Row>, p: int)
    requires IdsIncreasing(a) && 0 <= p < |a|
    ensures multiset(a)[a[p]] == 1
  {
    assert a == a[..p] + [a[p]] + a[p + 1..];
    assert a[p] !in a[..p] && a[p] !in a[p + 1..];
    assert multiset(a[..p])[a[p]] == 0 && multiset(a[p + 1..])[a[p]] == 0;
  }

  /** Asking for statistics adds columns and never changes which rows come back, nor their order. */
  lemma StatsKeepRows(s: Store)
    requires Valid(s)
    ensures GetAllFiches(s, true).rows == GetAllFiches(s, false).rows
    ensures GetAllFiches(s, false).stats.None?
  {
  }

  /** `MEDDICDatabase.search_fiches`: the listing, filtered by the search. */
  function SearchFiches(s: Store, term: Option<string>): (r: seq<Row>)
    requires Valid(s)
    ensures IsSubsequence(r, GetAllFiches(s, false).rows)
    ensures term.None? || term.value == "" ==> r == GetAllFiches(s, false).rows
    ensures forall x :: x in r ==> x.id in s.rows && s.rows[x.id] == x
  {
    var all := GetAllFiches(s, false).rows;
    var r := Search(all, term);
    SubsequenceMembers(r, all);
    r
  }

  /**
   A non-empty term finds exactly the stored records in which one of the ten
   text columns, lower-cased, contains the lower-cased term.
   */
  lemma SearchFichesIff(s: Store, term: string)
    requires Valid(s) && term != ""
    ensures forall x :: x in SearchFiches(s, Some(term)) <==>
      x.id in s.rows && s.rows[x.id] == x && RowMatches(x.data, Lower(term))
  {
    var all := GetAllFiches(s, false).rows;
    var r := SearchFiches(s, Some(term));
    forall x: Row | x.id in s.rows && s.rows[x.id] == x && RowMatches(x.data, Lower(term))
      ensures x in r
    {
      assert x in multiset(all);
      assert multiset(r)[x] == multiset(all)[x];
    }
  }

  lemma {:induction false} SubsequenceMembers(a: seq<Row>, b: seq<Row>)
    requires IsSubsequence(a, b)
    ensures forall x :: x in a ==> x in b
    decreases |b|
  {
    if |a| > 0 && |b| > 0 {
      assert a == [a[0]] + a[1..] && b == [b[0]] + b[1..];
      if a[0] == b[0] {
        SubsequenceMembers(a[1..], b[1..]);
      } else {
        SubsequenceMembers(a, b[1..]);
      }
    }
  }
}
