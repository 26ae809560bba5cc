# MEDDIC helper: a Dafny model of the qualification core

MEDDIC helper is a small sales-qualification CRM. A salesperson records one
"fiche" per prospect:
- the client, company, meeting date, salesperson and notes;
- the six MEDDIC fields: Metrics, Economic Buyer, Decision Criteria,
  Decision Process, Identify Pain and Champion;
- a status taken from a fixed list.

The application scores each fiche, ranks it as "Haute", "Moyenne" or
"Basse" priority, and suggests next steps. It stores fiches in a table with
an audit log and exports them as PDF.

This project models that core as pure Dafny functions over immutable data
and proves what the code promises about them:

- `config.dfy` (`Config`): the status list, the status colours, the six
  required MEDDIC fields and the audit-trail switch.
- `records.dfy` (`Records`): a fiche's columns as dictionary values.
  - `Missing` is an absent key, `Null` is `None`, and `Str` is a text.
  - "filled" is the engine's test: truthy and non-blank after `strip()`.
  - Also defined here: the stored row and the audit entry.
- `utils.dfy` (`Utils`): the scoring and qualification engine.
  - completion score; the three-tier priority; recommendations;
  - validation; case-insensitive search; status and priority colours;
  - `format_date`.
- `database.dfy` (`Database`): `MEDDICDatabase` as a state machine over a
  map of rows, the next `AUTOINCREMENT` identifier and an append-only audit
  log.
  - The operations are save, delete, get by id, list newest first, and
    search.
  - The clock (`CURRENT_TIMESTAMP` and today's date) is a parameter.
- `form.dfy` (`Form`): the entry form's preselected status and the record it
  builds from the widgets before saving.
- `pdf_export.dfy` (`PdfExport`): the lines the PDF export writes for the
  six MEDDIC sections.
  - Each section gets its title, then its content split on line breaks.
  - Long lines are wrapped greedily at 80 characters.
  - An empty section gets a placeholder.
- `strings.dfy` (`Strings`) and `dates.dfy` (`Dates`): the Python string
  and date operations the code relies on.
  - `str.strip`, `str.lower`, `str.split` and substring search.
  - `strptime('%Y-%m-%d')`, with Python's accepted digit forms and calendar
    validity, `strftime`, and day numbers.
- `scenarios.dfy` (`Scenarios`): worked examples, namely an empty prospect,
  a fully qualified prospect, recency tiers across a leap February, a month
  end and a year end, date texts that are refused or unpadded, and a
  case-insensitive company search.

Three consequences of the code shape the model:

- An absent or empty `updated_at` adds no recency points (utils.py:88). The
  form never supplies `updated_at`, so a fiche saved from the form is never
  stored as "Haute".
- A prospect saved from the form with status "En cours" and no MEDDIC field
  scores 1 + 2 + 0 = 3 (utils.py:72-99). That is "Basse".
- Validation accepts a `None` or empty status (utils.py:194). It refuses only
  a non-empty status outside the list.

## Model

| member | source | states |
|---|---|---|
| `Config.RequiredFieldsAreSix` | config.py:38-45 | The required MEDDIC fields are six distinct names, so the completion denominator is 6 |
| `Config.StatusesAreSix` | config.py:18-25 | Six distinct statuses, "En cours" first |
| `Config.StatusColorsCoverStatuses` | config.py:28-35 | The status-colour table has exactly the statuses as keys |
| `Records.FilledIsStripTest` | utils.py:23 | A field counts as filled exactly when it is a non-empty text that is not blank after `strip()` |
| `Utils.CompletionScore` | utils.py:9-26 | The completion score is 100·k/6, where k is the number of filled MEDDIC fields, and lies in [0, 100] |
| `Utils.CompletionCountsFilledFields` | utils.py:19-24 | k is the cardinality of the set of filled MEDDIC fields |
| `Utils.CompletionThresholds` | utils.py:72-77 | The percentage thresholds are exact on k: ≥80 iff k ≥ 5, ≥50 iff k ≥ 3, 100 iff k = 6 |
| `Utils.ScoreDependsOnlyOnFilledCount` | utils.py:9-26 | Two records with equally many filled fields have the same score, whichever fields are filled |
| `Utils.CompletionPoints` | utils.py:70-77 | The completion tier is 3, 2 or 1 exactly for k ≥ 5, 3 ≤ k < 5 and k < 3 |
| `Utils.StatusPoints` | utils.py:79-85 | The status tier is 3 exactly for "Qualifié" and 2 exactly for "En cours"; any other value, absent or `None` included, gives 1 |
| `Utils.RecencyPoints` | utils.py:87-99 | The recency tier is 0 exactly when `updated_at` is absent or empty, and 1 when its first ten characters do not parse. For a parsed date it is 3 up to 7 days old, 2 from 8 to 30 days, 1 beyond |
| `Utils.RecencyBoundaries` | utils.py:92-97 | The day limits are inclusive: 0 and 7 days give 3, 8 and 30 days give 2, 31 days give 1 |
| `Utils.TimestampDateParses` | utils.py:88-90 | A `YYYY-MM-DD HH:MM:SS` timestamp is read as its date once cut to ten characters; the whole text would not parse |
| `Utils.PriorityScore` | utils.py:68-99 | The total of the three tiers lies between 2 and 9 |
| `Utils.PriorityLevel` | utils.py:58-107 | "Haute" exactly for a total of 8 or more, "Moyenne" for 6 or 7, "Basse" below 6. The total is the completion, status and recency tiers added up |
| `Utils.LevelMonotone` | utils.py:101-107 | A higher total never gives a lower priority level |
| `Utils.LevelBoundaries` | utils.py:101-107 | The level boundaries are inclusive: 8 is "Haute", 6 is "Moyenne", 5 is "Basse" |
| `Utils.PriorityMonotoneInTiers` | utils.py:68-107 | Raising any of the three tiers never lowers the level |
| `Utils.MoreFilledNeverLowersPriority` | utils.py:68-107 | Filling more MEDDIC fields, status and update time fixed, never lowers the level |
| `Utils.FresherUpdateNeverLowersPriority` | utils.py:88-99 | A more recent parseable update date never lowers the level |
| `Utils.NoUpdateNeverHaute` | utils.py:88-107 | Without `updated_at` the total is at most 6, so the level is never "Haute" |
| `Utils.HauteNeedsProgress` | utils.py:68-107 | "Haute" needs k ≥ 3, status "Qualifié" or "En cours", and an update time |
| `Utils.CompletionAdvice` | utils.py:312-316 | The completion rule gives "complete" exactly for k ≤ 2, "finalize" exactly for 3 ≤ k ≤ 4, and nothing from k ≥ 5 |
| `Utils.Advices` | utils.py:309-336 | An advisory is listed exactly when its rule fires: k ≤ 2; 3 ≤ k ≤ 4; one per blank metrics, economic buyer, champion or decision process; "En cours" with k ≥ 5; "En attente". Advisories come in rule order, none twice |
| `Utils.TextInjective` | utils.py:313-336 | Different advisories have different texts |
| `Utils.Recommendations` | utils.py:299-338 | A text is returned exactly when it is the text of an advisory whose rule fires, and every returned text is such a text. The texts are distinct and come in rule order |
| `Utils.AdvicesBounded` | utils.py:313-336 | At most six advisories; the demonstration advisory never accompanies a completion advisory |
| `Utils.DemoAdviceIff` | utils.py:332-333 | The demonstration advisory appears exactly for "En cours" with k ≥ 5 |
| `Utils.CompletionAdviceFirst` | utils.py:313-316 | A completion advisory is given exactly when k ≤ 4, and it is then the first advisory |
| `Utils.Validate` | utils.py:167-197 | `ok` iff there are no errors; every error is justified by the record; every failing check reports its error; errors come in check order |
| `Utils.ValidIff` | utils.py:177-197 | A record is valid exactly when the client name and company are filled, the meeting date is empty or parses, and the status is empty or in the list |
| `Utils.Search` | utils.py:239-266 | An empty or absent term returns the rows unchanged; otherwise the result keeps, in order and with their multiplicity, exactly the rows in which one of the ten columns, lower-cased, contains the lower-cased term |
| `Utils.KeepMatching` | utils.py:260-266 | The filter keeps the order and exactly the matching rows |
| `Utils.SearchIgnoresCase` | utils.py:253 | A term and its lower-cased form select the same rows |
| `Utils.StatusColor` | utils.py:28-38 | A listed status gets its colour; grey is returned exactly for anything outside the list |
| `Utils.PriorityColor` | utils.py:109-124 | The three levels get their colours; grey is returned exactly for anything else |
| `Utils.FormatDate` | utils.py:40-56 | A value that does not parse as `%Y-%m-%d` is returned unchanged; one that parses becomes a ten-character text |
| `Utils.FormatDateRearranges` | utils.py:50-53 | `YYYY-MM-DD` becomes `DD/MM/YYYY`, the same digits rearranged |
| `Utils.FormatDateIdempotent` | utils.py:50-56 | Formatting a formatted date changes nothing |
| `Utils.FormatDateReads` | utils.py:50-53 | Any text that spells a real date, padded or not, becomes that date as `DD/MM/YYYY` |
| `Dates.ParseDate` | utils.py:52 | An accepted text has 8 to 10 characters and spells the result: four year digits, a dash, the month token, a dash and the day token. The result is a real calendar date |
| `Dates.ParseDateIff` | utils.py:52 | A text parses to a date exactly when it spells that date and the date exists, so 30 February or 31 April is refused |
| `Dates.ParseParts` | utils.py:52 | Year digits, a month token and a day token joined by dashes parse to the date they spell when it exists, and are refused otherwise |
| `Dates.ParseIsoRoundTrip` | app.py:784 | A date written with `%Y-%m-%d` parses back to the same date |
| `Database.EmptyValid` | app.py:77-119 | A fresh database has no rows, an empty log and satisfies the store invariant |
| `Database.CompleteIffNoKeyError` | app.py:149-154 | The statement raises `KeyError` exactly when a column is absent from the record |
| `Database.FirstMissingIsFirst` | app.py:149-154 | The key reported is the first absent column in statement order |
| `Database.SaveFiche` | app.py:121-189 | Saving keeps the store invariant. It fails exactly for an invalid or incomplete record, and then nothing changes. A validation failure carries the validation errors. A valid but incomplete record fails with `KeyError` on the first absent column. A successful save appends exactly one audit entry: UPDATE or CREATE for the written identifier |
| `Database.CreateAddsOneRow` | app.py:163-186 | A creation adds one row under a fresh identifier, with the given columns, the computed priority and the current timestamp, and keeps every other row |
| `Database.UpdateTouchesOnlyItsRow` | app.py:135-162 | An update rewrites the columns, priority and update time of the named row only. Identifier and creation time stay. An unknown identifier changes no row |
| `Database.PriorityIsRecomputed` | app.py:132-133 | The stored priority is the computed level; a caller-supplied priority makes no difference |
| `Database.DeleteFiche` | app.py:220-234 | Deletion removes only the named row, keeps every other row and appends one DELETE entry |
| `Database.GetFicheById` | app.py:204-218 | The row for a stored identifier, nothing otherwise |
| `Database.SaveThenGet` | app.py:121-218 | Reading back a saved record gives its columns, the computed priority and the save timestamp |
| `Database.DeleteThenGet` | app.py:204-234 | A deleted identifier reads as nothing; deleting an unknown one changes no row but still grows the log |
| `Database.AuditLogOnlyGrows` | app.py:158-186 | Saves never shrink the audit log and keep its existing entries; with the trail enabled every delete adds exactly one entry |
| `Database.GetAllFiches` | app.py:191-202 | Every stored row comes back exactly once, newest update first. The derived columns are present exactly when requested and the table is non-empty, with one completion score and formatted date per row |
| `Database.StatsKeepRows` | app.py:197-200 | Asking for statistics never changes the rows or their order |
| `Database.SortNewestFirst` | app.py:194 | `ORDER BY updated_at DESC` yields a permutation in non-increasing update order |
| `Database.SearchFiches` | app.py:241-244 | The store's search returns a subsequence of the listing, the whole listing for an empty term, and only stored rows |
| `Database.SearchFichesIff` | app.py:241-244 | A non-empty term finds exactly the stored rows with a matching column |
| `Form.DefaultStatusIndex` | app.py:636 | The status box starts on the edited fiche's status when it is listed, else on index 0, "En cours" |
| `Form.PrepareRecord` | app.py:775-797 | Nothing is built when the raw name or company is empty. Otherwise every text column (name, company, salesperson, the six MEDDIC fields, notes) is the stripped input. The meeting date parses back to the chosen day and the status is the chosen one. Every column is present, with no priority or update time, and the identifier is the edited fiche's |
| `Form.PreparedCompletionCount` | app.py:777-797 | Field by field, a prepared MEDDIC field counts as filled exactly when the typed text does, so the record's completion count is that of the six text areas |
| `Form.PreparedRecordValidIff` | app.py:777-801 | A prepared record with a listed status passes validation exactly when the stripped name and company are non-empty |
| `Form.FormRecordNeverHaute` | app.py:781-801 | A fiche saved from the form is never stored with priority "Haute" |
| `PdfExport.WrapWords` | pdf_fix.py:49-58 | Every emitted chunk is shorter than 80 characters unless it is one blank-free word |
| `PdfExport.WrapLine` | pdf_fix.py:47-60 | A piece of at most 80 characters is emitted unchanged; a longer one is wrapped into chunks that fit |
| `PdfExport.WrapPieces` | pdf_fix.py:46-60 | Every piece gives at least one line, and every line is at most 80 characters or one blank-free word |
| `PdfExport.WrapPiecesAppend` | pdf_fix.py:46-60 | The lines of consecutive pieces are each piece's lines, concatenated in order |
| `PdfExport.ContentLines` | pdf_fix.py:45-62 | Absent, `None` or empty content gives exactly the placeholder line. Other content gives at least one line per line of the content, and every line is at most 80 characters or one blank-free word |
| `PdfExport.PiecesKeepWords` | pdf_fix.py:46-60 | When blanks are each piece's only whitespace, the written lines hold the pieces' words in order |
| `PdfExport.ContentKeepsWords` | pdf_fix.py:45-60 | When blanks and line breaks are the content's only whitespace, the written lines hold every word of each content line, in order |
| `PdfExport.ShortContentKept` | pdf_fix.py:46-48 | Content whose lines are all at most 80 long is written line by line, and the lines join back to the content |
| `PdfExport.OversizeFirstWordGivesEmptyLine` | pdf_fix.py:51-56 | A long piece whose first word has 80 characters or more starts with an empty line |
| `PdfExport.WrapLineKeepsWords` | pdf_fix.py:49-58 | When blanks are a long piece's only whitespace, its chunks hold exactly its words, in order |
| `PdfExport.Section` | pdf_fix.py:39-62 | A section is its title line followed by one body line per content line of its field, in order |
| `PdfExport.SectionsInOrder` | pdf_fix.py:30-62 | The six titles appear once each in MEDDIC order, each followed by content; the export is the Metrics section of the metrics field, then Economic Buyer of the economic-buyer field, and so on to Champion |
| `PdfExport.SixSections` | pdf_fix.py:39-62 | Six sections are the six single sections, one after the other, each title with its own content |
| `PdfExport.SectionsLinesFit` | pdf_fix.py:39-62 | Every body line of the exported sections is at most 80 characters or one blank-free word |
| `Scenarios.EmptyProspect` | utils.py:68-107 | The empty "En cours" prospect gets the completion advisory first; it is "Basse" without an update time and "Moyenne" when updated today |
| `Scenarios.QualifiedProspect` | utils.py:299-338 | A fully filled "Qualifié" prospect updated today totals 9, is "Haute", and gets no advisory |
| `Scenarios.RecencyAcrossLeapFebruary` | utils.py:90-96 | Updated on 28 February 2024, a fiche is within a week on 6 March (3 points) but not on 7 March (2 points) |
| `Scenarios.RecencyAcrossMonthEnd` | utils.py:90-96 | Updated on 31 January 2024, a fiche is within thirty days on 1 March (2 points) but not on 2 March (1 point) |
| `Scenarios.RecencyAcrossYearEnd` | utils.py:90-96 | Updated on 28 December 2023, a fiche is within a week on 4 January 2024 (3 points) but not on 5 January (2 points) |
| `Scenarios.ImpossibleDatesRejected` | utils.py:52 | "2024-02-30" and "2024-04-31" do not parse |
| `Scenarios.ImpossibleMeetingDateReported` | utils.py:185-191 | Validation reports a meeting date of 30 February |
| `Scenarios.UnpaddedDateFormatted` | utils.py:50-53 | "2024-3-5" parses to 5 March 2024 and is formatted "05/03/2024" |
| `Scenarios.SearchAcme` | utils.py:253-266 | Searching "acme" finds the company "ACME Corp" |

## Left out

- The Streamlit pages, session state, HTML and charts: presentation only.
- SQLite mechanics and the header lines of the PDF.
  - Connections and transactions are not modelled.
  - `CURRENT_TIMESTAMP` is an integer clock stamp, not its text form.
  - Failures of the database itself are not modelled.
  - The header lines (client, company, salesperson, date) are not modelled.
- The order of rows with equal update times. `ORDER BY` leaves it open; the
  model keeps identifier order.
- The audit table's `field_changed`, `old_value` and `new_value` columns.
  The code never fills them.
- The update writing the priority back into the caller's dictionary. The
  model returns results and does not mutate arguments.
- Values of other types than text or `None` in a record. Such values only
  reach the code through the user interface, which supplies text.
- The details of pandas `str.contains` and `str.lower`.
  - Its regular-expression reading of the term is replaced by a plain
    substring test.
  - Stringified `None`/`NaN` values are treated as never matching.
  - Lowering covers ASCII and Latin-1 only.
- Non-ASCII digits accepted by `strptime`, and years below 1000, which
  `strftime` pads differently on some platforms.
- The current time, as a plain day number. The time of day does not change
  `(now - day).days`.
- `generate_fiche_summary`, `get_statistics`, `export_to_csv`,
  `backup_database`, the report generator and the analytics pages:
  presentation, floating-point aggregates and file I/O.
- The bytes FPDF produces, fonts and spacing, and FPDF's own encoding
  errors.
- Utils.CompletionScore: the score is the exact rational 100·k/6, while the
  program computes a floating-point number (16.666666666666664 for k = 1).
  The two differ in the last bits for k = 1, 2, 4 and 5. The comparisons
  with 50 and 80 come out the same for every k (`Utils.CompletionThresholds`),
  so the tiers and advisories are unaffected. The per-row score that
  `Database.GetAllFiches` returns is the exact value, not the float.
- PdfExport.WrapLine: the contract states that chunks fit and keep the
  words in order, but not that each break is as late as possible. The greedy
  choice is stated only step by step, by `WrapJoinStep` and `WrapEmitStep`.
  A global statement is complicated by the empty words that consecutive
  blanks produce.
- Validation errors are `ValidationError` values. The French message texts
  built from them (utils.py:182, 191, 195) are not modelled.
- `Database.SearchFiches`: not restated as an iff in its own contract. The
  exact matching set is `Database.SearchFichesIff`.
