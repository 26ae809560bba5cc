/**
 The text lines the PDF export hands to `pdf.cell` for the six MEDDIC
 sections: a title per section, then the section's content split on line
 breaks, long lines wrapped greedily at 80 characters, or a placeholder when
 the section is empty. Fonts, spacing and the bytes FPDF produces are not
 part of the model.
 */
module PdfExport {
  import opened Strings
  import opened Records

  const Placeholder := "(Non renseigné)"

  /** A line is wrapped when it is longer than this. */
  const Width := 80

  /** Every word comes from `line.split(' ')`: none holds a blank. */
  predicate BlankFree(words: seq<string>) {
    forall i :: 0 <= i < |words| ==> ' ' !in words[i]
  }

  /** The current line: empty, or blank-terminated and either at most 80 long or a single word. */
  predicate LineInProgress(cur: string) {
    cur == [] || (cur[|cur| - 1] == ' ' && (|cur| <= Width || ' ' !in cur[..|cur| - 1]))
  }

  /** An emitted chunk: at most 79 characters, or one oversize word without any blank. */
  predicate ChunkFits(c: string) {
    |c| < Width || ' ' !in c
  }

  /** A slice of a blank-free text is blank-free. */
  lemma SliceBlankFree(a: string, l: nat, m: nat)
    requires ' ' !in a && l <= m <= |a|
    ensures ' ' !in a[l..m]
  {
    assert forall c :: c in a[l..m] ==> c in a;
  }

  /** Stripping a line in progress gives a chunk that fits. */
  lemma StripInProgressFits(cur: string)
    requires LineInProgress(cur)
    ensures ChunkFits(Strip(cur))
  {
    if cur != [] {
      StripDropsTrailingSpace(cur);
      if |cur| > Width {
        StripOneWordFits(cur);
      }
    }
  }

  /** A blank-terminated single word strips to a blank-free chunk. */
  lemma StripOneWordFits(cur: string)
    requires |cur| > 0 && cur[|cur| - 1] == ' ' && ' ' !in cur[..|cur| - 1]
    ensures ' ' !in Strip(cur)
  {
    var r := Strip(cur);
    StripDropsTrailingSpace(cur);
    if r != [] {
      var l := Lead(cur);
      var body := cur[..|cur| - 1];
      assert r == body[l..l + |r|];
      SliceBlankFree(body, l, l + |r|);
    }
  }

  /**
   The wrapping loop over `words` with current line `cur`: a word joins the
   current line while the line plus the word stays under 80 characters;
   otherwise the stripped current line is emitted and the word starts a new
   one. The last line is emitted when non-empty. Every emitted chunk fits.
   */
  function WrapWords(words: seq<string>, cur: string): (r: seq<string>)
    requires BlankFree(words) && LineInProgress(cur)
    ensures forall i :: 0 <= i < |r| ==> ChunkFits(r[i])
    ensures |words| > 0 || cur != [] ==> |r| >= 1
    decreases |words|
  {
    if |words| == 0 then
      if cur != [] then
        StripInProgressFits(cur);
        [Strip(cur)]
      else []
    else
      var w := words[0];
      if |cur + w| < Width then
        var next := cur + w + " ";
        assert next[..|next| - 1] == cur + w;
        WrapWords(words[1..], next)
      else
        StripInProgressFits(cur);
        var next := w + " ";
        assert next[..|next| - 1] == w;
        [Strip(cur)] + WrapWords(words[1..], next)
  }

  /** One piece of the content: kept as it is up to 80 characters, wrapped beyond. */
  function WrapLine(line: string): (r: seq<string>)
    ensures |line| <= Width ==> r == [line]
    ensures |line| > Width ==> forall i :: 0 <= i < |r| ==> ChunkFits(r[i])
    ensures |r| >= 1 && forall i :: 0 <= i < |r| ==> LineFits(r[i])
  {
    if |line| > Width then WrapWords(SplitOn(line, ' '), "") else [line]
  }

  /** A written line: at most 80 characters, or a single word without blanks. */
  predicate LineFits(c: string) {
    |c| <= Width || ' ' !in c
  }

  /** The lines of every piece, in order: each piece gives at least one line, and every line fits. */
  function WrapPieces(pieces: seq<string>): (r: seq<string>)
    ensures |r| >= |pieces|
    ensures forall i :: 0 <= i < |r| ==> LineFits(r[i])
  {
    if |pieces| == 0 then [] else WrapLine(pieces[0]) + WrapPieces(pieces[1..])
  }

  /** Wrapping distributes over the pieces: a single piece gives its own lines. */
  lemma WrapPiecesSingle(p: string)
    ensures WrapPieces([p]) == WrapLine(p)
  {
    assert [p][1..] == [];
  }

  /** The lines of two runs of pieces are the lines of the first run, then those of the second. */
  lemma {:induction false} WrapPiecesAppend(a: seq<string>, b: seq<string>)
    ensures WrapPieces(a + b) == WrapPieces(a) + WrapPieces(b)
  {
    if |a| == 0 {
      assert a + b == b;
    } else {
      assert (a + b)[0] == a[0] && (a + b)[1..] == a[1..] + b;
      WrapPiecesAppend(a[1..], b);
    }
  }

  /**
   The lines written for one section's content: the placeholder when the
   value is absent, `None` or empty; otherwise the wrapped pieces of
   `content.split('\n')`.
   */
  function ContentLines(content: Cell): (r: seq<string>)
    ensures !Truthy(content) ==> r == [Placeholder]
    ensures Truthy(content) ==> |r| >= |SplitOn(content.text, '\n')| >= 1
    ensures forall i :: 0 <= i < |r| ==> LineFits(r[i])
  {
    if !Truthy(content) then [Placeholder]
    else WrapPieces(SplitOn(content.text, '\n'))
  }

  /** Content whose pieces are all at most 80 long is written piece by piece, so the lines join back to it. */
  lemma {:induction false} ShortPiecesKept(pieces: seq<string>)
    requires forall i :: 0 <= i < |pieces| ==> |pieces[i]| <= Width
    ensures WrapPieces(pieces) == pieces
  {
    if |pieces| > 0 {
      ShortPiecesKept(pieces[1..]);
      assert pieces == [pieces[0]] + pieces[1..];
    }
  }

  lemma ShortContentKept(text: string)
    requires text != ""
    requires forall i :: 0 <= i < |SplitOn(text, '\n')| ==> |SplitOn(text, '\n')[i]| <= Width
    ensures ContentLines(Str(text)) == SplitOn(text, '\n')
    ensures Join(ContentLines(Str(text)), '\n') == text
  {
    ShortPiecesKept(SplitOn(text, '\n'));
  }

  /** A long piece whose first word has 80 characters or more starts with an empty line. */
  lemma OversizeFirstWordGivesEmptyLine(line: string)
    requires |line| > Width && |SplitOn(line, ' ')[0]| >= Width
    ensures |WrapLine(line)| >= 1 && WrapLine(line)[0] == ""
  {
    var ws := SplitOn(line, ' ');
    assert [] + ws[0] == ws[0];
    assert Strip([]) == [];
  }

  /** The words of each chunk, one after the other. */
  function ChunkWords(chunks: seq<string>): seq<string> {
    if |chunks| == 0 then [] else Words(chunks[0]) + ChunkWords(chunks[1..])
  }

  lemma {:induction false} ChunkWordsAppend(a: seq<string>, b: seq<string>)
    ensures ChunkWords(a + b) == ChunkWords(a) + ChunkWords(b)
  {
    if |a| == 0 {
      assert a + b == b;
    } else {
      assert (a + b)[0] == a[0] && (a + b)[1..] == a[1..] + b;
      ChunkWordsAppend(a[1..], b);
      ConcatAssoc(Words(a[0]), ChunkWords(a[1..]), ChunkWords(b));
    }
  }

  /** The written lines of pieces, each using blanks as its only whitespace, hold the pieces' words in order. */
  lemma {:induction false} PiecesKeepWords(pieces: seq<string>)
    requires forall i :: 0 <= i < |pieces| ==> SpaceIsOnlyBlank(pieces[i])
    ensures ChunkWords(WrapPieces(pieces)) == ChunkWords(pieces)
  {
    if |pieces| > 0 {
      var p := pieces[0];
      PiecesKeepWords(pieces[1..]);
      ChunkWordsAppend(WrapLine(p), WrapPieces(pieces[1..]));
      if |p| > Width {
        WrapLineKeepsWords(p);
      } else {
        ChunkWordsCons(p, []);
        assert [p] + [] == [p];
      }
    }
  }

  /** Line breaks and blanks are the only whitespace of the text. */
  predicate BreaksAndBlanksOnly(text: string) {
    forall c :: c in text && IsSpace(c) ==> c == ' ' || c == '\n'
  }

  /**
   No word is lost or reordered: the written lines hold the words of each
   line of the content, line after line.
   */
  lemma ContentKeepsWords(text: string)
    requires text != "" && BreaksAndBlanksOnly(text)
    ensures ChunkWords(ContentLines(Str(text))) == ChunkWords(SplitOn(text, '\n'))
  {
    var pieces := SplitOn(text, '\n');
    forall i | 0 <= i < |pieces| ensures SpaceIsOnlyBlank(pieces[i]) {
      assert forall c :: c in pieces[i] ==> c in text && c != '\n';
    }
    PiecesKeepWords(pieces);
  }

  lemma BlankOnlyConcat(a: string, b: string)
    requires SpaceIsOnlyBlank(a) && SpaceIsOnlyBlank(b)
    ensures SpaceIsOnlyBlank(a + b)
  {
    assert forall c :: c in a + b ==> c in a || c in b;
  }

  /** Adding a word and a blank to a line keeps blanks its only whitespace. */
  lemma ExtendBlankOnly(cur: string, w: string)
    requires SpaceIsOnlyBlank(cur) && SpaceIsOnlyBlank(w)
    ensures SpaceIsOnlyBlank(cur + w + " ")
  {
    BlankOnlyConcat(w, " ");
    BlankOnlyConcat(cur, w + " ");
    assert cur + (w + " ") == cur + w + " ";
  }

  lemma ConcatAssoc(a: seq<string>, b: seq<string>, c: seq<string>)
    ensures a + b + c == a + (b + c)
  {
  }

  lemma PlainWordsTail(words: seq<string>)
    requires PlainWords(words) && |words| > 0
    ensures PlainWords(words[1..]) && ' ' !in words[0] && SpaceIsOnlyBlank(words[0])
  {
  }

  /** The words of a chunk list that starts with one given chunk. */
  lemma ChunkWordsCons(c: string, rest: seq<string>)
    ensures ChunkWords([c] + rest) == Words(c) + ChunkWords(rest)
  {
    assert ([c] + rest)[1..] == rest;
  }

  /** The words of a line in progress survive its stripping. */
  lemma LineWordsKept(cur: string)
    requires SpaceIsOnlyBlank(cur)
    ensures Words(Strip(cur)) == Words(cur)
  {
    StripKeepsWords(cur);
  }

  /** A word that fits joins the current line. */
  lemma WrapJoinStep(words: seq<string>, cur: string)
    requires BlankFree(words) && LineInProgress(cur)
    requires |words| > 0 && |cur + words[0]| < Width
    ensures LineInProgress(cur + words[0] + " ")
    ensures WrapWords(words, cur) == WrapWords(words[1..], cur + words[0] + " ")
  {
    var next := cur + words[0] + " ";
    assert next[..|next| - 1] == cur + words[0];
  }

  /** A word that does not fit closes the current line and starts the next. */
  lemma WrapEmitStep(words: seq<string>, cur: string)
    requires BlankFree(words) && LineInProgress(cur)
    requires |words| > 0 && |cur + words[0]| >= Width
    ensures LineInProgress(words[0] + " ")
    ensures WrapWords(words, cur) == [Strip(cur)] + WrapWords(words[1..], words[0] + " ")
  {
    var next := words[0] + " ";
    assert next[..|next| - 1] == words[0];
  }

  /** Words of a list of words, one of them carrying no whitespace but blanks. */
  predicate PlainWords(words: seq<string>) {
    BlankFree(words) && forall i :: 0 <= i < |words| ==> SpaceIsOnlyBlank(words[i])
  }

  /**
   The loop loses no word and reorders none: the chunks' words are the words
   of the current line followed by the non-empty input words.
   */
  lemma {:induction false} WrapWordsKeepsWords(words: seq<string>, cur: string)
    requires PlainWords(words) && LineInProgress(cur) && SpaceIsOnlyBlank(cur)
    ensures ChunkWords(WrapWords(words, cur)) == Words(cur) + NonEmpty(words)
    decreases |words|, 1
  {
    if |words| == 0 {
      if cur != [] {
        LineWordsKept(cur);
        ChunkWordsCons(Strip(cur), []);
      } else {
        WordsOfEmpty();
      }
    } else if |cur + words[0]| < Width {
      JoinKeepsWords(words, cur);
    } else {
      EmitKeepsWords(words, cur);
    }
  }

  /** The join step of the word-preservation proof. */
  lemma {:induction false} JoinKeepsWords(words: seq<string>, cur: string)
    requires PlainWords(words) && LineInProgress(cur) && SpaceIsOnlyBlank(cur)
    requires |words| > 0 && |cur + words[0]| < Width
    ensures ChunkWords(WrapWords(words, cur)) == Words(cur) + NonEmpty(words)
    decreases |words|, 0
  {
    var w := words[0];
    var tail := words[1..];
    var next := cur + w + " ";
    assert NonEmpty(words) == NonEmpty([w]) + NonEmpty(tail) by {
      assert words == [w] + tail;
      NonEmptyAppend([w], tail);
    }
    assert Words(next) == Words(cur) + NonEmpty([w]) by {
      AppendWord(cur, w);
    }
    ExtendBlankOnly(cur, w);
    PlainWordsTail(words);
    WrapJoinStep(words, cur);
    WrapWordsKeepsWords(tail, next);
    ConcatAssoc(Words(cur), NonEmpty([w]), NonEmpty(tail));
  }

  /** The emit step of the word-preservation proof. */
  lemma {:induction false} EmitKeepsWords(words: seq<string>, cur: string)
    requires PlainWords(words) && LineInProgress(cur) && SpaceIsOnlyBlank(cur)
    requires |words| > 0 && |cur + words[0]| >= Width
    ensures ChunkWords(WrapWords(words, cur)) == Words(cur) + NonEmpty(words)
    decreases |words|, 0
  {
    EmitNext(words);
    WrapWordsKeepsWords(words[1..], words[0] + " ");
    EmitCombine(words, cur);
  }

  /** The word that does not fit starts a line the loop can go on with. */
  lemma EmitNext(words: seq<string>)
    requires PlainWords(words) && |words| > 0
    ensures PlainWords(words[1..]) && LineInProgress(words[0] + " ") && SpaceIsOnlyBlank(words[0] + " ")
  {
    var next := words[0] + " ";
    assert next[..|next| - 1] == words[0];
    PlainWordsTail(words);
    BlankOnlyConcat(words[0], " ");
  }

  /** The emit step, given that the rest of the loop keeps its words. */
  lemma EmitCombine(words: seq<string>, cur: string)
    requires PlainWords(words) && LineInProgress(cur) && SpaceIsOnlyBlank(cur)
    requires |words| > 0 && |cur + words[0]| >= Width
    requires ChunkWords(WrapWords(words[1..], words[0] + " ")) == Words(words[0] + " ") + NonEmpty(words[1..])
    ensures ChunkWords(WrapWords(words, cur)) == Words(cur) + NonEmpty(words)
  {
    var w := words[0];
    var tail := words[1..];
    var rest := WrapWords(tail, w + " ");
    EmitFacts(words, cur);
    WrapEmitStep(words, cur);
    ChunkWordsCons(Strip(cur), rest);
    ConcatAssoc(Words(cur), NonEmpty([w]), NonEmpty(tail));
  }

  /** What the emit step needs about the word starting the new line. */
  lemma EmitFacts(words: seq<string>, cur: string)
    requires PlainWords(words) && SpaceIsOnlyBlank(cur) && |words| > 0
    ensures NonEmpty(words) == NonEmpty([words[0]]) + NonEmpty(words[1..])
    ensures Words(words[0] + " ") == NonEmpty([words[0]])
    ensures SpaceIsOnlyBlank(words[0] + " ") && PlainWords(words[1..])
    ensures Words(Strip(cur)) == Words(cur)
  {
    var w := words[0];
    assert words == [w] + words[1..];
    NonEmptyAppend([w], words[1..]);
    PlainWordsTail(words);
    StartWord(w);
    BlankOnlyConcat(w, " ");
    if cur != [] {
      LineWordsKept(cur);
    }
  }

  /** When blanks are a long piece's only whitespace, its chunks hold exactly its words, in order. */
  lemma WrapLineKeepsWords(line: string)
    requires |line| > Width && SpaceIsOnlyBlank(line)
    ensures ChunkWords(WrapLine(line)) == Words(line)
  {
    var ws := SplitOn(line, ' ');
    forall i | 0 <= i < |ws| ensures SpaceIsOnlyBlank(ws[i]) {
      assert forall c :: c in ws[i] ==> c in line;
    }
    assert PlainWords(ws);
    WordsOfEmpty();
    WrapWordsKeepsWords(ws, []);
  }

  /** A line of the exported document: a section title or a line of its content. */
  datatype PdfLine = Title(text: string) | Body(text: string)

  const SectionTitles: seq<string> :=
    ["Metrics", "Economic Buyer", "Decision Criteria", "Decision Process", "Identify Pain", "Champion"]

  /** A section: its title line, then its content lines. */
  function Section(title: string, content: Cell): (r: seq<PdfLine>)
    ensures |r| >= 2 && r[0] == Title(title)
    ensures |r| == 1 + |ContentLines(content)|
    ensures forall i :: 1 <= i < |r| ==> r[i] == Body(ContentLines(content)[i - 1])
  {
    var lines := ContentLines(content);
    [Title(title)] + seq(|lines|, i requires 0 <= i < |lines| => Body(lines[i]))
  }

  /** Consecutive sections, one per title and content. */
  function Sections(titles: seq<string>, contents: seq<Cell>): seq<PdfLine>
    requires |titles| == |contents|
  {
    if |titles| == 0 then []
    else Section(titles[0], contents[0]) + Sections(titles[1..], contents[1..])
  }

  /** The MEDDIC part of `generate_fiche_pdf`: the six sections in MEDDIC order. */
  function MeddicSections(d: Fields): seq<PdfLine> {
    Sections(SectionTitles, d.MeddicCells())
  }

  /** The title lines, in order. */
  function Titles(lines: seq<PdfLine>): seq<string> {
    if |lines| == 0 then []
    else (if lines[0].Title? then [lines[0].text] else []) + Titles(lines[1..])
  }

  lemma {:induction false} TitlesAppend(a: seq<PdfLine>, b: seq<PdfLine>)
    ensures Titles(a + b) == Titles(a) + Titles(b)
  {
    if |a| > 0 {
      assert (a + b)[1..] == a[1..] + b;
      TitlesAppend(a[1..], b);
    } else {
      assert a + b == b;
    }
  }

  /** A section contributes exactly its own title. */
  lemma {:induction false} SectionTitle(title: string, content: Cell)
    ensures Titles(Section(title, content)) == [title]
  {
    var r := Section(title, content);
    assert r == [r[0]] + r[1..];
    BodiesHaveNoTitle(r[1..]);
  }

  lemma {:induction false} BodiesHaveNoTitle(lines: seq<PdfLine>)
    requires forall i :: 0 <= i < |lines| ==> lines[i].Body?
    ensures Titles(lines) == []
  {
    if |lines| > 0 {
      BodiesHaveNoTitle(lines[1..]);
    }
  }

  /** Lines where every title is followed by a content line. */
  predicate TitlesHaveBodies(ls: seq<PdfLine>) {
    forall i :: 0 <= i < |ls| && ls[i].Title? ==> i + 1 < |ls| && ls[i + 1].Body?
  }

  lemma {:induction false} SectionsTitlesAndBodies(titles: seq<string>, contents: seq<Cell>)
    requires |titles| == |contents|
    ensures Titles(Sections(titles, contents)) == titles
    ensures TitlesHaveBodies(Sections(titles, contents))
  {
    if |titles| > 0 {
      var first := Section(titles[0], contents[0]);
      var rest := Sections(titles[1..], contents[1..]);
      SectionsTitlesAndBodies(titles[1..], contents[1..]);
      SectionTitle(titles[0], contents[0]);
      TitlesAppend(first, rest);
      assert titles == [titles[0]] + titles[1..];
      forall i | 0 <= i < |first + rest| && (first + rest)[i].Title?
        ensures i + 1 < |first + rest| && (first + rest)[i + 1].Body?
      {
        if i >= |first| {
          assert (first + rest)[i] == rest[i - |first|];
          assert (first + rest)[i + 1] == rest[i + 1 - |first|];
        } else {
          assert i == 0;
        }
      }
    }
  }

  /**
   The six titles appear once each, in the order Metrics, Economic Buyer,
   Decision Criteria, Decision Process, Identify Pain, Champion, and every
   title is followed by at least one content line.
   */
  lemma SectionsInOrder(d: Fields)
    ensures Titles(MeddicSections(d)) == SectionTitles
    ensures TitlesHaveBodies(MeddicSections(d))
    ensures MeddicSections(d) ==
              Section("Metrics", d.metrics) + (Section("Economic Buyer", d.economicBuyer)
              + (Section("Decision Criteria", d.decisionCriteria) + (Section("Decision Process", d.decisionProcess)
              + (Section("Identify Pain", d.identifyPain) + Section("Champion", d.champion)))))
  {
    SectionsTitlesAndBodies(SectionTitles, d.MeddicCells());
    SixSections(SectionTitles, d.MeddicCells());
  }

  /** Splitting off the section at position `k`. */
  lemma SectionsFrom(titles: seq<string>, contents: seq<Cell>, k: nat)
    requires |titles| == |contents| && k < |titles|
    ensures Sections(titles[k..], contents[k..]) == Section(titles[k], contents[k]) + Sections(titles[k + 1..], contents[k + 1..])
  {
    assert titles[k..][1..] == titles[k + 1..] && contents[k..][1..] == contents[k + 1..];
  }

  /** Six sections are the six single sections one after the other. */
  lemma SixSections(titles: seq<string>, contents: seq<Cell>)
    requires |titles| == 6 && |contents| == 6
    ensures Sections(titles, contents) ==
              Section(titles[0], contents[0]) + (Section(titles[1], contents[1]) + (Section(titles[2], contents[2])
              + (Section(titles[3], contents[3]) + (Section(titles[4], contents[4]) + Section(titles[5], contents[5])))))
  {
    assert titles[0..] == titles && contents[0..] == contents;
    SectionsFrom(titles, contents, 5);
    assert Sections(titles[5..], contents[5..]) == Section(titles[5], contents[5]);
    SectionsFrom(titles, contents, 4);
    SectionsFrom(titles, contents, 3);
    SectionsFrom(titles, contents, 2);
    SectionsFrom(titles, contents, 1);
    SectionsFrom(titles, contents, 0);
  }

  /** Every content line of the exported sections is at most 80 characters or a single blank-free word. */
  lemma {:induction false} SectionsLinesFit(titles: seq<string>, contents: seq<Cell>)
    requires |titles| == |contents|
    ensures forall i :: 0 <= i < |Sections(titles, contents)| && Sections(titles, contents)[i].Body? ==>
              LineFits(Sections(titles, contents)[i].text)
  {
    if |titles| > 0 {
      var first: seq<PdfLine> := Section(titles[0], contents[0]);
      var rest: seq<PdfLine> := Sections(titles[1..], contents[1..]);
      var all: seq<PdfLine> := first + rest;
      SectionsLinesFit(titles[1..], contents[1..]);
      forall i: int | 0 <= i < |all| && all[i].Body? ensures LineFits(all[i].text) {
        if i >= |first| {
          assert all[i] == rest[i - |first|];
        } else {
          assert all[i] == first[i] == Body(ContentLines(contents[0])[i - 1]);
        }
      }
    }
  }
}
