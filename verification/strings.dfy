/**
 Text helpers with the meaning Python gives them: `str.isspace`, `str.strip`,
 `str.lower` (restricted to ASCII and Latin-1), `in` on strings and
 `str.split(sep)` with an explicit one-character separator.
 */
module Strings {

  datatype Option<+T> = None | Some(value: T)

  /** `a` is `b` with some elements left out, the rest kept in order. */
  predicate IsSubsequence<T(==)>(a: seq<T>, b: seq<T>)
    decreases |b|
  {
    if |a| == 0 then true
    else if |b| == 0 then false
    else if a[0] == b[0] then IsSubsequence(a[1..], b[1..])
    else IsSubsequence(a, b[1..])
  }

  /** The characters for which Python's `str.isspace()` is true. */
  predicate IsSpace(c: char) {
    || c == ' '
    || ('\t' <= c <= '\r')
    || ('\U{1C}' <= c <= '\U{1F}')
    || c == '\U{85}' || c == '\U{A0}' || c == '\U{1680}'
    || ('\U{2000}' <= c <= '\U{200A}')
    || c == '\U{2028}' || c == '\U{2029}' || c == '\U{202F}' || c == '\U{205F}' || c == '\U{3000}'
  }

  /** Every character is whitespace (the empty string included). */
  predicate AllSpace(s: string) {
    forall k :: 0 <= k < |s| ==> IsSpace(s[k])
  }

  /** The only whitespace character that occurs in `s` is the plain space. */
  predicate SpaceIsOnlyBlank(s: string) {
    forall c :: c in s && IsSpace(c) ==> c == ' '
  }

  /** `s` with its leading whitespace removed. */
  function TrimStart(s: string): (r: string)
    ensures |r| <= |s| && r == s[|s| - |r|..]
    ensures forall k :: 0 <= k < |s| - |r| ==> IsSpace(s[k])
    ensures r == [] || !IsSpace(r[0])
    decreases |s|
  {
    if |s| > 0 && IsSpace(s[0]) then TrimStart(s[1..]) else s
  }

  /** `s` with its trailing whitespace removed. */
  function TrimEnd(s: string): (r: string)
    ensures |r| <= |s| && r == s[..|r|]
    ensures forall k :: |r| <= k < |s| ==> IsSpace(s[k])
    ensures r == [] || !IsSpace(r[|r| - 1])
    ensures r == [] ==> AllSpace(s)
    decreases |s|
  {
    if |s| > 0 && IsSpace(s[|s| - 1]) then TrimEnd(s[..|s| - 1]) else s
  }

  /** Number of whitespace characters `str.strip` removes at the front. */
  function Lead(s: string): nat {
    |s| - |TrimStart(s)|
  }

  /**
   Python's `str.strip()`: the result is the slice of `s` that starts at the
   first and ends at the last non-whitespace character; everything cut off is
   whitespace, and the result is empty exactly when `s` is all whitespace.
   */
  function Strip(s: string): (r: string)
    ensures Lead(s) + |r| <= |s| && r == s[Lead(s)..Lead(s) + |r|]
    ensures forall k :: 0 <= k < Lead(s) ==> IsSpace(s[k])
    ensures forall k :: Lead(s) + |r| <= k < |s| ==> IsSpace(s[k])
    ensures r == [] || (!IsSpace(r[0]) && !IsSpace(r[|r| - 1]))
    ensures r == [] <==> AllSpace(s)
  {
    var t := TrimStart(s);
    var r := TrimEnd(t);
    assert AllSpace(s) <==> t == [] by {
      if t != [] {
        assert t[0] == s[Lead(s)];
      }
    }
    assert r == [] <==> t == [] by {
      if t != [] {
        assert !AllSpace(t) by { assert !IsSpace(t[0]); }
      }
    }
    r
  }

  /** Stripping twice is stripping once. */
  lemma StripIdempotent(s: string)
    ensures Strip(Strip(s)) == Strip(s)
  {
    var r := Strip(s);
    if r != [] {
      assert TrimStart(r) == r;
      assert TrimEnd(r) == r;
    }
  }

  /** A string with a non-whitespace character keeps one after stripping, and conversely. */
  lemma StripKeepsContent(s: string)
    ensures AllSpace(Strip(s)) <==> AllSpace(s)
  {
    var r := Strip(s);
    if r != [] {
      assert !IsSpace(r[0]);
    }
  }

  /** If `s` ends with whitespace, its strip lies strictly before the last character. */
  lemma StripDropsTrailingSpace(s: string)
    requires |s| > 0 && IsSpace(s[|s| - 1])
    ensures Lead(s) + |Strip(s)| < |s| || Strip(s) == []
  {
  }

  /** Python's `str.lower()` on one character, for ASCII and Latin-1 capitals. */
  function LowerChar(c: char): char {
    if 'A' <= c <= 'Z' || ('\U{C0}' <= c <= '\U{DE}' && c != '\U{D7}') then
      (c as int + 32) as char
    else
      c
  }

  function Lower(s: string): (r: string)
    ensures |r| == |s|
    ensures forall k :: 0 <= k < |s| ==> r[k] == LowerChar(s[k])
  {
    seq(|s|, k requires 0 <= k < |s| => LowerChar(s[k]))
  }

  /** Lower-casing a lower-cased string changes nothing. */
  lemma LowerIdempotent(s: string)
    ensures Lower(Lower(s)) == Lower(s)
  {
  }

  /** `needle` occurs in `hay` starting at index `i`. */
  predicate OccursAt(hay: string, needle: string, i: int) {
    0 <= i && i + |needle| <= |hay| && hay[i..i + |needle|] == needle
  }

  /** Python's `needle in hay`: `needle` occurs as a contiguous slice of `hay`. */
  predicate Contains(hay: string, needle: string) {
    exists i :: 0 <= i <= |hay| - |needle| && OccursAt(hay, needle, i)
  }

  /** First index of `c` in `s`, if any. */
  function IndexOf(s: string, c: char): (r: Option<nat>)
    ensures r.None? <==> c !in s
    ensures r.Some? ==> r.value < |s| && s[r.value] == c && c !in s[..r.value]
  {
    if |s| == 0 then None
    else if s[0] == c then Some(0)
    else match IndexOf(s[1..], c)
      case None => None
      case Some(j) =>
        assert s[..j + 1] == [s[0]] + s[1..][..j];
        Some(j + 1)
  }

  /** Inverse of `SplitOn`: the pieces glued back with the separator between them. */
  function Join(parts: seq<string>, sep: char): string {
    if |parts| == 0 then ""
    else if |parts| == 1 then parts[0]
    else parts[0] + [sep] + Join(parts[1..], sep)
  }

  /**
   Python's `s.split(sep)` for a one-character `sep`: always at least one
   piece, no piece contains the separator, every character of a piece comes
   from `s`, and joining the pieces with `sep` gives `s` back. Consecutive
   separators yield empty pieces.
   */
  function SplitOn(s: string, sep: char): (r: seq<string>)
    ensures |r| >= 1
    ensures forall i :: 0 <= i < |r| ==> sep !in r[i]
    ensures forall i, c :: 0 <= i < |r| && c in r[i] ==> c in s
    ensures Join(r, sep) == s
    decreases |s|
  {
    if |s| == 0 then [""]
    else if s[0] == sep then
      var rest := SplitOn(s[1..], sep);
      assert s == [sep] + s[1..];
      [""] + rest
    else
      var rest := SplitOn(s[1..], sep);
      var r := [[s[0]] + rest[0]] + rest[1..];
      assert Join(r, sep) == s by {
        if |rest| == 1 {
          assert s == [s[0]] + s[1..];
        } else {
          assert r[1..] == rest[1..];
          assert s == [s[0]] + s[1..];
        }
      }
      assert forall i, c :: 0 <= i < |r| && c in r[i] ==> c in s by {
        forall i, c | 0 <= i < |r| && c in r[i] ensures c in s {
          assert forall x :: x in s[1..] ==> x in s;
          if i == 0 {
            assert c == s[0] || c in rest[0];
          } else {
            assert r[i] == rest[i];
          }
        }
      }
      r
  }

  /** Splitting at a separator occurrence splits the two sides independently. */
  lemma {:induction false} SplitOnAppend(a: string, sep: char, b: string)
    ensures SplitOn(a + [sep] + b, sep) == SplitOn(a, sep) + SplitOn(b, sep)
    decreases |a|
  {
    var s := a + [sep] + b;
    if |a| == 0 {
      assert s[1..] == b;
    } else {
      assert s[1..] == a[1..] + [sep] + b;
      SplitOnAppend(a[1..], sep, b);
    }
  }

  /** A string without the separator is a single piece. */
  lemma {:induction false} SplitOnNoSep(w: string, sep: char)
    requires sep !in w
    ensures SplitOn(w, sep) == [w]
    decreases |w|
  {
    if |w| > 0 {
      assert sep !in w[1..];
      SplitOnNoSep(w[1..], sep);
      assert w == [w[0]] + w[1..];
    }
  }

  /** The non-empty strings of `parts`, in order. */
  function NonEmpty(parts: seq<string>): (r: seq<string>)
    ensures forall i :: 0 <= i < |r| ==> r[i] != "" && r[i] in parts
  {
    if |parts| == 0 then []
    else (if parts[0] == "" then [] else [parts[0]]) + NonEmpty(parts[1..])
  }

  lemma {:induction false} NonEmptyAppend(a: seq<string>, b: seq<string>)
    ensures NonEmpty(a + b) == NonEmpty(a) + NonEmpty(b)
    decreases |a|
  {
    if |a| > 0 {
      assert (a + b)[1..] == a[1..] + b;
      NonEmptyAppend(a[1..], b);
    } else {
      assert a + b == b;
    }
  }

  /** The words of `s`: the non-empty pieces of `s.split(' ')`. */
  function Words(s: string): seq<string> {
    NonEmpty(SplitOn(s, ' '))
  }

  /** A blank splits the words of a text into the words before and after it. */
  lemma WordsAppend(a: string, b: string)
    ensures Words(a + [' '] + b) == Words(a) + Words(b)
  {
    SplitOnAppend(a, ' ', b);
    NonEmptyAppend(SplitOn(a, ' '), SplitOn(b, ' '));
  }

  lemma WordsOfEmpty()
    ensures Words([]) == []
  {
    assert SplitOn([], ' ') == [""];
  }

  /** A blank-free string is one word, or none when it is empty. */
  lemma WordsOfWord(w: string)
    requires ' ' !in w
    ensures Words(w) == NonEmpty([w])
  {
    SplitOnNoSep(w, ' ');
  }

  /** Words do not see a run of blanks in front of a string. */
  lemma {:induction false} WordsSkipLeadingBlanks(t: string, x: string)
    requires forall k :: 0 <= k < |t| ==> t[k] == ' '
    ensures Words(t + x) == Words(x)
    decreases |t|
  {
    if |t| > 0 {
      assert t + x == [] + [' '] + (t[1..] + x);
      WordsAppend([], t[1..] + x);
      WordsOfEmpty();
      WordsSkipLeadingBlanks(t[1..], x);
    } else {
      assert t + x == x;
    }
  }

  /** Words do not see a run of blanks after a string. */
  lemma WordsSkipTrailingBlanks(x: string, t: string)
    requires forall k :: 0 <= k < |t| ==> t[k] == ' '
    ensures Words(x + t) == Words(x)
  {
    if |t| > 0 {
      assert x + t == x + [' '] + t[1..];
      WordsAppend(x, t[1..]);
      WordsSkipLeadingBlanks(t[1..], []);
      assert t[1..] + [] == t[1..];
      WordsOfEmpty();
    } else {
      assert x + t == x;
    }
  }

  /** A sequence is its three consecutive slices. */
  lemma ThreeSlices<T>(s: seq<T>, l: nat, m: nat)
    requires l <= m <= |s|
    ensures s == s[0..l] + s[l..m] + s[m..|s|]
  {
    assert s == s[0..l] + s[l..];
    assert s[l..] == s[l..m] + s[m..|s|];
  }

  /** A whitespace run cut out of a text whose only whitespace is the blank is a run of blanks. */
  lemma BlankRun(s: string, lo: nat, hi: nat)
    requires SpaceIsOnlyBlank(s) && lo <= hi <= |s|
    requires forall k :: lo <= k < hi ==> IsSpace(s[k])
    ensures forall k :: 0 <= k < hi - lo ==> s[lo..hi][k] == ' '
  {
    forall k | 0 <= k < hi - lo ensures s[lo..hi][k] == ' ' {
      assert s[lo..hi][k] == s[lo + k] && s[lo + k] in s;
    }
  }

  /** When blanks are the only whitespace, stripping loses no word. */
  lemma StripKeepsWords(s: string)
    requires SpaceIsOnlyBlank(s)
    ensures Words(Strip(s)) == Words(s)
  {
    var r := Strip(s);
    var l := Lead(s);
    var m := l + |r|;
    assert s[l..m] == r;
    ThreeSlices(s, l, m);
    BlankRun(s, 0, l);
    BlankRun(s, m, |s|);
    WordsDropBlankEnds(s[0..l], r, s[m..|s|]);
  }

  /** Runs of blanks around a text add no word to it. */
  lemma WordsDropBlankEnds(front: string, r: string, back: string)
    requires forall k :: 0 <= k < |front| ==> front[k] == ' '
    requires forall k :: 0 <= k < |back| ==> back[k] == ' '
    ensures Words(front + r + back) == Words(r)
  {
    WordsSkipLeadingBlanks(front, r + back);
    assert front + r + back == front + (r + back);
    WordsSkipTrailingBlanks(r, back);
  }

  /** A blank-free word followed by a blank is that word alone, or nothing when it is empty. */
  lemma StartWord(w: string)
    requires ' ' !in w
    ensures Words(w + " ") == NonEmpty([w])
  {
    WordsOfWord(w);
    WordsOfEmpty();
    WordsAppend(w, []);
    assert w + [' '] + [] == w + " ";
  }

  /** Appending a blank-free word and a blank to a blank-terminated text adds exactly that word. */
  lemma AppendWord(cur: string, w: string)
    requires cur == [] || cur[|cur| - 1] == ' '
    requires ' ' !in w
    ensures Words(cur + w + " ") == Words(cur) + NonEmpty([w])
  {
    WordsOfWord(w);
    WordsOfEmpty();
    WordsAppend(w, []);
    assert w + [' '] + [] == w + " ";
    if cur == [] {
      assert cur + w + " " == w + " ";
    } else {
      var x := cur[..|cur| - 1];
      assert cur == x + [' '] + [];
      WordsAppend(x, []);
      assert cur + w + " " == x + [' '] + (w + " ");
      WordsAppend(x, w + " ");
    }
  }
}
