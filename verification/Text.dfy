/**
 The string operations of the Rust standard library that malleus calls, on
 sequences of Unicode scalar values.
 */
module Text {
  import opened Wrappers

  // ---------- splitting on a character ----------

  /** `str::split`: n separators give n + 1 pieces, so "" gives one empty piece. */
  function Split(s: string, sep: char): (parts: seq<string>)
    ensures |parts| >= 1
    ensures forall i, j :: 0 <= i < |parts| && 0 <= j < |parts[i]| ==> parts[i][j] != sep
  {
    if s == [] then
      [[]]
    else
      var rest := Split(s[1..], sep);
      if s[0] == sep then [[]] + rest else [[s[0]] + rest[0]] + rest[1..]
  }

  /** `[String]::join`. */
  function Join(parts: seq<string>, sep: string): string
  {
    if parts == [] then
      []
    else if |parts| == 1 then
      parts[0]
    else
      parts[0] + sep + Join(parts[1..], sep)
  }

  predicate Free(s: string, c: char) {
    forall i :: 0 <= i < |s| ==> s[i] != c
  }

  lemma FreeConcat(a: string, b: string, c: char)
    requires Free(a, c) && Free(b, c)
    ensures Free(a + b, c)
  {
  }

  lemma SplitFree(s: string, sep: char)
    requires Free(s, sep)
    ensures Split(s, sep) == [s]
  {
    if s != [] {
      assert Free(s[1..], sep);
      SplitFree(s[1..], sep);
      assert [s[0]] + s[1..] == s;
    }
  }

  lemma {:induction false} SplitAtFirst(a: string, sep: char, b: string)
    requires Free(a, sep)
    ensures Split(a + [sep] + b, sep) == [a] + Split(b, sep)
  {
    var s := a + [sep] + b;
    if a == [] {
      assert s[1..] == b;
    } else {
      assert Free(a[1..], sep);
      SplitAtFirst(a[1..], sep, b);
      assert s[1..] == a[1..] + [sep] + b;
      assert [a[0]] + a[1..] == a;
    }
  }

  /** Splitting undoes joining, when no piece holds the separator. */
  lemma {:induction false} SplitUndoesJoin(parts: seq<string>, sep: char)
    requires parts != []
    requires forall i :: 0 <= i < |parts| ==> Free(parts[i], sep)
    ensures Split(Join(parts, [sep]), sep) == parts
  {
    if |parts| == 1 {
      SplitFree(parts[0], sep);
    } else {
      hide Split, Free;
      var rest := Join(parts[1..], [sep]);
      SplitUndoesJoin(parts[1..], sep);
      SplitAtFirst(parts[0], sep, rest);
      assert Join(parts, [sep]) == parts[0] + [sep] + rest;
      assert [parts[0]] + parts[1..] == parts;
    }
  }

  /** Joining undoes splitting, for every text. */
  lemma {:induction false} JoinUndoesSplit(s: string, sep: char)
    ensures Join(Split(s, sep), [sep]) == s
  {
    if s != [] {
      JoinUndoesSplit(s[1..], sep);
      var rest := Split(s[1..], sep);
      if s[0] == sep {
        assert ([[]] + rest)[1..] == rest;
      } else if |rest| > 1 {
        var parts := [[s[0]] + rest[0]] + rest[1..];
        assert parts[1..] == rest[1..];
        assert [s[0]] + rest[0] + [sep] + Join(rest[1..], [sep]) == [s[0]] + s[1..];
      }
    }
  }

  /** `str::split_once` on a character: cut at its first occurrence. */
  function SplitOnce(s: string, sep: char): (r: Option<(string, string)>)
    ensures r.None? <==> Free(s, sep)
    ensures r.Some? ==> s == r.value.0 + [sep] + r.value.1 && Free(r.value.0, sep)
  {
    if s == [] then
      None
    else if s[0] == sep then
      Some(([], s[1..]))
    else
      match SplitOnce(s[1..], sep)
      case None => None
      case Some((a, b)) => Some(([s[0]] + a, b))
  }

  lemma {:induction false} SplitOnceAt(a: string, sep: char, b: string)
    requires Free(a, sep)
    ensures SplitOnce(a + [sep] + b, sep) == Some((a, b))
  {
    var s := a + [sep] + b;
    if a != [] {
      SplitOnceAt(a[1..], sep, b);
      assert s[1..] == a[1..] + [sep] + b;
      assert [a[0]] + a[1..] == a;
    } else {
      assert s[1..] == b;
    }
  }

  // ---------- trimming ----------

  /** `str::trim_end_matches` for a set of characters. */
  function TrimEnd(s: string, cs: set<char>): (r: string)
    ensures r <= s
    ensures r == [] || r[|r| - 1] !in cs
    ensures forall i :: |r| <= i < |s| ==> s[i] in cs
  {
    if s != [] && s[|s| - 1] in cs then TrimEnd(s[..|s| - 1], cs) else s
  }

  function TrimStart(s: string, cs: set<char>): (r: string)
    ensures r == [] || r[0] !in cs
    ensures |r| <= |s| && s[|s| - |r|..] == r
  {
    if s != [] && s[0] in cs then TrimStart(s[1..], cs) else s
  }

  /** `str::trim_matches` for a set of characters. */
  function TrimBoth(s: string, cs: set<char>): string {
    TrimEnd(TrimStart(s, cs), cs)
  }

  // ---------- white space ----------

  /** `char::is_ascii_whitespace`. */
  predicate IsAsciiSpace(c: char) {
    c == ' ' || c == '\t' || c == '\n' || c == '\U{0C}' || c == '\r'
  }

  /** The characters with Unicode's White_Space property, as `str::trim` uses them. */
  const WHITE_SPACE: set<char> :=
    {'\t', '\n', '\U{0B}', '\U{0C}', '\r', ' ', '\U{85}', '\U{A0}', '\U{1680}',
     '\U{2000}', '\U{2001}', '\U{2002}', '\U{2003}', '\U{2004}', '\U{2005}',
     '\U{2006}', '\U{2007}', '\U{2008}', '\U{2009}', '\U{200A}', '\U{2028}',
     '\U{2029}', '\U{202F}', '\U{205F}', '\U{3000}'}

  lemma {:induction false} TrimStartEmpty(s: string, cs: set<char>)
    ensures TrimStart(s, cs) == [] <==> forall i :: 0 <= i < |s| ==> s[i] in cs
  {
    if s != [] && s[0] in cs {
      var rest := s[1..];
      TrimStartEmpty(rest, cs);
      assert TrimStart(s, cs) == TrimStart(rest, cs);
      assert s == [s[0]] + rest;
      assert forall i :: 0 <= i < |rest| ==> rest[i] == s[i + 1];
    } else {
      assert TrimStart(s, cs) == s;
    }
  }

  /** `s.trim().is_empty()`. */
  predicate IsBlank(s: string) {
    Trim(s) == []
  }

  lemma BlankIs(s: string)
    ensures IsBlank(s) <==> forall i :: 0 <= i < |s| ==> s[i] in WHITE_SPACE
  {
    TrimStartEmpty(s, WHITE_SPACE);
  }

  // ---------- names ----------

  /** `is_ascii_alphanumeric`, or one of `-`, `_`, `.`. */
  predicate IsNameChar(c: char) {
    'a' <= c <= 'z' || 'A' <= c <= 'Z' || '0' <= c <= '9' || c == '-' || c == '_' || c == '.'
  }

  lemma LowerIs(c: char)
    ensures 'a' <= c <= 'z' <==> c in "abcdefghijklmnopqrstuvwxyz"
  {
    var letters := "abcdefghijklmnopqrstuvwxyz";
    assert forall i :: 0 <= i < 26 ==> letters[i] == ('a' as int + i) as char;
    if 'a' <= c <= 'z' {
      assert letters[c as int - 'a' as int] == c;
    }
  }

  lemma UpperIs(c: char)
    ensures 'A' <= c <= 'Z' <==> c in "ABCDEFGHIJKLMNOPQRSTUVWXYZ"
  {
    var letters := "ABCDEFGHIJKLMNOPQRSTUVWXYZ";
    assert forall i :: 0 <= i < 26 ==> letters[i] == ('A' as int + i) as char;
    if 'A' <= c <= 'Z' {
      assert letters[c as int - 'A' as int] == c;
    }
  }

  /** The ASCII letters and digits, `-`, `_` and `.`, and no other character. */
  lemma NameCharIs(c: char)
    ensures IsNameChar(c) <==>
            c in "abcdefghijklmnopqrstuvwxyz" || c in "ABCDEFGHIJKLMNOPQRSTUVWXYZ" || c in "0123456789-_."
  {
    LowerIs(c);
    UpperIs(c);
    if '0' <= c <= '9' {
      assert "0123456789-_."[c as int - '0' as int] == c;
    }
    assert "0123456789-_."[10] == '-' && "0123456789-_."[11] == '_' && "0123456789-_."[12] == '.';
  }

  predicate AllNameChars(s: string) {
    forall i :: 0 <= i < |s| ==> IsNameChar(s[i])
  }

  /** What malleus accepts as a mount tag, a mount name or a remote name. */
  predicate IsName(s: string) {
    s != [] && AllNameChars(s)
  }

  /** `str::trim`. */
  function Trim(s: string): string {
    TrimBoth(s, WHITE_SPACE)
  }

  /** The length of the longest white-space-free prefix. */
  function WordEnd(s: string): (n: nat)
    ensures n <= |s|
    ensures forall i :: 0 <= i < n ==> !IsAsciiSpace(s[i])
    ensures n < |s| ==> IsAsciiSpace(s[n])
  {
    if s == [] || IsAsciiSpace(s[0]) then 0 else 1 + WordEnd(s[1..])
  }

  /** `str::split_ascii_whitespace`: the maximal runs without white space. */
  function Words(s: string): (words: seq<string>)
    ensures forall i :: 0 <= i < |words| ==> IsWord(words[i])
    decreases |s|
  {
    if s == [] then
      []
    else if IsAsciiSpace(s[0]) then
      Words(s[1..])
    else
      var n := WordEnd(s);
      [s[..n]] + Words(s[n..])
  }

  predicate IsWord(w: string) {
    w != [] && forall i :: 0 <= i < |w| ==> !IsAsciiSpace(w[i])
  }

  predicate IsGap(s: string) {
    forall i :: 0 <= i < |s| ==> IsAsciiSpace(s[i])
  }

  predicate EndsInSpace(s: string) {
    s == [] || IsAsciiSpace(s[|s| - 1])
  }

  predicate StartsWithSpace(s: string) {
    s == [] || IsAsciiSpace(s[0])
  }

  lemma WordEndIs(s: string, n: nat)
    requires n <= |s|
    requires forall i :: 0 <= i < n ==> !IsAsciiSpace(s[i])
    requires n < |s| ==> IsAsciiSpace(s[n])
    ensures WordEnd(s) == n
  {
  }

  lemma WordsOfWord(w: string)
    requires IsWord(w)
    ensures Words(w) == [w]
  {
    WordEndIs(w, |w|);
    assert w[..|w|] == w;
    assert w[|w|..] == [];
  }

  lemma {:induction false} WordsOfGap(s: string)
    requires IsGap(s)
    ensures Words(s) == []
  {
    if s != [] {
      WordsOfGap(s[1..]);
    }
  }

  lemma WordsAtSpace(c: char, s: string)
    requires IsAsciiSpace(c)
    ensures Words([c] + s) == Words(s)
  {
    assert ([c] + s)[1..] == s;
  }

  lemma WordsAtWord(w: string, s: string)
    requires IsWord(w) && StartsWithSpace(s)
    ensures Words(w + s) == [w] + Words(s)
  {
    var t := w + s;
    WordEndIs(t, |w|);
    assert t[..|w|] == w && t[|w|..] == s;
  }

  /** A text that starts with a word is the whole word and the rest. */
  lemma CutWord(s: string) returns (w: string, rest: string)
    requires s != [] && !IsAsciiSpace(s[0])
    ensures s == w + rest && IsWord(w) && StartsWithSpace(rest)
    ensures rest == [] ==> !EndsInSpace(s)
    ensures rest != [] ==> rest[|rest| - 1] == s[|s| - 1]
  {
    var n := WordEnd(s);
    w, rest := s[..n], s[n..];
  }

  /** Words of a concatenation, when no word straddles the seam. */
  lemma {:induction false} WordsConcat(a: string, b: string)
    requires EndsInSpace(a) || StartsWithSpace(b)
    ensures Words(a + b) == Words(a) + Words(b)
    decreases |a|
  {
    if a == [] {
      assert a + b == b;
    } else if IsAsciiSpace(a[0]) {
      var rest := a[1..];
      assert a == [a[0]] + rest && a + b == [a[0]] + (rest + b);
      hide Words, IsAsciiSpace;
      WordsAtSpace(a[0], rest);
      WordsAtSpace(a[0], rest + b);
      WordsConcat(rest, b);
    } else {
      var w, rest := CutWord(a);
      assert a + b == w + (rest + b);
      hide Words, IsWord, IsAsciiSpace;
      WordsAtWord(w, rest);
      WordsAtWord(w, rest + b);
      WordsConcat(rest, b);
    }
  }

  /** Every character of a word comes from the text. */
  lemma {:induction false} WordsAvoid(s: string, c: char)
    requires Free(s, c)
    ensures forall i :: 0 <= i < |Words(s)| ==> Free(Words(s)[i], c)
    decreases |s|
  {
    if s != [] {
      var n := if IsAsciiSpace(s[0]) then 1 else WordEnd(s);
      assert Free(s[n..], c);
      WordsAvoid(s[n..], c);
      assert Free(s[..n], c);
    }
  }

  /** `str::split_whitespace().next().unwrap_or("")`. */
  function FirstWord(s: string): string {
    var t := TrimStart(s, WHITE_SPACE);
    t[..UntilSpace(t)]
  }

  function UntilSpace(s: string): (n: nat)
    ensures n <= |s|
  {
    if s == [] || s[0] in WHITE_SPACE then 0 else 1 + UntilSpace(s[1..])
  }

  predicate NoSpace(s: string) {
    forall i :: 0 <= i < |s| ==> s[i] !in WHITE_SPACE
  }

  predicate AllSpace(s: string) {
    forall i :: 0 <= i < |s| ==> s[i] in WHITE_SPACE
  }

  lemma {:induction false} TrimStartOf(gap: string, s: string, cs: set<char>)
    requires (forall i :: 0 <= i < |gap| ==> gap[i] in cs) && (s == [] || s[0] !in cs)
    ensures TrimStart(gap + s, cs) == s
  {
    if gap == [] {
      assert gap + s == s;
    } else {
      assert (gap + s)[0] == gap[0] && (gap + s)[1..] == gap[1..] + s;
      TrimStartOf(gap[1..], s, cs);
    }
  }

  lemma {:induction false} TrimEndOf(s: string, gap: string, cs: set<char>)
    requires (forall i :: 0 <= i < |gap| ==> gap[i] in cs) && (s == [] || s[|s| - 1] !in cs)
    ensures TrimEnd(s + gap, cs) == s
  {
    var n := |gap| - 1;
    if gap == [] {
      assert s + gap == s;
    } else {
      assert (s + gap)[|s| + n] == gap[n] && (s + gap)[..|s| + n] == s + gap[..n];
      TrimEndOf(s, gap[..n], cs);
    }
  }

  /** Trimming takes the white space at both ends and nothing else. */
  lemma TrimOf(before: string, s: string, after: string)
    requires AllSpace(before) && AllSpace(after) && s != [] && NoSpace(s)
    ensures Trim(before + s + after) == s
  {
    hide TrimStart, TrimEnd;
    assert (s + after)[0] == s[0];
    assert before + s + after == before + (s + after);
    TrimStartOf(before, s + after, WHITE_SPACE);
    TrimEndOf(s, after, WHITE_SPACE);
  }

  lemma {:induction false} UntilSpaceOf(word: string, rest: string)
    requires NoSpace(word) && (rest == [] || rest[0] in WHITE_SPACE)
    ensures UntilSpace(word + rest) == |word|
  {
    if word == [] {
      assert word + rest == rest;
    } else {
      assert (word + rest)[0] == word[0] && (word + rest)[1..] == word[1..] + rest;
      UntilSpaceOf(word[1..], rest);
    }
  }

  /** The first word ends at the first white space. */
  lemma FirstWordOf(gap: string, word: string, rest: string)
    requires AllSpace(gap) && word != [] && NoSpace(word) && (rest == [] || rest[0] in WHITE_SPACE)
    ensures FirstWord(gap + word + rest) == word
  {
    hide TrimStart, UntilSpace;
    assert (word + rest)[0] == word[0];
    assert gap + word + rest == gap + (word + rest);
    TrimStartOf(gap, word + rest, WHITE_SPACE);
    UntilSpaceOf(word, rest);
    assert (word + rest)[..|word|] == word;
  }

  // ---------- replacing a character ----------

  /** `str::replace` of one character by a string. */
  function Replace(s: string, c: char, sub: string): string {
    if s == [] then [] else (if s[0] == c then sub else [s[0]]) + Replace(s[1..], c, sub)
  }

  lemma {:induction false} ReplaceConcat(a: string, b: string, c: char, sub: string)
    ensures Replace(a + b, c, sub) == Replace(a, c, sub) + Replace(b, c, sub)
  {
    if a == [] {
      assert a + b == b;
    } else {
      assert (a + b)[1..] == a[1..] + b;
      ReplaceConcat(a[1..], b, c, sub);
    }
  }

  lemma {:induction false} ReplaceFree(s: string, c: char, sub: string)
    requires Free(s, c)
    ensures Replace(s, c, sub) == s
  {
    if s != [] {
      ReplaceFree(s[1..], c, sub);
    }
  }

  // ---------- lines ----------

  /** Drop one carriage return in front of a line feed. */
  function ChompReturn(line: string): string {
    if line != [] && line[|line| - 1] == '\r' then line[..|line| - 1] else line
  }

  /**
   `str::lines`: every line feed ends a line and takes one carriage return in
   front of it along; a last line without a line feed is kept whole.
   */
  function Lines(s: string): (lines: seq<string>)
    ensures forall i :: 0 <= i < |lines| ==> Free(lines[i], '\n')
    decreases |s|
  {
    if s == [] then
      []
    else
      match SplitOnce(s, '\n')
      case None => [s]
      case Some((line, rest)) => [ChompReturn(line)] + Lines(rest)
  }

  /** Every line followed by a line feed. */
  function Unlines(lines: seq<string>): string {
    if lines == [] then [] else lines[0] + "\n" + Unlines(lines[1..])
  }

  /** Lines are determined by the text they make. */
  lemma {:induction false} UnlinesInjective(xs: seq<string>, ys: seq<string>)
    requires forall i :: 0 <= i < |xs| ==> Free(xs[i], '\n')
    requires forall i :: 0 <= i < |ys| ==> Free(ys[i], '\n')
    requires Unlines(xs) == Unlines(ys)
    ensures xs == ys
  {
    if xs != [] && ys != [] {
      var rx, ry := Unlines(xs[1..]), Unlines(ys[1..]);
      assert Unlines(xs) == xs[0] + ['\n'] + rx;
      assert Unlines(ys) == ys[0] + ['\n'] + ry;
      SplitOnceAt(xs[0], '\n', rx);
      SplitOnceAt(ys[0], '\n', ry);
      UnlinesInjective(xs[1..], ys[1..]);
      assert xs == [xs[0]] + xs[1..] && ys == [ys[0]] + ys[1..];
    }
  }

  lemma LinesCons(line: string, rest: string)
    requires Free(line, '\n')
    ensures Lines(line + ['\n'] + rest) == [ChompReturn(line)] + Lines(rest)
  {
    SplitOnceAt(line, '\n', rest);
  }

  /** A text with a line feed is its first line and the rest. */
  lemma CutLine(s: string) returns (line: string, rest: string)
    requires !Free(s, '\n')
    ensures s == line + ['\n'] + rest && Free(line, '\n')
    ensures if rest == [] then s[|s| - 1] == '\n' else rest[|rest| - 1] == s[|s| - 1]
  {
    line, rest := SplitOnce(s, '\n').value.0, SplitOnce(s, '\n').value.1;
  }

  lemma LastIsNotFree(s: string, c: char)
    requires s != [] && s[|s| - 1] == c
    ensures !Free(s, c)
  {
  }

  lemma {:induction false} LinesConcat(a: string, b: string)
    requires a == [] || a[|a| - 1] == '\n'
    ensures Lines(a + b) == Lines(a) + Lines(b)
    decreases |a|
  {
    hide Lines, Free;
    if a == [] {
      assert a + b == b;
      LinesOfNothing();
    } else {
      LastIsNotFree(a, '\n');
      var line, rest := CutLine(a);
      assert a + b == line + ['\n'] + (rest + b);
      LinesCons(line, rest);
      LinesCons(line, rest + b);
      LinesConcat(rest, b);
    }
  }

  lemma LinesOfNothing()
    ensures Lines([]) == []
  {
  }

  lemma LinesOfOne(s: string)
    requires s != [] && Free(s, '\n')
    ensures Lines(s) == [s]
  {
  }

  lemma {:induction false} LinesOfUnlines(rows: seq<string>)
    requires forall i :: 0 <= i < |rows| ==> Free(rows[i], '\n')
    ensures |Lines(Unlines(rows))| == |rows|
    ensures forall i :: 0 <= i < |rows| ==> Lines(Unlines(rows))[i] == ChompReturn(rows[i])
  {
    if rows == [] {
      LinesOfNothing();
    } else {
      var tail := Unlines(rows[1..]);
      assert Unlines(rows) == rows[0] + ['\n'] + tail;
      hide Lines, Unlines, ChompReturn, Free;
      LinesOfUnlines(rows[1..]);
      LinesCons(rows[0], tail);
      assert forall i :: 1 <= i < |rows| ==> rows[i] == rows[1..][i - 1];
    }
  }

  lemma {:induction false} UnlinesConcat(xs: seq<string>, ys: seq<string>)
    ensures Unlines(xs + ys) == Unlines(xs) + Unlines(ys)
  {
    if xs == [] {
      assert xs + ys == ys;
    } else {
      assert (xs + ys)[1..] == xs[1..] + ys;
      UnlinesConcat(xs[1..], ys);
    }
  }

  lemma UnlinesEndsLine(lines: seq<string>)
    requires lines != []
    ensures Unlines(lines) != [] && Unlines(lines)[|Unlines(lines)| - 1] == '\n'
  {
    if |lines| > 1 {
      UnlinesEndsLine(lines[1..]);
    }
  }

  /** Putting a text in front of the first line, when it holds no break itself. */
  lemma LinesAfter(h: string, s: string)
    requires Free(h, '\n') && Free(h, '\r') && !Free(s, '\n')
    ensures Lines(s) != [] && Lines(h + s) == [h + Lines(s)[0]] + Lines(s)[1..]
  {
    var line, rest := CutLine(s);
    hide Lines, Free, ChompReturn;
    LinesCons(line, rest);
    LinesAfterCut(h, line, rest);
    assert ([ChompReturn(line)] + Lines(rest))[1..] == Lines(rest);
  }

  lemma LinesAfterCut(h: string, line: string, rest: string)
    requires Free(h, '\n') && Free(h, '\r') && Free(line, '\n')
    ensures Lines(h + (line + ['\n'] + rest)) == [h + ChompReturn(line)] + Lines(rest)
  {
    hide Lines, Free, ChompReturn;
    FreeConcat(h, line, '\n');
    ChompAfter(h, line);
    LinesCons(h + line, rest);
    assert h + (line + ['\n'] + rest) == h + line + ['\n'] + rest;
  }

  lemma ChompAfter(h: string, line: string)
    requires Free(h, '\r')
    ensures ChompReturn(h + line) == h + ChompReturn(line)
  {
  }

  /** A final line feed adds no line. */
  lemma {:induction false} LinesIgnoreLastFeed(s: string)
    requires s != [] && s[|s| - 1] !in {'\n', '\r'}
    ensures Lines(s + "\n") == Lines(s)
    decreases |s|
  {
    hide Lines, Free;
    if Free(s, '\n') {
      LinesOfOne(s);
      LinesOfNothing();
      assert s + "\n" == s + ['\n'] + [];
      LinesCons(s, []);
      assert [s] + [] == [s];
    } else {
      var line, rest := CutLine(s);
      LinesIgnoreLastFeed(rest);
      LinesCons(line, rest);
      assert s + "\n" == line + ['\n'] + (rest + "\n");
      LinesCons(line, rest + "\n");
    }
  }

  predicate ReturnFeedAt(s: string, i: int) {
    0 <= i < |s| - 1 && s[i] == '\r' && s[i + 1] == '\n'
  }

  predicate HoldsReturnFeed(s: string) {
    exists i :: 0 <= i < |s| && ReturnFeedAt(s, i)
  }

  lemma ReturnFeedShifts(line: string, rest: string, i: nat)
    ensures ReturnFeedAt(line + ['\n'] + rest, |line| + 1 + i) <==> ReturnFeedAt(rest, i)
  {
    var s := line + ['\n'] + rest;
    assert i < |rest| ==> s[|line| + 1 + i] == rest[i];
    assert i < |rest| - 1 ==> s[|line| + 1 + i + 1] == rest[i + 1];
  }

  lemma ReturnFeedEndsLine(line: string, rest: string, i: nat)
    requires Free(line, '\n') && i <= |line|
    ensures ReturnFeedAt(line + ['\n'] + rest, i) <==> i == |line| - 1 && ChompReturn(line) != line
  {
    var s := line + ['\n'] + rest;
    assert s[|line|] == '\n';
    assert i < |line| ==> s[i] == line[i];
    assert i < |line| - 1 ==> s[i + 1] == line[i + 1];
  }

  lemma ReturnFeedInFirstLine(line: string, rest: string)
    requires Free(line, '\n')
    ensures HoldsReturnFeed(line + ['\n'] + rest) <==> ChompReturn(line) != line || HoldsReturnFeed(rest)
  {
    var s := line + ['\n'] + rest;
    hide ReturnFeedAt, Free;
    if ChompReturn(line) != line {
      ReturnFeedEndsLine(line, rest, |line| - 1);
    }
    if i :| 0 <= i < |rest| && ReturnFeedAt(rest, i) {
      ReturnFeedShifts(line, rest, i);
    }
    if i :| 0 <= i < |s| && ReturnFeedAt(s, i) {
      if i <= |line| {
        ReturnFeedEndsLine(line, rest, i);
      } else {
        ReturnFeedShifts(line, rest, i - |line| - 1);
      }
    }
  }

  /** The text with a line feed at its end. */
  function Ended(s: string): string {
    if s == [] || s[|s| - 1] == '\n' then s else s + "\n"
  }

  /** A text is its lines exactly when it holds no carriage return in front of a line feed. */
  lemma {:induction false} UnlinesUndoesLines(s: string)
    ensures |Unlines(Lines(s))| <= |Ended(s)|
    ensures Unlines(Lines(s)) == Ended(s) <==> !HoldsReturnFeed(s)
    decreases |s|
  {
    hide Lines, Unlines, Free, HoldsReturnFeed;
    NoLines();
    if s == [] {
      LinesOfNothing();
      NoReturnFeed(s);
    } else if Free(s, '\n') {
      LinesOfOne(s);
      UnlinesCons(s, []);
      NoReturnFeed(s);
      assert s[|s| - 1] != '\n' by { if s[|s| - 1] == '\n' { LastIsNotFree(s, '\n'); } }
      assert [s] + [] == [s] && s + "\n" + [] == s + "\n";
    } else {
      var line, rest := CutLine(s);
      UnlinesUndoesLines(rest);
      LinesCons(line, rest);
      UnlinesCons(ChompReturn(line), Lines(rest));
      ReturnFeedInFirstLine(line, rest);
      SameEnds(line, Unlines(Lines(rest)), Ended(rest));
      assert Ended(s) == line + ['\n'] + Ended(rest);
      assert ChompReturn(line) + "\n" + Unlines(Lines(rest)) == ChompReturn(line) + ['\n'] + Unlines(Lines(rest));
    }
  }

  lemma NoReturnFeed(s: string)
    requires Free(s, '\n')
    ensures !HoldsReturnFeed(s)
  {
  }

  lemma SameEnds(line: string, x: string, y: string)
    ensures line + ['\n'] + x == line + ['\n'] + y <==> x == y
  {
    var n := |line| + 1;
    assert (line + ['\n'] + x)[n..] == x && (line + ['\n'] + y)[n..] == y;
  }

  lemma NoLines()
    ensures Unlines([]) == []
  {
  }

  lemma UnlinesCons(line: string, lines: seq<string>)
    ensures Unlines([line] + lines) == line + "\n" + Unlines(lines)
  {
    assert ([line] + lines)[1..] == lines;
  }

  // ---------- searching ----------

  predicate StartsWith(s: string, prefix: string) {
    prefix <= s
  }

  lemma TailSuffixes(s: string)
    requires s != []
    ensures forall i :: 1 <= i <= |s| ==> s[i..] == s[1..][i - 1..]
  {
  }

  /** `str::find`: where the first occurrence of `needle` starts. */
  function Find(s: string, needle: string): (r: Option<nat>)
    ensures r.Some? ==> r.value + |needle| <= |s| && needle <= s[r.value..]
    ensures r.Some? ==> forall i :: 0 <= i < r.value ==> !(needle <= s[i..])
    ensures r.None? ==> forall i :: 0 <= i <= |s| ==> !(needle <= s[i..])
  {
    if needle <= s then
      assert s[0..] == s;
      Some(0)
    else if s == [] then
      None
    else
      TailSuffixes(s);
      assert s[0..] == s;
      match Find(s[1..], needle)
      case None => None
      case Some(k) => Some(k + 1)
  }
}
