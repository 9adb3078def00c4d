/** Whitespace handling of JSX text children (`jsx_text_to_string`).
    The source strips a leading and a trailing whitespace run with the
    regular expressions `^\s*\n\s*` and `\s*\n\s*$` (Unicode `\s`), then
    re-joins the words found by `split_ascii_whitespace` with single spaces. */
module JsxText {

  /** `\s` of the regex crate: the Unicode White_Space property. */
  predicate IsRegexSpace(c: char) {
    || ('\t' <= c <= '\r')
    || c == ' ' || c == '\U{0085}' || c == '\U{00A0}' || c == '\U{1680}'
    || ('\U{2000}' <= c <= '\U{200A}')
    || c == '\U{2028}' || c == '\U{2029}' || c == '\U{202F}' || c == '\U{205F}'
    || c == '\U{3000}'
  }

  /** `char::is_ascii_whitespace`: space, tab, line feed, form feed, carriage
      return (not the vertical tab). */
  predicate IsAsciiWhitespace(c: char) {
    c == ' ' || c == '\t' || c == '\n' || c == '\U{000C}' || c == '\r'
  }

  lemma AsciiWhitespaceIsRegexSpace(c: char)
    ensures IsAsciiWhitespace(c) ==> IsRegexSpace(c)
  {
  }

  /** Length of the maximal run of `\s` characters at the start of `s`. */
  function LeadingRun(s: string): (k: nat)
    ensures k <= |s|
  {
    if s == [] || !IsRegexSpace(s[0]) then 0 else 1 + LeadingRun(s[1..])
  }

  lemma {:induction false} LeadingRunIsMaximal(s: string)
    ensures forall i :: 0 <= i < LeadingRun(s) ==> IsRegexSpace(s[i])
    ensures LeadingRun(s) < |s| ==> !IsRegexSpace(s[LeadingRun(s)])
  {
    if s != [] && IsRegexSpace(s[0]) {
      LeadingRunIsMaximal(s[1..]);
    }
  }

  /** Length of the maximal run of `\s` characters at the end of `s`. */
  function TrailingRun(s: string): (k: nat)
    ensures k <= |s|
  {
    if s == [] || !IsRegexSpace(s[|s| - 1]) then 0 else 1 + TrailingRun(s[..|s| - 1])
  }

  lemma {:induction false} TrailingRunIsMaximal(s: string)
    ensures forall i :: |s| - TrailingRun(s) <= i < |s| ==> IsRegexSpace(s[i])
    ensures TrailingRun(s) < |s| ==> !IsRegexSpace(s[|s| - TrailingRun(s) - 1])
  {
    if s != [] && IsRegexSpace(s[|s| - 1]) {
      TrailingRunIsMaximal(s[..|s| - 1]);
    }
  }

  /** `j` is the length of the maximal run of `\s` characters at the start
      of `s`: what a greedy `^\s*` consumes. */
  predicate IsLeadingSpaceRun(s: string, j: nat) {
    j <= |s| && (forall i :: 0 <= i < j ==> IsRegexSpace(s[i])) && (j == |s| || !IsRegexSpace(s[j]))
  }

  /** `j` is the length of the maximal run of `\s` characters at the end of
      `s`: what a greedy `\s*$` consumes. */
  predicate IsTrailingSpaceRun(s: string, j: nat) {
    j <= |s| && (forall i :: |s| - j <= i < |s| ==> IsRegexSpace(s[i])) &&
    (j == |s| || !IsRegexSpace(s[|s| - j - 1]))
  }

  /** The maximal leading run is unique, and `LeadingRun` computes it. */
  lemma LeadingRunIsTheRun(s: string)
    ensures IsLeadingSpaceRun(s, LeadingRun(s))
    ensures forall j: nat :: IsLeadingSpaceRun(s, j) ==> j == LeadingRun(s)
  {
    LeadingRunIsMaximal(s);
  }

  /** The maximal trailing run is unique, and `TrailingRun` computes it. */
  lemma TrailingRunIsTheRun(s: string)
    ensures IsTrailingSpaceRun(s, TrailingRun(s))
    ensures forall j: nat :: IsTrailingSpaceRun(s, j) ==> j == TrailingRun(s)
  {
    TrailingRunIsMaximal(s);
  }

  /** `SPACE_NL_START.replace_all(s, "")`, the pattern `^\s*\n\s*`: the
      result is a suffix of `s`; what is removed is the whole leading `\s`
      run and holds a newline; nothing is removed only when the leading run
      holds no newline. */
  function StripLeadingNewlineRun(s: string): (r: string)
    ensures |r| <= |s| && r == s[|s| - |r|..]
    ensures |r| < |s| ==> IsLeadingSpaceRun(s, |s| - |r|) && '\n' in s[..|s| - |r|]
    ensures |r| == |s| ==> forall j: nat :: IsLeadingSpaceRun(s, j) ==> '\n' !in s[..j]
  {
    LeadingRunIsTheRun(s);
    var k := LeadingRun(s);
    if '\n' in s[..k] then s[k..] else s
  }

  /** `SPACE_NL_END.replace_all(s, "")`, the pattern `\s*\n\s*$`: the result
      is a prefix of `s`; what is removed is the whole trailing `\s` run and
      holds a newline; nothing is removed only when the trailing run holds no
      newline. */
  function StripTrailingNewlineRun(s: string): (r: string)
    ensures |r| <= |s| && r == s[..|r|]
    ensures |r| < |s| ==> IsTrailingSpaceRun(s, |s| - |r|) && '\n' in s[|r|..]
    ensures |r| == |s| ==> forall j: nat :: IsTrailingSpaceRun(s, j) ==> '\n' !in s[|s| - j..]
  {
    TrailingRunIsTheRun(s);
    var k := TrailingRun(s);
    if '\n' in s[|s| - k..] then s[..|s| - k] else s
  }

  /** Length of the word (run of non-ASCII-whitespace) at the start of `s`. */
  function WordLength(s: string): (k: nat)
    ensures k <= |s|
    ensures |s| > 0 && !IsAsciiWhitespace(s[0]) ==> k > 0
  {
    if s == [] || IsAsciiWhitespace(s[0]) then 0 else 1 + WordLength(s[1..])
  }

  lemma {:induction false} WordLengthIsMaximal(s: string)
    ensures forall i :: 0 <= i < WordLength(s) ==> !IsAsciiWhitespace(s[i])
    ensures WordLength(s) < |s| ==> IsAsciiWhitespace(s[WordLength(s)])
  {
    if s != [] && !IsAsciiWhitespace(s[0]) {
      WordLengthIsMaximal(s[1..]);
    }
  }

  /** `str::split_ascii_whitespace`: the non-empty maximal runs of
      non-ASCII-whitespace characters, in order. */
  function Words(s: string): (ws: seq<string>)
    decreases |s|
  {
    if s == [] then []
    else if IsAsciiWhitespace(s[0]) then Words(s[1..])
    else
      var k := WordLength(s);
      [s[..k]] + Words(s[k..])
  }

  /** A word as `split_ascii_whitespace` yields it. */
  ghost predicate IsWord(w: string) {
    |w| > 0 && forall i :: 0 <= i < |w| ==> !IsAsciiWhitespace(w[i])
  }

  /** The words joined with one space between neighbours. */
  function Join(ws: seq<string>): string {
    if |ws| == 0 then ""
    else if |ws| == 1 then ws[0]
    else Join(ws[..|ws| - 1]) + " " + ws[|ws| - 1]
  }

  /** The text once both newline-bearing whitespace runs are stripped. */
  function Trimmed(t: string): string {
    StripTrailingNewlineRun(StripLeadingNewlineRun(t))
  }

  /** The words of `s` joined by single spaces, keeping one leading and one
      trailing space when `s` starts or ends with a space. */
  function Rejoined(s: string): string {
    var buf := (if |s| > 0 && s[0] == ' ' then " " else "") + Join(Words(s));
    if |s| > 0 && s[|s| - 1] == ' ' && !(|buf| > 0 && buf[|buf| - 1] == ' ') then buf + " " else buf
  }

  lemma JoinSnoc(ws: seq<string>, w: string)
    ensures Join(ws + [w]) == if |ws| == 0 then w else Join(ws) + " " + w
  {
    assert (ws + [w])[..|ws|] == ws;
  }

  /** The string `jsx_text_to_string` returns for the text `t`. */
  function CollapsedText(t: string): string {
    if t == " " then t
    else if ' ' !in t && '\n' !in t then t
    else Rejoined(Trimmed(t))
  }

  /** `jsx_text_to_string`: strips the newline-bearing whitespace runs, then
      rebuilds the text word by word. */
  method JsxTextToString(t: string) returns (r: string)
    ensures r == CollapsedText(t)
  {
    if t == " " {
      return t;
    }
    if ' ' !in t && '\n' !in t {
      return t;
    }
    var s := Trimmed(t);
    r := RejoinWords(s);
  }

  /** The body of `jsx_text_to_string` after stripping: an optional leading
      space, the words separated by one space, an optional trailing space. */
  method RejoinWords(s: string) returns (buf: string)
    ensures buf == Rejoined(s)
  {
    var needLeadingSpace := |s| > 0 && s[0] == ' ';
    var needTrailingSpace := |s| > 0 && s[|s| - 1] == ' ';
    buf := if needLeadingSpace then " " else "";
    buf := PushWords(buf, Words(s));
    if needTrailingSpace && !(|buf| > 0 && buf[|buf| - 1] == ' ') {
      buf := buf + " ";
    }
  }

  /** The `identify_last` loop: pushes each word, and a space after every
      word but the last. */
  method PushWords(lead: string, words: seq<string>) returns (buf: string)
    ensures buf == lead + Join(words)
  {
    buf := lead;
    var i := 0;
    while i < |words|
      invariant 0 <= i <= |words|
      invariant buf == lead + Join(words[..i]) + (if 0 < i < |words| then " " else "")
    {
      PushWordStep(lead, words, i);
      buf := buf + words[i];
      var last := i + 1 == |words|;
      if !last {
        buf := buf + " ";
      }
      i := i + 1;
    }
    assert words[..|words|] == words;
  }

  /** One turn of the `identify_last` loop: the pending space, the word,
      then a space unless the word is the last. */
  lemma PushWordStep(lead: string, words: seq<string>, i: nat)
    requires i < |words|
    ensures lead + Join(words[..i]) + (if 0 < i then " " else "") + words[i] + (if i + 1 < |words| then " " else "")
         == lead + Join(words[..i + 1]) + (if 0 < i + 1 < |words| then " " else "")
  {
    JoinSnoc(words[..i], words[i]);
    assert words[..i + 1] == words[..i] + [words[i]];
  }

  // ---------------------------------------------------------------------
  // Properties of the collapsed text

  ghost predicate NoDoubleSpace(s: string) {
    forall i :: 0 <= i < |s| - 1 ==> !(s[i] == ' ' && s[i + 1] == ' ')
  }

  lemma {:induction false} WordsAreWords(s: string)
    ensures forall j :: 0 <= j < |Words(s)| ==> IsWord(Words(s)[j])
    decreases |s|
  {
    if s == [] {
    } else if IsAsciiWhitespace(s[0]) {
      WordsAreWords(s[1..]);
    } else {
      var k := WordLength(s);
      WordLengthIsMaximal(s);
      WordsAreWords(s[k..]);
    }
  }

  lemma {:induction false} JoinShape(ws: seq<string>)
    requires forall j :: 0 <= j < |ws| ==> IsWord(ws[j])
    ensures NoDoubleSpace(Join(ws))
    ensures |ws| > 0 ==> |Join(ws)| > 0 && Join(ws)[0] != ' ' && Join(ws)[|Join(ws)| - 1] != ' '
  {
    if |ws| <= 1 {
    } else {
      var init := ws[..|ws| - 1];
      JoinShape(init);
      var a, w := Join(init), ws[|ws| - 1];
      assert IsWord(w);
      assert Join(ws) == a + " " + w;
      assert a[|a| - 1] != ' ' && w[0] != ' ';
      forall i | 0 <= i < |Join(ws)| - 1
        ensures !(Join(ws)[i] == ' ' && Join(ws)[i + 1] == ' ')
      {
        if i < |a| - 1 {
          assert Join(ws)[i] == a[i] && Join(ws)[i + 1] == a[i + 1];
        } else if i == |a| - 1 {
          assert Join(ws)[i] == a[|a| - 1];
        } else if i == |a| {
          assert Join(ws)[i + 1] == w[0];
        } else {
          assert Join(ws)[i] == w[i - |a| - 1];
        }
      }
    }
  }

  lemma RejoinedHasNoDoubleSpace(s: string)
    ensures NoDoubleSpace(Rejoined(s))
  {
    var ws := Words(s);
    WordsAreWords(s);
    JoinShape(ws);
    var j := Join(ws);
    var lead := if |s| > 0 && s[0] == ' ' then " " else "";
    var buf := lead + j;
    assert NoDoubleSpace(buf) by {
      if lead == " " && |j| > 0 {
        forall i | 0 <= i < |buf| - 1 ensures !(buf[i] == ' ' && buf[i + 1] == ' ') {
          if i == 0 {
            assert buf[1] == j[0];
          } else {
            assert buf[i] == j[i - 1] && buf[i + 1] == j[i];
          }
        }
      }
    }
    if |s| > 0 && s[|s| - 1] == ' ' && !(|buf| > 0 && buf[|buf| - 1] == ' ') {
      var r := buf + " ";
      forall i | 0 <= i < |r| - 1 ensures !(r[i] == ' ' && r[i + 1] == ' ') {
        if i < |buf| - 1 {
          assert r[i] == buf[i] && r[i + 1] == buf[i + 1];
        } else {
          assert r[i] == buf[|buf| - 1];
        }
      }
    }
  }

  /** The collapsed text never holds two adjacent spaces. */
  lemma CollapsedHasNoDoubleSpace(t: string)
    ensures NoDoubleSpace(CollapsedText(t))
  {
    if t == " " {
    } else if ' ' !in t && '\n' !in t {
      forall i | 0 <= i < |t| - 1 ensures t[i] != ' ' {
        assert t[i] in t;
      }
    } else {
      RejoinedHasNoDoubleSpace(Trimmed(t));
    }
  }

  /** Text made only of whitespace that includes a line break is pure
      indentation: it collapses to the empty string (and the child is dropped). */
  lemma IndentationCollapsesToEmpty(t: string)
    requires forall i :: 0 <= i < |t| ==> IsRegexSpace(t[i])
    requires '\n' in t
    ensures CollapsedText(t) == ""
  {
    var k := LeadingRun(t);
    LeadingRunIsMaximal(t);
    assert k == |t|;
    assert t[..k] == t;
    assert StripLeadingNewlineRun(t) == [];
  }

  // Word preservation

  /** No character of `t` is a `\s` character that `split_ascii_whitespace`
      would keep inside a word (vertical tab, no-break space, ...). */
  ghost predicate OnlyAsciiSpaces(t: string) {
    forall i :: 0 <= i < |t| ==> IsRegexSpace(t[i]) ==> IsAsciiWhitespace(t[i])
  }

  lemma {:induction false} WordsSkipsSpaces(w: string, x: string)
    requires forall i :: 0 <= i < |w| ==> IsAsciiWhitespace(w[i])
    ensures Words(w + x) == Words(x)
    decreases |w|
  {
    if w != [] {
      var s := w + x;
      assert IsAsciiWhitespace(w[0]);
      assert s[0] == w[0] && s != [];
      assert s[1..] == w[1..] + x;
      assert Words(s) == Words(s[1..]);
      WordsSkipsSpaces(w[1..], x);
    } else {
      assert w + x == x;
    }
  }

  lemma {:induction false} WordLengthStopsAtSpace(a: string, c: char, b: string)
    requires IsAsciiWhitespace(c)
    ensures WordLength(a + [c] + b) == WordLength(a)
    decreases |a|
  {
    if a != [] && !IsAsciiWhitespace(a[0]) {
      assert (a + [c] + b)[1..] == a[1..] + [c] + b;
      WordLengthStopsAtSpace(a[1..], c, b);
    }
  }

  /** One whitespace character separates the words on its two sides. */
  lemma {:induction false} WordsSplitAtSpace(a: string, c: char, b: string)
    requires IsAsciiWhitespace(c)
    ensures Words(a + [c] + b) == Words(a) + Words(b)
    decreases |a|
  {
    var s := a + [c] + b;
    if a == [] {
      assert s == [c] + b;
      assert s[1..] == b;
    } else if IsAsciiWhitespace(a[0]) {
      assert s[1..] == a[1..] + [c] + b;
      WordsSplitAtSpace(a[1..], c, b);
    } else {
      var k := WordLength(a);
      WordsSplitAtSpace(a[k..], c, b);
      WordsSplitAtSpaceStep(a, c, b);
    }
  }

  /** The step of `WordsSplitAtSpace` when `a` starts with a word. */
  lemma WordsSplitAtSpaceStep(a: string, c: char, b: string)
    requires IsAsciiWhitespace(c) && a != [] && !IsAsciiWhitespace(a[0])
    requires Words(a[WordLength(a)..] + [c] + b) == Words(a[WordLength(a)..]) + Words(b)
    ensures Words(a + [c] + b) == Words(a) + Words(b)
  {
    var s := a + [c] + b;
    var k := WordLength(a);
    WordLengthStopsAtSpace(a, c, b);
    SlicesAroundSpace(a, c, b, k);
    calc {
      Words(s);
      [s[..k]] + Words(s[k..]);
      [a[..k]] + Words(a[k..] + [c] + b);
      [a[..k]] + (Words(a[k..]) + Words(b));
      ([a[..k]] + Words(a[k..])) + Words(b);
      Words(a) + Words(b);
    }
  }

  lemma SlicesAroundSpace(a: string, c: char, b: string, k: nat)
    requires k <= |a|
    ensures (a + [c] + b)[..k] == a[..k] && (a + [c] + b)[k..] == a[k..] + [c] + b
    ensures |a| > 0 ==> (a + [c] + b)[0] == a[0]
  {
  }

  lemma WordsOfWord(w: string)
    requires IsWord(w)
    ensures Words(w) == [w]
  {
    var k := WordLength(w);
    WordLengthIsMaximal(w);
    assert k == |w|;
    assert w[..k] == w;
    assert w[k..] == [];
    assert Words(w) == [w[..k]] + Words(w[k..]);
  }

  lemma {:induction false} WordsOfJoin(ws: seq<string>)
    requires forall j :: 0 <= j < |ws| ==> IsWord(ws[j])
    ensures Words(Join(ws)) == ws
  {
    if |ws| == 0 {
    } else if |ws| == 1 {
      WordsOfWord(ws[0]);
    } else {
      var init := ws[..|ws| - 1];
      WordsOfJoin(init);
      WordsOfWord(ws[|ws| - 1]);
      WordsSplitAtSpace(Join(init), ' ', ws[|ws| - 1]);
      assert Join(init) + " " + ws[|ws| - 1] == Join(init) + [' '] + ws[|ws| - 1];
      assert init + [ws[|ws| - 1]] == ws;
    }
  }

  lemma WordsDropTrailingSpaces(x: string, w: string)
    requires forall i :: 0 <= i < |w| ==> IsAsciiWhitespace(w[i])
    ensures Words(x + w) == Words(x)
  {
    if w != [] {
      assert IsAsciiWhitespace(w[0]);
      assert x + w == x + [w[0]] + w[1..];
      WordsSplitAtSpace(x, w[0], w[1..]);
      WordsSkipsSpaces(w[1..], []);
      assert w[1..] + [] == w[1..];
    } else {
      assert x + w == x;
    }
  }

  lemma StripLeadingKeepsWords(t: string)
    requires OnlyAsciiSpaces(t)
    ensures Words(StripLeadingNewlineRun(t)) == Words(t)
  {
    var k := LeadingRun(t);
    LeadingRunIsMaximal(t);
    if '\n' in t[..k] {
      var w := t[..k];
      forall i | 0 <= i < |w| ensures IsAsciiWhitespace(w[i]) {
        assert w[i] == t[i] && IsRegexSpace(t[i]);
      }
      assert t == w + t[k..];
      WordsSkipsSpaces(w, t[k..]);
    }
  }

  lemma StripTrailingKeepsWords(t: string)
    requires OnlyAsciiSpaces(t)
    ensures Words(StripTrailingNewlineRun(t)) == Words(t)
  {
    var k := TrailingRun(t);
    TrailingRunIsMaximal(t);
    if '\n' in t[|t| - k..] {
      var w := t[|t| - k..];
      forall i | 0 <= i < |w| ensures IsAsciiWhitespace(w[i]) {
        assert w[i] == t[|t| - k + i] && IsRegexSpace(t[|t| - k + i]);
      }
      assert t == t[..|t| - k] + w;
      WordsDropTrailingSpaces(t[..|t| - k], w);
    }
  }

  lemma TrimmedKeepsWords(t: string)
    requires OnlyAsciiSpaces(t)
    ensures Words(Trimmed(t)) == Words(t)
  {
    var s1 := StripLeadingNewlineRun(t);
    StripLeadingKeepsWords(t);
    assert OnlyAsciiSpaces(s1) by {
      var k := LeadingRun(t);
      if '\n' in t[..k] {
        forall i | 0 <= i < |s1| ensures IsRegexSpace(s1[i]) ==> IsAsciiWhitespace(s1[i]) {
          assert s1[i] == t[k + i];
        }
      }
    }
    StripTrailingKeepsWords(s1);
  }

  lemma RejoinedKeepsWords(s: string)
    ensures Words(Rejoined(s)) == Words(s)
  {
    var ws := Words(s);
    WordsAreWords(s);
    WordsOfJoin(ws);
    var j := Join(ws);
    var lead := if |s| > 0 && s[0] == ' ' then " " else "";
    var buf := lead + j;
    WordsSkipsSpaces(lead, j);
    if |s| > 0 && s[|s| - 1] == ' ' && !(|buf| > 0 && buf[|buf| - 1] == ' ') {
      WordsDropTrailingSpaces(buf, " ");
    }
  }

  /** When every `\s` character of the text is ASCII whitespace, collapsing
      keeps exactly the words of the text, in order. */
  lemma CollapsedKeepsWords(t: string)
    requires OnlyAsciiSpaces(t)
    ensures Words(CollapsedText(t)) == Words(t)
  {
    if t != " " && (' ' in t || '\n' in t) {
      TrimmedKeepsWords(t);
      RejoinedKeepsWords(Trimmed(t));
    }
  }

  lemma TrimExample()
    ensures Trimmed("\n a  b\n") == "a  b"
  {
    var t := "\n a  b\n";
    assert LeadingRun(t[2..]) == 0 by { assert t[2..][0] == 'a'; }
    assert LeadingRun(t[1..]) == 1 by { assert t[1..][1..] == t[2..]; }
    assert LeadingRun(t) == 2;
    assert t[..2][0] == '\n';
    var s1 := t[2..];
    assert StripLeadingNewlineRun(t) == s1;
    assert s1 == "a  b\n";
    assert TrailingRun(s1[..4]) == 0 by { assert s1[3] == 'b'; }
    assert TrailingRun(s1) == 1;
    assert s1[4..][0] == '\n';
    assert StripTrailingNewlineRun(s1) == s1[..4];
  }

  lemma WordsExample()
    ensures Words("a  b") == ["a", "b"]
  {
    var s2 := "a  b";
    assert WordLength(s2[1..]) == 0;
    assert WordLength(s2) == 1;
    assert s2[1..][1..] == s2[2..];
    assert s2[2..][1..] == s2[3..];
    var w := s2[3..];
    assert WordLength(w[1..]) == 0;
    assert WordLength(w) == 1;
    assert w[..1] == "b" && w[1..] == [];
    assert Words(w) == ["b"];
    assert Words(s2[2..]) == Words(w);
    assert Words(s2[1..]) == Words(s2[2..]);
    assert s2[..1] == "a";
  }

  /** A text child laid out over several lines: the indentation around it
      goes and the inner run of spaces becomes one. */
  lemma CollapseExample()
    ensures CollapsedText("\n a  b\n") == "a b"
  {
    var t := "\n a  b\n";
    assert t[1] == ' ' && |t| == 7;
    TrimExample();
    RejoinExample();
  }

  lemma RejoinExample()
    ensures Rejoined("a  b") == "a b"
  {
    WordsExample();
    var ws := ["a", "b"];
    assert ws[..1] == ["a"];
    assert Join(ws) == "a b";
  }

  /** A leading run that holds a line break is removed whole. */
  lemma StripLeadingRun(t: string, a: nat)
    requires IsLeadingSpaceRun(t, a) && '\n' in t[..a]
    ensures StripLeadingNewlineRun(t) == t[a..]
  {
    LeadingRunIsTheRun(t);
  }

  /** A trailing run that holds a line break is removed whole. */
  lemma StripTrailingRun(t: string, b: nat)
    requires IsTrailingSpaceRun(t, b) && '\n' in t[|t| - b..]
    ensures StripTrailingNewlineRun(t) == t[..|t| - b]
  {
    TrailingRunIsTheRun(t);
  }

  /** The runs at the two ends cannot meet once a non-`\s` character lies
      after the leading run. */
  lemma EdgeRunsApart(t: string, a: nat, b: nat)
    requires IsLeadingSpaceRun(t, a) && IsTrailingSpaceRun(t, b) && a < |t|
    ensures a + b < |t|
  {
    assert !IsRegexSpace(t[a]);
  }

  /** Dropping a prefix shorter than what precedes the trailing run keeps it. */
  lemma SuffixKeepsTrailingRun(t: string, a: nat, b: nat)
    requires IsTrailingSpaceRun(t, b) && a + b < |t|
    ensures IsTrailingSpaceRun(t[a..], b) && t[a..][|t| - a - b..] == t[|t| - b..]
  {
    var s1 := t[a..];
    forall i | |s1| - b <= i < |s1| ensures IsRegexSpace(s1[i]) {
      assert s1[i] == t[a + i];
    }
    assert s1[|s1| - b - 1] == t[|t| - b - 1];
  }

  /** With both edge runs holding a line break, trimming keeps exactly the
      text between them. */
  lemma TrimmedBetweenRuns(t: string, a: nat, b: nat)
    requires IsLeadingSpaceRun(t, a) && '\n' in t[..a]
    requires IsTrailingSpaceRun(t, b) && '\n' in t[|t| - b..]
    requires a < |t|
    ensures a + b < |t| && Trimmed(t) == t[a..|t| - b]
  {
    EdgeRunsApart(t, a, b);
    StripLeadingRun(t, a);
    SuffixKeepsTrailingRun(t, a, b);
    var s1 := t[a..];
    StripTrailingRun(s1, b);
    TrimmedOfStrips(t, s1, a, b);
  }

  lemma TrimmedOfStrips(t: string, s1: string, a: nat, b: nat)
    requires a + b <= |t| && s1 == t[a..]
    requires StripLeadingNewlineRun(t) == s1
    requires StripTrailingNewlineRun(s1) == s1[..|s1| - b]
    ensures Trimmed(t) == t[a..|t| - b]
  {
    assert s1[..|s1| - b] == t[a..|t| - b];
  }

  /** Non-empty, and neither starting nor ending with a `\s` character. */
  predicate NonSpaceEdges(x: string) {
    |x| > 0 && !IsRegexSpace(x[0]) && !IsRegexSpace(x[|x| - 1])
  }

  /** Non-empty, and neither starting nor ending with a space. */
  predicate NoEdgeSpace(x: string) {
    |x| > 0 && x[0] != ' ' && x[|x| - 1] != ' '
  }

  /** Text whose first and last characters are not `\s` is rejoined without
      an edge space. */
  lemma RejoinedWithoutEdgeSpace(s: string)
    requires NonSpaceEdges(s)
    ensures Rejoined(s) == Join(Words(s))
    ensures NoEdgeSpace(Rejoined(s))
  {
    AsciiWhitespaceIsRegexSpace(s[0]);
    var ws := Words(s);
    assert ws == [s[..WordLength(s)]] + Words(s[WordLength(s)..]);
    WordsAreWords(s);
    JoinShape(ws);
  }

  /** Both edge runs of `t` hold a line break and `t` has a character
      outside them: the text between the runs is what is rejoined, and the
      result has neither a leading nor a trailing space. */
  lemma NewlineEdgesLeaveNoSpace(t: string, a: nat, b: nat)
    requires IsLeadingSpaceRun(t, a) && '\n' in t[..a]
    requires IsTrailingSpaceRun(t, b) && '\n' in t[|t| - b..]
    requires a < |t|
    ensures a + b < |t| && Trimmed(t) == t[a..|t| - b]
    ensures CollapsedText(t) == Join(Words(t[a..|t| - b]))
    ensures NoEdgeSpace(CollapsedText(t))
  {
    TrimmedBetweenRuns(t, a, b);
    var s := t[a..|t| - b];
    EdgeCharsOfMiddle(t, a, b);
    RejoinedWithoutEdgeSpace(s);
    NewlineInText(t, a);
    CollapsedOfTrimmed(t, s);
  }

  lemma EdgeCharsOfMiddle(t: string, a: nat, b: nat)
    requires IsLeadingSpaceRun(t, a) && IsTrailingSpaceRun(t, b) && a + b < |t|
    ensures NonSpaceEdges(t[a..|t| - b])
  {
    assert t[a..|t| - b][0] == t[a];
    assert t[a..|t| - b][|t| - b - a - 1] == t[|t| - b - 1];
  }

  lemma NewlineInText(t: string, a: nat)
    requires a <= |t| && '\n' in t[..a]
    ensures '\n' in t
  {
    var m :| 0 <= m < a && t[..a][m] == '\n';
    assert t[m] == '\n';
  }

  /** Text holding a line break is collapsed by rejoining its trimmed form. */
  lemma CollapsedOfTrimmed(t: string, s: string)
    requires '\n' in t && Trimmed(t) == s
    ensures CollapsedText(t) == Rejoined(s)
  {
    NotSingleSpace(t);
  }

  lemma NotSingleSpace(t: string)
    requires '\n' in t
    ensures t != " "
  {
  }

  lemma SplitOffFirst(w1: string, gap: string, w2: string)
    requires |gap| > 0
    ensures w1 + gap + w2 == w1 + [gap[0]] + (gap[1..] + w2)
  {
    assert gap == [gap[0]] + gap[1..];
  }

  /** Two words with whitespace between them split into exactly those two. */
  lemma WordsOfTwoWords(w1: string, gap: string, w2: string)
    requires IsWord(w1) && IsWord(w2) && |gap| > 0
    requires forall i :: 0 <= i < |gap| ==> IsAsciiWhitespace(gap[i])
    ensures Words(w1 + gap + w2) == [w1, w2]
  {
    SplitOffFirst(w1, gap, w2);
    WordsSplitAtSpace(w1, gap[0], gap[1..] + w2);
    WordsOfWord(w1);
    WordsSkipsSpaces(gap[1..], w2);
    WordsOfWord(w2);
  }

  lemma HelloWorldWords()
    ensures Words("hello   world") == ["hello", "world"]
  {
    assert IsWord("hello") && IsWord("world");
    assert "hello   world" == "hello" + "   " + "world";
    WordsOfTwoWords("hello", "   ", "world");
  }

  lemma JoinHelloWorld()
    ensures Join(["hello", "world"]) == "hello world"
  {
    var ws := ["hello", "world"];
    assert ws[..1] == ["hello"];
    assert Join(ws) == "hello world";
  }

  /** `NewlineEdgesLeaveNoSpace` with the words of the middle given. */
  lemma CollapsedViaWords(t: string, a: nat, b: nat, ws: seq<string>, out: string)
    requires IsLeadingSpaceRun(t, a) && '\n' in t[..a]
    requires IsTrailingSpaceRun(t, b) && '\n' in t[|t| - b..]
    requires a + b < |t| && Words(t[a..|t| - b]) == ws && Join(ws) == out
    ensures CollapsedText(t) == out
  {
    NewlineEdgesLeaveNoSpace(t, a, b);
  }

  lemma IndentedTextLeading(t: string)
    requires t == "  \n   hello   world\n  "
    ensures IsLeadingSpaceRun(t, 6) && '\n' in t[..6]
  {
    assert t[..6][2] == '\n' && t[6] == 'h';
  }

  lemma IndentedTextTrailing(t: string)
    requires t == "  \n   hello   world\n  "
    ensures IsTrailingSpaceRun(t, 3) && '\n' in t[|t| - 3..]
  {
    assert t[|t| - 3..][0] == '\n' && t[18] == 'd';
  }

  lemma IndentedTextMiddle(t: string)
    requires t == "  \n   hello   world\n  "
    ensures |t| == 22 && t[6..|t| - 3] == "hello   world"
  {
  }

  /** Indented text over several lines: the indentation goes and the
      inner run of spaces becomes one. */
  lemma IndentedTextExample(t: string)
    requires t == "  \n   hello   world\n  "
    ensures CollapsedText(t) == "hello world"
  {
    IndentedTextLeading(t);
    IndentedTextTrailing(t);
    IndentedTextMiddle(t);
    HelloWorldWords();
    JoinHelloWorld();
    CollapsedViaWords(t, 6, 3, ["hello", "world"], "hello world");
  }

  /** A text child of exactly one space is kept as is. */
  lemma SingleSpaceKept()
    ensures CollapsedText(" ") == " "
  {
  }
}
