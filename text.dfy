/** The Python 2 byte-string operations the module applies to command output
    and to its options: strip, rstrip, split(';'), split() and splitlines().
    Whitespace is the six ASCII characters Python 2's str.isspace accepts;
    line boundaries are "\n", "\r" and "\r\n". */
module PyText {

  predicate IsSpace(c: char) {
    c == ' ' || c == '\t' || c == '\n' || c == '\r' || c == '\U{0B}' || c == '\U{0C}'
  }

  predicate AllSpace(s: string) {
    forall i :: 0 <= i < |s| ==> IsSpace(s[i])
  }

  predicate NoSpace(s: string) {
    forall i :: 0 <= i < |s| ==> !IsSpace(s[i])
  }

  predicate IsLineBreak(c: char) {
    c == '\n' || c == '\r'
  }

  predicate NoLineBreak(s: string) {
    forall i :: 0 <= i < |s| ==> !IsLineBreak(s[i])
  }

  /** The length of the run of whitespace that starts `s`. */
  function LeadingSpace(s: string): (n: nat)
    ensures n <= |s| && AllSpace(s[..n]) && (n == |s| || !IsSpace(s[n]))
  {
    if s != [] && IsSpace(s[0]) then 1 + LeadingSpace(s[1..]) else 0
  }

  /** The length of the run of whitespace that ends `s`. */
  function TrailingSpace(s: string): (n: nat)
    ensures n <= |s| && AllSpace(s[|s| - n..]) && (n == |s| || !IsSpace(s[|s| - n - 1]))
  {
    if s != [] && IsSpace(s[|s| - 1]) then 1 + TrailingSpace(s[..|s| - 1]) else 0
  }

  /** str.lstrip(): drops the leading whitespace. */
  function LStrip(s: string): string {
    s[LeadingSpace(s)..]
  }

  /** str.rstrip(): drops the trailing whitespace. */
  function RStrip(s: string): string {
    s[..|s| - TrailingSpace(s)]
  }

  /** str.strip(): the part of `s` between its leading and its trailing
      whitespace. */
  function Strip(s: string): (r: string)
    ensures |r| <= |s|
    ensures exists a :: 0 <= a <= |s| && AllSpace(s[..a]) && |r| <= |s[a..]| && r == s[a..][..|r|] && AllSpace(s[a..][|r|..])
    ensures r == [] || (!IsSpace(r[0]) && !IsSpace(r[|r| - 1]))
  {
    var a := LeadingSpace(s);
    assert AllSpace(s[..a]);
    RStrip(LStrip(s))
  }

  /** The first position of `c` in `s`. */
  function IndexOf(s: string, c: char): (i: nat)
    requires c in s
    ensures i < |s| && s[i] == c && c !in s[..i]
  {
    if s[0] == c then 0 else 1 + IndexOf(s[1..], c)
  }

  /** The inverse of str.split(sep): glue the parts back together. */
  function Join(parts: seq<string>, sep: char): string
    requires |parts| >= 1
  {
    if |parts| == 1 then parts[0] else parts[0] + [sep] + Join(parts[1..], sep)
  }

  /** str.split(sep) for a one-character separator. */
  function Split(s: string, sep: char): (parts: seq<string>)
    ensures |parts| >= 1
    ensures forall i :: 0 <= i < |parts| ==> sep !in parts[i]
    decreases |s|
  {
    if sep !in s then [s]
    else
      var i := IndexOf(s, sep);
      [s[..i]] + Split(s[i + 1..], sep)
  }

  /** Joining the parts of a split gives the string back. */
  lemma {:induction false} JoinSplit(s: string, sep: char)
    ensures Join(Split(s, sep), sep) == s
    decreases |s|
  {
    if sep in s {
      var i := IndexOf(s, sep);
      var parts, tail := Split(s, sep), Split(s[i + 1..], sep);
      assert parts == [s[..i]] + tail;
      assert |parts| > 1 && parts[0] == s[..i] && parts[1..] == tail;
      JoinSplit(s[i + 1..], sep);
      assert Join(parts, sep) == s[..i] + [sep] + s[i + 1..];
      assert s == s[..i] + [sep] + s[i + 1..];
    } else {
      assert Split(s, sep) == [s];
    }
  }

  /** Splitting what Join glued gives the parts back, as long as no part
      holds the separator. */
  lemma {:induction false} SplitJoin(parts: seq<string>, sep: char)
    requires |parts| >= 1
    requires forall i :: 0 <= i < |parts| ==> sep !in parts[i]
    ensures Split(Join(parts, sep), sep) == parts
  {
    if |parts| > 1 {
      var s := Join(parts, sep);
      var head := parts[0];
      assert s == head + [sep] + Join(parts[1..], sep);
      assert s[|head|] == sep;
      assert s[..|head|] == head;
      assert IndexOf(s, sep) == |head|;
      assert s[|head| + 1..] == Join(parts[1..], sep);
      SplitJoin(parts[1..], sep);
    }
  }

  /** The first line boundary in `s`. */
  function FirstBreak(s: string): (i: nat)
    requires !NoLineBreak(s)
    ensures i < |s| && IsLineBreak(s[i]) && NoLineBreak(s[..i])
  {
    if IsLineBreak(s[0]) then 0 else 1 + FirstBreak(s[1..])
  }

  /** The position after the line boundary at `i`: "\r\n" counts as one. */
  function AfterBreak(s: string, i: nat): (next: nat)
    requires i < |s| && IsLineBreak(s[i])
    ensures i < next <= |s|
  {
    if s[i] == '\r' && i + 1 < |s| && s[i + 1] == '\n' then i + 2 else i + 1
  }

  /** The boundary at `i` is a line terminator, and a lone "\r" is not
      followed by "\n". */
  lemma BreakIsLineEnd(s: string, i: nat)
    requires i < |s| && IsLineBreak(s[i])
    ensures var next := AfterBreak(s, i);
      && IsLineEnd(s[i..next])
      && (s[i..next] == "\r" && next < |s| ==> s[next] != '\n')
  {
    var next := AfterBreak(s, i);
    if next == i + 2 {
      assert s[i..next] == [s[i], s[i + 1]];
    } else {
      assert s[i..next] == [s[i]];
    }
  }

  /** str.splitlines(): the lines of `s` without their terminators; no
      empty line is produced after a final terminator. */
  function SplitLines(s: string): (lines: seq<string>)
    ensures forall i :: 0 <= i < |lines| ==> NoLineBreak(lines[i])
    ensures |lines| <= |s|
    decreases |s|
  {
    if s == [] then []
    else if NoLineBreak(s) then [s]
    else
      var i := FirstBreak(s);
      [s[..i]] + SplitLines(s[AfterBreak(s, i)..])
  }

  /** A line terminator splitlines() recognises. */
  predicate IsLineEnd(e: string) {
    e == "\n" || e == "\r" || e == "\r\n"
  }

  /** Lines and their terminators as a tool may print them: no line holds a
      line boundary, every line but the last is terminated, the last is
      terminated or is non-empty, and a "\r" is never followed by an empty
      line ended by "\n" (the two would read as one "\r\n"). */
  predicate Layout(lines: seq<string>, ends: seq<string>) {
    && |ends| == |lines|
    && (forall i :: 0 <= i < |lines| ==> NoLineBreak(lines[i]))
    && (forall i :: 0 <= i < |ends| - 1 ==> IsLineEnd(ends[i]))
    && (|ends| > 0 ==> IsLineEnd(ends[|ends| - 1]) || (ends[|ends| - 1] == [] && lines[|lines| - 1] != []))
    && (forall i :: 0 <= i < |ends| - 1 && ends[i] == "\r" && lines[i + 1] == [] ==> ends[i + 1] != "\n")
  }

  /** The text made of every line followed by its terminator. */
  function Glue(lines: seq<string>, ends: seq<string>): string
    requires |ends| == |lines|
  {
    if lines == [] then [] else lines[0] + ends[0] + Glue(lines[1..], ends[1..])
  }

  /** Layout is kept when the first line is taken off. */
  lemma LayoutTail(lines: seq<string>, ends: seq<string>)
    requires Layout(lines, ends) && lines != []
    ensures Layout(lines[1..], ends[1..])
  {
    var ls, es := lines[1..], ends[1..];
    forall i | 0 <= i < |es| - 1 && es[i] == "\r" && ls[i + 1] == [] ensures es[i + 1] != "\n" {
      assert es[i] == ends[i + 1] && ls[i + 1] == lines[i + 2] && es[i + 1] == ends[i + 2];
    }
  }

  /** Text laid out by Layout is non-empty when it has a line. */
  lemma GlueNonEmpty(lines: seq<string>, ends: seq<string>)
    requires Layout(lines, ends) && lines != []
    ensures Glue(lines, ends) != []
    ensures lines[0] == [] ==> Glue(lines, ends)[0] == ends[0][0]
  {
    assert |lines[0]| + |ends[0]| > 0;
  }

  /** A layout whose empty first line does not end in "\n" does not
      start with a "\n". */
  lemma GlueHead(lines: seq<string>, ends: seq<string>)
    requires Layout(lines, ends) && lines != []
    requires lines[0] == [] ==> ends[0] != "\n"
    ensures Glue(lines, ends)[0] != '\n'
  {
    GlueNonEmpty(lines, ends);
    if lines[0] != [] {
      assert Glue(lines, ends)[0] == lines[0][0];
      assert !IsLineBreak(lines[0][0]);
    }
  }

  /** In a layout, what follows a lone "\r" does not start with "\n". */
  lemma AfterLoneReturn(lines: seq<string>, ends: seq<string>)
    requires Layout(lines, ends) && |lines| > 1 && ends[0] == "\r"
    ensures Glue(lines[1..], ends[1..])[0] != '\n'
  {
    LayoutTail(lines, ends);
    assert lines[1] == [] ==> ends[1] != "\n";
    assert lines[1..][0] == lines[1] && ends[1..][0] == ends[1];
    GlueHead(lines[1..], ends[1..]);
  }

  /** A line and its terminator in front of a text: splitlines() splits the
      line off, unless a lone "\r" would join a "\n" that starts the text. */
  lemma SplitLinesCons(l: string, e: string, rest: string)
    requires NoLineBreak(l) && IsLineEnd(e)
    requires e == "\r" && rest != [] ==> rest[0] != '\n'
    ensures SplitLines(l + e + rest) == [l] + SplitLines(rest)
  {
    var s := l + e + rest;
    assert s[|l|] == e[0];
    assert !NoLineBreak(s);
    assert s[..|l|] == l;
    assert FirstBreak(s) == |l|;
    assert s[|l| + |e|..] == rest;
    if e == "\r" && rest != [] {
      assert s[|l| + 1] == rest[0];
    }
  }

  /** splitlines() gives back exactly the lines of any layout. */
  lemma {:induction false} SplitGlue(lines: seq<string>, ends: seq<string>)
    requires Layout(lines, ends)
    ensures SplitLines(Glue(lines, ends)) == lines
  {
    if lines != [] {
      var l, e := lines[0], ends[0];
      var rest := Glue(lines[1..], ends[1..]);
      LayoutTail(lines, ends);
      SplitGlue(lines[1..], ends[1..]);
      if e == [] {
        assert |lines| == 1 && rest == [];
        assert Glue(lines, ends) == l + [];
        assert l + [] == l;
      } else {
        if e == "\r" && |lines| > 1 {
          AfterLoneReturn(lines, ends);
        }
        SplitLinesCons(l, e, rest);
        assert lines == [l] + lines[1..];
      }
    }
  }

  /** Every text is the lines splitlines() finds, each followed by the
      terminator it had. */
  lemma {:induction false} GlueSplit(s: string)
    ensures exists ends :: Layout(SplitLines(s), ends) && Glue(SplitLines(s), ends) == s
    decreases |s|
  {
    var lines := SplitLines(s);
    if s == [] {
      assert Layout(lines, []) && Glue(lines, []) == s;
    } else if NoLineBreak(s) {
      assert lines == [s];
      assert Glue(lines, [[]]) == s + [];
      assert Layout(lines, [[]]) && Glue(lines, [[]]) == s;
    } else {
      var rest := s[AfterBreak(s, FirstBreak(s))..];
      GlueSplit(rest);
      var ends' :| Layout(SplitLines(rest), ends') && Glue(SplitLines(rest), ends') == rest;
      var ends := GlueSplitStep(s, ends');
    }
  }

  /** GlueSplit's step: the first line and its terminator in front of the
      layout of the rest. */
  lemma GlueSplitStep(s: string, ends': seq<string>) returns (ends: seq<string>)
    requires !NoLineBreak(s)
    requires var rest := s[AfterBreak(s, FirstBreak(s))..];
      Layout(SplitLines(rest), ends') && Glue(SplitLines(rest), ends') == rest
    ensures Layout(SplitLines(s), ends) && Glue(SplitLines(s), ends) == s
  {
    var i := FirstBreak(s);
    var next := AfterBreak(s, i);
    var l, e, rest := s[..i], s[i..next], s[next..];
    BreakIsLineEnd(s, i);
    assert SplitLines(s) == [l] + SplitLines(rest);
    Slices(s, i, next);
    if e == "\r" && SplitLines(rest) != [] {
      assert rest != [] && rest[0] == s[next];
    }
    LayoutCons(l, e, SplitLines(rest), ends');
    ends := [e] + ends';
  }

  /** A text is its three slices at any two cut points. */
  lemma Slices(s: string, i: nat, j: nat)
    requires i <= j <= |s|
    ensures s == s[..i] + s[i..j] + s[j..]
  {
    assert s[..i] + s[i..j] == s[..j];
  }

  /** A terminated line in front of a layout is a layout, provided a lone
      "\r" is not followed by a "\n" starting the rest. */
  lemma LayoutCons(l: string, e: string, lines: seq<string>, ends: seq<string>)
    requires NoLineBreak(l) && IsLineEnd(e) && Layout(lines, ends)
    requires e == "\r" && lines != [] ==> Glue(lines, ends)[0] != '\n'
    ensures Layout([l] + lines, [e] + ends)
    ensures Glue([l] + lines, [e] + ends) == l + e + Glue(lines, ends)
  {
    var ls, es := [l] + lines, [e] + ends;
    assert ls[1..] == lines && es[1..] == ends;
    forall i | 0 <= i < |ls| ensures NoLineBreak(ls[i]) {
      if i > 0 { assert ls[i] == lines[i - 1]; }
    }
    forall i | 0 <= i < |es| - 1 ensures IsLineEnd(es[i]) {
      if i > 0 { assert es[i] == ends[i - 1]; }
    }
    forall i | 0 <= i < |es| - 1 && es[i] == "\r" && ls[i + 1] == [] ensures es[i + 1] != "\n" {
      if i > 0 {
        assert es[i] == ends[i - 1] && ls[i + 1] == lines[i] && es[i + 1] == ends[i];
      } else {
        GlueNonEmpty(lines, ends);
      }
    }
  }

  /** The length of the run of non-whitespace that starts `s`. */
  function WordEnd(s: string): (n: nat)
    ensures n <= |s| && NoSpace(s[..n]) && (n == |s| || IsSpace(s[n]))
  {
    if s == [] || IsSpace(s[0]) then 0 else 1 + WordEnd(s[1..])
  }

  /** str.split() without arguments: the maximal runs of non-whitespace. */
  function Words(s: string): (words: seq<string>)
    ensures forall i :: 0 <= i < |words| ==> words[i] != [] && NoSpace(words[i])
    decreases |s|
  {
    var t := LStrip(s);
    if t == [] then []
    else
      var n := WordEnd(t);
      [t[..n]] + Words(t[n..])
  }

  /** Words separated by single spaces. */
  function Unwords(words: seq<string>): string {
    if words == [] then []
    else if |words| == 1 then words[0]
    else words[0] + " " + Unwords(words[1..])
  }

  /** A word followed by nothing or by whitespace is split off whole. */
  lemma WordsAfterWord(w: string, tail: string)
    requires w != [] && NoSpace(w)
    requires tail == [] || IsSpace(tail[0])
    ensures Words(w + tail) == [w] + Words(tail)
  {
    var s := w + tail;
    assert LStrip(s) == s;
    assert s[..|w|] == w;
    assert WordEnd(s) == |w|;
    assert s[|w|..] == tail;
  }

  /** Leading whitespace does not change the words. */
  lemma WordsAfterSpace(c: char, rest: string)
    requires IsSpace(c)
    ensures Words([c] + rest) == Words(rest)
  {
    assert ([c] + rest)[1..] == rest;
    assert LStrip([c] + rest) == LStrip(rest);
  }

  /** A word, one space and a rest split into the word and the rest's
      words. */
  lemma WordsCons(w: string, rest: string)
    requires w != [] && NoSpace(w)
    ensures Words(w + " " + rest) == [w] + Words(rest)
  {
    assert w + " " + rest == w + ([' '] + rest);
    WordsAfterWord(w, [' '] + rest);
    WordsAfterSpace(' ', rest);
  }

  /** One more word in front of words that split() recovers. */
  lemma WordsUnwordsStep(words: seq<string>)
    requires |words| > 1 && words[0] != [] && NoSpace(words[0])
    requires Words(Unwords(words[1..])) == words[1..]
    ensures Words(Unwords(words)) == words
  {
    var w := words[0];
    var rest := Unwords(words[1..]);
    assert Unwords(words) == w + " " + rest;
    WordsCons(w, rest);
    assert words == [w] + words[1..];
  }

  /** split() recovers the words a space-separated option string was made
      of. */
  lemma {:induction false} WordsUnwords(words: seq<string>)
    requires forall i :: 0 <= i < |words| ==> words[i] != [] && NoSpace(words[i])
    ensures Words(Unwords(words)) == words
  {
    if |words| == 1 {
      var w := words[0];
      assert Words([]) == [];
      WordsAfterWord(w, []);
      assert w + [] == w;
      assert Unwords(words) == w;
    } else if |words| > 1 {
      WordsUnwords(words[1..]);
      WordsUnwordsStep(words);
    }
  }

  /** Words separated by whitespace runs: `gaps[i]` comes before `words[i]`
      and the last gap after the last word. */
  function Interleave(words: seq<string>, gaps: seq<string>): string
    requires |gaps| == |words| + 1
  {
    if words == [] then gaps[0] else gaps[0] + words[0] + Interleave(words[1..], gaps[1..])
  }

  /** Gaps of whitespace, non-empty between two words. */
  predicate Spaced(words: seq<string>, gaps: seq<string>) {
    && |gaps| == |words| + 1
    && (forall i :: 0 <= i < |gaps| ==> AllSpace(gaps[i]))
    && (forall i :: 0 < i < |gaps| - 1 ==> gaps[i] != [])
  }

  /** Whitespace in front does not change the words. */
  lemma {:induction false} WordsAfterGap(g: string, t: string)
    requires AllSpace(g)
    ensures Words(g + t) == Words(t)
    decreases |g|
  {
    if g != [] {
      var g' := g[1..];
      assert AllSpace(g') by {
        forall i | 0 <= i < |g'| ensures IsSpace(g'[i]) {
          assert g'[i] == g[i + 1];
        }
      }
      var u := g' + t;
      assert g + t == [g[0]] + u;
      WordsAfterSpace(g[0], u);
      WordsAfterGap(g', t);
    } else {
      assert g + t == t;
    }
  }

  /** split() finds exactly the words of text made of words and whitespace
      runs. */
  lemma {:induction false} WordsInterleave(words: seq<string>, gaps: seq<string>)
    requires forall i :: 0 <= i < |words| ==> words[i] != [] && NoSpace(words[i])
    requires Spaced(words, gaps)
    ensures Words(Interleave(words, gaps)) == words
  {
    if words == [] {
      assert gaps[0] + [] == gaps[0];
    } else {
      var w, rest := words[0], Interleave(words[1..], gaps[1..]);
      SpacedTail(words, gaps);
      calc {
        Words(Interleave(words, gaps));
        { assert Interleave(words, gaps) == gaps[0] + (w + rest); }
        Words(gaps[0] + (w + rest));
        { WordsAfterGap(gaps[0], w + rest); }
        Words(w + rest);
        { WordsAfterWord(w, rest); }
        [w] + Words(rest);
        { WordsInterleave(words[1..], gaps[1..]); }
        [w] + words[1..];
        words;
      }
    }
  }

  /** The interleaving after the first word is spaced and starts with
      whitespace or is empty. */
  lemma SpacedTail(words: seq<string>, gaps: seq<string>)
    requires words != [] && Spaced(words, gaps)
    requires forall i :: 0 <= i < |words| ==> words[i] != [] && NoSpace(words[i])
    ensures Spaced(words[1..], gaps[1..])
    ensures forall i :: 0 <= i < |words[1..]| ==> words[1..][i] != [] && NoSpace(words[1..][i])
    ensures var rest := Interleave(words[1..], gaps[1..]); rest == [] || IsSpace(rest[0])
  {
    var ws, gs := words[1..], gaps[1..];
    forall i | 0 <= i < |gs| ensures AllSpace(gs[i]) {
      assert gs[i] == gaps[i + 1];
    }
    forall i | 0 < i < |gs| - 1 ensures gs[i] != [] {
      assert gs[i] == gaps[i + 1];
    }
    forall i | 0 <= i < |ws| ensures ws[i] != [] && NoSpace(ws[i]) {
      assert ws[i] == words[i + 1];
    }
    if ws != [] {
      assert Interleave(ws, gs) == gs[0] + ws[0] + Interleave(ws[1..], gs[1..]);
      assert gs[0] != [] && AllSpace(gs[0]);
    }
  }

  /** Every text is the words split() finds, separated and surrounded by
      whitespace runs. */
  lemma {:induction false} InterleaveWords(s: string)
    ensures exists gaps :: Spaced(Words(s), gaps) && Interleave(Words(s), gaps) == s
    decreases |s|
  {
    if LStrip(s) == [] {
      assert Words(s) == [] && AllSpace(s) by {
        assert LeadingSpace(s) == |s| && s[..|s|] == s;
      }
      assert Spaced(Words(s), [s]) && Interleave(Words(s), [s]) == s;
    } else {
      var g, w, rest := FirstWord(s);
      InterleaveWords(rest);
      var gaps' :| Spaced(Words(rest), gaps') && Interleave(Words(rest), gaps') == rest;
      SpacedCons(g, w, rest, Words(rest), gaps');
      InterleaveCons(g, w, Words(rest), gaps');
      assert Spaced(Words(s), [g] + gaps') && Interleave(Words(s), [g] + gaps') == s;
    }
  }

  /** A text with a word is its leading whitespace, its first word and the
      rest, and split() gives that word followed by the rest's words. */
  lemma FirstWord(s: string) returns (g: string, w: string, rest: string)
    requires LStrip(s) != []
    ensures s == g + w + rest && AllSpace(g) && |rest| < |s|
    ensures rest == [] || IsSpace(rest[0])
    ensures Words(s) == [w] + Words(rest)
  {
    var a := LeadingSpace(s);
    var t := LStrip(s);
    var n := WordEnd(t);
    g, w, rest := s[..a], t[..n], t[n..];
    assert !IsSpace(t[0]);
    Cut(s, a, n);
  }

  /** A text is its prefix of length `a` followed by the rest cut again at
      `n`. */
  lemma Cut(s: string, a: nat, n: nat)
    requires a <= |s| && n <= |s| - a
    ensures s == s[..a] + s[a..][..n] + s[a..][n..]
  {
    var t := s[a..];
    assert t == t[..n] + t[n..];
    assert s == s[..a] + t;
  }

  /** A gap and a word in front of an interleaving. */
  lemma InterleaveCons(g: string, w: string, words: seq<string>, gaps: seq<string>)
    requires |gaps| == |words| + 1
    ensures Interleave([w] + words, [g] + gaps) == g + w + Interleave(words, gaps)
  {
    assert ([w] + words)[1..] == words && ([g] + gaps)[1..] == gaps;
  }

  /** A non-empty interleaving that starts with whitespace has a non-empty
      first gap. */
  lemma GapBeforeSpace(words: seq<string>, gaps: seq<string>)
    requires |gaps| == |words| + 1 && words != [] && words[0] != [] && NoSpace(words[0])
    ensures var r := Interleave(words, gaps); r != [] && (IsSpace(r[0]) ==> gaps[0] != [])
  {
    var r := Interleave(words, gaps);
    var w, tail := words[0], Interleave(words[1..], gaps[1..]);
    assert r == gaps[0] + w + tail;
    if gaps[0] == [] {
      assert r == w + tail;
      assert r[0] == w[0];
    }
  }

  /** A gap and a word in front of an interleaving that starts with
      whitespace keep it spaced. */
  lemma SpacedCons(g: string, w: string, rest: string, words: seq<string>, gaps: seq<string>)
    requires AllSpace(g) && Spaced(words, gaps) && Interleave(words, gaps) == rest
    requires forall i :: 0 <= i < |words| ==> words[i] != [] && NoSpace(words[i])
    requires rest == [] || IsSpace(rest[0])
    ensures Spaced([w] + words, [g] + gaps)
  {
    var gs := [g] + gaps;
    if words != [] {
      GapBeforeSpace(words, gaps);
    }
    forall i | 0 <= i < |gs| ensures AllSpace(gs[i]) {
      if i > 0 { assert gs[i] == gaps[i - 1]; }
    }
    forall i | 0 < i < |gs| - 1 ensures gs[i] != [] {
      assert gs[i] == gaps[i - 1];
    }
  }
}
