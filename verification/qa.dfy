/** The question/answer extraction in `smart_generate_flashcard_qa`
    (main.py): the lines of the text generator's output that look like
    `Q: ... A: ...` become pairs; when none does, every non-blank line of
    the note becomes an answer to a fixed question. The generator itself is
    outside the model: its output is a parameter. */
module Qa {
  import opened Py

  const QuestionTag: string := "Q:"
  const AnswerTag: string := "A:"
  const DefaultQuestion: string := "What is this note about?"

  datatype Pair = Pair(question: string, answer: string)

  // ---------------------------------------------------------------------
  // Parsing the generator's output

  /** `line.strip().startswith('Q:') and 'A:' in line`; the first half is
      read as "the first non-blank character starts `Q:`", which
      `QuestionFirstStrip` shows is the same. */
  predicate IsQaLine(line: string) {
    QuestionFirst(line) && Find(line, AnswerTag).Some?
  }

  /** A line has the `Q:`/`A:` shape exactly when, stripped, it starts with
      `Q:` and `A:` occurs somewhere in it. */
  lemma IsQaLineSpec(line: string)
    ensures IsQaLine(line) <==> StartsWith(Strip(line), QuestionTag) && Occurs(AnswerTag, line)
  {
    QuestionFirstStrip(line);
  }

  /** After any leading whitespace, `s` starts with `Q:`. */
  predicate QuestionFirst(s: string) {
    if s == [] then false
    else if IsSpace(s[0]) then QuestionFirst(s[1..])
    else StartsWith(s, QuestionTag)
  }

  lemma {:induction false} QuestionFirstStrip(s: string)
    ensures QuestionFirst(s) <==> StartsWith(Strip(s), QuestionTag)
  {
    var k := LeadingSpace(s);
    var r := Strip(s);
    SkipSpace(s, k);
    if k < |s| {
      var t := s[k..];
      StartsWithMatch(t, QuestionTag);
      StartsWithMatch(r, QuestionTag);
      assert forall i :: k + |r| <= i < |s| ==> IsSpace(s[i]) by {
        assert forall i :: k + |r| <= i < |s| ==> s[i] == s[k + |r|..][i - k - |r|];
      }
      if StartsWith(t, QuestionTag) {
        assert t[1] == ':' && s[k + 1] == t[1];
        assert |r| >= 2;
        assert r[..2] == t[..2];
      }
      if StartsWith(r, QuestionTag) {
        assert r[..2] == t[..2];
      }
    }
  }

  /** Leading whitespace does not change `QuestionFirst`. */
  lemma {:induction false} SkipSpace(s: string, k: nat)
    requires k <= |s|
    requires forall i :: 0 <= i < k ==> IsSpace(s[i])
    requires k < |s| ==> !IsSpace(s[k])
    ensures QuestionFirst(s) <==> k < |s| && StartsWith(s[k..], QuestionTag)
    decreases k
  {
    if k > 0 {
      SkipSpace(s[1..], k - 1);
      assert s[1..][k - 1..] == s[k..];
    }
  }

  /** `q, a = line.split('A:', 1)`, then
      `(q.replace('Q:', '').strip(), a.strip())`: the question is what
      precedes the first `A:` without its `Q:` tags, the answer what
      follows it. */
  function PairOf(line: string): (p: Pair)
    requires IsQaLine(line)
    ensures IsStripped(p.question) && IsStripped(p.answer)
  {
    var i := Find(line, AnswerTag).value;
    Pair(Strip(RemoveAll(line[..i], QuestionTag)), Strip(line[i + |AnswerTag|..]))
  }

  /** For every `Q:`/`A:` line, cut at its first `A:`: the answer is the
      stripped text after it, and the question the text before it with its
      `Q:` tags removed, stripped. */
  lemma PairOfSplit(line: string, pre: string, post: string)
    requires IsQaLine(line)
    requires line == pre + AnswerTag + post && !Occurs(AnswerTag, pre)
    ensures PairOf(line) == Pair(Strip(RemoveAll(pre, QuestionTag)), Strip(post))
  {
    FindAfterFree(pre, AnswerTag, post);
    assert line[..|pre|] == pre;
    assert line[|pre| + |AnswerTag|..] == post;
  }

  /** The pairs read from the output lines, in order. */
  function ParseLines(lines: seq<string>): (r: seq<Pair>)
    ensures |r| <= |lines|
  {
    if lines == [] then []
    else if IsQaLine(lines[0]) then [PairOf(lines[0])] + ParseLines(lines[1..])
    else ParseLines(lines[1..])
  }

  /** The output lines that have the `Q:`/`A:` shape, in order. */
  function QaLines(lines: seq<string>): (r: seq<string>)
    ensures forall k :: 0 <= k < |r| ==> IsQaLine(r[k])
  {
    if lines == [] then []
    else if IsQaLine(lines[0]) then [lines[0]] + QaLines(lines[1..])
    else QaLines(lines[1..])
  }

  lemma {:induction false} QaLinesOrdered(lines: seq<string>)
    ensures IsSubsequence(QaLines(lines), lines)
  {
    if lines != [] {
      QaLinesOrdered(lines[1..]);
    }
  }

  lemma {:induction false} QaLinesHasAll(lines: seq<string>)
    ensures forall i :: 0 <= i < |lines| && IsQaLine(lines[i]) ==> lines[i] in QaLines(lines)
  {
    if lines != [] {
      QaLinesHasAll(lines[1..]);
      assert forall i :: 1 <= i < |lines| ==> lines[i] == lines[1..][i - 1];
    }
  }

  lemma {:induction false} QaLinesCount(lines: seq<string>)
    ensures |QaLines(lines)| == CountIf(lines, IsQaLine)
  {
    if lines != [] {
      QaLinesCount(lines[1..]);
    }
  }

  /** The `Q:`/`A:` lines are taken in order, and none is missed: there are
      as many as output lines of that shape, repeated lines included. */
  lemma {:induction false} QaLinesSpec(lines: seq<string>)
    ensures IsSubsequence(QaLines(lines), lines)
    ensures forall i :: 0 <= i < |lines| && IsQaLine(lines[i]) ==> lines[i] in QaLines(lines)
    ensures |QaLines(lines)| == CountIf(lines, IsQaLine)
  {
    QaLinesOrdered(lines);
    QaLinesHasAll(lines);
    QaLinesCount(lines);
  }

  /** The pair of each line of `qa`, in order. */
  function PairsOf(qa: seq<string>): (r: seq<Pair>)
    requires forall k :: 0 <= k < |qa| ==> IsQaLine(qa[k])
    ensures |r| == |qa|
  {
    if qa == [] then [] else [PairOf(qa[0])] + PairsOf(qa[1..])
  }

  lemma {:induction false} PairsOfAt(qa: seq<string>, k: nat)
    requires forall k :: 0 <= k < |qa| ==> IsQaLine(qa[k])
    requires k < |qa|
    ensures PairsOf(qa)[k] == PairOf(qa[k])
  {
    if k > 0 {
      PairsOfAt(qa[1..], k - 1);
      assert qa[1..][k - 1] == qa[k];
    }
  }

  /** The parsed pairs are the pairs of the `Q:`/`A:` lines, one each, in
      the same order. */
  lemma {:induction false} ParseLinesSpec(lines: seq<string>)
    ensures ParseLines(lines) == PairsOf(QaLines(lines))
    ensures forall k :: 0 <= k < |QaLines(lines)| ==> ParseLines(lines)[k] == PairOf(QaLines(lines)[k])
  {
    if lines != [] {
      ParseLinesSpec(lines[1..]);
      if IsQaLine(lines[0]) {
        assert QaLines(lines)[1..] == QaLines(lines[1..]);
      }
    }
    forall k | 0 <= k < |QaLines(lines)| ensures ParseLines(lines)[k] == PairOf(QaLines(lines)[k]) {
      PairsOfAt(QaLines(lines), k);
    }
  }

  function ParseOutput(output: string): seq<Pair> {
    ParseLines(SplitOn(output, '\n'))
  }

  // ---------------------------------------------------------------------
  // The rule-based fallback

  /** `[l.strip() for l in text.split('\n') if l.strip()]`. */
  function NoteLines(pieces: seq<string>): (r: seq<string>)
    ensures forall k :: 0 <= k < |r| ==> r[k] != [] && IsStripped(r[k])
  {
    if pieces == [] then []
    else
      var rest := NoteLines(pieces[1..]);
      var l := Strip(pieces[0]);
      if l != [] then [l] + rest else rest
  }

  /** A piece with something besides whitespace. */
  predicate HasText(piece: string) {
    !IsBlank(piece)
  }

  /** The fallback lines are the stripped pieces in order, one for each
      piece that is not blank, repeated pieces included. */
  lemma {:induction false} NoteLinesSpec(pieces: seq<string>)
    ensures IsSubsequence(NoteLines(pieces), StripEach(pieces))
    ensures |NoteLines(pieces)| == CountIf(pieces, HasText)
  {
    if pieces != [] {
      NoteLinesSpec(pieces[1..]);
      assert StripEach(pieces)[1..] == StripEach(pieces[1..]);
    }
  }

  /** There are no fallback lines exactly when every piece is blank. */
  lemma {:induction false} NoteLinesEmpty(pieces: seq<string>)
    ensures NoteLines(pieces) == [] <==> forall i :: 0 <= i < |pieces| ==> IsBlank(pieces[i])
  {
    if pieces != [] {
      NoteLinesEmpty(pieces[1..]);
      assert forall i :: 1 <= i < |pieces| ==> pieces[i] == pieces[1..][i - 1];
    }
  }

  /** One pair per non-blank note line, in order, all with the fixed
      question and the stripped line as the answer. */
  function Fallback(note: string): (r: seq<Pair>)
    ensures |r| == |NoteLines(SplitOn(note, '\n'))|
    ensures forall k :: 0 <= k < |r| ==>
              && r[k].question == DefaultQuestion
              && r[k].answer == NoteLines(SplitOn(note, '\n'))[k]
              && r[k].answer != [] && IsStripped(r[k].answer)
    ensures r == [] <==> IsBlank(note)
  {
    var lines := NoteLines(SplitOn(note, '\n'));
    assert lines == [] <==> IsBlank(note) by {
      JoinSplit(note, '\n');
      BlankPieces(SplitOn(note, '\n'));
      NoteLinesEmpty(SplitOn(note, '\n'));
    }
    seq(|lines|, k requires 0 <= k < |lines| => Pair(DefaultQuestion, lines[k]))
  }

  /** A text is blank exactly when every line of it is. */
  lemma {:induction false} BlankPieces(pieces: seq<string>)
    requires |pieces| >= 1
    ensures IsBlank(JoinWith(pieces, "\n")) <==> forall i :: 0 <= i < |pieces| ==> IsBlank(pieces[i])
  {
    if |pieces| > 1 {
      BlankPieces(pieces[1..]);
      var tail := JoinWith(pieces[1..], "\n");
      var s := pieces[0] + "\n" + tail;
      assert forall i :: 0 <= i < |pieces[0]| ==> s[i] == pieces[0][i];
      assert forall i :: 0 <= i < |tail| ==> s[|pieces[0]| + 1 + i] == tail[i];
      assert forall i :: 1 <= i < |pieces| ==> pieces[i] == pieces[1..][i - 1];
      if IsBlank(pieces[0]) && IsBlank(tail) {
        forall i | 0 <= i < |s| ensures IsSpace(s[i]) {
          if i < |pieces[0]| {
          } else if i > |pieces[0]| {
            assert s[i] == tail[i - |pieces[0]| - 1];
          }
        }
      }
    }
  }

  /** The pairs `smart_generate_flashcard_qa` returns for the generator's
      `output` and the note text: when some output line has the `Q:`/`A:`
      shape, the pairs of those lines in order; otherwise the fallback. */
  function Pairs(output: string, note: string): (r: seq<Pair>)
    ensures CountIf(SplitOn(output, '\n'), IsQaLine) > 0 ==> r == PairsOf(QaLines(SplitOn(output, '\n')))
    ensures CountIf(SplitOn(output, '\n'), IsQaLine) == 0 ==> r == Fallback(note)
  {
    ParseLinesSpec(SplitOn(output, '\n'));
    QaLinesCount(SplitOn(output, '\n'));
    var parsed := ParseOutput(output);
    if parsed != [] then parsed else Fallback(note)
  }

  /** No card comes out exactly when no output line has the `Q:`/`A:` shape
      and the note is blank. */
  lemma PairsEmpty(output: string, note: string)
    ensures Pairs(output, note) == [] <==> QaLines(SplitOn(output, '\n')) == [] && IsBlank(note)
  {
    var lines := SplitOn(output, '\n');
    ParseLinesSpec(lines);
  }

  // ---------------------------------------------------------------------
  // Round trips

  /** The line the prompt asks the generator for. */
  function Format(p: Pair): string {
    QuestionTag + " " + p.question + " " + AnswerTag + " " + p.answer
  }

  /** A pair the `Q: ... A: ...` format can carry: stripped, on one line,
      and a question without either tag. */
  ghost predicate Printable(p: Pair) {
    && IsStripped(p.question) && IsStripped(p.answer)
    && '\n' !in p.question && '\n' !in p.answer
    && !Occurs(AnswerTag, p.question) && !Occurs(QuestionTag, p.question)
  }

  /** The first `A:` of a formatted line is the one after the question. */
  lemma FirstAnswerTag(p: Pair)
    requires Printable(p)
    ensures Find(Format(p), AnswerTag) == Some(|p.question| + 4)
  {
    var pre := "Q: " + p.question + " ";
    NoAnswerTagBefore(p.question);
    FindAfterFree(pre, AnswerTag, " " + p.answer);
    assert Format(p) == pre + AnswerTag + (" " + p.answer);
  }

  /** The text before the `A:` of a formatted line holds no `A:` of its
      own. */
  lemma NoAnswerTagBefore(q: string)
    requires !Occurs(AnswerTag, q)
    ensures !Occurs(AnswerTag, "Q: " + q + " ")
  {
    var pre := "Q: " + q + " ";
    var n := |q|;
    forall j: nat | j + 2 <= |pre| ensures !MatchAt(pre, AnswerTag, j) {
      if j < 3 {
        assert pre[j] != 'A';
      } else if j <= n + 1 {
        assert pre[j..j + 2] == q[j - 3..j - 1];
        assert !MatchAt(q, AnswerTag, j - 3);
      } else {
        assert pre[j + 1] == ' ';
      }
    }
  }

  /** Removing `Q:` from the text before the answer leaves the question
      between two spaces. */
  lemma QuestionTagRemoved(q: string)
    requires !Occurs(QuestionTag, q)
    ensures RemoveAll("Q: " + q + " ", QuestionTag) == " " + q + " "
  {
    var s := "Q: " + q + " ";
    var t := " " + q + " ";
    assert s[0..2] == QuestionTag;
    assert s[2..] == t;
    assert t[0] == ' ' && t[|q| + 1] == ' ';
    forall j: nat ensures !MatchAt(t, QuestionTag, j) {
      if j == 0 {
        assert t[j] != 'Q';
      } else if j < |q| {
        assert t[j..j + 2] == q[j - 1..j + 1];
        assert !MatchAt(q, QuestionTag, j - 1);
      } else if j == |q| {
        assert t[j + 1] != ':';
      }
    }
    assert Find(s, QuestionTag) == Some(0);
  }

  /** A formatted line passes the `Q:`/`A:` test. */
  lemma FormatIsQaLine(p: Pair)
    requires Printable(p)
    ensures IsQaLine(Format(p))
  {
    var line := Format(p);
    FirstAnswerTag(p);
    assert line[0] == 'Q' && line[1] == ':';
    assert StartsWith(line[1..], QuestionTag[1..]);
  }

  /** The text before the first `A:` of a formatted line, without its
      `Q:` tag and stripped, is the question. */
  lemma QuestionOfFormat(p: Pair)
    requires Printable(p)
    ensures Strip(RemoveAll(Format(p)[..|p.question| + 4], QuestionTag)) == p.question
  {
    var q := p.question;
    assert Format(p)[..|q| + 4] == "Q: " + q + " ";
    QuestionTagRemoved(q);
    StripPadded(" ", q, " ");
  }

  /** The text after the first `A:` of a formatted line, stripped, is the
      answer. */
  lemma AnswerOfFormat(p: Pair)
    requires Printable(p)
    ensures Strip(Format(p)[|p.question| + 6..]) == p.answer
  {
    assert Format(p)[|p.question| + 6..] == " " + p.answer + [];
    StripPadded(" ", p.answer, []);
  }

  /** Parsing a formatted line gives the pair back. */
  lemma PairOfFormat(p: Pair)
    requires Printable(p)
    ensures IsQaLine(Format(p)) && PairOf(Format(p)) == p
  {
    FormatIsQaLine(p);
    FirstAnswerTag(p);
    QuestionOfFormat(p);
    AnswerOfFormat(p);
  }

  /** The generator's output written in the requested format, one pair per
      line, parses back to the same pairs, and they are what
      `smart_generate_flashcard_qa` returns. */
  lemma {:induction false} FormatParse(ps: seq<Pair>, note: string)
    requires ps != []
    requires forall k :: 0 <= k < |ps| ==> Printable(ps[k])
    ensures Pairs(JoinWith(FormatAll(ps), "\n"), note) == ps
  {
    var lines := FormatAll(ps);
    forall k | 0 <= k < |ps|
      ensures '\n' !in lines[k] && IsQaLine(lines[k]) && PairOf(lines[k]) == ps[k]
    {
      FormatOneLine(ps[k]);
      PairOfFormat(ps[k]);
    }
    SplitJoin(lines, '\n');
    ParseAllQa(lines, ps);
  }

  function FormatAll(ps: seq<Pair>): (r: seq<string>)
    ensures |r| == |ps|
    ensures forall k :: 0 <= k < |ps| ==> r[k] == Format(ps[k])
  {
    seq(|ps|, k requires 0 <= k < |ps| => Format(ps[k]))
  }

  /** Output made only of `Q:`/`A:` lines parses to their pairs, in order. */
  lemma {:induction false} ParseAllQa(lines: seq<string>, ps: seq<Pair>)
    requires |lines| == |ps|
    requires forall k :: 0 <= k < |lines| ==> IsQaLine(lines[k]) && PairOf(lines[k]) == ps[k]
    ensures ParseLines(lines) == ps
  {
    if lines != [] {
      ParseAllQa(lines[1..], ps[1..]);
      assert [ps[0]] + ps[1..] == ps;
    }
  }

  /** A formatted pair of one-line texts is one line. */
  lemma FormatOneLine(p: Pair)
    requires '\n' !in p.question && '\n' !in p.answer
    ensures '\n' !in Format(p)
  {
    assert Format(p) == "Q: " + p.question + " A: " + p.answer;
  }

  /** A note of stripped, non-empty lines falls back to one pair per line,
      in order. */
  lemma FallbackRoundTrip(ls: seq<string>)
    requires forall k :: 0 <= k < |ls| ==> ls[k] != [] && IsStripped(ls[k]) && '\n' !in ls[k]
    ensures |Fallback(JoinWith(ls, "\n"))| == |ls|
    ensures forall k :: 0 <= k < |ls| ==> Fallback(JoinWith(ls, "\n"))[k] == Pair(DefaultQuestion, ls[k])
  {
    if ls == [] {
      assert SplitOn([], '\n') == [[]];
    } else {
      SplitJoin(ls, '\n');
      NoteLinesOfStripped(ls);
    }
  }

  lemma {:induction false} NoteLinesOfStripped(ls: seq<string>)
    requires forall k :: 0 <= k < |ls| ==> ls[k] != [] && IsStripped(ls[k])
    ensures NoteLines(ls) == ls
  {
    if ls != [] {
      StripIdempotent(ls[0]);
      NoteLinesOfStripped(ls[1..]);
      assert [ls[0]] + ls[1..] == ls;
    }
  }
}
