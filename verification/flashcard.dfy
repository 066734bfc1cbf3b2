/** `create_flashcard` from utils.py: the text of a card is cut into
    candidate lines, the lines are shared out among at most five bullets,
    every bullet is word-wrapped to 60 characters, and the wrapped lines are
    drawn top to bottom, centred, until the card is full.

    Drawing is abstracted: the font's `textbbox` is a parameter, and the
    card is the list of text draws (position and string) it would receive. */
module Flashcard {
  import opened Py
  import TextWrap

  const CanvasWidth: int := 800
  const CanvasHeight: int := 400
  const Margin: int := 40
  const TopOffset: int := 40
  const LineSpacing: int := 8
  const WrapWidth: nat := 60
  const MaxBullets: nat := 5
  /** Drawing stops once the offset passes this line. */
  const Bottom: int := CanvasHeight - Margin
  /** The bullet glyph U+2022 and a space. */
  const BulletMark: string := "\U{2022} "

  /** The bounding box the font reports for a string drawn at (0, 0). */
  datatype Box = Box(left: int, top: int, right: int, bottom: int)

  /** One `draw.text((x, y), text)` call. */
  datatype Draw = Draw(x: int, y: int, text: string)

  // ---------------------------------------------------------------------
  // Candidate lines

  /** A line kept for the card: stripped, with more than two words. */
  predicate IsCandidate(l: string) {
    IsStripped(l) && l != [] && |Words(l)| > 2
  }

  /** A piece of the text whose stripped form is kept. */
  predicate Qualifies(piece: string) {
    IsCandidate(Strip(piece))
  }

  function RawLines(text: string): seq<string> {
    SplitOn(text, '\n')
  }

  /** The list comprehension filtering the stripped pieces. */
  function KeptLines(pieces: seq<string>): (r: seq<string>)
    ensures forall k :: 0 <= k < |r| ==> IsCandidate(r[k])
  {
    if pieces == [] then []
    else
      var l := Strip(pieces[0]);
      if l != [] && |Words(l)| > 2 then [l] + KeptLines(pieces[1..]) else KeptLines(pieces[1..])
  }

  lemma {:induction false} KeptLinesHasAll(pieces: seq<string>)
    ensures forall i :: 0 <= i < |pieces| && IsCandidate(Strip(pieces[i])) ==> Strip(pieces[i]) in KeptLines(pieces)
  {
    if pieces != [] {
      KeptLinesHasAll(pieces[1..]);
      assert forall i :: 1 <= i < |pieces| ==> pieces[i] == pieces[1..][i - 1];
    }
  }

  lemma {:induction false} KeptLinesEmpty(pieces: seq<string>)
    ensures KeptLines(pieces) == [] <==> forall i :: 0 <= i < |pieces| ==> !IsCandidate(Strip(pieces[i]))
  {
    if pieces != [] {
      KeptLinesEmpty(pieces[1..]);
      assert Qualifies(pieces[0]) <==> KeptLines(pieces) == [Strip(pieces[0])] + KeptLines(pieces[1..]);
      assert forall i :: 1 <= i < |pieces| ==> pieces[i] == pieces[1..][i - 1];
    }
  }

  lemma {:induction false} KeptLinesOrdered(pieces: seq<string>)
    ensures IsSubsequence(KeptLines(pieces), StripEach(pieces))
  {
    if pieces != [] {
      KeptLinesOrdered(pieces[1..]);
      assert StripEach(pieces)[1..] == StripEach(pieces[1..]);
    }
  }

  lemma {:induction false} KeptLinesCount(pieces: seq<string>)
    ensures |KeptLines(pieces)| == CountIf(pieces, Qualifies)
  {
    if pieces != [] {
      KeptLinesCount(pieces[1..]);
    }
  }

  /** The kept lines are exactly the candidate pieces, in input order: a
      subsequence of the stripped pieces, as many as there are qualifying
      pieces, so each qualifying piece is kept once per occurrence. */
  lemma {:induction false} KeptLinesComplete(pieces: seq<string>)
    ensures forall i :: 0 <= i < |pieces| && IsCandidate(Strip(pieces[i])) ==> Strip(pieces[i]) in KeptLines(pieces)
    ensures KeptLines(pieces) == [] <==> forall i :: 0 <= i < |pieces| ==> !IsCandidate(Strip(pieces[i]))
    ensures IsSubsequence(KeptLines(pieces), StripEach(pieces))
    ensures |KeptLines(pieces)| == CountIf(pieces, Qualifies)
  {
    KeptLinesHasAll(pieces);
    KeptLinesEmpty(pieces);
    KeptLinesOrdered(pieces);
    KeptLinesCount(pieces);
  }

  /** `lines` in `create_flashcard`: the candidate lines in input order, or,
      when there are none, the whole stripped text as the only line. */
  function Lines(text: string): (r: seq<string>)
    ensures |r| >= 1
  {
    var kept := KeptLines(RawLines(text));
    if kept == [] then [Strip(text)] else kept
  }

  /** The card lines are the qualifying lines, in order and all of them;
      without any, the stripped text is the only line. */
  lemma LinesSpec(text: string)
    ensures (forall i :: 0 <= i < |RawLines(text)| ==> !IsCandidate(Strip(RawLines(text)[i])))
            ==> Lines(text) == [Strip(text)]
    ensures (exists i :: 0 <= i < |RawLines(text)| && IsCandidate(Strip(RawLines(text)[i])))
            ==> && (forall k :: 0 <= k < |Lines(text)| ==> IsCandidate(Lines(text)[k]))
                && IsSubsequence(Lines(text), StripEach(RawLines(text)))
                && (forall i :: 0 <= i < |RawLines(text)| && IsCandidate(Strip(RawLines(text)[i]))
                      ==> Strip(RawLines(text)[i]) in Lines(text))
                && |Lines(text)| == CountIf(RawLines(text), Qualifies)
  {
    KeptLinesComplete(RawLines(text));
  }

  // ---------------------------------------------------------------------
  // Bullet groups

  /** `min(5, len(lines))`. */
  function BulletCount(n: nat): nat {
    if n < MaxBullets then n else MaxBullets
  }

  /** `math.ceil(a / b)`. */
  function CeilDiv(a: nat, b: nat): (q: nat)
    requires b > 0
    ensures b * q >= a
    ensures q > 0 ==> b * (q - 1) < a
  {
    (a + b - 1) / b
  }

  function GroupSize(n: nat): nat
    requires n >= 1
  {
    CeilDiv(n, BulletCount(n))
  }

  /** `bullet_groups`. */
  function Groups(lines: seq<string>): (groups: seq<seq<string>>)
    requires |lines| >= 1
    ensures |groups| == BulletCount(|lines|)
    ensures 1 <= |groups| <= MaxBullets
    ensures forall i :: 0 <= i < |groups| ==> |groups[i]| <= GroupSize(|lines|)
  {
    var n := BulletCount(|lines|);
    var g := GroupSize(|lines|);
    seq(n, i requires 0 <= i < n => Batch(lines, g, i))
  }

  /** Reading the groups in order gives back `lines` exactly: nothing is
      lost or repeated, because `n_bullets * group_size >= len(lines)`. */
  lemma GroupsPartition(lines: seq<string>)
    requires |lines| >= 1
    ensures Flatten(Groups(lines)) == lines
  {
    var n := BulletCount(|lines|);
    var g := GroupSize(|lines|);
    FlattenBatches(lines, g, n);
    assert n * g >= |lines|;
  }

  /** Every group before a non-empty one is full. */
  lemma GroupsFillInOrder(lines: seq<string>, i: nat, j: nat)
    requires |lines| >= 1
    requires i < j < |Groups(lines)|
    requires Groups(lines)[j] != []
    ensures |Groups(lines)[i]| == GroupSize(|lines|)
  {
    var g := GroupSize(|lines|);
    assert Groups(lines)[j] == Batch(lines, g, j);
    assert Groups(lines)[i] == Batch(lines, g, i);
    BatchBeforeNonEmpty(lines, g, i, j);
  }

  /** Up to five lines: one line per group, in order. */
  lemma FewLinesOnePerGroup(lines: seq<string>)
    requires 1 <= |lines| <= MaxBullets
    ensures GroupSize(|lines|) == 1
    ensures |Groups(lines)| == |lines|
    ensures forall i :: 0 <= i < |lines| ==> Groups(lines)[i] == [lines[i]]
  {
  }

  /** Six lines make groups of 2, 2, 2, 0 and 0 lines: the last two bullets
      are empty. */
  lemma SixLinesLeaveEmptyBullets(lines: seq<string>)
    requires |lines| == 6
    ensures GroupSize(6) == 2
    ensures Groups(lines) == [lines[0..2], lines[2..4], lines[4..6], [], []]
  {
    var g := Groups(lines);
    assert g[3] == Slice(lines, 6, 8);
    assert g[4] == Slice(lines, 8, 10);
  }

  /** Twelve lines make groups of 3, 3, 3, 3 and 0 lines. */
  lemma TwelveLinesLeaveLastBulletEmpty(lines: seq<string>)
    requires |lines| == 12
    ensures GroupSize(12) == 3
    ensures Groups(lines) == [lines[0..3], lines[3..6], lines[6..9], lines[9..12], []]
  {
    var g := Groups(lines);
    assert g[4] == Slice(lines, 12, 15);
  }

  // ---------------------------------------------------------------------
  // Bullets and wrapping

  /** `'• ' + ' '.join(group)`. */
  function Bullet(group: seq<string>): string {
    BulletMark + JoinWith(group, " ")
  }

  /** The wrapped lines of one bullet hold, in order, the bullet glyph and
      then exactly the non-space characters of the group's lines. */
  lemma BulletWrapKeepsText(group: seq<string>)
    ensures Visible(Flatten(TextWrap.Wrap(Bullet(group), WrapWidth)))
            == ['\U{2022}'] + Visible(Flatten(group))
  {
    TextWrap.WrapSpec(Bullet(group), WrapWidth);
    VisibleAppend(BulletMark, JoinWith(group, " "));
    JoinKeepsVisible(group);
    assert Visible(BulletMark) == ['\U{2022}'];
  }

  function WrappedGroups(groups: seq<seq<string>>): (r: seq<seq<string>>)
    ensures |r| == |groups|
    ensures forall i :: 0 <= i < |groups| ==> r[i] == TextWrap.Wrap(Bullet(groups[i]), WrapWidth)
  {
    seq(|groups|, i requires 0 <= i < |groups| => TextWrap.Wrap(Bullet(groups[i]), WrapWidth))
  }

  /** Every physical line of the card, before truncation. */
  function CardLines(text: string): seq<string> {
    Flatten(WrappedGroups(Groups(Lines(text))))
  }

  lemma {:induction false} FlattenBounded(xss: seq<seq<string>>, limit: nat)
    requires forall i, k :: 0 <= i < |xss| && 0 <= k < |xss[i]| ==> |xss[i][k]| <= limit
    ensures forall k :: 0 <= k < |Flatten(xss)| ==> |Flatten(xss)[k]| <= limit
  {
    if xss != [] {
      FlattenBounded(xss[1..], limit);
      assert forall k :: 0 <= k < |xss[0]| ==> |xss[0][k]| <= limit;
    }
  }

  /** No physical line is longer than 60 characters: words longer than that
      are cut. */
  lemma CardLinesFit(text: string)
    ensures forall k :: 0 <= k < |CardLines(text)| ==> |CardLines(text)[k]| <= WrapWidth
  {
    var groups := Groups(Lines(text));
    var w := WrappedGroups(groups);
    forall i | 0 <= i < |w|
      ensures forall k :: 0 <= k < |w[i]| ==> |w[i][k]| <= WrapWidth
    {
      TextWrap.WrapSpec(Bullet(groups[i]), WrapWidth);
    }
    FlattenBounded(w, WrapWidth);
  }

  // ---------------------------------------------------------------------
  // Vertical layout

  function Width(b: Box): int { b.right - b.left }
  function Height(b: Box): int { b.bottom - b.top }

  /** The offset after drawing `d`. */
  function Advance(d: Draw, textbbox: string -> Box): int {
    d.y + Height(textbbox(d.text)) + LineSpacing
  }

  /** The draw a line gets at `offset`. */
  function DrawAt(line: string, textbbox: string -> Box, offset: int): Draw {
    Draw((CanvasWidth - Width(textbbox(line))) / 2, offset, line)
  }

  /** `x == (800 - text_width) // 2`, as Python's floor division states it. */
  predicate Centred(d: Draw, textbbox: string -> Box) {
    var w := Width(textbbox(d.text));
    2 * d.x <= CanvasWidth - w < 2 * d.x + 2
  }

  /** Draws `lines` from `offset` down: each line is drawn, the offset moves
      on by its height plus the spacing, and drawing stops as soon as the
      offset passes `Bottom`. */
  function Layout(lines: seq<string>, textbbox: string -> Box, offset: int): (r: seq<Draw>)
    requires offset <= Bottom
    ensures |r| <= |lines|
    ensures lines != [] ==> r != []
    decreases |lines|
  {
    if lines == [] then []
    else
      var d := DrawAt(lines[0], textbbox, offset);
      var next := Advance(d, textbbox);
      if next > Bottom then [d] else [d] + Layout(lines[1..], textbbox, next)
  }

  lemma {:induction false} LayoutTexts(lines: seq<string>, textbbox: string -> Box, offset: int)
    requires offset <= Bottom
    ensures forall i :: 0 <= i < |Layout(lines, textbbox, offset)| ==> Layout(lines, textbbox, offset)[i].text == lines[i]
    decreases |lines|
  {
    if lines != [] {
      var next := Advance(DrawAt(lines[0], textbbox, offset), textbbox);
      if next <= Bottom {
        LayoutTexts(lines[1..], textbbox, next);
      }
    }
  }

  lemma {:induction false} LayoutPlaced(lines: seq<string>, textbbox: string -> Box, offset: int)
    requires offset <= Bottom
    ensures forall i :: 0 <= i < |Layout(lines, textbbox, offset)| ==>
              Layout(lines, textbbox, offset)[i].y <= Bottom && Centred(Layout(lines, textbbox, offset)[i], textbbox)
    decreases |lines|
  {
    if lines != [] {
      var next := Advance(DrawAt(lines[0], textbbox, offset), textbbox);
      if next <= Bottom {
        LayoutPlaced(lines[1..], textbbox, next);
      }
    }
  }

  lemma {:induction false} LayoutSteps(lines: seq<string>, textbbox: string -> Box, offset: int)
    requires offset <= Bottom
    ensures var r := Layout(lines, textbbox, offset);
            && (r != [] ==> r[0].y == offset)
            && (forall i, k :: 0 <= i && k == i + 1 && k < |r| ==> r[k].y == Advance(r[i], textbbox))
    decreases |lines|
  {
    if lines != [] {
      var next := Advance(DrawAt(lines[0], textbbox, offset), textbbox);
      if next <= Bottom {
        LayoutSteps(lines[1..], textbbox, next);
      }
    }
  }

  lemma {:induction false} LayoutStops(lines: seq<string>, textbbox: string -> Box, offset: int)
    requires offset <= Bottom
    ensures var r := Layout(lines, textbbox, offset);
            |r| < |lines| ==> Advance(r[|r| - 1], textbbox) > Bottom
    decreases |lines|
  {
    if lines != [] {
      var next := Advance(DrawAt(lines[0], textbbox, offset), textbbox);
      if next <= Bottom {
        LayoutStops(lines[1..], textbbox, next);
      }
    }
  }

  /** What the layout draws: the first lines, in order, each centred; the
      first at `offset`, each next one lower by the previous line's height
      plus the spacing, none below `Bottom`; a line is left out only once
      the offset has passed `Bottom`. */
  lemma {:induction false} LayoutSpec(lines: seq<string>, textbbox: string -> Box, offset: int)
    requires offset <= Bottom
    ensures var r := Layout(lines, textbbox, offset);
            && |r| <= |lines|
            && (lines != [] ==> r != [])
            && (forall i :: 0 <= i < |r| ==> r[i].text == lines[i])
            && (forall i :: 0 <= i < |r| ==> r[i].y <= Bottom && Centred(r[i], textbbox))
            && (r != [] ==> r[0].y == offset)
            && (forall i, k :: 0 <= i && k == i + 1 && k < |r| ==> r[k].y == Advance(r[i], textbbox))
            && (|r| < |lines| ==> Advance(r[|r| - 1], textbbox) > Bottom)
  {
    LayoutTexts(lines, textbbox, offset);
    LayoutPlaced(lines, textbbox, offset);
    LayoutSteps(lines, textbbox, offset);
    LayoutStops(lines, textbbox, offset);
  }

  /** The draws `create_flashcard` makes for `text`. */
  function Card(text: string, textbbox: string -> Box): (r: seq<Draw>)
    ensures |r| <= |CardLines(text)|
    ensures CardLines(text) != [] ==> r != []
  {
    Layout(CardLines(text), textbbox, TopOffset)
  }

  /** Laying out a line followed by more lines: the line is drawn, and the
      rest follows unless the offset has passed `Bottom`. */
  lemma LayoutCons(line: string, more: seq<string>, textbbox: string -> Box, offset: int)
    requires offset <= Bottom
    ensures Advance(DrawAt(line, textbbox, offset), textbbox) > Bottom
            ==> Layout([line] + more, textbbox, offset) == [DrawAt(line, textbbox, offset)]
    ensures Advance(DrawAt(line, textbbox, offset), textbbox) <= Bottom
            ==> Layout([line] + more, textbbox, offset)
                == [DrawAt(line, textbbox, offset)] + Layout(more, textbbox, Advance(DrawAt(line, textbbox, offset), textbbox))
  {
    assert ([line] + more)[1..] == more;
  }

  /** `create_flashcard` with its nested loops and double `break`; it makes
      exactly the draws of the flat layout `Card`. */
  method CreateFlashcard(text: string, textbbox: string -> Box) returns (draws: seq<Draw>)
    ensures draws == Card(text, textbbox)
  {
    var lines := Lines(text);
    var nBullets := BulletCount(|lines|);
    // `create_flashcard` saves a blank card when `n_bullets == 0`; `lines`
    // is never empty, so that branch cannot run.
    assert nBullets >= 1;
    var groups := Groups(lines);
    draws := DrawGroups(WrappedGroups(groups), textbbox);
  }

  lemma AppendStep<T>(before: seq<T>, d: T, after: seq<T>, full: seq<T>)
    requires before + ([d] + after) == full
    ensures (before + [d]) + after == full
  {
  }

  /** The loops of `create_flashcard` over the bullet groups and their
      wrapped lines. */
  method DrawGroups(wrapped: seq<seq<string>>, textbbox: string -> Box) returns (draws: seq<Draw>)
    ensures draws == Layout(Flatten(wrapped), textbbox, TopOffset)
  {
    ghost var full := Layout(Flatten(wrapped), textbbox, TopOffset);
    draws := [];
    var offset := TopOffset;
    var gi := 0;
    while gi < |wrapped|
      invariant 0 <= gi <= |wrapped|
      invariant offset <= Bottom
      invariant draws + Layout(Flatten(wrapped[gi..]), textbbox, offset) == full
    {
      var wrappedLines := wrapped[gi];
      FlattenFrom(wrapped, gi);
      assert wrappedLines[0..] == wrappedLines;
      var j := 0;
      while j < |wrappedLines|
        invariant 0 <= j <= |wrappedLines|
        invariant offset <= Bottom
        invariant draws + Layout(wrappedLines[j..] + Flatten(wrapped[gi + 1..]), textbbox, offset) == full
      {
        ghost var more := wrappedLines[j + 1..] + Flatten(wrapped[gi + 1..]);
        assert wrappedLines[j..] + Flatten(wrapped[gi + 1..]) == [wrappedLines[j]] + more by {
          assert wrappedLines[j..] == [wrappedLines[j]] + wrappedLines[j + 1..];
        }
        LayoutCons(wrappedLines[j], more, textbbox, offset);
        var bbox := textbbox(wrappedLines[j]);
        var textWidth := bbox.right - bbox.left;
        var x := (CanvasWidth - textWidth) / 2;
        var d := Draw(x, offset, wrappedLines[j]);
        assert d == DrawAt(wrappedLines[j], textbbox, offset);
        ghost var before := draws;
        draws := draws + [d];
        var lineHeight := bbox.bottom - bbox.top;
        offset := offset + lineHeight + LineSpacing;
        assert offset == Advance(d, textbbox);
        if offset <= Bottom {
          AppendStep(before, d, Layout(more, textbbox, offset), full);
        }
        if offset > Bottom {
          break;
        }
        j := j + 1;
      }
      if offset > Bottom {
        break;
      }
      assert wrappedLines[j..] + Flatten(wrapped[gi + 1..]) == Flatten(wrapped[gi + 1..]);
      gi := gi + 1;
    }
  }

  // ---------------------------------------------------------------------
  // Whole-card facts

  /** The drawn lines are the first lines of the card, in order, none
      longer than 60 characters and none below `Bottom`; a line is left out
      only once the offset has passed `Bottom`. */
  lemma CardTruncates(text: string, textbbox: string -> Box)
    ensures var d := Card(text, textbbox);
            && 1 <= |d| <= |CardLines(text)|
            && (forall i :: 0 <= i < |d| ==> d[i].text == CardLines(text)[i] && |d[i].text| <= WrapWidth)
            && (forall i :: 0 <= i < |d| ==> d[i].y <= Bottom)
            && d[0].y == TopOffset
            && (|d| < |CardLines(text)| ==> Advance(d[|d| - 1], textbbox) > Bottom)
  {
    CardLinesFit(text);
    LayoutSpec(CardLines(text), textbbox, TopOffset);
    var groups := Groups(Lines(text));
    var w := WrappedGroups(groups);
    assert CardLines(text) != [] by {
      BulletWrapKeepsText(groups[0]);
      assert w[0] != [];
      FlattenAppend([w[0]], w[1..]);
      assert [w[0]] + w[1..] == w;
      assert Flatten([w[0]]) == w[0];
    }
  }

  /** The bullet of an empty group wraps to the glyph alone: the trailing
      space is dropped. */
  lemma LoneBulletWraps()
    ensures TextWrap.Wrap(BulletMark, WrapWidth) == ["\U{2022}"]
  {
    TextWrap.ExpandTabsWithoutTabs(BulletMark, 0);
    assert TextWrap.Munge(BulletMark) == BulletMark;
    assert TextWrap.RunLength(BulletMark, false) == 1;
    assert BulletMark[1..] == " ";
    assert TextWrap.RunLength(" ", true) == 1;
    var chunks := TextWrap.Chunks(BulletMark);
    assert chunks == ["\U{2022}", " "];
    var f := TextWrap.Fill(chunks, 0, WrapWidth);
    assert f == (chunks, []);
    var next := TextWrap.NextLine(chunks, WrapWidth, false);
    assert next == TextWrap.Line(["\U{2022}"], []);
  }

  lemma EmptyTextLines()
    ensures Lines("") == [""]
  {
    assert RawLines("") == [""];
  }

  lemma OneLineGroups()
    ensures Groups([""]) == [[""]]
  {
    assert GroupSize(1) == 1;
    assert Groups([""])[0] == Slice([""], 0, 1) == [""][0..1] == [""];
  }

  lemma LoneBulletGroups()
    ensures WrappedGroups([[""]]) == [["\U{2022}"]]
  {
    assert Bullet([""]) == BulletMark;
    LoneBulletWraps();
  }

  /** An empty text has one line, the empty one, in one group, so the card
      holds the glyph alone. */
  lemma EmptyTextCardLines()
    ensures CardLines("") == ["\U{2022}"]
  {
    EmptyTextLines();
    OneLineGroups();
    LoneBulletGroups();
    assert Flatten([["\U{2022}"]]) == ["\U{2022}"];
  }

  /** An empty text does not give a blank card: it draws one lone bullet
      glyph, centred, at the top offset. */
  lemma EmptyTextDrawsLoneBullet(textbbox: string -> Box)
    ensures Card("", textbbox) == [Draw((CanvasWidth - Width(textbbox("\U{2022}"))) / 2, TopOffset, "\U{2022}")]
  {
    EmptyTextCardLines();
    SingleLineCard("", "\U{2022}", textbbox);
  }

  /** A card of one line draws that line, centred, at the top offset. */
  lemma SingleLineCard(text: string, line: string, textbbox: string -> Box)
    requires CardLines(text) == [line]
    ensures Card(text, textbbox) == [DrawAt(line, textbbox, TopOffset)]
  {
    LayoutSingle(line, textbbox, TopOffset);
  }

  /** One line is always drawn, at the offset it is given. */
  lemma LayoutSingle(line: string, textbbox: string -> Box, offset: int)
    requires offset <= Bottom
    ensures Layout([line], textbbox, offset) == [DrawAt(line, textbbox, offset)]
  {
  }
}
