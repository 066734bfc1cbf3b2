/** Python's `textwrap.wrap(text, width)` with its default options
    (`expand_tabs`, `replace_whitespace`, `drop_whitespace` and
    `break_long_words` all on; `break_on_hyphens`, also on by default, is
    not modelled), written at the level of textwrap's chunks:
    the text is cut into alternating runs of whitespace and of other
    characters, and lines are filled greedily from those runs. */
module TextWrap {
  import opened Py

  const TabSize: nat := 8

  /** textwrap's own whitespace: tab, newline, vertical tab, form feed,
      carriage return and space. */
  predicate IsWrapSpace(c: char) {
    c == ' ' || ('\t' <= c <= '\r')
  }

  lemma WrapSpaceIsSpace(c: char)
    requires IsWrapSpace(c)
    ensures IsSpace(c)
  {
  }

  function Spaces(n: nat): (r: string)
    ensures |r| == n && IsBlank(r)
  {
    seq(n, i => ' ')
  }

  // ---------------------------------------------------------------------
  // Whitespace munging: `text.expandtabs(8)`, then every textwrap
  // whitespace character becomes a space.

  /** `str.expandtabs(8)` for text whose first character sits at column
      `col`: a tab becomes the spaces up to the next multiple of 8, and a
      newline or carriage return resets the column. */
  function ExpandTabs(s: string, col: nat): (r: string)
    ensures '\t' !in r
  {
    if s == [] then []
    else if s[0] == '\t' then
      var pad := TabSize - col % TabSize;
      Spaces(pad) + ExpandTabs(s[1..], col + pad)
    else if s[0] == '\n' || s[0] == '\r' then [s[0]] + ExpandTabs(s[1..], 0)
    else [s[0]] + ExpandTabs(s[1..], col + 1)
  }

  /** Tab expansion only ever adds or removes whitespace. */
  lemma {:induction false} ExpandTabsKeepsVisible(s: string, col: nat)
    ensures Visible(ExpandTabs(s, col)) == Visible(s)
  {
    if s != [] {
      var col' := if s[0] == '\t' then col + (TabSize - col % TabSize)
                  else if s[0] == '\n' || s[0] == '\r' then 0 else col + 1;
      ExpandTabsKeepsVisible(s[1..], col');
      var head := if s[0] == '\t' then Spaces(TabSize - col % TabSize) else [s[0]];
      assert ExpandTabs(s, col) == head + ExpandTabs(s[1..], col');
      VisibleAppend(head, ExpandTabs(s[1..], col'));
      if s[0] == '\t' {
        BlankIsInvisible(head);
      }
    }
  }

  /** Text without tabs is left alone, whatever the starting column. */
  lemma {:induction false} ExpandTabsWithoutTabs(s: string, col: nat)
    requires '\t' !in s
    ensures ExpandTabs(s, col) == s
  {
    if s != [] {
      assert '\t' !in s[1..];
      var col' := if s[0] == '\n' || s[0] == '\r' then 0 else col + 1;
      ExpandTabsWithoutTabs(s[1..], col');
      assert [s[0]] + s[1..] == s;
    }
  }

  /** Every textwrap whitespace character becomes a plain space. */
  function Translate(s: string): (r: string)
    ensures |r| == |s|
    ensures forall i :: 0 <= i < |s| ==> !IsWrapSpace(r[i]) || r[i] == ' '
  {
    if s == [] then []
    else [if IsWrapSpace(s[0]) then ' ' else s[0]] + Translate(s[1..])
  }

  lemma {:induction false} TranslateKeepsVisible(s: string)
    ensures Visible(Translate(s)) == Visible(s)
  {
    if s != [] {
      TranslateKeepsVisible(s[1..]);
      var head := if IsWrapSpace(s[0]) then " " else [s[0]];
      assert Translate(s) == head + Translate(s[1..]);
      VisibleAppend(head, Translate(s[1..]));
      if IsWrapSpace(s[0]) {
        WrapSpaceIsSpace(s[0]);
      }
    }
  }

  /** textwrap's `_munge_whitespace`. */
  function Munge(s: string): string
  {
    Translate(ExpandTabs(s, 0))
  }

  lemma MungeKeepsVisible(s: string)
    ensures Visible(Munge(s)) == Visible(s)
  {
    ExpandTabsKeepsVisible(s, 0);
    TranslateKeepsVisible(ExpandTabs(s, 0));
  }

  // ---------------------------------------------------------------------
  // Chunking

  /** Number of leading characters that are whitespace exactly when `space`
      is. */
  function RunLength(s: string, space: bool): (k: nat)
    ensures k <= |s|
    ensures forall i :: 0 <= i < k ==> IsWrapSpace(s[i]) == space
    ensures k < |s| ==> IsWrapSpace(s[k]) != space
  {
    if s != [] && IsWrapSpace(s[0]) == space then 1 + RunLength(s[1..], space) else 0
  }

  /** A chunk: a non-empty run, all whitespace or all not. */
  predicate IsChunk(c: string) {
    c != [] && forall i :: 0 <= i < |c| ==> IsWrapSpace(c[i]) == IsWrapSpace(c[0])
  }

  /** textwrap's `_split`: the maximal runs of whitespace and of
      non-whitespace, in order; nothing is lost. */
  function Chunks(s: string): (r: seq<string>)
    ensures Flatten(r) == s
    ensures forall k :: 0 <= k < |r| ==> IsChunk(r[k])
    decreases |s|
  {
    if s == [] then []
    else
      var k := RunLength(s, IsWrapSpace(s[0]));
      assert s == s[..k] + s[k..];
      [s[..k]] + Chunks(s[k..])
  }

  // ---------------------------------------------------------------------
  // Filling lines (textwrap's `_wrap_chunks`)

  /** What is left to wrap: the characters plus the number of chunks. */
  function Measure(chunks: seq<string>): nat {
    |Flatten(chunks)| + |chunks|
  }

  lemma MeasureCons(c: string, cs: seq<string>)
    ensures Measure([c] + cs) == |c| + 1 + Measure(cs)
  {
    assert ([c] + cs)[1..] == cs;
  }

  /** Takes whole chunks from the front for as long as the line, already
      `used` characters long, stays within `width`. */
  function Fill(chunks: seq<string>, used: nat, width: nat): (r: (seq<string>, seq<string>))
    requires used <= width
    ensures r.0 + r.1 == chunks
    ensures used + |Flatten(r.0)| <= width
    ensures r.1 != [] ==> used + |Flatten(r.0)| + |r.1[0]| > width
  {
    if chunks != [] && used + |chunks[0]| <= width then
      var f := Fill(chunks[1..], used + |chunks[0]|, width);
      assert ([chunks[0]] + f.0)[1..] == f.0;
      ([chunks[0]] + f.0, f.1)
    else ([], chunks)
  }

  /** One line under construction: the pieces on it, and the chunks after it. */
  datatype Line = Line(pieces: seq<string>, rest: seq<string>)

  lemma MeasureAppend(a: seq<string>, b: seq<string>)
    ensures Measure(a + b) == Measure(a) + Measure(b)
  {
    FlattenAppend(a, b);
  }

  /** Cutting chunk `c` after `k` characters moves those characters onto the
      line and leaves the rest at the front of what remains. */
  lemma CutChunk(taken: seq<string>, c: string, more: seq<string>, k: nat)
    requires k <= |c|
    ensures Flatten(taken + [c[..k]]) + Flatten([c[k..]] + more) == Flatten(taken) + Flatten([c] + more)
    ensures |Flatten(taken + [c[..k]])| == |Flatten(taken)| + k
    ensures Measure([c[k..]] + more) + k == Measure([c] + more)
  {
    FlattenAppend(taken, [c[..k]]);
    assert Flatten([c[..k]]) == c[..k];
    MeasureCons(c[k..], more);
    MeasureCons(c, more);
    assert ([c[k..]] + more)[1..] == more;
    assert ([c] + more)[1..] == more;
    assert c == c[..k] + c[k..];
  }

  /** Greedy fill, then, when the next chunk is longer than a whole line,
      its first `width - used` characters go on this line
      (`break_long_words`). */
  function TakeLine(avail: seq<string>, width: nat): (r: Line)
    requires width > 0
    ensures |Flatten(r.pieces)| <= width
    ensures Flatten(r.pieces) + Flatten(r.rest) == Flatten(avail)
    ensures avail != [] ==> Measure(r.rest) < Measure(avail)
  {
    var f := Fill(avail, 0, width);
    FlattenAppend(f.0, f.1);
    MeasureAppend(f.0, f.1);
    if f.1 != [] && |f.1[0]| > width then
      var k := width - |Flatten(f.0)|;
      var c := f.1[0];
      assert [c] + f.1[1..] == f.1;
      CutChunk(f.0, c, f.1[1..], k);
      Line(f.0 + [c[..k]], [c[k..]] + f.1[1..])
    else
      Line(f.0, f.1)
  }

  /** Dropping a whitespace chunk from either end of a list of chunks loses
      no visible character. */
  lemma DropBlankFront(chunks: seq<string>)
    requires chunks != [] && IsBlank(chunks[0])
    ensures Visible(Flatten(chunks[1..])) == Visible(Flatten(chunks))
    ensures Measure(chunks[1..]) < Measure(chunks)
  {
    VisibleAppend(chunks[0], Flatten(chunks[1..]));
    BlankIsInvisible(chunks[0]);
  }

  lemma DropBlankBack(p: seq<string>)
    requires p != [] && IsBlank(p[|p| - 1])
    ensures Visible(Flatten(p[..|p| - 1])) == Visible(Flatten(p))
    ensures |Flatten(p[..|p| - 1])| <= |Flatten(p)|
  {
    var last := p[|p| - 1];
    assert p[..|p| - 1] + [last] == p;
    FlattenAppend(p[..|p| - 1], [last]);
    assert Flatten([last]) == last;
    VisibleAppend(Flatten(p[..|p| - 1]), last);
    BlankIsInvisible(last);
  }

  /** One pass of textwrap's outer loop. Once a line has been emitted
      (`started`), a whitespace chunk at the start of a line is dropped;
      a whitespace piece at the end of the line is dropped. */
  function NextLine(chunks: seq<string>, width: nat, started: bool): (r: Line)
    requires width > 0 && chunks != []
    ensures |Flatten(r.pieces)| <= width
    ensures Measure(r.rest) < Measure(chunks)
    ensures Visible(Flatten(r.pieces)) + Visible(Flatten(r.rest)) == Visible(Flatten(chunks))
  {
    var drop := started && IsBlank(chunks[0]);
    var avail := if drop then chunks[1..] else chunks;
    assert Visible(Flatten(avail)) == Visible(Flatten(chunks)) && Measure(avail) <= Measure(chunks) by {
      if drop { DropBlankFront(chunks); }
    }
    var t := TakeLine(avail, width);
    VisibleAppend(Flatten(t.pieces), Flatten(t.rest));
    var p := t.pieces;
    if p != [] && IsBlank(p[|p| - 1]) then
      DropBlankBack(p);
      Line(p[..|p| - 1], t.rest)
    else
      t
  }

  /** Every line of `lines` has at most `width` characters. */
  predicate AllFit(lines: seq<string>, width: nat) {
    lines == [] || (|lines[0]| <= width && AllFit(lines[1..], width))
  }

  lemma {:induction false} AllFitAt(lines: seq<string>, width: nat, i: nat)
    requires AllFit(lines, width) && i < |lines|
    ensures |lines[i]| <= width
  {
    if i > 0 {
      AllFitAt(lines[1..], width, i - 1);
    }
  }

  /** The lines textwrap emits for `chunks`; `started` records whether a
      line has been emitted already. */
  function WrapChunks(chunks: seq<string>, width: nat, started: bool): (lines: seq<string>)
    requires width > 0
    ensures AllFit(lines, width)
    decreases Measure(chunks)
  {
    if chunks == [] then []
    else
      var next := NextLine(chunks, width, started);
      if next.pieces != [] then
        var tail := WrapChunks(next.rest, width, true);
        assert ([Flatten(next.pieces)] + tail)[1..] == tail;
        [Flatten(next.pieces)] + tail
      else WrapChunks(next.rest, width, started)
  }

  /** No non-whitespace character is lost, duplicated or reordered. */
  lemma {:induction false} WrapChunksKeepsVisible(chunks: seq<string>, width: nat, started: bool)
    requires width > 0
    ensures Visible(Flatten(WrapChunks(chunks, width, started))) == Visible(Flatten(chunks))
    decreases Measure(chunks)
  {
    if chunks != [] {
      var next := NextLine(chunks, width, started);
      var lines := WrapChunks(chunks, width, started);
      if next.pieces != [] {
        WrapChunksKeepsVisible(next.rest, width, true);
        var tail := WrapChunks(next.rest, width, true);
        assert lines == [Flatten(next.pieces)] + tail;
        assert lines[1..] == tail;
        VisibleAppend(Flatten(next.pieces), Flatten(tail));
      } else {
        WrapChunksKeepsVisible(next.rest, width, started);
      }
    }
  }

  /** `textwrap.wrap(text, width)`. */
  function Wrap(text: string, width: nat): (lines: seq<string>)
    requires width > 0
    ensures AllFit(lines, width)
  {
    WrapChunks(Chunks(Munge(text)), width, false)
  }

  /** Every wrapped line fits in `width` characters, and the lines, read one
      after another, hold exactly the non-whitespace characters of `text` in
      order. */
  lemma WrapSpec(text: string, width: nat)
    requires width > 0
    ensures forall i :: 0 <= i < |Wrap(text, width)| ==> |Wrap(text, width)[i]| <= width
    ensures Visible(Flatten(Wrap(text, width))) == Visible(text)
  {
    WrapChunksKeepsVisible(Chunks(Munge(text)), width, false);
    MungeKeepsVisible(text);
    forall i | 0 <= i < |Wrap(text, width)| ensures |Wrap(text, width)[i]| <= width {
      AllFitAt(Wrap(text, width), width, i);
    }
  }
}
