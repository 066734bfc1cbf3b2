/** The handful of Python `str` and list built-ins the flashcard code relies on,
    written as pure functions over `seq<char>` with contracts that pin down
    what each built-in returns. */
module Py {

  datatype Option<T> = None | Some(value: T)

  /** `str.isspace()` for one character: the characters `str.split()` and
      `str.strip()` treat as whitespace. */
  predicate IsSpace(c: char) {
    || c == ' '
    || ('\t' <= c <= '\r')
    || ('\U{1C}' <= c <= '\U{1F}')
    || c == '\U{85}' || c == '\U{A0}' || c == '\U{1680}'
    || ('\U{2000}' <= c <= '\U{200A}')
    || c == '\U{2028}' || c == '\U{2029}' || c == '\U{202F}'
    || c == '\U{205F}' || c == '\U{3000}'
  }

  /** `s.strip() == ''`: every character is whitespace. */
  predicate IsBlank(s: string) {
    forall i :: 0 <= i < |s| ==> IsSpace(s[i])
  }

  /** What `str.strip()` produces: no whitespace at either end. */
  predicate IsStripped(s: string) {
    s == [] || (!IsSpace(s[0]) && !IsSpace(s[|s| - 1]))
  }

  /** The non-whitespace characters of `s`, in order. */
  function Visible(s: string): string
  {
    if s == [] then [] else (if IsSpace(s[0]) then [] else [s[0]]) + Visible(s[1..])
  }

  lemma {:induction false} VisibleAppend(a: string, b: string)
    ensures Visible(a + b) == Visible(a) + Visible(b)
  {
    if a == [] {
      assert a + b == b;
    } else {
      assert (a + b)[1..] == a[1..] + b;
      VisibleAppend(a[1..], b);
    }
  }

  lemma {:induction false} BlankIsInvisible(s: string)
    requires IsBlank(s)
    ensures Visible(s) == []
  {
    if s != [] {
      BlankIsInvisible(s[1..]);
    }
  }

  /** Concatenation of a list of sequences, `''.join(xs)` for strings. */
  function Flatten<T>(xss: seq<seq<T>>): seq<T>
  {
    if xss == [] then [] else xss[0] + Flatten(xss[1..])
  }

  lemma {:induction false} FlattenAppend<T>(a: seq<seq<T>>, b: seq<seq<T>>)
    ensures Flatten(a + b) == Flatten(a) + Flatten(b)
  {
    if a == [] {
      assert a + b == b;
    } else {
      assert (a + b)[1..] == a[1..] + b;
      FlattenAppend(a[1..], b);
    }
  }

  /** Flattening from index `i` on starts with element `i`. */
  lemma FlattenFrom<T>(xss: seq<seq<T>>, i: nat)
    requires i < |xss|
    ensures Flatten(xss[i..]) == xss[i] + Flatten(xss[i + 1..])
  {
    assert xss[i..][1..] == xss[i + 1..];
  }

  /** `a` can be obtained from `b` by deleting elements: it keeps `b`'s
      order. */
  predicate IsSubsequence<T(==)>(a: seq<T>, b: seq<T>)
    decreases |b|
  {
    if a == [] then true
    else if b == [] then false
    else IsSubsequence(a, b[1..]) || (a[0] == b[0] && IsSubsequence(a[1..], b[1..]))
  }

  /** How many elements of `xs` satisfy `p`. */
  function CountIf<T>(xs: seq<T>, p: T -> bool): (n: nat)
    ensures n <= |xs|
  {
    if xs == [] then 0 else (if p(xs[0]) then 1 else 0) + CountIf(xs[1..], p)
  }

  /** Python's clamped slice `xs[lo:hi]` for non-negative bounds. */
  function Slice<T>(xs: seq<T>, lo: nat, hi: nat): (r: seq<T>)
    ensures |r| <= |xs|
    ensures hi <= |xs| && lo <= hi ==> r == xs[lo..hi]
    ensures |xs| <= lo ==> r == []
  {
    var a := if lo <= |xs| then lo else |xs|;
    var b := if hi <= |xs| then hi else |xs|;
    if a <= b then xs[a..b] else []
  }

  /** Batch `i` of size `size`: the clamped slice `xs[i*size:(i+1)*size]`. */
  function Batch<T>(xs: seq<T>, size: nat, i: nat): seq<T> {
    Slice(xs, i * size, i * size + size)
  }

  /** Batches fill in order: a batch before a non-empty batch is full. */
  lemma BatchBeforeNonEmpty<T>(xs: seq<T>, size: nat, i: nat, j: nat)
    requires i < j && Batch(xs, size, j) != []
    ensures |Batch(xs, size, i)| == size
  {
    var d: nat := j - i - 1;
    assert j * size == i * size + size + d * size;
    assert d * size >= 0;
  }

  lemma SliceJoin<T>(xs: seq<T>, a: nat, b: nat, c: nat)
    requires a <= b <= c
    ensures Slice(xs, a, b) + Slice(xs, b, c) == Slice(xs, a, c)
  {
  }

  /** The first `n` batches, read in order, are the prefix of length
      `n * size` (clamped). */
  lemma {:induction false} FlattenBatches<T>(xs: seq<T>, size: nat, n: nat)
    ensures Flatten(seq(n, i requires 0 <= i < n => Batch(xs, size, i))) == Slice(xs, 0, n * size)
  {
    if n > 0 {
      var s := seq(n, i requires 0 <= i < n => Batch(xs, size, i));
      var s' := seq(n - 1, i requires 0 <= i < n - 1 => Batch(xs, size, i));
      var last := Batch(xs, size, n - 1);
      FlattenBatches(xs, size, n - 1);
      assert s == s' + [last];
      FlattenAppend(s', [last]);
      assert Flatten([last]) == last;
      assert (n - 1) * size + size == n * size;
      SliceJoin(xs, 0, (n - 1) * size, n * size);
    }
  }

  // ---------------------------------------------------------------------
  // str.strip()

  /** Number of leading whitespace characters. */
  function LeadingSpace(s: string): (k: nat)
    ensures k <= |s|
    ensures forall i :: 0 <= i < k ==> IsSpace(s[i])
    ensures k < |s| ==> !IsSpace(s[k])
  {
    if s != [] && IsSpace(s[0]) then 1 + LeadingSpace(s[1..]) else 0
  }

  /** Index where the trailing run of whitespace begins. */
  function TrailingSpace(s: string): (j: nat)
    ensures j <= |s|
    ensures forall i :: j <= i < |s| ==> IsSpace(s[i])
    ensures j > 0 ==> !IsSpace(s[j - 1])
  {
    if s != [] && IsSpace(s[|s| - 1]) then TrailingSpace(s[..|s| - 1]) else |s|
  }

  /** `s.strip()`: the infix of `s` left after removing the whitespace at both
      ends. */
  function Strip(s: string): (r: string)
    ensures IsStripped(r)
    ensures LeadingSpace(s) + |r| <= |s|
    ensures r == s[LeadingSpace(s)..LeadingSpace(s) + |r|]
    ensures IsBlank(s[..LeadingSpace(s)]) && IsBlank(s[LeadingSpace(s) + |r|..])
    ensures r == [] <==> IsBlank(s)
  {
    var i := LeadingSpace(s);
    var j := TrailingSpace(s);
    if i == |s| then [] else s[i..j]
  }

  /** `[p.strip() for p in pieces]`. */
  function StripEach(pieces: seq<string>): (r: seq<string>)
    ensures |r| == |pieces|
    ensures forall i :: 0 <= i < |pieces| ==> r[i] == Strip(pieces[i])
  {
    seq(|pieces|, i requires 0 <= i < |pieces| => Strip(pieces[i]))
  }

  lemma StripKeepsVisible(s: string)
    ensures Visible(Strip(s)) == Visible(s)
  {
    var i := LeadingSpace(s);
    var r := Strip(s);
    assert s == s[..i] + r + s[i + |r|..];
    VisibleAppend(s[..i] + r, s[i + |r|..]);
    VisibleAppend(s[..i], r);
    BlankIsInvisible(s[..i]);
    BlankIsInvisible(s[i + |r|..]);
  }

  /** `LeadingSpace` is the index of the first non-whitespace character. */
  lemma LeadingSpaceAt(s: string, k: nat)
    requires k < |s| && IsBlank(s[..k]) && !IsSpace(s[k])
    ensures LeadingSpace(s) == k
  {
  }

  /** `TrailingSpace` is one past the last non-whitespace character. */
  lemma TrailingSpaceAt(s: string, k: nat)
    requires 0 < k <= |s| && IsBlank(s[k..]) && !IsSpace(s[k - 1])
    ensures TrailingSpace(s) == k
  {
  }

  /** Stripping pads of whitespace off a stripped string gives it back; in
      particular `Strip` is idempotent. */
  lemma StripPadded(pre: string, x: string, post: string)
    requires IsBlank(pre) && IsBlank(post) && IsStripped(x)
    ensures Strip(pre + x + post) == x
  {
    var s := pre + x + post;
    if x == [] {
      assert IsBlank(s) by {
        forall k | 0 <= k < |s| ensures IsSpace(s[k]) {
          if k < |pre| { assert s[k] == pre[k]; } else { assert s[k] == post[k - |pre|]; }
        }
      }
    } else {
      var i, j := |pre|, |pre| + |x|;
      assert s[..i] == pre && s[j..] == post && s[i..j] == x;
      LeadingSpaceAt(s, i);
      TrailingSpaceAt(s, j);
    }
  }

  lemma StripIdempotent(s: string)
    requires IsStripped(s)
    ensures Strip(s) == s
  {
    StripPadded([], s, []);
    assert [] + s + [] == s;
  }

  // ---------------------------------------------------------------------
  // str.split() with no argument

  /** Number of leading non-whitespace characters. */
  function WordLength(s: string): (k: nat)
    ensures k <= |s|
    ensures forall i :: 0 <= i < k ==> !IsSpace(s[i])
    ensures k < |s| ==> IsSpace(s[k])
  {
    if s != [] && !IsSpace(s[0]) then 1 + WordLength(s[1..]) else 0
  }

  /** `s.split()`: the maximal runs of non-whitespace characters. */
  function Words(s: string): (r: seq<string>)
    ensures forall k :: 0 <= k < |r| ==> r[k] != [] && Visible(r[k]) == r[k]
    decreases |s|
  {
    var k := LeadingSpace(s);
    if k == |s| then []
    else
      var t := s[k..];
      var e := WordLength(t);
      assert Visible(t[..e]) == t[..e] by { AllVisible(t[..e]); }
      [t[..e]] + Words(t[e..])
  }

  lemma {:induction false} AllVisible(s: string)
    requires forall i :: 0 <= i < |s| ==> !IsSpace(s[i])
    ensures Visible(s) == s
  {
    if s != [] {
      AllVisible(s[1..]);
    }
  }

  /** Reading the words of `s` one after another gives exactly the
      non-whitespace characters of `s`. */
  lemma {:induction false} WordsAreVisible(s: string)
    ensures Flatten(Words(s)) == Visible(s)
    decreases |s|
  {
    var k := LeadingSpace(s);
    assert s == s[..k] + s[k..];
    VisibleAppend(s[..k], s[k..]);
    BlankIsInvisible(s[..k]);
    if k < |s| {
      var t := s[k..];
      var e := WordLength(t);
      assert t == t[..e] + t[e..];
      VisibleAppend(t[..e], t[e..]);
      AllVisible(t[..e]);
      WordsAreVisible(t[e..]);
    }
  }

  /** Index `i` begins a word: a non-whitespace character at the start of
      `s` or right after whitespace. */
  predicate IsWordStart(s: string, i: nat)
    requires i < |s|
  {
    !IsSpace(s[i]) && (i == 0 || IsSpace(s[i - 1]))
  }

  /** The number of word starts among the first `n` indices of `s`. */
  function WordStartsBelow(s: string, n: nat): nat
    requires n <= |s|
  {
    if n == 0 then 0 else WordStartsBelow(s, n - 1) + (if IsWordStart(s, n - 1) then 1 else 0)
  }

  /** The number of words of `s`, counted by where they begin. */
  function WordCount(s: string): nat {
    WordStartsBelow(s, |s|)
  }

  /** Cutting `s` at a position next to whitespace splits its word starts
      between the two sides. */
  lemma {:induction false} WordStartsSplit(s: string, m: nat, n: nat)
    requires m <= n <= |s|
    requires m == 0 || m == |s| || IsSpace(s[m - 1]) || IsSpace(s[m])
    ensures WordStartsBelow(s, n) == WordStartsBelow(s, m) + WordStartsBelow(s[m..], n - m)
    decreases n
  {
    if n > m {
      WordStartsSplit(s, m, n - 1);
      assert s[m..][n - 1 - m] == s[n - 1];
      if n - 1 > m {
        assert s[m..][n - 2 - m] == s[n - 2];
      }
    }
  }

  lemma {:induction false} BlankHasNoWordStart(s: string, n: nat)
    requires n <= |s|
    requires forall i :: 0 <= i < n ==> IsSpace(s[i])
    ensures WordStartsBelow(s, n) == 0
  {
    if n > 0 {
      BlankHasNoWordStart(s, n - 1);
    }
  }

  lemma {:induction false} RunHasOneWordStart(s: string, n: nat)
    requires 0 < n <= |s|
    requires forall i :: 0 <= i < n ==> !IsSpace(s[i])
    ensures WordStartsBelow(s, n) == 1
  {
    if n > 1 {
      RunHasOneWordStart(s, n - 1);
    }
  }

  /** `len(s.split())` is the number of places where a word begins. */
  lemma {:induction false} WordsCount(s: string)
    ensures |Words(s)| == WordCount(s)
    decreases |s|
  {
    var k := LeadingSpace(s);
    assert WordCount(s) == WordCount(s[k..]) by {
      WordStartsSplit(s, k, |s|);
      BlankHasNoWordStart(s, k);
    }
    if k < |s| {
      var t := s[k..];
      var e := WordLength(t);
      assert WordCount(t) == 1 + WordCount(t[e..]) by {
        WordStartsSplit(t, e, |t|);
        RunHasOneWordStart(t, e);
      }
      WordsCount(t[e..]);
      assert |Words(s)| == 1 + |Words(t[e..])|;
    }
  }

  // ---------------------------------------------------------------------
  // str.split(sep) for a one-character separator, and sep.join(xs)

  /** `s.split(sep)`: the pieces between occurrences of `sep`; there is
      always at least one piece. */
  function SplitOn(s: string, sep: char): (r: seq<string>)
    ensures |r| >= 1
    ensures forall k :: 0 <= k < |r| ==> sep !in r[k]
  {
    if s == [] then [[]]
    else
      var rest := SplitOn(s[1..], sep);
      if s[0] == sep then [[]] + rest else [[s[0]] + rest[0]] + rest[1..]
  }

  /** `sep.join(xs)`. */
  function JoinWith(xs: seq<string>, sep: string): string
  {
    if xs == [] then []
    else if |xs| == 1 then xs[0]
    else xs[0] + sep + JoinWith(xs[1..], sep)
  }

  /** `' '.join(xs)` keeps the non-space characters of the pieces, in order. */
  lemma {:induction false} JoinKeepsVisible(xs: seq<string>)
    ensures Visible(JoinWith(xs, " ")) == Visible(Flatten(xs))
  {
    if |xs| == 1 {
      assert Flatten(xs) == xs[0] + Flatten(xs[1..]);
      assert xs[0] + [] == xs[0];
    } else if |xs| > 1 {
      JoinKeepsVisible(xs[1..]);
      VisibleAppend(xs[0] + " ", JoinWith(xs[1..], " "));
      VisibleAppend(xs[0], " ");
      VisibleAppend(xs[0], Flatten(xs[1..]));
      assert Visible(" ") == [];
    }
  }

  /** Joining the pieces of a split with the separator gives back the input. */
  lemma {:induction false} JoinSplit(s: string, sep: char)
    ensures JoinWith(SplitOn(s, sep), [sep]) == s
  {
    if s != [] {
      var rest := SplitOn(s[1..], sep);
      JoinSplit(s[1..], sep);
      if s[0] == sep {
        assert ([[]] + rest)[1..] == rest;
      } else {
        if |rest| == 1 {
          assert JoinWith(rest, [sep]) == rest[0];
        } else {
          assert ([[s[0]] + rest[0]] + rest[1..])[1..] == rest[1..];
          assert JoinWith(rest, [sep]) == rest[0] + [sep] + JoinWith(rest[1..], [sep]);
        }
      }
    }
  }

  lemma {:induction false} SplitNoSeparator(x: string, sep: char)
    requires sep !in x
    ensures SplitOn(x, sep) == [x]
  {
    if x != [] {
      assert sep !in x[1..];
      SplitNoSeparator(x[1..], sep);
      assert [x[0]] + x[1..] == x;
    }
  }

  lemma {:induction false} SplitAtSeparator(x: string, sep: char, rest: string)
    requires sep !in x
    ensures SplitOn(x + [sep] + rest, sep) == [x] + SplitOn(rest, sep)
  {
    var s := x + [sep] + rest;
    if x == [] {
      assert s[1..] == rest;
    } else {
      assert s[1..] == x[1..] + [sep] + rest;
      assert sep !in x[1..];
      SplitAtSeparator(x[1..], sep, rest);
      assert [x[0]] + x[1..] == x;
    }
  }

  /** Splitting a join gives back the pieces, provided no piece contains the
      separator. */
  lemma {:induction false} SplitJoin(xs: seq<string>, sep: char)
    requires |xs| >= 1
    requires forall k :: 0 <= k < |xs| ==> sep !in xs[k]
    ensures SplitOn(JoinWith(xs, [sep]), sep) == xs
  {
    if |xs| == 1 {
      SplitNoSeparator(xs[0], sep);
    } else {
      SplitJoin(xs[1..], sep);
      SplitAtSeparator(xs[0], sep, JoinWith(xs[1..], [sep]));
      assert [xs[0]] + xs[1..] == xs;
    }
  }

  // ---------------------------------------------------------------------
  // substring search: `pat in s`, `s.startswith(pat)`, `s.split(pat, 1)`,
  // `s.replace(pat, '')`

  predicate MatchAt(s: string, pat: string, j: nat) {
    j + |pat| <= |s| && s[j..j + |pat|] == pat
  }

  /** `pat in s`. */
  ghost predicate Occurs(pat: string, s: string) {
    exists j: nat :: MatchAt(s, pat, j)
  }

  /** `s.startswith(pat)`, compared character by character. */
  predicate StartsWith(s: string, pat: string)
    decreases |pat|
  {
    pat == [] || (s != [] && s[0] == pat[0] && StartsWith(s[1..], pat[1..]))
  }

  /** `s` starts with `pat` exactly when `pat` occurs at index 0. */
  lemma {:induction false} StartsWithMatch(s: string, pat: string)
    ensures StartsWith(s, pat) <==> MatchAt(s, pat, 0)
    decreases |pat|
  {
    if pat != [] && s != [] {
      StartsWithMatch(s[1..], pat[1..]);
      if MatchAt(s, pat, 0) {
        assert s[1..][..|pat| - 1] == pat[1..];
      }
      if StartsWith(s, pat) {
        assert s[..|pat|] == [s[0]] + s[1..][..|pat| - 1];
      }
    }
  }

  /** The first index at or after `from` where `pat` occurs. */
  function FindFrom(s: string, pat: string, from: nat): (r: Option<nat>)
    ensures r.Some? ==> from <= r.value && MatchAt(s, pat, r.value)
    ensures r.Some? ==> forall j: nat :: from <= j < r.value ==> !MatchAt(s, pat, j)
    ensures r.None? ==> forall j: nat :: from <= j ==> !MatchAt(s, pat, j)
    decreases |s| - from
  {
    if from + |pat| > |s| then None
    else if s[from..from + |pat|] == pat then Some(from)
    else FindFrom(s, pat, from + 1)
  }

  /** `s.find(pat)`: the first occurrence, if any. */
  function Find(s: string, pat: string): (r: Option<nat>)
    ensures r.Some? <==> Occurs(pat, s)
    ensures r.Some? ==> MatchAt(s, pat, r.value)
    ensures r.Some? ==> forall j: nat :: j < r.value ==> !MatchAt(s, pat, j)
  {
    FindFrom(s, pat, 0)
  }

  /** `s.replace(pat, '')`: removes the occurrences of `pat` found scanning
      left to right, without overlap. */
  function RemoveAll(s: string, pat: string): (r: string)
    requires pat != []
    ensures !Occurs(pat, s) ==> r == s
    ensures Occurs(pat, s) ==> |r| + |pat| <= |s|
    decreases |s|
  {
    match Find(s, pat)
    case None => s
    case Some(i) => s[..i] + RemoveAll(s[i + |pat|..], pat)
  }

  /** The first character of `pat` does not reappear in it, so two
      occurrences of `pat` never overlap. */
  predicate HeadUnique(pat: string) {
    pat != [] && forall j :: 0 < j < |pat| ==> pat[j] != pat[0]
  }

  /** When `a` holds no `pat`, the first `pat` of `a + pat + b` is the one
      right after `a`. */
  lemma FindAfterFree(a: string, pat: string, b: string)
    requires HeadUnique(pat) && !Occurs(pat, a)
    ensures Find(a + pat + b, pat) == Some(|a|)
  {
    var s := a + pat + b;
    assert s[|a|..|a| + |pat|] == pat;
    assert MatchAt(s, pat, |a|);
    forall j: nat | j < |a| ensures !MatchAt(s, pat, j) {
      if j + |pat| <= |a| {
        assert s[j..j + |pat|] == a[j..j + |pat|];
        assert !MatchAt(a, pat, j);
      } else {
        assert s[j..j + |pat|][|a| - j] == pat[0];
        assert pat[|a| - j] != pat[0];
      }
    }
  }

  /** `replace` keeps the text before the first occurrence and carries on
      after it. */
  lemma RemoveAllSplit(a: string, pat: string, b: string)
    requires HeadUnique(pat) && !Occurs(pat, a)
    ensures RemoveAll(a + pat + b, pat) == a + RemoveAll(b, pat)
  {
    var s := a + pat + b;
    FindAfterFree(a, pat, b);
    assert s[..|a|] == a;
    assert s[|a| + |pat|..] == b;
  }

  // ---------------------------------------------------------------------
  // str.lower(), ASCII letters only

  const Upper: string := "ABCDEFGHIJKLMNOPQRSTUVWXYZ"
  const Small: string := "abcdefghijklmnopqrstuvwxyz"

  /** The two letter tables list the letters in order: letter `k` of each
      alphabet is `k` places after its first letter. */
  lemma CaseTables()
    ensures |Upper| == 26 && |Small| == 26
    ensures forall k :: 0 <= k < 26 ==> Upper[k] as int == 'A' as int + k
    ensures forall k :: 0 <= k < 26 ==> Small[k] as int == 'a' as int + k
  {
  }

  /** A character differs from another only in ASCII letter case: they
      are equal, or they are the same letter of the two tables. */
  ghost predicate SameUpToCase(a: char, b: char) {
    || a == b
    || (exists k :: 0 <= k < |Upper| && Upper[k] == a && Small[k] == b)
    || (exists k :: 0 <= k < |Upper| && Small[k] == a && Upper[k] == b)
  }

  function LowerChar(c: char): char {
    if 'A' <= c <= 'Z' then (c as int + 32) as char else c
  }

  /** The case map on one character: no capital comes out, any other
      character stays, and capital `k` becomes small letter `k`. */
  lemma LowerCharTables(c: char)
    ensures LowerChar(c) !in Upper
    ensures c !in Upper ==> LowerChar(c) == c
    ensures forall k :: 0 <= k < |Upper| && Upper[k] == c ==> LowerChar(c) == Small[k]
  {
    CaseTables();
  }

  function Lower(s: string): (r: string)
    ensures |r| == |s|
    ensures forall i :: 0 <= i < |s| ==> r[i] == LowerChar(s[i])
  {
    seq(|s|, i requires 0 <= i < |s| => LowerChar(s[i]))
  }

  /** `s.lower()` on ASCII letters: no capital is left, every other
      character stays, and each capital becomes its small letter. */
  lemma LowerSpec(s: string)
    ensures |Lower(s)| == |s|
    ensures forall i :: 0 <= i < |s| ==> Lower(s)[i] !in Upper
    ensures forall i :: 0 <= i < |s| && s[i] !in Upper ==> Lower(s)[i] == s[i]
    ensures forall i, k :: 0 <= i < |s| && 0 <= k < |Upper| && s[i] == Upper[k] ==> Lower(s)[i] == Small[k]
  {
    forall i | 0 <= i < |s|
      ensures Lower(s)[i] !in Upper
      ensures s[i] !in Upper ==> Lower(s)[i] == s[i]
      ensures forall k :: 0 <= k < |Upper| && s[i] == Upper[k] ==> Lower(s)[i] == Small[k]
    {
      LowerCharTables(s[i]);
    }
  }

  /** Characters that differ only in case lower-case alike. */
  lemma LowerCharSameUpToCase(a: char, b: char)
    requires SameUpToCase(a, b)
    ensures LowerChar(a) == LowerChar(b)
  {
    CaseTables();
    LowerCharTables(a);
    LowerCharTables(b);
  }
}
