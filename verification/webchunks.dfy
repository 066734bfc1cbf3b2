/** The sentence chunking of the command-line path in main.py: the cleaned
    article text, already split into sentences, is cut into between three
    and five chunks of `chunk_size` sentences each, the trailing ones
    possibly empty when there are fewer than three sentences, and every
    non-empty chunk becomes a numbered card. Fetching the article, the reference-marker
    cleanup and the sentence split are outside the model: the sentence list
    is the input. */
module WebChunks {
  import opened Py

  const MinChunks: nat := 3
  const MaxChunks: nat := 5

  /** `max(3, min(5, len(sentences)))`. */
  function ChunkCount(m: nat): (n: nat)
    ensures MinChunks <= n <= MaxChunks
    ensures MinChunks <= m <= MaxChunks ==> n == m
  {
    if m < MinChunks then MinChunks else if m > MaxChunks then MaxChunks else m
  }

  /** `max(1, len(sentences) // n)`. */
  function ChunkSize(m: nat): (cs: nat)
    ensures cs >= 1
  {
    var q := m / ChunkCount(m);
    if q < 1 then 1 else q
  }

  /** `flashcard_chunks`: chunk `i` joins the sentences of batch `i` with
      single spaces and strips the result. */
  function Chunks(sentences: seq<string>): (r: seq<string>)
    ensures |r| == ChunkCount(|sentences|)
    ensures forall i :: 0 <= i < |r| ==> IsStripped(r[i])
  {
    var n := ChunkCount(|sentences|);
    var cs := ChunkSize(|sentences|);
    seq(n, i requires 0 <= i < n => Strip(JoinWith(Batch(sentences, cs, i), " ")))
  }

  /** The sentences the chunks take, read batch by batch. */
  function Used(sentences: seq<string>): seq<string> {
    var n := ChunkCount(|sentences|);
    Flatten(seq(n, i requires 0 <= i < n => Batch(sentences, ChunkSize(|sentences|), i)))
  }

  /** How many leading sentences survive: all of them below three
      sentences, otherwise all but `len(sentences) % n`. */
  function KeptCount(m: nat): (k: nat)
    ensures k <= m
  {
    if m < MinChunks then m else m - m % ChunkCount(m)
  }

  /** The chunk arithmetic: the `n` batches of `chunk_size` sentences reach
      past the end only when there are fewer than three sentences, and
      otherwise leave out fewer than `n` sentences at the end. */
  lemma ChunkArithmetic(m: nat)
    ensures m >= MinChunks ==> ChunkCount(m) * ChunkSize(m) == KeptCount(m)
    ensures m >= MinChunks ==> m - KeptCount(m) < ChunkCount(m)
    ensures m < MinChunks ==> ChunkSize(m) == 1 && KeptCount(m) == m <= ChunkCount(m)
  {
    var n := ChunkCount(m);
    if m >= MinChunks {
      assert m / n >= 1;
      assert n * (m / n) == m - m % n;
    }
  }

  /** Read in order, the sentences the chunks use are exactly the first
      `KeptCount` sentences: none repeats, none is reordered, and the tail
      beyond them is dropped. */
  lemma UsedIsPrefix(sentences: seq<string>)
    ensures Used(sentences) == sentences[..KeptCount(|sentences|)]
  {
    var m := |sentences|;
    ChunkArithmetic(m);
    FlattenBatches(sentences, ChunkSize(m), ChunkCount(m));
  }

  /** Seven sentences give five one-sentence chunks; the last two sentences
      are lost. */
  lemma SevenSentencesLoseTwo(sentences: seq<string>)
    requires |sentences| == 7
    ensures ChunkCount(7) == 5 && ChunkSize(7) == 1
    ensures Used(sentences) == sentences[..5]
  {
    UsedIsPrefix(sentences);
  }

  /** Each chunk holds the non-space characters of its own sentences, in
      order. */
  lemma ChunkText(sentences: seq<string>, i: nat)
    requires i < ChunkCount(|sentences|)
    ensures Visible(Chunks(sentences)[i])
            == Visible(Flatten(Batch(sentences, ChunkSize(|sentences|), i)))
  {
    var batch := Batch(sentences, ChunkSize(|sentences|), i);
    StripKeepsVisible(JoinWith(batch, " "));
    JoinKeepsVisible(batch);
  }

  /** Together the chunks hold the non-space characters of the kept
      sentences, in order. */
  lemma ChunksKeepText(sentences: seq<string>)
    ensures Visible(Flatten(Chunks(sentences))) == Visible(Flatten(sentences[..KeptCount(|sentences|)]))
  {
    var n := ChunkCount(|sentences|);
    var cs := ChunkSize(|sentences|);
    var batches := seq(n, i requires 0 <= i < n => Batch(sentences, cs, i));
    forall i | 0 <= i < n ensures Visible(Chunks(sentences)[i]) == Visible(Flatten(batches[i])) {
      ChunkText(sentences, i);
    }
    VisibleOfPieces(Chunks(sentences), batches);
    UsedIsPrefix(sentences);
  }

  /** When each piece keeps the non-space characters of a group, the pieces
      together keep those of all the groups. */
  lemma {:induction false} VisibleOfPieces(pieces: seq<string>, groups: seq<seq<string>>)
    requires |pieces| == |groups|
    requires forall i :: 0 <= i < |pieces| ==> Visible(pieces[i]) == Visible(Flatten(groups[i]))
    ensures Visible(Flatten(pieces)) == Visible(Flatten(Flatten(groups)))
  {
    if pieces != [] {
      VisibleOfPieces(pieces[1..], groups[1..]);
      VisibleAppend(pieces[0], Flatten(pieces[1..]));
      VisibleAppend(Flatten(groups[0]), Flatten(Flatten(groups[1..])));
      FlattenAppend(groups[0], Flatten(groups[1..]));
    }
  }

  // ---------------------------------------------------------------------
  // Numbered cards

  /** A card written for chunk `number - 1`. */
  datatype WebCard = WebCard(number: nat, text: string)

  /** The cards the loop writes for `chunks` numbered from `first`: one per
      non-empty chunk, numbered by its position. */
  function CardsFrom(chunks: seq<string>, first: nat): (r: seq<WebCard>)
    ensures |r| <= |chunks|
    ensures forall k :: 0 <= k < |r| ==> r[k].text != [] && first <= r[k].number < first + |chunks|
  {
    if chunks == [] then []
    else
      var rest := CardsFrom(chunks[1..], first + 1);
      if chunks[0] != [] then [WebCard(first, chunks[0])] + rest else rest
  }

  /** Each card carries the text of the chunk its number names. */
  lemma {:induction false} CardsFromText(chunks: seq<string>, first: nat, k: nat)
    requires k < |CardsFrom(chunks, first)|
    ensures CardsFrom(chunks, first)[k].text == chunks[CardsFrom(chunks, first)[k].number - first]
  {
    var r := CardsFrom(chunks, first);
    var rest := CardsFrom(chunks[1..], first + 1);
    if chunks[0] != [] && k == 0 {
      assert r[0] == WebCard(first, chunks[0]);
    } else {
      var k' := if chunks[0] != [] then k - 1 else k;
      assert r[k] == rest[k'];
      CardsFromText(chunks[1..], first + 1, k');
      assert chunks[1..][rest[k'].number - first - 1] == chunks[rest[k'].number - first];
    }
  }

  /** The cards come in chunk order. */
  lemma {:induction false} CardsFromOrdered(chunks: seq<string>, first: nat)
    ensures forall k, l :: 0 <= k < l < |CardsFrom(chunks, first)| ==>
              CardsFrom(chunks, first)[k].number < CardsFrom(chunks, first)[l].number
  {
    if chunks != [] {
      CardsFromOrdered(chunks[1..], first + 1);
    }
  }

  /** No non-empty chunk is skipped. */
  lemma {:induction false} CardsFromComplete(chunks: seq<string>, first: nat)
    ensures forall i :: 0 <= i < |chunks| && chunks[i] != [] ==>
              WebCard(first + i, chunks[i]) in CardsFrom(chunks, first)
  {
    if chunks != [] {
      CardsFromComplete(chunks[1..], first + 1);
      assert forall i :: 1 <= i < |chunks| ==> chunks[1..][i - 1] == chunks[i];
    }
  }

  /** The loop over `enumerate(flashcard_chunks)`: a card numbered `i + 1`
      for every non-empty chunk `i`, in chunk order. */
  function NumberedCards(chunks: seq<string>): (r: seq<WebCard>)
    ensures |r| <= |chunks|
    ensures forall k :: 0 <= k < |r| ==>
              && 1 <= r[k].number <= |chunks|
              && r[k].text != []
              && r[k].text == chunks[r[k].number - 1]
    ensures forall k, l :: 0 <= k < l < |r| ==> r[k].number < r[l].number
    ensures forall i :: 0 <= i < |chunks| && chunks[i] != [] ==> WebCard(i + 1, chunks[i]) in r
  {
    forall k | 0 <= k < |CardsFrom(chunks, 1)|
      ensures CardsFrom(chunks, 1)[k].text == chunks[CardsFrom(chunks, 1)[k].number - 1]
    {
      CardsFromText(chunks, 1, k);
    }
    CardsFromOrdered(chunks, 1);
    CardsFromComplete(chunks, 1);
    CardsFrom(chunks, 1)
  }

  /** The cards written for a sentence list: at most five, one per
      non-empty chunk. */
  function WebCards(sentences: seq<string>): (r: seq<WebCard>)
    ensures |r| <= ChunkCount(|sentences|) <= MaxChunks
  {
    NumberedCards(Chunks(sentences))
  }
}
