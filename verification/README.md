# flashcard_generator, modelled in Dafny

flashcard_generator turns notes into flashcard images. The notes come either from OCR of a photo or from a Wikipedia article. This project models the pure logic inside that pipeline. Each piece is a pure Dafny function over strings and sequences, and lemmas prove what it guarantees.

- `create_flashcard` in `utils.py`:
  - it keeps the note lines worth showing, with a fallback when none qualifies;
  - it groups them into at most five bullets by ceiling division;
  - it prefixes each bullet with `• ` and wraps it at 60 characters with `textwrap.wrap`;
  - it centres each wrapped line and stacks the lines from the top, stopping once the offset passes 360.

  The font measurement `draw.textbbox` is a parameter, `textbbox: string -> Box`. The card is the list of `Draw(x, y, text)` calls the function makes.
- `classify_subject_gpt` in `main.py`: the keyword classifier that picks the subject label.
- `smart_generate_flashcard_qa` in `main.py`:
  - the `Q: … A: …` parser over the text generator's output;
  - the fallback to one pair per note line.

  The generator's output is a parameter.
- The sentence-chunking step of the command-line path in `main.py`, over an already split sentence list.

Files:

- `py.dfy` (module `Py`): the Python built-ins the code relies on, with contracts:
  - `str.isspace` whitespace;
  - `strip`, `split()`, `split('\n')`, `' '.join`;
  - `in`, `find`, `startswith` and `replace(pat, '')`;
  - ASCII `lower`;
  - clamped slicing.
- `textwrap.dfy` (module `TextWrap`): `textwrap.wrap` with the library's default options, except `break_on_hyphens`:
  - tab expansion and whitespace translation;
  - chunking into whitespace and non-whitespace runs;
  - greedy filling;
  - splitting of chunks longer than the width;
  - dropping of leading and trailing blank chunks.
- `flashcard.dfy` (module `Flashcard`): `create_flashcard`. `Card` is the layout written as a fold over the wrapped lines. `CreateFlashcard` and `DrawGroups` keep the nested loops with their double `break`, and are proved to draw exactly `Card`.
- `subject.dfy` (module `Subject`): `classify_subject_gpt`.
- `qa.dfy` (module `Qa`): the Q/A parser, the fallback and their round trips.
- `webchunks.dfy` (module `WebChunks`): `n`, `chunk_size`, `flashcard_chunks` and the numbered cards written for non-empty chunks.

Three behaviours of the code are worth knowing:

- Trailing bullet groups can be empty. Six lines give groups of 2, 2, 2, 0 and 0 lines, and twelve lines give 3, 3, 3, 3 and 0 lines. An empty group still draws the bullet glyph.
- `lines` is never empty. An empty or blank text therefore draws one lone `•` rather than a blank card. The `n_bullets == 0` branch cannot run.
- `textwrap.wrap` keeps `break_long_words=True`. A token longer than 60 characters is cut, so every physical line has at most 60 characters.

## Model

| member | source | states |
|---|---|---|
| Py.Strip | utils.py:30 | the result has no leading or trailing whitespace, is the input with only whitespace removed around it, and is empty exactly when the input is blank |
| Py.StripIdempotent | utils.py:30 | stripping an already stripped string changes nothing |
| Py.Words | utils.py:30 | every token of `split()` is non-empty and holds no whitespace |
| Py.WordsCount | utils.py:30 | `split()` gives exactly as many tokens as there are word starts, meaning positions holding a non-whitespace character at the start of the line or right after whitespace |
| Py.WordsAreVisible | utils.py:30 | the tokens of `split()`, read in order, are together exactly the non-whitespace characters of the line |
| Py.JoinSplit | utils.py:30 | joining the pieces of `split('\n')` with newlines gives the text back |
| Py.SplitJoin | main.py:64 | splitting the newline-join of newline-free lines gives the lines back |
| Py.Find | main.py:65-66 | `find` returns a position exactly when the pattern occurs, and that position is the first occurrence |
| Py.StartsWithMatch | main.py:65 | `startswith` holds exactly when the pattern occurs at index 0 |
| Py.RemoveAll | main.py:67 | `replace(pat, '')` leaves a text without the pattern unchanged, and otherwise removes at least one pattern's worth of characters |
| Py.RemoveAllSplit | main.py:67 | when the text before an occurrence of the pattern holds none, `replace` keeps that text, drops the occurrence and carries on after it (for patterns whose first character does not reappear, such as `Q:`) |
| Py.LowerCharTables | main.py:77 | on one character: no capital letter comes out, a character that is not a capital is unchanged, and the `k`-th capital of the alphabet table becomes the `k`-th small letter |
| Py.LowerSpec | main.py:77 | `Lower`, the model of `str.lower`, keeps the length; the lower-cased text has no capital letter left, keeps every character that is not a capital, and turns each capital into its small letter, all by the alphabet tables |
| TextWrap.Wrap | utils.py:43 | no wrapped line is longer than `width` |
| TextWrap.WrapSpec | utils.py:43 | every wrapped line has at most `width` characters, and the lines read in order hold exactly the non-whitespace characters of the input |
| Flashcard.KeptLines | utils.py:30 | every kept line is stripped, non-empty and has more than two tokens |
| Flashcard.KeptLinesComplete | utils.py:30 | every qualifying line is kept, the kept lines keep the input order, there are exactly as many kept lines as qualifying pieces (repeated pieces included), and none are kept exactly when no line qualifies |
| Flashcard.Lines | utils.py:30-32 | there is always at least one line |
| Flashcard.LinesSpec | utils.py:30-32 | the lines are the qualifying lines in input order, one for each qualifying piece, repeated pieces included; the stripped text is the only line when none qualifies |
| Flashcard.CeilDiv | utils.py:37 | the result is the least `q` with `b * q >= a` |
| Flashcard.Groups | utils.py:33-38 | there are `min(5, len(lines))` groups, between one and five, each of at most `group_size` lines |
| Flashcard.GroupsPartition | utils.py:37-38 | the groups read in order give back the lines exactly, with nothing lost or repeated |
| Flashcard.GroupsFillInOrder | utils.py:37-38 | every group before a non-empty group is full |
| Flashcard.FewLinesOnePerGroup | utils.py:33-38 | with at most five lines, `group_size` is 1 and group `i` is exactly line `i` |
| Flashcard.SixLinesLeaveEmptyBullets | utils.py:37-38 | six lines give groups of 2, 2, 2, 0 and 0 lines |
| Flashcard.TwelveLinesLeaveLastBulletEmpty | utils.py:37-38 | twelve lines give groups of 3, 3, 3, 3 and 0 lines |
| Flashcard.BulletWrapKeepsText | utils.py:41-43 | the wrapped lines of a bullet hold the bullet glyph and then exactly the non-whitespace characters of the group's lines, in order |
| Flashcard.CardLinesFit | utils.py:40-43 | no wrapped line of any bullet is longer than 60 characters |
| Flashcard.Layout | utils.py:44-55 | at most one draw per line, and at least one when there are lines |
| Flashcard.LayoutSpec | utils.py:44-55 | the drawn texts are a prefix of the wrapped lines, each centred by floor division, the first at the start offset, each next one lower by the previous line's height plus 8, none below 360, and a line is omitted only after the offset has passed 360 |
| Flashcard.DrawGroups | utils.py:40-55 | the nested loops with their two breaks make exactly the draws of the flat layout over all wrapped lines |
| Flashcard.Card | utils.py:44-55 | a card makes at most one draw per card line, and at least one when it has lines |
| Flashcard.CreateFlashcard | utils.py:17-56 | the whole procedure makes exactly the draws of `Card` for the text |
| Flashcard.CardTruncates | utils.py:24-55 | every card draws at least one line, starting at offset 40; the drawn lines are the first card lines in order, each at most 60 characters and drawn no lower than 360; a line is dropped only after the offset has passed 360 |
| Flashcard.LoneBulletWraps | utils.py:42-43 | the bullet of an empty group wraps to the glyph alone |
| Flashcard.EmptyTextDrawsLoneBullet | utils.py:30-49 | an empty text draws a single centred `•` at offset 40, not a blank card |
| Subject.ContainsAny | main.py:78 | the test holds exactly when one of the keywords is a substring of the text |
| Subject.Classify | main.py:75-87 | the label is one of the first five candidate labels. Each label is returned exactly when its keyword list matches the lower-cased text and no earlier list does, and `General` exactly when none of the sixteen keywords occurs |
| Subject.ClassifyIgnoresCase | main.py:77-87 | two texts of equal length whose characters are pairwise equal or the same letter in capital and small form (by the alphabet tables) get the same label |
| Subject.CapitalKeywordFound | main.py:77-79 | an example: "EQUATION", in capitals, is labelled Mathematics |
| Subject.MathKeywordWins | main.py:78-79 | an example: a text opening with "Force and energy in the cell: an equation." is labelled Mathematics, although physics and biology keywords appear too |
| Qa.IsQaLineSpec | main.py:65 | a line is taken exactly when, stripped, it starts with `Q:` and `A:` occurs in it |
| Qa.QuestionFirstStrip | main.py:65 | the first non-blank characters are `Q:` exactly when the stripped line starts with `Q:` |
| Qa.PairOf | main.py:66-67 | both the question and the answer come out stripped |
| Qa.PairOfSplit | main.py:66-67 | for every taken line cut at its first `A:`, the answer is the stripped text after it and the question is the text before it with its `Q:` tags removed, stripped |
| Qa.QaLinesSpec | main.py:64-65 | the lines taken as Q/A lines keep the output order, every line of the `Q:`/`A:` shape is taken, and there are exactly as many as such output lines, repeated lines included |
| Qa.ParseLines | main.py:64-67 | at most one pair comes from each output line |
| Qa.ParseLinesSpec | main.py:63-67 | the parsed pairs are, one each and in order, the pairs of exactly the `Q:`/`A:` lines |
| Qa.NoteLines | main.py:70 | every fallback line is stripped and non-empty |
| Qa.NoteLinesEmpty | main.py:70 | there are no fallback lines exactly when every note line is blank |
| Qa.NoteLinesSpec | main.py:70 | the fallback lines are the stripped note lines in order, one for each non-blank line, repeated lines included |
| Qa.Fallback | main.py:68-72 | there is one pair per fallback line, in order; each asks "What is this note about?" and answers with that stripped, non-empty line; there are none exactly when the note is blank |
| Qa.Pairs | main.py:63-73 | when some output line has the `Q:`/`A:` shape, the result is the pairs of exactly those lines, in order; when none has, it is the fallback pairs of the note |
| Qa.PairsEmpty | main.py:63-73 | no pair comes out exactly when no output line has the `Q:`/`A:` shape and the note is blank |
| Qa.PairOfFormat | main.py:60-67 | a printable pair (both fields stripped and on one line, no `Q:` or `A:` in the question) written in the prompt's `Q: … A: …` format parses back to the same pair |
| Qa.FormatParse | main.py:60-73 | output made of a non-empty list of printable pairs, formatted one per line, yields exactly those pairs |
| Qa.FallbackRoundTrip | main.py:68-72 | a note of stripped non-empty lines falls back to one pair per line, in order |
| WebChunks.ChunkCount | main.py:122 | the chunk count is between 3 and 5, and equals the sentence count when that is between 3 and 5 |
| WebChunks.Chunks | main.py:124 | there is one chunk per count, and each chunk is stripped |
| WebChunks.ChunkArithmetic | main.py:122-123 | with three or more sentences, the chunks cover all but the last `len % n` sentences, fewer than `n`; with fewer, `chunk_size` is 1 and every sentence is covered |
| WebChunks.UsedIsPrefix | main.py:122-124 | the sentences the chunks take, read in order, are exactly the first kept sentences |
| WebChunks.SevenSentencesLoseTwo | main.py:122-124 | seven sentences give five one-sentence chunks and lose the last two |
| WebChunks.ChunkText | main.py:124 | each chunk holds the non-whitespace characters of its own sentences, in order |
| WebChunks.ChunksKeepText | main.py:124 | together the chunks hold the non-whitespace characters of the kept sentences, in order |
| WebChunks.NumberedCards | main.py:125-128 | one card per non-empty chunk, numbered from 1 by chunk position, carrying that chunk's text, in increasing number order, and none for an empty chunk |
| WebChunks.WebCards | main.py:121-128 | at most five cards are written for a sentence list |

## Left out

- `fetch_wikipedia_intro`: the HTTP request and HTML scraping are outside the model.
- `preprocess_image` and `extract_text`: OpenCV and Tesseract calls.
- The text generator: the pipeline load and the generation call. Its output string is a parameter of `Qa.Pairs`, and the prompt is modelled only through the `Q: … A: …` line format.
- The PIL canvas, font loading, drawing and `save`. `textbbox` is an abstract function, and a card is the list of draws.
- The reference-marker regex cleanup and the `re.split` sentence split. The sentence list is the input of `WebChunks`.
- `app.py` (the Streamlit interface), the `process_images` directory loop, file naming and removal, and command-line argument handling.
- `max_width` in `create_flashcard` is computed but never used, so it has no counterpart.
- TextWrap.Wrap: hyphen and em-dash break points are not modelled. Chunks split only at whitespace.
- Py.Words: the contracts fix how many tokens `split()` gives and what they hold together, not where each single token ends. The line filter at utils.py:30 only uses the count.
- Py.Lower: only ASCII letters are lower-cased. Python's `str.lower` also maps other Unicode letters.
- Qa.FormatParse: the round trip holds only for a non-empty list of printable pairs. An empty list formats to an empty output, which takes the note fallback, and a field with padding or a line break, or a question holding `Q:` or `A:`, does not come back unchanged.
- Flashcard.CeilDiv: `math.ceil(len(lines) / n_bullets)` is modelled as exact integer ceiling division. The float division agrees for every list length that fits in memory.
- Flashcard.CreateFlashcard: the wrapped lines of all groups are computed before the loops. `create_flashcard` wraps each group when its turn comes, which draws the same lines.
