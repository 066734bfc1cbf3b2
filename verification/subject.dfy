/** `classify_subject_gpt` from main.py: a keyword classifier that checks
    four keyword lists in priority order against the lower-cased text. The
    label only names the output files; it never changes a card. */
module Subject {
  import opened Py

  const MathWords: seq<string> := ["math", "algebra", "equation", "theorem"]
  const PhysicsWords: seq<string> := ["physics", "force", "energy", "motion"]
  const ChemistryWords: seq<string> := ["chemistry", "reaction", "atom", "molecule"]
  const BiologyWords: seq<string> := ["biology", "cell", "organism", "gene"]

  /** `CANDIDATE_LABELS`. */
  const CandidateLabels: seq<string> :=
    ["Mathematics", "Physics", "Chemistry", "Biology", "General",
     "History", "Computer Science", "Political Science"]

  /** Some keyword of `words` occurs as a substring of `text`. */
  ghost predicate Mentions(words: seq<string>, text: string) {
    exists k :: 0 <= k < |words| && Occurs(words[k], text)
  }

  /** `any(word in text for word in words)`. */
  function ContainsAny(words: seq<string>, text: string): (b: bool)
    ensures b <==> Mentions(words, text)
  {
    if words == [] then false
    else
      var rest := ContainsAny(words[1..], text);
      assert forall k :: 1 <= k < |words| ==> words[k] == words[1..][k - 1];
      Find(text, words[0]).Some? || rest
  }

  /** `classify_subject_gpt(text)`. */
  function Classify(text: string): (subject: string)
    ensures subject in CandidateLabels[..5]
    ensures subject == "Mathematics" <==> Mentions(MathWords, Lower(text))
    ensures subject == "Physics"
            <==> !Mentions(MathWords, Lower(text)) && Mentions(PhysicsWords, Lower(text))
    ensures subject == "Chemistry"
            <==> && !Mentions(MathWords, Lower(text)) && !Mentions(PhysicsWords, Lower(text))
                 && Mentions(ChemistryWords, Lower(text))
    ensures subject == "Biology"
            <==> && !Mentions(MathWords, Lower(text)) && !Mentions(PhysicsWords, Lower(text))
                 && !Mentions(ChemistryWords, Lower(text)) && Mentions(BiologyWords, Lower(text))
    ensures subject == "General"
            <==> !Mentions(MathWords + PhysicsWords + ChemistryWords + BiologyWords, Lower(text))
  {
    var low := Lower(text);
    assert CandidateLabels[..5] == ["Mathematics", "Physics", "Chemistry", "Biology", "General"];
    assert Mentions(MathWords + PhysicsWords + ChemistryWords + BiologyWords, low)
           <==> Mentions(MathWords, low) || Mentions(PhysicsWords, low)
                || Mentions(ChemistryWords, low) || Mentions(BiologyWords, low) by {
      MentionsAppend(MathWords, PhysicsWords, low);
      MentionsAppend(MathWords + PhysicsWords, ChemistryWords, low);
      MentionsAppend(MathWords + PhysicsWords + ChemistryWords, BiologyWords, low);
    }
    if ContainsAny(MathWords, low) then "Mathematics"
    else if ContainsAny(PhysicsWords, low) then "Physics"
    else if ContainsAny(ChemistryWords, low) then "Chemistry"
    else if ContainsAny(BiologyWords, low) then "Biology"
    else "General"
  }

  lemma MentionsAppend(a: seq<string>, b: seq<string>, text: string)
    ensures Mentions(a + b, text) <==> Mentions(a, text) || Mentions(b, text)
  {
    if Mentions(b, text) {
      var k :| 0 <= k < |b| && Occurs(b[k], text);
      assert (a + b)[|a| + k] == b[k];
    }
    if Mentions(a, text) {
      var k :| 0 <= k < |a| && Occurs(a[k], text);
      assert (a + b)[k] == a[k];
    }
  }

  /** Texts that differ only in the case of ASCII letters get the same
      label. */
  lemma ClassifyIgnoresCase(s: string, t: string)
    requires |s| == |t|
    requires forall i :: 0 <= i < |s| ==> SameUpToCase(s[i], t[i])
    ensures Classify(s) == Classify(t)
  {
    forall i | 0 <= i < |s|
      ensures Lower(s)[i] == Lower(t)[i]
    {
      LowerCharSameUpToCase(s[i], t[i]);
    }
    assert Lower(s) == Lower(t);
  }

  lemma LowerEquation()
    ensures Lower("EQUATION") == "equation"
  {
    var low := Lower("EQUATION");
    assert low[0] == 'e' && low[1] == 'q' && low[2] == 'u' && low[3] == 'a';
    assert low[4] == 't' && low[5] == 'i' && low[6] == 'o' && low[7] == 'n';
  }

  /** A keyword written in capitals is still found. */
  lemma CapitalKeywordFound()
    ensures Classify("EQUATION") == "Mathematics"
  {
    LowerEquation();
    assert MatchAt("equation", "equation", 0);
    assert Occurs(MathWords[2], Lower("EQUATION"));
  }

  /** An example of the priority order: a text that opens with physics and
      biology keywords next to "equation" is labelled Mathematics. */
  lemma MathKeywordWins(text: string)
    ensures Classify("Force and energy in the cell: an equation. " + text) == "Mathematics"
  {
    var s := "Force and energy in the cell: an equation. " + text;
    var low := Lower(s);
    assert low[33..41] == "equation";
    assert MatchAt(low, "equation", 33);
    assert Occurs(MathWords[2], low);
  }
}
