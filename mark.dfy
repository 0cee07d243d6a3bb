/**
 * The mark-the-words widget of components/mark-interface.tsx: a paragraph is
 * shown word by word, the learner selects the words that answer the prompt,
 * and a single check grades every word.  Words written `*like this*` in the
 * paragraph are the required answers.
 */
module Mark {
  import opened Common
  import opened TextOps

  /** The Quranic verse shown when no paragraph is supplied; its one required word is Allah. */
  const SAMPLE_PARAGRAPH: string := "{\U{0625}\U{0650}\U{0646}\U{064E}\U{0651}\U{0645}\U{064E}\U{0627} \U{064A}\U{064E}\U{062E}\U{0652}\U{0634}\U{064E}\U{0649} *\U{0627}\U{0644}\U{0644}\U{064E}\U{0651}\U{0647}\U{064E}* \U{0645}\U{0650}\U{0646}\U{0652} \U{0639}\U{0650}\U{0628}\U{064E}\U{0627}\U{062F}\U{0650}\U{0647}\U{0650} \U{0627}\U{0644}\U{0652}\U{0639}\U{064F}\U{0644}\U{064E}\U{0645}\U{064E}\U{0627}\U{0621}\U{064F}}"

  datatype WordState = Idle | Selected | Correct | Incorrect | Missed

  datatype Token = Token(id: nat, text: string, isCorrect: bool, state: WordState)

  datatype Score = Score(correct: nat, total: nat)

  /** `content.paragraph || SAMPLE_PARAGRAPH` */
  function ParagraphOf(content: Option<string>): (p: string)
    ensures p != []
    ensures content.Some? && content.value != [] ==> p == content.value
    ensures content.None? || content.value == [] ==> p == SAMPLE_PARAGRAPH
  {
    if content.Some? && content.value != [] then content.value else SAMPLE_PARAGRAPH
  }

  // ------------------------------------------------------------ parsing

  /**
   * `raw.match(/^\*(.+)\*$/)` succeeds: a star, at least one character that
   * is not a line terminator, and a star.
   */
  predicate IsStarred(raw: string) {
    && |raw| >= 3 && raw[0] == '*' && raw[|raw| - 1] == '*'
    && forall i :: 1 <= i < |raw| - 1 ==> !IsLineTerminator(raw[i])
  }

  /** `s.replace(/\*\/g, "")` */
  function RemoveStars(s: string): (r: string)
    ensures |r| <= |s|
    ensures forall i :: 0 <= i < |r| ==> r[i] != '*'
  {
    if s == [] then [] else (if s[0] == '*' then [] else [s[0]]) + RemoveStars(s[1..])
  }

  /** Removing stars from a word that has none leaves it as it is. */
  lemma {:induction false} RemoveStarsOfStarFree(s: string)
    requires forall i :: 0 <= i < |s| ==> s[i] != '*'
    ensures RemoveStars(s) == s
  {
    if s != [] {
      RemoveStarsOfStarFree(s[1..]);
    }
  }

  /** Every character that is not a star survives, in order. */
  lemma {:induction false} RemoveStarsKeeps(s: string, p: char -> bool)
    requires forall i :: 0 <= i < |s| ==> p(s[i])
    ensures forall i :: 0 <= i < |RemoveStars(s)| ==> p(RemoveStars(s)[i])
  {
    if s != [] {
      RemoveStarsKeeps(s[1..], p);
    }
  }

  /** The token for the `id`-th word of the paragraph. */
  function ParseWord(raw: string, id: nat): Token {
    if IsStarred(raw) then Token(id, raw[1..|raw| - 1], true, Idle)
    else Token(id, RemoveStars(raw), false, Idle)
  }

  /** What `parseParagraph(paragraph)` returns. */
  function Parse(paragraph: string): (ts: seq<Token>)
    ensures forall i :: 0 <= i < |ts| ==> ts[i].id == i && ts[i].state == Idle
  {
    var words := Words(paragraph);
    seq(|words|, i requires 0 <= i < |words| => ParseWord(words[i], i))
  }

  /** `parseParagraph`: one token per whitespace-separated word, numbered from 0. */
  method ParseParagraph(paragraph: string) returns (tokens: seq<Token>)
    ensures tokens == Parse(paragraph)
  {
    tokens := [];
    var id: nat := 0;
    var rawWords := Words(paragraph);
    for k := 0 to |rawWords|
      invariant id == k && |tokens| == k
      invariant forall j :: 0 <= j < k ==> tokens[j] == ParseWord(rawWords[j], j)
    {
      var raw := rawWords[k];
      if IsStarred(raw) {
        tokens := tokens + [Token(id, raw[1..|raw| - 1], true, Idle)];
      } else {
        tokens := tokens + [Token(id, RemoveStars(raw), false, Idle)];
      }
      id := id + 1;
    }
  }

  /**
   * One idle token per word, in order, with ids 0..n-1.  A word is required
   * exactly when it starts and ends with a star and has something between
   * them (a word never holds a line terminator, so the regular expression
   * asks nothing more); a required token's text is what lies between the
   * stars, and any other token's text is its word with every star removed.
   * No token's text holds whitespace.
   */
  lemma ParseMeaning(paragraph: string, i: nat)
    requires i < |Parse(paragraph)|
    ensures |Parse(paragraph)| == |Words(paragraph)|
    ensures var t, w := Parse(paragraph)[i], Words(paragraph)[i];
      && t.id == i && t.state == Idle
      && (t.isCorrect <==> |w| >= 3 && w[0] == '*' && w[|w| - 1] == '*')
      && (t.isCorrect ==> t.text == w[1..|w| - 1] && t.text != [])
      && (!t.isCorrect ==> t.text == RemoveStars(w))
      && (forall k :: 0 <= k < |t.text| ==> !IsWhitespace(t.text[k]))
  {
    var w := Words(paragraph)[i];
    WordsShape(paragraph);
    assert forall k :: 0 <= k < |w| ==> !IsWhitespace(w[k]);
    RemoveStarsKeeps(w, c => !IsWhitespace(c));
  }

  // ------------------------------------------------------------ selecting

  /** `t.state === "selected" ? "idle" : "selected"` */
  function Toggle(s: WordState): WordState {
    if s == Selected then Idle else Selected
  }

  /** The tokens after a click on `wordId` while unchecked. */
  function Toggled(ts: seq<Token>, wordId: int): (r: seq<Token>)
    ensures |r| == |ts|
    ensures forall i :: 0 <= i < |ts| ==> r[i] == ts[i].(state := r[i].state)
    ensures forall i :: 0 <= i < |ts| ==> (r[i].state != ts[i].state <==> ts[i].id == wordId)
  {
    seq(|ts|, i requires 0 <= i < |ts| => if ts[i].id != wordId then ts[i] else ts[i].(state := Toggle(ts[i].state)))
  }

  /** Before a check, every token is idle or selected. */
  predicate Unchecked(ts: seq<Token>) {
    forall i :: 0 <= i < |ts| ==> ts[i].state in {Idle, Selected}
  }

  /** Token `i` has id `i`, as parsing numbers them. */
  predicate Numbered(ts: seq<Token>) {
    forall i :: 0 <= i < |ts| ==> ts[i].id == i
  }

  /**
   * A click flips exactly the clicked token between idle and selected and
   * keeps every other token, so the unchecked state and numbering are kept
   * and a second click on the same word undoes the first.
   */
  lemma ToggledMeaning(ts: seq<Token>, wordId: int)
    requires Unchecked(ts) && Numbered(ts)
    ensures |Toggled(ts, wordId)| == |ts| && Unchecked(Toggled(ts, wordId)) && Numbered(Toggled(ts, wordId))
    ensures forall i :: 0 <= i < |ts| && i != wordId ==> Toggled(ts, wordId)[i] == ts[i]
    ensures 0 <= wordId < |ts| ==>
      Toggled(ts, wordId)[wordId] == ts[wordId].(state := if ts[wordId].state == Selected then Idle else Selected)
    ensures Toggled(Toggled(ts, wordId), wordId) == ts
  {
    var once := Toggled(ts, wordId);
    var twice := Toggled(once, wordId);
    forall i | 0 <= i < |ts| ensures twice[i] == ts[i] {
      if ts[i].id == wordId {
        assert ts[i].state == Idle || ts[i].state == Selected;
      }
    }
  }

  // ------------------------------------------------------------ checking

  /** The grade of one token. */
  function CheckToken(t: Token): Token {
    if t.isCorrect && t.state == Selected then t.(state := Correct)
    else if t.isCorrect && t.state != Selected then t.(state := Missed)
    else if !t.isCorrect && t.state == Selected then t.(state := Incorrect)
    else t
  }

  /** The tokens after grading: nothing is left selected and only states change. */
  function Checked(ts: seq<Token>): (r: seq<Token>)
    ensures |r| == |ts|
    ensures forall i :: 0 <= i < |ts| ==> r[i] == ts[i].(state := r[i].state) && r[i].state != Selected
    ensures forall i :: 0 <= i < |ts| ==>
      (r[i].state == (if ts[i].isCorrect then (if ts[i].state == Selected then Correct else Missed)
                      else if ts[i].state == Selected then Incorrect else ts[i].state))
  {
    seq(|ts|, i requires 0 <= i < |ts| => CheckToken(ts[i]))
  }

  /** Number of required tokens that are selected: the `correctCount` of `handleCheck`. */
  function SelectedRequired(ts: seq<Token>): nat {
    if ts == [] then 0
    else SelectedRequired(ts[..|ts| - 1]) + (if ts[|ts| - 1].isCorrect && ts[|ts| - 1].state == Selected then 1 else 0)
  }

  /** `tokens.filter((t) => t.isCorrect).length` */
  function RequiredCount(ts: seq<Token>): nat {
    if ts == [] then 0 else RequiredCount(ts[..|ts| - 1]) + (if ts[|ts| - 1].isCorrect then 1 else 0)
  }

  /** Number of tokens in state `s`. */
  function CountState(ts: seq<Token>, s: WordState): nat {
    if ts == [] then 0 else CountState(ts[..|ts| - 1], s) + (if ts[|ts| - 1].state == s then 1 else 0)
  }

  /** `score?.correct === score?.total && tokens.every((t) => t.state !== "incorrect")` (true for a null score). */
  predicate AllCorrect(score: Option<Score>, ts: seq<Token>) {
    && (score.None? || score.value.correct == score.value.total)
    && forall i :: 0 <= i < |ts| ==> ts[i].state != Incorrect
  }

  /** The counts are taken over required tokens, so the number right never exceeds the number required. */
  lemma {:induction false} SelectedRequiredBound(ts: seq<Token>)
    ensures SelectedRequired(ts) <= RequiredCount(ts)
    ensures SelectedRequired(ts) == RequiredCount(ts) <==> forall i :: 0 <= i < |ts| && ts[i].isCorrect ==> ts[i].state == Selected
  {
    if ts != [] {
      var init := ts[..|ts| - 1];
      SelectedRequiredBound(init);
      if forall i :: 0 <= i < |ts| && ts[i].isCorrect ==> ts[i].state == Selected {
        assert forall i :: 0 <= i < |init| && init[i].isCorrect ==> init[i].state == Selected;
      }
    }
  }

  /**
   * Grading an unchecked selection: the number counted right is the number of
   * tokens graded correct afterwards, the number required is unchanged, and
   * no token stays selected.
   */
  lemma {:induction false} CheckedCounts(ts: seq<Token>)
    requires Unchecked(ts)
    ensures SelectedRequired(ts) == CountState(Checked(ts), Correct)
  {
    if ts != [] {
      var init := ts[..|ts| - 1];
      CheckedCounts(init);
      assert Checked(ts)[..|ts| - 1] == Checked(init);
    }
  }

  /**
   * After grading an unchecked selection, everything is correct exactly when
   * the learner selected precisely the required words.
   */
  lemma AllCorrectMeaning(ts: seq<Token>)
    requires Unchecked(ts)
    ensures AllCorrect(Some(Score(SelectedRequired(ts), RequiredCount(ts))), Checked(ts)) <==>
            forall i :: 0 <= i < |ts| ==> (ts[i].state == Selected <==> ts[i].isCorrect)
  {
    SelectedRequiredBound(ts);
    if forall i :: 0 <= i < |ts| ==> (ts[i].state == Selected <==> ts[i].isCorrect) {
      assert forall i :: 0 <= i < |ts| ==> Checked(ts)[i].state != Incorrect;
    }
    if forall i :: 0 <= i < |ts| ==> Checked(ts)[i].state != Incorrect {
      forall i | 0 <= i < |ts| && ts[i].state == Selected ensures ts[i].isCorrect {
        assert Checked(ts)[i].state != Incorrect;
      }
    }
  }

  // ------------------------------------------------------------ the widget

  /** The map and counter of `handleCheck`: each token graded, and the required ones selected counted. */
  method CheckTokens(tokens: seq<Token>) returns (updated: seq<Token>, correctCount: nat)
    ensures updated == Checked(tokens)
    ensures correctCount == SelectedRequired(tokens)
  {
    correctCount := 0;
    updated := [];
    for i := 0 to |tokens|
      invariant |updated| == i
      invariant forall k :: 0 <= k < i ==> updated[k] == CheckToken(tokens[k])
      invariant correctCount == SelectedRequired(tokens[..i])
    {
      var t := tokens[i];
      assert tokens[..i + 1][..i] == tokens[..i];
      if t.isCorrect && t.state == Selected {
        correctCount := correctCount + 1;
        updated := updated + [t.(state := Correct)];
      } else if t.isCorrect && t.state != Selected {
        updated := updated + [t.(state := Missed)];
      } else if !t.isCorrect && t.state == Selected {
        updated := updated + [t.(state := Incorrect)];
      } else {
        updated := updated + [t];
      }
    }
    assert tokens[..|tokens|] == tokens;
  }

  class MarkWidget {
    const paragraph: string
    var tokens: seq<Token>
    var hasChecked: bool
    var score: Option<Score>

    /** Tokens are numbered by position; before the check they are idle or selected, after it none is selected. */
    predicate Valid()
      reads this
    {
      && Numbered(tokens)
      && (!hasChecked ==> Unchecked(tokens) && score == None)
      && (hasChecked ==> score.Some? && score.value.correct <= score.value.total && CountState(tokens, Selected) == 0)
    }

    constructor (content: Option<string>)
      ensures paragraph == ParagraphOf(content)
      ensures tokens == Parse(paragraph) && !hasChecked && score == None
      ensures Valid()
    {
      var p := ParagraphOf(content);
      var parsed := ParseParagraph(p);
      assert Numbered(parsed) && Unchecked(parsed) by {
        ParsedIsValid(p);
      }
      paragraph := p;
      tokens := parsed;
      hasChecked := false;
      score := None;
    }

    /** `selectedCount`; the check button is disabled while it is 0. */
    function SelectedCount(): nat
      reads this
    {
      CountState(tokens, Selected)
    }

    /** `correctTotal` */
    function CorrectTotal(): nat
      reads this
    {
      RequiredCount(tokens)
    }

    /** `isAllCorrect` */
    predicate IsAllCorrect()
      reads this
    {
      AllCorrect(score, tokens)
    }

    /** `handleWordClick`: ignored once checked, otherwise toggles the clicked word. */
    method Click(wordId: int)
      requires Valid()
      modifies this
      ensures Valid()
      ensures hasChecked == old(hasChecked) && score == old(score)
      ensures tokens == if old(hasChecked) then old(tokens) else Toggled(old(tokens), wordId)
    {
      if hasChecked {
        return;
      }
      ToggledMeaning(tokens, wordId);
      tokens := Toggled(tokens, wordId);
    }

    /** `handleCheck`: grades every token and records the score. */
    method Check()
      requires Valid()
      modifies this
      ensures Valid()
      ensures tokens == Checked(old(tokens)) && hasChecked
      ensures score == Some(Score(SelectedRequired(old(tokens)), RequiredCount(old(tokens))))
      ensures !old(hasChecked) ==> score.value.correct == CountState(tokens, Correct)
      ensures !old(hasChecked) ==>
        (IsAllCorrect() <==> forall i :: 0 <= i < |tokens| ==> (old(tokens)[i].state == Selected <==> tokens[i].isCorrect))
    {
      var updated, correctCount := CheckTokens(tokens);
      var before := tokens;
      SelectedRequiredBound(before);
      CheckedStates(before);
      if !hasChecked {
        CheckedCounts(before);
        AllCorrectMeaning(before);
      }
      tokens := updated;
      hasChecked := true;
      score := Some(Score(correctCount, RequiredCount(before)));
    }

    /** `handleRetry`: the freshly parsed paragraph, unchecked and unscored. */
    method Retry()
      modifies this
      ensures tokens == Parse(paragraph) && !hasChecked && score == None
      ensures Valid()
    {
      tokens := ParseParagraph(paragraph);
      ParsedIsValid(paragraph);
      hasChecked := false;
      score := None;
    }
  }

  /** Grading keeps the numbering and leaves no token selected, whatever the states before. */
  lemma {:induction false} CheckedStates(ts: seq<Token>)
    ensures |Checked(ts)| == |ts|
    ensures Numbered(ts) ==> Numbered(Checked(ts))
    ensures CountState(Checked(ts), Selected) == 0
    ensures RequiredCount(Checked(ts)) == RequiredCount(ts)
  {
    if ts != [] {
      var init := ts[..|ts| - 1];
      CheckedStates(init);
      assert Checked(ts)[..|ts| - 1] == Checked(init);
    }
  }

  /** Freshly parsed tokens are numbered by position and unchecked. */
  lemma ParsedIsValid(paragraph: string)
    ensures Numbered(Parse(paragraph)) && Unchecked(Parse(paragraph))
  {
    var ts := Parse(paragraph);
    forall i | 0 <= i < |ts| ensures ts[i].id == i && ts[i].state == Idle {
      assert ts[i] == ParseWord(Words(paragraph)[i], i);
    }
  }
}
