/**
 * The dictation widget of components/spell-interface.tsx: the learner hears a
 * sentence, types it, and `verifySpelling` compares the two word by word.
 */
module Spell {
  import opened Common
  import opened TextOps
  import SpellActions

  const SAMPLE_SENTENCE: string := "Welcome to Corrsy"
  const MISSING: string := "(missing)"
  const EXTRA: string := "(extra)"
  /** Accuracy, in percent, at or above which the answer is accepted. */
  const PASS_MARK: real := 90.0

  /** `content.sentence || SAMPLE_SENTENCE` */
  function SentenceOf(content: Option<string>): (s: string)
    ensures s != []
    ensures content.Some? && content.value != [] ==> s == content.value
    ensures content.None? || content.value == [] ==> s == SAMPLE_SENTENCE
  {
    if content.Some? && content.value != [] then content.value else SAMPLE_SENTENCE
  }

  // ------------------------------------------------------------ normalising

  /** `normalizeText`: trim, lowercase, strip punctuation, collapse whitespace (no final trim). */
  function NormalizeText(u: Unicode, text: string): (r: string)
    ensures forall i :: 0 <= i < |r| ==> Kept(u, r[i])
    ensures forall i :: 0 <= i < |r| && IsWhitespace(r[i]) ==> r[i] == ' '
    ensures forall i :: 0 <= i < |r| - 1 ==> !(IsWhitespace(r[i]) && IsWhitespace(r[i + 1]))
  {
    var stripped := StripPunct(u, Lower(u, Trim(text)));
    CollapseChars(stripped, c => Kept(u, c));
    CollapseWhitespace(stripped)
  }

  /** The normalised text is lowercase. */
  lemma NormalizeTextIsLowercase(u: Unicode, text: string)
    requires WellFormed(u)
    ensures SpellActions.IsLowercase(u, NormalizeText(u, text))
  {
    var stripped := StripPunct(u, Lower(u, Trim(text)));
    SpellActions.CleanIsLowercase(u, Trim(text));
    CollapseChars(stripped, c => u.toLower(c) == c);
  }

  /** `normalizeText(text).split(" ").filter(Boolean)` */
  function SpellWords(u: Unicode, text: string): seq<string> {
    NonEmpty(Split(NormalizeText(u, text), IsSpaceChar))
  }

  /** The words compared are non-empty and contain no space. */
  lemma SpellWordsShape(u: Unicode, text: string)
    ensures forall k :: 0 <= k < |SpellWords(u, text)| ==> SpellWords(u, text)[k] != []
    ensures forall k, i :: 0 <= k < |SpellWords(u, text)| && 0 <= i < |SpellWords(u, text)[k]| ==>
      SpellWords(u, text)[k][i] != ' '
  {
    var fields := Split(NormalizeText(u, text), IsSpaceChar);
    SplitFields(NormalizeText(u, text), IsSpaceChar);
    NonEmptyMembers(fields);
    forall k, i | 0 <= k < |SpellWords(u, text)| && 0 <= i < |SpellWords(u, text)[k]|
      ensures SpellWords(u, text)[k][i] != ' '
    {
      var w := SpellWords(u, text)[k];
      var j :| 0 <= j < |fields| && fields[j] == w;
      assert !IsSpaceChar(fields[j][i]);
    }
  }

  /**
   * The dictation comparison and the audio cache see the same words: splitting
   * the normalised text at single spaces gives exactly the words of the cache
   * key, which are the words of the cleaned text.
   */
  lemma SpellWordsAreKeyWords(u: Unicode, text: string)
    requires WellFormed(u)
    ensures SpellWords(u, text) == Words(SpellActions.NormalizeForHashing(u, text))
    ensures SpellWords(u, text) == Words(Clean(u, text))
  {
    var r := NormalizeText(u, text);
    assert IsWhitespace(' ');
    SplitSameSeparators(r, IsSpaceChar, IsWhitespace);
    CollapseFields(Clean(u, Trim(text)));
    SpellActions.CleanTrimWords(u, text);
    SpellActions.NormalizeIsJoinedWords(u, text);
  }

  // ------------------------------------------------------------ comparing

  datatype Entry = Entry(word: string, correct: bool, expected: Option<string>)

  datatype Verification = Verification(isCorrect: bool, accuracy: real, comparison: seq<Entry>)

  /** `words[i] || ""` */
  function WordAt(words: seq<string>, i: nat): string {
    if i < |words| then words[i] else []
  }

  /** The comparison entry for one position, from the reference word and the learner's word. */
  function EntryFor(originalWord: string, userWord: string): Entry {
    if userWord == originalWord then Entry(if userWord == [] then MISSING else userWord, true, None)
    else if userWord != [] && originalWord == [] then Entry(userWord, false, Some(EXTRA))
    else if userWord == [] && originalWord != [] then Entry(MISSING, false, Some(originalWord))
    else Entry(userWord, false, Some(originalWord))
  }

  /** Number of positions below `n` whose words match and are non-empty. */
  function CorrectCount(ref: seq<string>, user: seq<string>, n: nat): nat {
    if n == 0 then 0
    else CorrectCount(ref, user, n - 1) + (if WordAt(user, n - 1) == WordAt(ref, n - 1) && WordAt(user, n - 1) != [] then 1 else 0)
  }

  /** `originalWords.length > 0 ? (correctCount / originalWords.length) * 100 : 0` */
  function Accuracy(correct: nat, total: nat): real {
    if total > 0 then (correct as real / total as real) * 100.0 else 0.0
  }

  /** The comparison of the learner's words against the reference words. */
  function Score(ref: seq<string>, user: seq<string>): (v: Verification)
    ensures |v.comparison| == Max(|ref|, |user|)
    ensures 0.0 <= v.accuracy <= 100.0
    ensures v.isCorrect <==> v.accuracy >= PASS_MARK
    ensures ref == [] ==> v.accuracy == 0.0 && !v.isCorrect
  {
    var n := Max(|ref|, |user|);
    var accuracy := Accuracy(CorrectCount(ref, user, n), |ref|);
    CorrectCountBound(ref, user, n);
    AccuracyRange(CorrectCount(ref, user, n), |ref|);
    Verification(accuracy >= PASS_MARK, accuracy,
                 seq(n, i requires 0 <= i < n => EntryFor(WordAt(ref, i), WordAt(user, i))))
  }

  /** What `verifySpelling(original, userInput)` returns. */
  function Verify(u: Unicode, original: string, userInput: string): (v: Verification)
    ensures |v.comparison| == Max(|SpellWords(u, original)|, |SpellWords(u, userInput)|)
    ensures v.isCorrect ==> SpellWords(u, original) != []
  {
    Score(SpellWords(u, original), SpellWords(u, userInput))
  }

  /** `verifySpelling`: split both texts into words, then compare them position by position. */
  method VerifySpelling(u: Unicode, original: string, userInput: string) returns (v: Verification)
    ensures v == Verify(u, original, userInput)
  {
    v := CompareWords(SpellWords(u, original), SpellWords(u, userInput));
  }

  /** The word-by-word comparison loop of `verifySpelling`. */
  method CompareWords(originalWords: seq<string>, userWords: seq<string>) returns (v: Verification)
    ensures v == Score(originalWords, userWords)
  {
    var comparison: seq<Entry> := [];
    var correctCount: nat := 0;
    var maxLength := Max(|originalWords|, |userWords|);
    var i := 0;
    while i < maxLength
      invariant 0 <= i <= maxLength && |comparison| == i
      invariant forall k :: 0 <= k < i ==> comparison[k] == EntryFor(WordAt(originalWords, k), WordAt(userWords, k))
      invariant correctCount == CorrectCount(originalWords, userWords, i)
    {
      var originalWord := WordAt(originalWords, i);
      var userWord := WordAt(userWords, i);
      var entry: Entry;
      if userWord == originalWord {
        entry := Entry(if userWord == [] then MISSING else userWord, true, None);
        if userWord != [] {
          correctCount := correctCount + 1;
        }
      } else if userWord != [] && originalWord == [] {
        entry := Entry(userWord, false, Some(EXTRA));
      } else if userWord == [] && originalWord != [] {
        entry := Entry(MISSING, false, Some(originalWord));
      } else {
        entry := Entry(userWord, false, Some(originalWord));
      }
      assert entry == EntryFor(originalWord, userWord);
      assert correctCount == CorrectCount(originalWords, userWords, i + 1);
      comparison := comparison + [entry];
      i := i + 1;
    }
    var accuracy := if |originalWords| > 0 then (correctCount as real / |originalWords| as real) * 100.0 else 0.0;
    v := Verification(accuracy >= PASS_MARK, accuracy, comparison);
    assert v == Score(originalWords, userWords);
  }

  // ------------------------------------------------------------ properties

  /** No word of the list is empty, as `filter(Boolean)` guarantees. */
  predicate NoEmptyWord(ws: seq<string>) {
    forall k :: 0 <= k < |ws| ==> ws[k] != []
  }

  lemma SpellWordsNoEmptyWord(u: Unicode, text: string)
    ensures NoEmptyWord(SpellWords(u, text))
  {
    SpellWordsShape(u, text);
  }

  /**
   * One entry per position of the longer list, with four outcomes: a match,
   * an extra word past the end of the reference, a missing word, and a wrong
   * word; an entry is correct exactly when both words are there and equal.
   */
  lemma ScoreEntries(ref: seq<string>, user: seq<string>, i: nat)
    requires NoEmptyWord(ref) && NoEmptyWord(user)
    ensures |Score(ref, user).comparison| == Max(|ref|, |user|)
    ensures i < Max(|ref|, |user|) ==> var e := Score(ref, user).comparison[i];
      && (e.correct <==> i < |ref| && i < |user| && user[i] == ref[i])
      && (e.correct ==> e == Entry(user[i], true, None))
      && (i >= |ref| ==> e == Entry(user[i], false, Some(EXTRA)))
      && (i >= |user| ==> e == Entry(MISSING, false, Some(ref[i])))
      && (i < |ref| && i < |user| && user[i] != ref[i] ==> e == Entry(user[i], false, Some(ref[i])))
  {
  }

  /** The same, for the comparison `verifySpelling` returns. */
  lemma EntryOutcome(u: Unicode, original: string, userInput: string, i: nat)
    ensures var ref, user := SpellWords(u, original), SpellWords(u, userInput);
      && |Verify(u, original, userInput).comparison| == Max(|ref|, |user|)
      && (i < Max(|ref|, |user|) ==> var e := Verify(u, original, userInput).comparison[i];
        && (e.correct <==> i < |ref| && i < |user| && user[i] == ref[i])
        && (i >= |ref| ==> e == Entry(user[i], false, Some(EXTRA)))
        && (i >= |user| ==> e == Entry(MISSING, false, Some(ref[i]))))
  {
    SpellWordsNoEmptyWord(u, original);
    SpellWordsNoEmptyWord(u, userInput);
    ScoreEntries(SpellWords(u, original), SpellWords(u, userInput), i);
  }

  /** The count only grows at matching positions, so it never exceeds either list. */
  lemma {:induction false} CorrectCountBound(ref: seq<string>, user: seq<string>, n: nat)
    ensures CorrectCount(ref, user, n) <= Min(n, Min(|ref|, |user|))
  {
    if n > 0 {
      CorrectCountBound(ref, user, n - 1);
    }
  }

  /** Number of entries marked correct. */
  function CountCorrect(es: seq<Entry>): nat {
    if es == [] then 0 else CountCorrect(es[..|es| - 1]) + (if es[|es| - 1].correct then 1 else 0)
  }

  /** When no word is empty, the count is the number of entries marked correct. */
  lemma {:induction false} CorrectCountIsCorrectEntries(ref: seq<string>, user: seq<string>, n: nat)
    requires NoEmptyWord(ref) && NoEmptyWord(user)
    requires n <= Max(|ref|, |user|)
    ensures CorrectCount(ref, user, n) == CountCorrect(seq(n, i requires 0 <= i < n => EntryFor(WordAt(ref, i), WordAt(user, i))))
  {
    if n > 0 {
      var es := seq(n, i requires 0 <= i < n => EntryFor(WordAt(ref, i), WordAt(user, i)));
      CorrectCountIsCorrectEntries(ref, user, n - 1);
      assert es[..n - 1] == seq(n - 1, i requires 0 <= i < n - 1 => EntryFor(WordAt(ref, i), WordAt(user, i)));
      assert WordAt(user, n - 1) == WordAt(ref, n - 1) ==> WordAt(user, n - 1) != [];
    }
  }

  /** The accuracy is the share of reference words matched, in percent, and lies in [0, 100]. */
  lemma ScoreAccuracy(ref: seq<string>, user: seq<string>)
    requires NoEmptyWord(ref) && NoEmptyWord(user)
    ensures var v := Score(ref, user);
      && v.accuracy == Accuracy(CountCorrect(v.comparison), |ref|)
      && 0.0 <= v.accuracy <= 100.0
      && (ref == [] ==> v.accuracy == 0.0)
      && (v.isCorrect <==> |ref| > 0 && 10 * CountCorrect(v.comparison) >= 9 * |ref|)
  {
    var n := Max(|ref|, |user|);
    CorrectCountIsCorrectEntries(ref, user, n);
    CorrectCountBound(ref, user, n);
    AccuracyRange(CorrectCount(ref, user, n), |ref|);
    PassMark(CorrectCount(ref, user, n), |ref|);
  }

  /** The same, for the result `verifySpelling` returns. */
  lemma AccuracyMeaning(u: Unicode, original: string, userInput: string)
    ensures var v, ref := Verify(u, original, userInput), SpellWords(u, original);
      && v.accuracy == Accuracy(CountCorrect(v.comparison), |ref|)
      && 0.0 <= v.accuracy <= 100.0
      && (v.isCorrect <==> |ref| > 0 && 10 * CountCorrect(v.comparison) >= 9 * |ref|)
  {
    SpellWordsNoEmptyWord(u, original);
    SpellWordsNoEmptyWord(u, userInput);
    ScoreAccuracy(SpellWords(u, original), SpellWords(u, userInput));
  }

  lemma AccuracyRange(correct: nat, total: nat)
    requires correct <= total
    ensures 0.0 <= Accuracy(correct, total) <= 100.0
  {
    if total > 0 {
      assert correct as real / total as real <= 1.0;
    }
  }

  /** Passing means matching at least nine reference words in ten (and at least one). */
  lemma PassMark(correct: nat, total: nat)
    ensures Accuracy(correct, total) >= PASS_MARK <==> total > 0 && 10 * correct >= 9 * total
  {
    if total > 0 {
      var q := correct as real / total as real;
      assert q * total as real == correct as real;
      assert q * 100.0 >= 90.0 <==> 10.0 * correct as real >= 9.0 * total as real;
    }
  }

  lemma {:induction false} AllMatch(ref: seq<string>, n: nat)
    requires n <= |ref| && NoEmptyWord(ref)
    ensures CorrectCount(ref, ref, n) == n
  {
    if n > 0 {
      AllMatch(ref, n - 1);
    }
  }

  /** Comparing a word list with itself gives accuracy 100 and passes, unless the list is empty. */
  lemma ScoreOfSame(ref: seq<string>)
    requires ref != [] && NoEmptyWord(ref)
    ensures Score(ref, ref).isCorrect && Score(ref, ref).accuracy == 100.0
  {
    AllMatch(ref, |ref|);
    FullAccuracy(|ref|);
  }

  /** Every reference word right is an accuracy of exactly 100. */
  lemma FullAccuracy(n: nat)
    requires n > 0
    ensures Accuracy(n, n) == 100.0
  {
    var x := n as real;
    assert x / x == 1.0;
  }

  /** An answer identical to the sentence passes, with accuracy 100, unless the sentence has no words. */
  lemma VerbatimAnswerPasses(u: Unicode, sentence: string)
    requires SpellWords(u, sentence) != []
    ensures Verify(u, sentence, sentence).isCorrect && Verify(u, sentence, sentence).accuracy == 100.0
  {
    SpellWordsNoEmptyWord(u, sentence);
    ScoreOfSame(SpellWords(u, sentence));
  }

  /**
   * Answers that differ only in case, punctuation or spacing (so that they
   * share a cache key) are scored identically.
   */
  lemma VerifyDependsOnlyOnKey(u: Unicode, original: string, a: string, b: string)
    requires WellFormed(u)
    requires SpellActions.NormalizeForHashing(u, a) == SpellActions.NormalizeForHashing(u, b)
    ensures Verify(u, original, a) == Verify(u, original, b)
  {
    SpellWordsAreKeyWords(u, a);
    SpellWordsAreKeyWords(u, b);
  }

  // ------------------------------------------------------------ direction

  predicate IsAsciiLetter(c: char) {
    'a' <= c <= 'z' || 'A' <= c <= 'Z'
  }

  /** `(s.match(/[a-zA-Z]/g)?.length ?? 0)` */
  function AsciiLetterCount(s: string): nat {
    if s == [] then 0 else (if IsAsciiLetter(s[0]) then 1 else 0) + AsciiLetterCount(s[1..])
  }

  /** Length of `s` once every whitespace character is removed. */
  function NonWhitespaceCount(s: string): nat {
    if s == [] then 0 else (if IsWhitespace(s[0]) then 0 else 1) + NonWhitespaceCount(s[1..])
  }

  /** `isLTR`: more than half of the non-whitespace characters are ASCII letters. */
  function IsLTR(s: string): (ltr: bool)
    ensures ltr ==> exists i :: 0 <= i < |s| && IsAsciiLetter(s[i])
  {
    LetterWitness(s);
    2 * AsciiLetterCount(s) > NonWhitespaceCount(s)
  }

  /** A text with a counted ASCII letter has one at some position. */
  lemma {:induction false} LetterWitness(s: string)
    ensures AsciiLetterCount(s) > 0 ==> exists i :: 0 <= i < |s| && IsAsciiLetter(s[i])
  {
    if s != [] && !IsAsciiLetter(s[0]) {
      LetterWitness(s[1..]);
      if AsciiLetterCount(s) > 0 {
        var i :| 0 <= i < |s[1..]| && IsAsciiLetter(s[1..][i]);
        assert IsAsciiLetter(s[i + 1]);
      }
    }
  }

  lemma {:induction false} LetterCountBound(s: string)
    ensures AsciiLetterCount(s) <= NonWhitespaceCount(s)
  {
    if s != [] {
      LetterCountBound(s[1..]);
      if IsAsciiLetter(s[0]) {
        assert !IsWhitespace(s[0]);
      }
    }
  }

  /** A sentence without ASCII letters (Arabic, say) is shown right to left. */
  lemma {:induction false} NoLatinMeansRtl(s: string)
    requires forall i :: 0 <= i < |s| ==> !IsAsciiLetter(s[i])
    ensures !IsLTR(s)
  {
    if s != [] {
      NoLatinMeansRtl(s[1..]);
    }
  }

  /** A sentence whose non-whitespace characters are all ASCII letters, with at least one, is left to right. */
  lemma {:induction false} LatinMeansLtr(s: string)
    requires forall i :: 0 <= i < |s| ==> IsWhitespace(s[i]) || IsAsciiLetter(s[i])
    requires exists i :: 0 <= i < |s| && IsAsciiLetter(s[i])
    ensures IsLTR(s)
  {
    AllLatin(s);
  }

  lemma {:induction false} AllLatin(s: string)
    requires forall i :: 0 <= i < |s| ==> IsWhitespace(s[i]) || IsAsciiLetter(s[i])
    ensures AsciiLetterCount(s) == NonWhitespaceCount(s)
    ensures (exists i :: 0 <= i < |s| && IsAsciiLetter(s[i])) ==> AsciiLetterCount(s) > 0
  {
    if s != [] {
      AllLatin(s[1..]);
      if IsAsciiLetter(s[0]) {
        assert !IsWhitespace(s[0]);
      }
      if exists i :: 0 <= i < |s| && IsAsciiLetter(s[i]) {
        var i :| 0 <= i < |s| && IsAsciiLetter(s[i]);
        if i > 0 { assert IsAsciiLetter(s[1..][i - 1]); }
      }
    }
  }

  // ------------------------------------------------------------ the widget

  class SpellWidget {
    const u: Unicode
    const sentence: string
    var userInput: string
    var result: Option<Verification>

    constructor (u: Unicode, content: Option<string>)
      ensures this.u == u && sentence == SentenceOf(content)
      ensures userInput == [] && result == None
    {
      this.u := u;
      sentence := SentenceOf(content);
      userInput := [];
      result := None;
    }

    /** `canSubmit`: there is no result yet, or the last one failed. */
    predicate CanSubmit()
      reads this
    {
      result.None? || !result.value.isCorrect
    }

    /** The submit button is enabled when the input has a non-whitespace character and a new attempt is allowed. */
    predicate SubmitEnabled()
      reads this
    {
      Trim(userInput) != [] && CanSubmit()
    }

    /** Typing into the answer box, which is disabled once the answer was accepted. */
    method Type(text: string)
      requires CanSubmit()
      modifies this
      ensures userInput == text && result == old(result)
    {
      userInput := text;
    }

    /** `handleSubmit`: input that is empty or only whitespace is ignored; anything else is scored. */
    method Submit()
      modifies this
      ensures userInput == old(userInput)
      ensures AllWhitespace(old(userInput)) ==> result == old(result)
      ensures !AllWhitespace(old(userInput)) ==> result == Some(Verify(u, sentence, old(userInput)))
    {
      TrimEmpty(userInput);
      if Trim(userInput) == [] {
        return;
      }
      var v := VerifySpelling(u, sentence, userInput);
      result := Some(v);
    }

    /** `handleRetry`: clears the result and the input. */
    method Retry()
      modifies this
      ensures result == None && userInput == []
    {
      result := None;
      userInput := [];
    }
  }

  /** The submit button is enabled exactly when the input is not all whitespace and no accepted result is showing. */
  lemma SubmitEnabledMeaning(w: SpellWidget)
    ensures w.SubmitEnabled() <==> !AllWhitespace(w.userInput) && (w.result.None? || !w.result.value.isCorrect)
  {
    TrimEmpty(w.userInput);
  }
}
