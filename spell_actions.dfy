/**
 * The text-to-speech cache key of lib/spell-actions.ts: the sentence is
 * normalised (`normalizeTextForHashing`) before it is hashed, so that
 * sentences differing only in case, punctuation or spacing share one cached
 * recording.  The hash itself (SHA-256) is not part of this model; every
 * property below is stated about its input.
 */
module SpellActions {
  import opened TextOps

  /** Every character is its own lowercase form. */
  predicate IsLowercase(u: Unicode, s: string) {
    forall i :: 0 <= i < |s| ==> u.toLower(s[i]) == s[i]
  }

  /** `normalizeTextForHashing`: trim, lowercase, strip punctuation, collapse whitespace, trim. */
  function NormalizeForHashing(u: Unicode, text: string): (r: string)
    ensures Canonical(r)
    ensures forall i :: 0 <= i < |r| ==> Kept(u, r[i])
  {
    var stripped := StripPunct(u, Lower(u, Trim(text)));
    var collapsed := CollapseWhitespace(stripped);
    TrimCanonical(collapsed);
    CollapseChars(stripped, c => Kept(u, c));
    TrimChars(collapsed, c => Kept(u, c));
    Trim(collapsed)
  }

  /** The key contains no uppercase character. */
  lemma NormalizeIsLowercase(u: Unicode, text: string)
    requires WellFormed(u)
    ensures IsLowercase(u, NormalizeForHashing(u, text))
  {
    var stripped := StripPunct(u, Lower(u, Trim(text)));
    CleanIsLowercase(u, Trim(text));
    CollapseChars(stripped, c => u.toLower(c) == c);
    TrimChars(CollapseWhitespace(stripped), c => u.toLower(c) == c);
  }

  lemma CleanIsLowercase(u: Unicode, x: string)
    requires WellFormed(u)
    ensures IsLowercase(u, Clean(u, x))
  {
    StripPunctChars(u, Lower(u, x), c => u.toLower(c) == c);
  }

  /** Cleaning leaves lowercase letters, numbers and whitespace as they are. */
  lemma CleanOfClean(u: Unicode, y: string)
    requires IsLowercase(u, y) && forall i :: 0 <= i < |y| ==> Kept(u, y[i])
    ensures Clean(u, y) == y
  {
    assert Lower(u, y) == y;
    StripPunctOfKept(u, y);
  }

  /** Trimming a string whose whitespace is already collapsed to single spaces puts it in normal form. */
  lemma TrimCanonical(x: string)
    requires forall i :: 0 <= i < |x| && IsWhitespace(x[i]) ==> x[i] == ' '
    requires forall i :: 0 <= i < |x| - 1 ==> !(IsWhitespace(x[i]) && IsWhitespace(x[i + 1]))
    ensures Canonical(Trim(x))
  {
    var a, b := TrimSplit(x);
    var y := Trim(x);
    forall i | 0 <= i < |y| ensures y[i] == x[|a| + i] { }
  }

  /** Whitespace around a string contributes no words once cleaned. */
  lemma CleanWsAround(u: Unicode, a: string, t: string, b: string)
    requires WellFormed(u) && AllWhitespace(a) && AllWhitespace(b)
    ensures Words(Clean(u, a + t + b)) == Words(Clean(u, t))
  {
    CleanAppend(u, a + t, b);
    CleanAppend(u, a, t);
    CleanOfWhitespace(u, a);
    CleanOfWhitespace(u, b);
    WordsWsAround(a, Clean(u, t), b);
  }

  lemma CleanTrimWords(u: Unicode, s: string)
    requires WellFormed(u)
    ensures Words(Clean(u, Trim(s))) == Words(Clean(u, s))
  {
    var a, b := TrimSplit(s);
    CleanWsAround(u, a, Trim(s), b);
  }

  /**
   * The cache key is the words of the lowercased, punctuation-free text joined
   * by single spaces: nothing else about the input survives.
   */
  lemma NormalizeIsJoinedWords(u: Unicode, s: string)
    requires WellFormed(u)
    ensures NormalizeForHashing(u, s) == Join(Words(Clean(u, s)))
    ensures Words(NormalizeForHashing(u, s)) == Words(Clean(u, s))
  {
    var c := Clean(u, Trim(s));
    var y := NormalizeForHashing(u, s);
    TrimWords(CollapseWhitespace(c));
    CollapseFields(c);
    CleanTrimWords(u, s);
    JoinWordsOfCanonical(y);
  }

  /** Normalising twice gives the same key as normalising once. */
  lemma NormalizeIdempotent(u: Unicode, s: string)
    requires WellFormed(u)
    ensures NormalizeForHashing(u, NormalizeForHashing(u, s)) == NormalizeForHashing(u, s)
  {
    var y := NormalizeForHashing(u, s);
    NormalizeIsLowercase(u, s);
    CleanOfClean(u, y);
    NormalizeIsJoinedWords(u, y);
    JoinWordsOfCanonical(y);
  }

  /** Case does not change the key. */
  lemma NormalizeIgnoresCase(u: Unicode, s: string)
    requires WellFormed(u)
    ensures NormalizeForHashing(u, Lower(u, s)) == NormalizeForHashing(u, s)
  {
    assert Lower(u, Lower(u, s)) == Lower(u, s);
    NormalizeIsJoinedWords(u, s);
    NormalizeIsJoinedWords(u, Lower(u, s));
  }

  /** Inserting a punctuation character anywhere does not change the key. */
  lemma NormalizeIgnoresPunctuation(u: Unicode, s: string, i: nat, p: char)
    requires WellFormed(u) && i <= |s| && !Kept(u, u.toLower(p))
    ensures NormalizeForHashing(u, s[..i] + [p] + s[i..]) == NormalizeForHashing(u, s)
  {
    var a, b := s[..i], s[i..];
    assert Clean(u, a + [p] + b) == Clean(u, a) + Clean(u, b) by {
      CleanAppend(u, a + [p], b);
      CleanAppend(u, a, [p]);
      assert Clean(u, [p]) == [] by { assert Lower(u, [p]) == [u.toLower(p)]; }
      assert Clean(u, a) + [] == Clean(u, a);
    }
    assert Clean(u, s) == Clean(u, a) + Clean(u, b) by {
      assert s == a + b;
      CleanAppend(u, a, b);
    }
    NormalizeIsJoinedWords(u, s);
    NormalizeIsJoinedWords(u, a + [p] + b);
  }

  /** A single whitespace character cleans to itself. */
  lemma CleanOfSpace(u: Unicode, w: char)
    requires WellFormed(u) && IsWhitespace(w)
    ensures Clean(u, [w]) == [w]
  {
    assert Lower(u, [w]) == [w];
  }

  /**
   * Inserting a whitespace character at either end, or next to whitespace
   * already there, does not change the key.
   */
  lemma NormalizeIgnoresExtraSpace(u: Unicode, s: string, i: nat, w: char)
    requires WellFormed(u) && i <= |s| && IsWhitespace(w)
    requires i == 0 || i == |s| || IsWhitespace(s[i - 1])
    ensures NormalizeForHashing(u, s[..i] + [w] + s[i..]) == NormalizeForHashing(u, s)
  {
    assert s == s[..i] + s[i..];
    CleanInsertSpace(u, s[..i], w, s[i..]);
    NormalizeIsJoinedWords(u, s);
    NormalizeIsJoinedWords(u, s[..i] + [w] + s[i..]);
  }

  lemma CleanInsertSpace(u: Unicode, a: string, w: char, b: string)
    requires WellFormed(u) && IsWhitespace(w)
    requires a == [] || b == [] || IsWhitespace(a[|a| - 1])
    ensures Words(Clean(u, a + [w] + b)) == Words(Clean(u, a + b))
  {
    if a == [] {
      assert a + [w] + b == [w] + b + [] && a + b == b;
      CleanWsAround(u, [w], b, []);
    } else if b == [] {
      assert a + [w] + b == [] + a + [w] && a + b == a;
      CleanWsAround(u, [], a, [w]);
    } else {
      var c := a[|a| - 1];
      var a0 := a[..|a| - 1];
      assert a + [w] + b == a0 + [c] + [w] + b && a + b == a0 + [c] + b;
      CleanAppend(u, a0 + [c] + [w], b);
      CleanAppend(u, a0 + [c], [w]);
      CleanAppend(u, a0 + [c], b);
      CleanAppend(u, a0, [c]);
      CleanOfSpace(u, w);
      CleanOfSpace(u, c);
      WordsRepeatedSeparator(Clean(u, a0), c, w, Clean(u, b));
    }
  }

  /** Which whitespace character separates two words does not change the key. */
  lemma NormalizeIgnoresSpaceKind(u: Unicode, a: string, b: string, w: char, w': char)
    requires WellFormed(u) && IsWhitespace(w) && IsWhitespace(w')
    ensures NormalizeForHashing(u, a + [w] + b) == NormalizeForHashing(u, a + [w'] + b)
  {
    CleanAppend(u, a + [w], b);
    CleanAppend(u, a, [w]);
    CleanAppend(u, a + [w'], b);
    CleanAppend(u, a, [w']);
    assert Clean(u, [w]) == [w] by { assert Lower(u, [w]) == [w]; }
    assert Clean(u, [w']) == [w'] by { assert Lower(u, [w']) == [w']; }
    WordsAt(Clean(u, a), w, Clean(u, b));
    WordsAt(Clean(u, a), w', Clean(u, b));
    NormalizeIsJoinedWords(u, a + [w] + b);
    NormalizeIsJoinedWords(u, a + [w'] + b);
  }

  // ------------------------------------- lowercasing with context

  /**
   * The same pipeline with the lowercase mapping given on whole strings, as
   * `toLowerCase` is defined: the Unicode standard (section 3.13, "Default
   * Case Algorithms") lowers a capital sigma according to its neighbours and
   * expands some characters to two.
   */
  function NormalizeWithCasing(u: Unicode, toLowerCase: string -> string, text: string): (r: string)
    ensures Canonical(r)
  {
    var collapsed := CollapseWhitespace(StripPunct(u, toLowerCase(Trim(text))));
    TrimCanonical(collapsed);
    Trim(collapsed)
  }

  /** Latin and Greek capitals, the letters the counterexample below needs. */
  predicate IsCapital(c: char) {
    ('A' <= c <= 'Z') || ('\U{0391}' <= c <= '\U{03A9}')
  }

  predicate IsCased(c: char) {
    IsCapital(c) || ('a' <= c <= 'z') || ('\U{03B1}' <= c <= '\U{03C9}')
  }

  /** The context-free lowercase of a Latin or Greek capital. */
  function LowerLetter(c: char): (r: char)
    ensures IsCapital(c) ==> IsCased(r) && !IsCapital(r)
    ensures !IsCapital(c) ==> r == c
  {
    if IsCapital(c) then (c as int + 0x20) as char else c
  }

  /**
   * Lowercasing with the Final_Sigma rule: a capital sigma right after a cased
   * letter and not right before one becomes the final form U+03C2, any other
   * capital its plain lowercase.  (The standard also looks through
   * case-ignorable characters such as the apostrophe; the hyphen is not one.)
   */
  function SigmaLower(s: string): (r: string)
    ensures |r| == |s|
  {
    seq(|s|, i requires 0 <= i < |s| =>
      if s[i] == '\U{03A3}' && i > 0 && IsCased(s[i - 1]) && !(i + 1 < |s| && IsCased(s[i + 1]))
      then '\U{03C2}' else LowerLetter(s[i]))
  }

  /** `\p{L}` and `\p{N}` restricted to the same letters and the ASCII digits. */
  function GreekLatin(): (u: Unicode)
    ensures forall c :: u.isLetterOrNumber(c) <==> IsCased(c) || ('0' <= c <= '9')
  {
    Unicode(c => IsCased(c) || ('0' <= c <= '9'), LowerLetter)
  }

  /**
   * A hyphen between a capital sigma and the next letter changes the key:
   * "ΑΣ-Α" keys to "αςα" but "ΑΣΑ" to "ασα", because the hyphen is still
   * there when the sigma is lowered and is stripped only afterwards.
   */
  /** "ΑΣ-Α" and "ΑΣΑ", and the keys each of them gets. */
  const HYPHENED: string := "\U{0391}\U{03A3}-\U{0391}"
  const UNHYPHENED: string := "\U{0391}\U{03A3}\U{0391}"
  const FINAL_SIGMA_KEY: string := "\U{03B1}\U{03C2}\U{03B1}"
  const SIGMA_KEY: string := "\U{03B1}\U{03C3}\U{03B1}"

  lemma PunctuationChangesKey()
    ensures UNHYPHENED == HYPHENED[..2] + HYPHENED[3..] && !Kept(GreekLatin(), HYPHENED[2])
    ensures NormalizeWithCasing(GreekLatin(), SigmaLower, HYPHENED) == FINAL_SIGMA_KEY
    ensures NormalizeWithCasing(GreekLatin(), SigmaLower, UNHYPHENED) == SIGMA_KEY
    ensures FINAL_SIGMA_KEY != SIGMA_KEY
  {
    HyphenedKey();
    PlainKey();
    TwoInputs();
  }

  /** The two inputs differ in the hyphen alone, and their keys in the sigma. */
  lemma TwoInputs()
    ensures UNHYPHENED == HYPHENED[..2] + HYPHENED[3..] && !Kept(GreekLatin(), HYPHENED[2])
    ensures FINAL_SIGMA_KEY != SIGMA_KEY
  {
    assert FINAL_SIGMA_KEY[1] != SIGMA_KEY[1];
  }

  /** Before a hyphen the sigma is final. */
  lemma HyphenedKey()
    ensures NormalizeWithCasing(GreekLatin(), SigmaLower, HYPHENED) == FINAL_SIGMA_KEY
  {
    var a, b := HyphenedLower();
    KeyOf(HYPHENED, a + "-" + b);
    StripHyphen(a, b);
    WordKey(FINAL_SIGMA_KEY);
  }

  /** The lowercase of "ΑΣ-Α" is "ας-α": two letter words around the hyphen. */
  lemma HyphenedLower() returns (a: string, b: string)
    ensures SigmaLower(HYPHENED) == a + "-" + b && a + b == FINAL_SIGMA_KEY
    ensures forall i :: 0 <= i < |a| ==> IsCased(a[i])
    ensures forall i :: 0 <= i < |b| ==> IsCased(b[i])
    ensures forall i :: 0 <= i < |FINAL_SIGMA_KEY| ==> IsCased(FINAL_SIGMA_KEY[i])
  {
    a, b := "\U{03B1}\U{03C2}", "\U{03B1}";
    assert SigmaLower(HYPHENED)[1] == '\U{03C2}';
    assert SigmaLower(HYPHENED)[2] == '-';
  }

  /** Between two letters the sigma is not final. */
  lemma PlainKey()
    ensures NormalizeWithCasing(GreekLatin(), SigmaLower, UNHYPHENED) == SIGMA_KEY
  {
    PlainLower();
    KeyOf(UNHYPHENED, SIGMA_KEY);
    StripLetters(SIGMA_KEY);
    WordKey(SIGMA_KEY);
  }

  lemma PlainLower()
    ensures SigmaLower(UNHYPHENED) == SIGMA_KEY
    ensures forall i :: 0 <= i < |SIGMA_KEY| ==> IsCased(SIGMA_KEY[i])
  {
    assert SigmaLower(UNHYPHENED)[1] == '\U{03C3}';
  }

  /** Letters survive stripping. */
  lemma StripLetters(w: string)
    requires forall i :: 0 <= i < |w| ==> IsCased(w[i])
    ensures StripPunct(GreekLatin(), w) == w
  {
    StripPunctOfKept(GreekLatin(), w);
  }

  /** A hyphen between letters does not survive stripping. */
  lemma StripHyphen(a: string, b: string)
    requires forall i :: 0 <= i < |a| ==> IsCased(a[i])
    requires forall i :: 0 <= i < |b| ==> IsCased(b[i])
    ensures StripPunct(GreekLatin(), a + "-" + b) == a + b
  {
    var u := GreekLatin();
    assert !Kept(u, '-') by {
      assert !IsWhitespace('-');
    }
    LettersKept(a);
    LettersKept(b);
    StripOne(u, a, '-', b);
  }

  lemma LettersKept(w: string)
    requires forall i :: 0 <= i < |w| ==> IsCased(w[i])
    ensures forall i :: 0 <= i < |w| ==> Kept(GreekLatin(), w[i])
  {
  }

  /** The key of a text without outer whitespace is computed from its lowercase. */
  lemma KeyOf(text: string, lowered: string)
    requires text != [] && !IsWhitespace(text[0]) && !IsWhitespace(text[|text| - 1])
    requires SigmaLower(text) == lowered
    ensures NormalizeWithCasing(GreekLatin(), SigmaLower, text)
      == Trim(CollapseWhitespace(StripPunct(GreekLatin(), lowered)))
  {
    TrimOfTrimmed(text);
  }

  /** A word of letters is its own collapsed and trimmed form. */
  lemma WordKey(w: string)
    requires w != [] && forall i :: 0 <= i < |w| ==> IsCased(w[i])
    ensures Trim(CollapseWhitespace(w)) == w
  {
    assert forall i :: 0 <= i < |w| ==> !IsWhitespace(w[i]);
    CollapseWordOf(w);
    TrimOfTrimmed(w);
  }

  /** Stripping removes a character that is not kept, between kept ones. */
  lemma StripOne(u: Unicode, a: string, p: char, b: string)
    requires !Kept(u, p)
    requires forall i :: 0 <= i < |a| ==> Kept(u, a[i])
    requires forall i :: 0 <= i < |b| ==> Kept(u, b[i])
    ensures StripPunct(u, a + [p] + b) == a + b
  {
    StripDropped(u, a, p);
    StripPunctAppend(u, a + [p], b);
    StripPunctOfKept(u, b);
  }

  /** Stripping drops a character that is not kept, after kept ones. */
  lemma StripDropped(u: Unicode, a: string, p: char)
    requires !Kept(u, p)
    requires forall i :: 0 <= i < |a| ==> Kept(u, a[i])
    ensures StripPunct(u, a + [p]) == a
  {
    assert StripPunct(u, [p]) == [] by {
      assert [p][1..] == [];
    }
    StripPunctAppend(u, a, [p]);
    StripPunctOfKept(u, a);
  }

  /** Collapsing leaves a text without whitespace as it is. */
  lemma {:induction false} CollapseWordOf(w: string)
    requires forall i :: 0 <= i < |w| ==> !IsWhitespace(w[i])
    ensures CollapseWhitespace(w) == w
  {
    if w != [] {
      CollapseWordOf(w[1..]);
      assert w == [w[0]] + w[1..];
    }
  }

  /**
   * Punctuation stripped before lowercasing: the key the cache evidently
   * intends, whatever the lowercase mapping does with context.
   */
  function NormalizeStripFirst(u: Unicode, toLowerCase: string -> string, text: string): (r: string)
    ensures Canonical(r)
  {
    var collapsed := CollapseWhitespace(toLowerCase(StripPunct(u, text)));
    TrimCanonical(collapsed);
    Trim(collapsed)
  }

  /** With punctuation stripped first, inserting a punctuation character anywhere never changes the key. */
  lemma StripFirstIgnoresPunctuation(u: Unicode, toLowerCase: string -> string, s: string, i: nat, p: char)
    requires i <= |s| && !Kept(u, p)
    ensures NormalizeStripFirst(u, toLowerCase, s[..i] + [p] + s[i..]) == NormalizeStripFirst(u, toLowerCase, s)
  {
    var a, b := s[..i], s[i..];
    StripPunctAppend(u, a + [p], b);
    StripPunctAppend(u, a, [p]);
    assert StripPunct(u, [p]) == [];
    assert StripPunct(u, a) + [] == StripPunct(u, a);
    assert s == a + b;
    StripPunctAppend(u, a, b);
  }

  /** Lowering one character at a time commutes with stripping when it keeps every character's category. */
  lemma {:induction false} StripLowerCommute(u: Unicode, s: string)
    requires forall c :: Kept(u, u.toLower(c)) == Kept(u, c)
    ensures Lower(u, StripPunct(u, s)) == StripPunct(u, Lower(u, s))
  {
    if s != [] {
      StripLowerCommute(u, s[1..]);
      assert Lower(u, s) == [u.toLower(s[0])] + Lower(u, s[1..]);
      LowerAppend(u, if Kept(u, s[0]) then [s[0]] else [], StripPunct(u, s[1..]));
    }
  }

  /**
   * Where lowercasing is one character at a time and keeps categories, as
   * everywhere else in this model, the source's key and the corrected one
   * coincide.
   */
  lemma StripFirstAgrees(u: Unicode, text: string)
    requires WellFormed(u) && forall c :: Kept(u, u.toLower(c)) == Kept(u, c)
    ensures NormalizeStripFirst(u, s => Lower(u, s), text) == NormalizeForHashing(u, text)
  {
    var x := StripPunct(u, text);
    var y := NormalizeStripFirst(u, s => Lower(u, s), text);
    StripLowerCommute(u, text);
    assert Lower(u, x) == Clean(u, text);
    CollapseFields(Clean(u, text));
    TrimWords(CollapseWhitespace(Clean(u, text)));
    JoinWordsOfCanonical(y);
    NormalizeIsJoinedWords(u, text);
  }
}
