/**
 * The JavaScript string primitives the quiz widgets are built from: `trim()`,
 * `toLowerCase()`, the regular-expression replacements `/[^\p{L}\p{N}\s]/gu`
 * and `/\s+/g`, `split` and `filter(Boolean)`.
 *
 * Whitespace is spelled out exactly (ECMAScript's WhiteSpace and LineTerminator
 * code points, which is what both `trim()` and `\s` use).  The Unicode tables
 * for general categories L and N and for lowercase mapping are not: they are a
 * parameter `u: Unicode` constrained only by `WellFormed(u)`.
 */
module TextOps {

  /** The characters `String.prototype.trim` removes and `\s` matches. */
  const WHITESPACE: set<char> :=
    {'\t', '\n', '\U{000B}', '\U{000C}', '\r', ' ', '\U{00A0}', '\U{1680}',
     '\U{2000}', '\U{2001}', '\U{2002}', '\U{2003}', '\U{2004}', '\U{2005}',
     '\U{2006}', '\U{2007}', '\U{2008}', '\U{2009}', '\U{200A}',
     '\U{2028}', '\U{2029}', '\U{202F}', '\U{205F}', '\U{3000}', '\U{FEFF}'}

  predicate IsWhitespace(c: char) {
    c in WHITESPACE
  }

  /** The separator of `split(" ")`. */
  predicate IsSpaceChar(c: char) { c == ' ' }

  /** The line terminators, which `.` in a regular expression does not match. */
  predicate IsLineTerminator(c: char) {
    c == '\n' || c == '\r' || c == '\U{2028}' || c == '\U{2029}'
  }

  /** Unicode general categories L and N (`\p{L}`, `\p{N}`) and the lowercase mapping. */
  datatype Unicode = Unicode(isLetterOrNumber: char -> bool, toLower: char -> char)

  /** What the model relies on about the lowercase mapping. */
  ghost predicate WellFormed(u: Unicode) {
    && (forall c :: u.toLower(u.toLower(c)) == u.toLower(c))
    && (forall c :: IsWhitespace(c) ==> u.toLower(c) == c)
    && (forall c :: IsWhitespace(u.toLower(c)) ==> IsWhitespace(c))
  }

  predicate AllWhitespace(s: string) {
    forall i :: 0 <= i < |s| ==> IsWhitespace(s[i])
  }

  lemma SliceThree(s: string, i: nat, j: nat)
    requires i <= j <= |s|
    ensures s == s[..i] + s[i..j] + s[j..]
  {
  }

  lemma SliceAround(s: string, k: nat)
    requires k < |s|
    ensures s == s[..k] + [s[k]] + s[k + 1..]
  {
  }

  // ---------------------------------------------------------------- trim

  /** Number of whitespace characters at the start of `s`. */
  function LeadingWs(s: string): (n: nat)
    ensures n <= |s|
    ensures forall i :: 0 <= i < n ==> IsWhitespace(s[i])
    ensures n < |s| ==> !IsWhitespace(s[n])
  {
    if s == [] || !IsWhitespace(s[0]) then 0 else 1 + LeadingWs(s[1..])
  }

  /** Number of whitespace characters at the end of `s`. */
  function TrailingWs(s: string): (n: nat)
    ensures n <= |s|
    ensures forall i :: |s| - n <= i < |s| ==> IsWhitespace(s[i])
    ensures n < |s| ==> !IsWhitespace(s[|s| - n - 1])
  {
    if s == [] || !IsWhitespace(s[|s| - 1]) then 0 else 1 + TrailingWs(s[..|s| - 1])
  }

  /** `s.trim()` */
  function Trim(s: string): (r: string)
    ensures |r| <= |s|
    ensures r == [] || (!IsWhitespace(r[0]) && !IsWhitespace(r[|r| - 1]))
  {
    var n := LeadingWs(s);
    if n == |s| then [] else s[n..|s| - TrailingWs(s)]
  }

  /** `s` is `Trim(s)` with whitespace around it. */
  lemma TrimSplit(s: string) returns (a: string, b: string)
    ensures s == a + Trim(s) + b && AllWhitespace(a) && AllWhitespace(b)
  {
    var n := LeadingWs(s);
    if n == |s| {
      a, b := s, [];
      assert Trim(s) == [];
      assert s == a + [] + b;
    } else {
      var j := |s| - TrailingWs(s);
      a, b := s[..n], s[j..];
      assert Trim(s) == s[n..j];
      SliceThree(s, n, j);
    }
  }

  /** `trim()` yields the empty string exactly when there is nothing but whitespace. */
  lemma TrimEmpty(s: string)
    ensures Trim(s) == [] <==> AllWhitespace(s)
  {
    var n := LeadingWs(s);
    if n < |s| {
      assert !IsWhitespace(s[n]);
    }
  }

  /** A string with no whitespace at either end is its own trim. */
  lemma TrimOfTrimmed(s: string)
    requires s == [] || (!IsWhitespace(s[0]) && !IsWhitespace(s[|s| - 1]))
    ensures Trim(s) == s
  {
    if s != [] {
      assert LeadingWs(s) == 0 && TrailingWs(s) == 0;
    }
  }

  /** Every character of `Trim(s)` is a character of `s`, so any property of all of them carries over. */
  lemma TrimChars(s: string, p: char -> bool)
    requires forall i :: 0 <= i < |s| ==> p(s[i])
    ensures forall i :: 0 <= i < |Trim(s)| ==> p(Trim(s)[i])
  {
    var a, b := TrimSplit(s);
    forall i | 0 <= i < |Trim(s)| ensures p(Trim(s)[i]) {
      assert Trim(s)[i] == s[|a| + i];
    }
  }

  // ----------------------------------------------------------- lowercase

  /** `s.toLowerCase()`, one character at a time. */
  function Lower(u: Unicode, s: string): (r: string)
    ensures |r| == |s|
    ensures forall i :: 0 <= i < |s| ==> r[i] == u.toLower(s[i])
  {
    seq(|s|, i requires 0 <= i < |s| => u.toLower(s[i]))
  }

  lemma LowerAppend(u: Unicode, a: string, b: string)
    ensures Lower(u, a + b) == Lower(u, a) + Lower(u, b)
  {
  }

  // ----------------------------------------------------- strip punctuation

  /** A character `/[^\p{L}\p{N}\s]/gu` leaves in place. */
  predicate Kept(u: Unicode, c: char) {
    u.isLetterOrNumber(c) || IsWhitespace(c)
  }

  /** `s.replace(/[^\p{L}\p{N}\s]/gu, "")` */
  function StripPunct(u: Unicode, s: string): (r: string)
    ensures |r| <= |s|
    ensures forall i :: 0 <= i < |r| ==> Kept(u, r[i])
  {
    if s == [] then []
    else (if Kept(u, s[0]) then [s[0]] else []) + StripPunct(u, s[1..])
  }

  /** Stripping only removes characters, so a property of every character survives it. */
  lemma {:induction false} StripPunctChars(u: Unicode, s: string, p: char -> bool)
    requires forall i :: 0 <= i < |s| ==> p(s[i])
    ensures forall i :: 0 <= i < |StripPunct(u, s)| ==> p(StripPunct(u, s)[i])
  {
    if s != [] {
      StripPunctChars(u, s[1..], p);
    }
  }

  lemma {:induction false} StripPunctAppend(u: Unicode, a: string, b: string)
    ensures StripPunct(u, a + b) == StripPunct(u, a) + StripPunct(u, b)
  {
    if a == [] {
      assert a + b == b;
    } else {
      var head := if Kept(u, a[0]) then [a[0]] else [];
      calc {
        StripPunct(u, a + b);
        == { assert (a + b)[0] == a[0]; assert (a + b)[1..] == a[1..] + b; }
        head + StripPunct(u, a[1..] + b);
        == { StripPunctAppend(u, a[1..], b); }
        head + (StripPunct(u, a[1..]) + StripPunct(u, b));
        ==
        (head + StripPunct(u, a[1..])) + StripPunct(u, b);
        ==
        StripPunct(u, a) + StripPunct(u, b);
      }
    }
  }

  lemma {:induction false} StripPunctOfKept(u: Unicode, s: string)
    requires forall i :: 0 <= i < |s| ==> Kept(u, s[i])
    ensures StripPunct(u, s) == s
  {
    if s != [] {
      StripPunctOfKept(u, s[1..]);
      assert s == [s[0]] + s[1..];
    }
  }

  /** Lowercasing and then stripping punctuation: the per-character part of both normalisers. */
  function Clean(u: Unicode, s: string): (r: string)
    ensures forall i :: 0 <= i < |r| ==> Kept(u, r[i])
  {
    StripPunct(u, Lower(u, s))
  }

  lemma CleanAppend(u: Unicode, a: string, b: string)
    ensures Clean(u, a + b) == Clean(u, a) + Clean(u, b)
  {
    LowerAppend(u, a, b);
    StripPunctAppend(u, Lower(u, a), Lower(u, b));
  }

  lemma CleanOfWhitespace(u: Unicode, s: string)
    requires WellFormed(u) && AllWhitespace(s)
    ensures Clean(u, s) == s
  {
    assert Lower(u, s) == s;
    StripPunctOfKept(u, s);
  }

  // -------------------------------------------------------- collapse \s+

  /** `s.replace(/\s+/g, " ")`: every maximal run of whitespace becomes one space. */
  function CollapseWhitespace(s: string): (r: string)
    ensures |r| == 0 <==> |s| == 0
    ensures |s| > 0 ==> (IsWhitespace(r[0]) <==> IsWhitespace(s[0]))
    ensures forall i :: 0 <= i < |r| && IsWhitespace(r[i]) ==> r[i] == ' '
    ensures forall i :: 0 <= i < |r| - 1 ==> !(IsWhitespace(r[i]) && IsWhitespace(r[i + 1]))
    decreases |s|
  {
    if s == [] then []
    else if IsWhitespace(s[0]) then [' '] + CollapseWhitespace(s[LeadingWs(s)..])
    else [s[0]] + CollapseWhitespace(s[1..])
  }

  /** Collapsing introduces no character but the space. */
  lemma {:induction false} CollapseChars(s: string, p: char -> bool)
    requires p(' ') && forall i :: 0 <= i < |s| ==> p(s[i])
    ensures forall i :: 0 <= i < |CollapseWhitespace(s)| ==> p(CollapseWhitespace(s)[i])
    decreases |s|
  {
    if s == [] {
    } else if IsWhitespace(s[0]) {
      CollapseChars(s[LeadingWs(s)..], p);
    } else {
      CollapseChars(s[1..], p);
    }
  }

  // --------------------------------------------------- split and filter

  /** `s.split(sep)` for a one-character separator, or for `/\s/` when `isSep` is `IsWhitespace`. */
  function Split(s: string, isSep: char -> bool): (r: seq<string>)
    ensures |r| >= 1
    decreases |s|
  {
    if s == [] then [[]]
    else
      var rest := Split(s[1..], isSep);
      if isSep(s[0]) then [[]] + rest else [[s[0]] + rest[0]] + rest[1..]
  }

  /** No field of a split contains the separator. */
  lemma {:induction false} SplitFields(s: string, isSep: char -> bool)
    ensures forall k, i :: 0 <= k < |Split(s, isSep)| && 0 <= i < |Split(s, isSep)[k]| ==> !isSep(Split(s, isSep)[k][i])
    decreases |s|
  {
    if s != [] {
      SplitFields(s[1..], isSep);
    }
  }

  /** `.filter(Boolean)` on a list of strings. */
  function NonEmpty(ws: seq<string>): seq<string> {
    if ws == [] then []
    else (if ws[0] == [] then [] else [ws[0]]) + NonEmpty(ws[1..])
  }

  /** The filter keeps exactly the non-empty entries, among those it was given. */
  lemma {:induction false} NonEmptyMembers(ws: seq<string>)
    ensures forall k :: 0 <= k < |NonEmpty(ws)| ==> NonEmpty(ws)[k] != [] && NonEmpty(ws)[k] in ws
  {
    if ws != [] {
      NonEmptyMembers(ws[1..]);
    }
  }

  /** The words of `s`: `s.split(/\s+/).filter(Boolean)`. */
  function Words(s: string): seq<string> {
    NonEmpty(Split(s, IsWhitespace))
  }

  /** Every word is non-empty and free of whitespace. */
  lemma WordsShape(s: string)
    ensures forall k :: 0 <= k < |Words(s)| ==> Words(s)[k] != []
    ensures forall k, i :: 0 <= k < |Words(s)| && 0 <= i < |Words(s)[k]| ==> !IsWhitespace(Words(s)[k][i])
  {
    SplitFields(s, IsWhitespace);
    NonEmptyMembers(Split(s, IsWhitespace));
  }

  /** `ws.join(" ")` */
  function Join(ws: seq<string>): string {
    if ws == [] then []
    else if |ws| == 1 then ws[0]
    else ws[0] + [' '] + Join(ws[1..])
  }

  // ------------------------------------------------------------- lemmas

  /** `Split` unfolded once, at the first character. */
  lemma SplitCons(c: char, s: string, isSep: char -> bool)
    ensures isSep(c) ==> Split([c] + s, isSep) == [[]] + Split(s, isSep)
    ensures !isSep(c) ==> Split([c] + s, isSep) == [[c] + Split(s, isSep)[0]] + Split(s, isSep)[1..]
  {
    assert ([c] + s)[1..] == s;
  }

  /** Splitting at a separator splits the string in two. */
  lemma {:induction false} SplitAt(a: string, c: char, b: string, isSep: char -> bool)
    requires isSep(c)
    ensures Split(a + [c] + b, isSep) == Split(a, isSep) + Split(b, isSep)
  {
    if a == [] {
      assert a + [c] + b == [c] + b;
      SplitCons(c, b, isSep);
    } else {
      SplitAt(a[1..], c, b, isSep);
      SplitAtStep(a[0], a[1..], c, b, isSep);
      assert a == [a[0]] + a[1..];
    }
  }

  /** The induction step of `SplitAt`: one more character in front. */
  lemma SplitAtStep(h: char, x: string, c: char, b: string, isSep: char -> bool)
    requires Split(x + [c] + b, isSep) == Split(x, isSep) + Split(b, isSep)
    ensures Split([h] + x + [c] + b, isSep) == Split([h] + x, isSep) + Split(b, isSep)
  {
    var rest := x + [c] + b;
    assert [h] + x + [c] + b == [h] + rest;
    SplitCons(h, rest, isSep);
    SplitCons(h, x, isSep);
    var sx, sb := Split(x, isSep), Split(b, isSep);
    if isSep(h) {
      assert [[]] + (sx + sb) == ([[]] + sx) + sb;
    } else {
      ConsField(h, sx, sb);
    }
  }

  /** Extending the first field of a list of fields commutes with appending more fields. */
  lemma ConsField(h: char, sx: seq<string>, sb: seq<string>)
    requires |sx| >= 1
    ensures [[h] + (sx + sb)[0]] + (sx + sb)[1..] == ([[h] + sx[0]] + sx[1..]) + sb
  {
    assert (sx + sb)[0] == sx[0];
    assert (sx + sb)[1..] == sx[1..] + sb;
  }

  /** A string without a separator is one field. */
  lemma {:induction false} SplitWithoutSeparator(w: string, isSep: char -> bool)
    requires forall i :: 0 <= i < |w| ==> !isSep(w[i])
    ensures Split(w, isSep) == [w]
  {
    if w != [] {
      SplitWithoutSeparator(w[1..], isSep);
      SplitCons(w[0], w[1..], isSep);
      assert [w[0]] + w[1..] == w;
    }
  }

  /** Two separator tests that agree on every character of `s` split it alike. */
  lemma {:induction false} SplitSameSeparators(s: string, isSep: char -> bool, isSep': char -> bool)
    requires forall i :: 0 <= i < |s| ==> isSep(s[i]) == isSep'(s[i])
    ensures Split(s, isSep) == Split(s, isSep')
  {
    if s != [] {
      SplitSameSeparators(s[1..], isSep, isSep');
    }
  }

  lemma NonEmptyCons(w: string, ws: seq<string>)
    ensures NonEmpty([w] + ws) == (if w == [] then [] else [w]) + NonEmpty(ws)
  {
    assert ([w] + ws)[1..] == ws;
  }

  lemma {:induction false} NonEmptyAppend(x: seq<string>, y: seq<string>)
    ensures NonEmpty(x + y) == NonEmpty(x) + NonEmpty(y)
  {
    if x == [] {
      assert x + y == y;
    } else {
      var head := if x[0] == [] then [] else [x[0]];
      calc {
        NonEmpty(x + y);
        == { assert x + y == [x[0]] + (x[1..] + y); NonEmptyCons(x[0], x[1..] + y); }
        head + NonEmpty(x[1..] + y);
        == { NonEmptyAppend(x[1..], y); }
        head + (NonEmpty(x[1..]) + NonEmpty(y));
        ==
        (head + NonEmpty(x[1..])) + NonEmpty(y);
        == { assert x == [x[0]] + x[1..]; NonEmptyCons(x[0], x[1..]); }
        NonEmpty(x) + NonEmpty(y);
      }
    }
  }

  /** Two lists whose filters agree and whose first entries agree also agree after the first entry. */
  lemma NonEmptyTail(x: seq<string>, y: seq<string>)
    requires |x| >= 1 && |y| >= 1 && x[0] == y[0] && NonEmpty(x) == NonEmpty(y)
    ensures NonEmpty(x[1..]) == NonEmpty(y[1..])
  {
    var head := if x[0] == [] then [] else [x[0]];
    assert x == [x[0]] + x[1..] && y == [y[0]] + y[1..];
    NonEmptyCons(x[0], x[1..]);
    NonEmptyCons(y[0], y[1..]);
    assert NonEmpty(x[1..]) == (head + NonEmpty(x[1..]))[|head|..];
    assert NonEmpty(y[1..]) == (head + NonEmpty(y[1..]))[|head|..];
  }

  lemma WordsEmpty()
    ensures Words([]) == []
  {
    assert Split([], IsWhitespace) == [[]];
    assert NonEmpty([[]]) == [] + NonEmpty([]);
  }

  /** A non-empty string without whitespace is a single word. */
  lemma WordsOfWord(w: string)
    requires w != [] && forall i :: 0 <= i < |w| ==> !IsWhitespace(w[i])
    ensures Words(w) == [w]
  {
    SplitWithoutSeparator(w, IsWhitespace);
    NonEmptyCons(w, []);
  }

  /** A whitespace character separates the words on either side of it. */
  lemma WordsAt(a: string, c: char, b: string)
    requires IsWhitespace(c)
    ensures Words(a + [c] + b) == Words(a) + Words(b)
  {
    SplitAt(a, c, b, IsWhitespace);
    NonEmptyAppend(Split(a, IsWhitespace), Split(b, IsWhitespace));
  }

  /** A second separator right after the first adds no word. */
  lemma WordsRepeatedSeparator(x: string, c: char, w: char, y: string)
    requires IsWhitespace(c) && IsWhitespace(w)
    ensures Words(x + [c] + [w] + y) == Words(x + [c] + y)
  {
    calc {
      Words(x + [c] + [w] + y);
      == { WordsAt(x + [c], w, y); }
      Words(x + [c]) + Words(y);
      == { WordsAt(x, c, []); assert x + [c] + [] == x + [c]; WordsEmpty(); }
      Words(x) + Words(y);
      == { WordsAt(x, c, y); }
      Words(x + [c] + y);
    }
  }

  lemma {:induction false} WordsWsPrefix(w: string, m: string)
    requires AllWhitespace(w)
    ensures Words(w + m) == Words(m)
  {
    if w == [] {
      assert w + m == m;
    } else {
      calc {
        Words(w + m);
        == { assert w + m == [] + [w[0]] + (w[1..] + m); WordsAt([], w[0], w[1..] + m); WordsEmpty(); }
        Words(w[1..] + m);
        == { WordsWsPrefix(w[1..], m); }
        Words(m);
      }
    }
  }

  lemma {:induction false} WordsWsSuffix(m: string, w: string)
    requires AllWhitespace(w)
    ensures Words(m + w) == Words(m)
  {
    if w == [] {
      assert m + w == m;
    } else {
      var v := w[..|w| - 1];
      calc {
        Words(m + w);
        == { assert m + w == (m + v) + [w[|w| - 1]] + []; WordsAt(m + v, w[|w| - 1], []); WordsEmpty(); }
        Words(m + v);
        == { WordsWsSuffix(m, v); }
        Words(m);
      }
    }
  }

  /** Whitespace on both sides of a string adds no word. */
  lemma WordsWsAround(a: string, m: string, b: string)
    requires AllWhitespace(a) && AllWhitespace(b)
    ensures Words(a + m + b) == Words(m)
  {
    assert a + m + b == a + (m + b);
    WordsWsPrefix(a, m + b);
    WordsWsSuffix(m, b);
  }

  lemma TrimWords(s: string)
    ensures Words(Trim(s)) == Words(s)
  {
    var a, b := TrimSplit(s);
    WordsWsAround(a, Trim(s), b);
  }

  /** Collapsing whitespace keeps the first field of the split and every word. */
  predicate CollapseKeepsWords(s: string) {
    && Split(CollapseWhitespace(s), IsWhitespace)[0] == Split(s, IsWhitespace)[0]
    && Words(CollapseWhitespace(s)) == Words(s)
  }

  lemma {:induction false} CollapseFields(s: string)
    ensures CollapseKeepsWords(s)
    decreases |s|
  {
    if s == [] {
    } else if IsWhitespace(s[0]) {
      var n := LeadingWs(s);
      CollapseFields(s[n..]);
      CollapseStepWs(s, n);
    } else {
      CollapseFields(s[1..]);
      CollapseStepChar(s);
    }
  }

  /** The induction step of `CollapseFields` at a run of whitespace. */
  lemma CollapseStepWs(s: string, n: nat)
    requires s != [] && IsWhitespace(s[0]) && n == LeadingWs(s) && CollapseKeepsWords(s[n..])
    ensures CollapseKeepsWords(s)
  {
    var d := s[n..];
    CollapseOfWsRun(s, n);
    SplitOfWsStart([' '] + CollapseWhitespace(d));
    SplitOfWsStart(s);
    WordsOfWsStart(' ', CollapseWhitespace(d));
    assert Words(s) == Words(d) by {
      assert s == s[..n] + d;
      WordsWsPrefix(s[..n], d);
    }
  }

  lemma CollapseOfWsRun(s: string, n: nat)
    requires s != [] && IsWhitespace(s[0]) && n == LeadingWs(s)
    ensures CollapseWhitespace(s) == [' '] + CollapseWhitespace(s[n..])
  {
  }

  /** A string that starts with a separator has an empty first field. */
  lemma SplitOfWsStart(s: string)
    requires s != [] && IsWhitespace(s[0])
    ensures Split(s, IsWhitespace)[0] == []
  {
  }

  lemma WordsOfWsStart(c: char, t: string)
    requires IsWhitespace(c)
    ensures Words([c] + t) == Words(t)
  {
    assert [c] + t == [] + [c] + t;
    WordsAt([], c, t);
    WordsEmpty();
  }

  /** The induction step of `CollapseFields` at a character that is not whitespace. */
  lemma CollapseStepChar(s: string)
    requires s != [] && !IsWhitespace(s[0]) && CollapseKeepsWords(s[1..])
    ensures CollapseKeepsWords(s)
  {
    var c, t := s[0], s[1..];
    var ct := CollapseWhitespace(t);
    var S, S' := Split(t, IsWhitespace), Split(ct, IsWhitespace);
    var head := [c] + S[0];
    assert s == [c] + t;
    assert CollapseWhitespace(s) == [c] + ct;
    SplitCons(c, t, IsWhitespace);
    SplitCons(c, ct, IsWhitespace);
    assert Split(s, IsWhitespace) == [head] + S[1..];
    assert Split(CollapseWhitespace(s), IsWhitespace) == [head] + S'[1..];
    NonEmptyTail(S, S');
    NonEmptyCons(head, S[1..]);
    NonEmptyCons(head, S'[1..]);
  }

  // --------------------------------------------------------- normal form

  /**
   * A string in normal form: no whitespace at either end, every whitespace
   * character a plain space, and no two of them side by side.
   */
  predicate Canonical(y: string) {
    && (y == [] || (!IsWhitespace(y[0]) && !IsWhitespace(y[|y| - 1])))
    && (forall i :: 0 <= i < |y| && IsWhitespace(y[i]) ==> y[i] == ' ')
    && (forall i :: 0 <= i < |y| - 1 ==> !(IsWhitespace(y[i]) && IsWhitespace(y[i + 1])))
  }

  /** Position of the first whitespace character of `y`, or `|y|` when there is none. */
  function FirstWs(y: string): (k: nat)
    ensures k <= |y|
    ensures forall i :: 0 <= i < k ==> !IsWhitespace(y[i])
    ensures k < |y| ==> IsWhitespace(y[k])
  {
    if y == [] || IsWhitespace(y[0]) then 0 else 1 + FirstWs(y[1..])
  }

  /** A suffix of a normal-form string that starts with a non-whitespace character is in normal form. */
  lemma CanonicalSuffix(y: string, j: nat)
    requires Canonical(y) && j < |y| && !IsWhitespace(y[j])
    ensures Canonical(y[j..])
  {
    var rest := y[j..];
    forall i | 0 <= i < |rest| ensures rest[i] == y[j + i] { }
  }

  /** A normal-form string with a space in it is a word, a space and a shorter normal-form string. */
  lemma CanonicalSplit(y: string, k: nat)
    requires Canonical(y) && k == FirstWs(y) < |y|
    ensures 0 < k < |y| - 1 && y[k] == ' '
    ensures Canonical(y[k + 1..])
  {
    assert !IsWhitespace(y[k + 1]) by {
      assert !(IsWhitespace(y[k]) && IsWhitespace(y[k + 1]));
    }
    CanonicalSuffix(y, k + 1);
  }

  /** A string in normal form is its words joined by single spaces. */
  lemma {:induction false} JoinWordsOfCanonical(y: string)
    requires Canonical(y)
    ensures Join(Words(y)) == y
    decreases |y|
  {
    var k := FirstWs(y);
    if y == [] {
      WordsEmpty();
    } else if k == |y| {
      WordsOfWord(y);
    } else {
      CanonicalSplit(y, k);
      var w, rest := y[..k], y[k + 1..];
      JoinWordsOfCanonical(rest);
      assert Words(rest) != [];
      calc {
        Join(Words(y));
        == { SliceAround(y, k); WordsAt(w, y[k], rest); WordsOfWord(w); }
        Join([w] + Words(rest));
        == { assert ([w] + Words(rest))[1..] == Words(rest); }
        w + [' '] + Join(Words(rest));
        == { SliceAround(y, k); }
        y;
      }
    }
  }
}
