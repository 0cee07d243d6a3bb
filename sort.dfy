/**
 * The sentence-ordering widget of components/sort-interface.tsx: the
 * sentences of a story are shown shuffled, the learner drags them into order,
 * and a check marks each position right or wrong.
 */
module Sort {
  import opened Common
  import opened TextOps
  import opened Shuffle

  /**
   * What `shuffleArray` returns when its draws come from `ds`: one pass, and
   * another from the next draws whenever a pass over more than one item left
   * the original order.  `None` when `ds` runs out first.
   */
  function Shuffled<T(==)>(s: seq<T>, ds: seq<real>): (r: Option<seq<T>>)
    requires IsDraws(ds)
    ensures r.Some? ==> |r.value| == |s| && multiset(r.value) == multiset(s)
    ensures r.Some? && |s| > 1 ==> r.value != s
    ensures |s| <= 1 ==> r == Some(s)
    decreases |ds|
  {
    var n := Passes(|s|);
    if |ds| < n then None
    else
      var t := FisherYates(s, ds[..n], n);
      FisherYatesPermutes(s, ds[..n], n);
      if t == s && |s| > 1 then Shuffled(s, ds[n..]) else Some(t)
  }

  /** `shuffleArray`: copy, shuffle in place, and start over while the order is unchanged. */
  method ShuffleArray<T(==)>(xs: seq<T>, ds: seq<real>) returns (r: Option<seq<T>>)
    requires IsDraws(ds)
    ensures r == Shuffled(xs, ds)
    decreases |ds|
  {
    var n := Passes(|xs|);
    if |ds| < n {
      return None;
    }
    var shuffled := new T[|xs|](i requires 0 <= i < |xs| => xs[i]);
    assert shuffled[..] == xs;
    assert IsDraws(ds[..n]);
    FisherYatesInPlace(shuffled, ds[..n]);
    assert shuffled[..] == FisherYates(xs, ds[..n], n);
    var isOriginalOrder := shuffled[..] == xs;
    if isOriginalOrder && |xs| > 1 {
      assert IsDraws(ds[n..]);
      r := ShuffleArray(xs, ds[n..]);
      return;
    }
    r := Some(shuffled[..]);
  }

  // ------------------------------------------------------------ the sentences

  const SAMPLE_SENTENCES: seq<string> := [
    "\U{0627}\U{0633}\U{062A}\U{064A}\U{0642}\U{0638} \U{0623}\U{062D}\U{0645}\U{062F} \U{0645}\U{0646} \U{0627}\U{0644}\U{0646}\U{0648}\U{0645} \U{0645}\U{0628}\U{0643}\U{0631}\U{064B}\U{0627}",
    "\U{062A}\U{0646}\U{0627}\U{0648}\U{0644} \U{0648}\U{062C}\U{0628}\U{0629} \U{0627}\U{0644}\U{0625}\U{0641}\U{0637}\U{0627}\U{0631} \U{0645}\U{0639} \U{0639}\U{0627}\U{0626}\U{0644}\U{062A}\U{0647}",
    "\U{0630}\U{0647}\U{0628} \U{0625}\U{0644}\U{0649} \U{0627}\U{0644}\U{0645}\U{062F}\U{0631}\U{0633}\U{0629} \U{0628}\U{0627}\U{0644}\U{062D}\U{0627}\U{0641}\U{0644}\U{0629}",
    "\U{062D}\U{0636}\U{0631} \U{062C}\U{0645}\U{064A}\U{0639} \U{0627}\U{0644}\U{062F}\U{0631}\U{0648}\U{0633} \U{0628}\U{0627}\U{0647}\U{062A}\U{0645}\U{0627}\U{0645}",
    "\U{0639}\U{0627}\U{062F} \U{0625}\U{0644}\U{0649} \U{0627}\U{0644}\U{0645}\U{0646}\U{0632}\U{0644} \U{0628}\U{0639}\U{062F} \U{0627}\U{0646}\U{062A}\U{0647}\U{0627}\U{0621} \U{0627}\U{0644}\U{064A}\U{0648}\U{0645} \U{0627}\U{0644}\U{062F}\U{0631}\U{0627}\U{0633}\U{064A}"
  ]

  /**
   * What `JSON.parse(rawSentences)` gave: an exception, a value that is not
   * an array, or an array whose elements `String` renders as `elems`.
   */
  datatype JsonOutcome = ParseError | NotArray | JsonArray(elems: seq<string>)

  predicate IsComma(c: char) { c == ',' }

  /** `s.trim()` of every part. */
  function TrimAll(parts: seq<string>): (r: seq<string>)
    ensures |r| == |parts|
    ensures forall k :: 0 <= k < |r| ==> r[k] == Trim(parts[k])
  {
    if parts == [] then [] else [Trim(parts[0])] + TrimAll(parts[1..])
  }

  /** `rawSentences.split(",").map((s) => s.trim()).filter(Boolean)` */
  function CommaParts(raw: string): seq<string> {
    NonEmpty(TrimAll(Split(raw, IsComma)))
  }

  /** `correctOrder`: the JSON array if it has more than one element, else on a parse error the comma-separated parts if more than one, else the samples. */
  function CanonicalOrder(rawSentences: Option<string>, json: JsonOutcome): (r: seq<string>)
    ensures |r| > 1
    ensures || r == SAMPLE_SENTENCES
            || (json.JsonArray? && r == json.elems)
            || (json.ParseError? && rawSentences.Some? && r == CommaParts(rawSentences.value))
    ensures rawSentences.None? || rawSentences.value == [] ==> r == SAMPLE_SENTENCES
    ensures rawSentences.Some? && rawSentences.value != [] && json.JsonArray? && |json.elems| > 1 ==> r == json.elems
    ensures json.JsonArray? && |json.elems| <= 1 ==> r == SAMPLE_SENTENCES
    ensures json.NotArray? ==> r == SAMPLE_SENTENCES
    ensures rawSentences.Some? && rawSentences.value != [] && json.ParseError? ==>
      r == (if |CommaParts(rawSentences.value)| > 1 then CommaParts(rawSentences.value) else SAMPLE_SENTENCES)
  {
    if rawSentences.Some? && rawSentences.value != [] then
      if json.JsonArray? && |json.elems| > 1 then json.elems
      else if json.ParseError? && |CommaParts(rawSentences.value)| > 1 then CommaParts(rawSentences.value)
      else SAMPLE_SENTENCES
    else SAMPLE_SENTENCES
  }

  /** There are always at least two sentences to order. */
  lemma CanonicalOrderLength(rawSentences: Option<string>, json: JsonOutcome)
    ensures |CanonicalOrder(rawSentences, json)| > 1
    ensures rawSentences.None? || rawSentences.value == [] ==> CanonicalOrder(rawSentences, json) == SAMPLE_SENTENCES
    ensures json.NotArray? ==> CanonicalOrder(rawSentences, json) == SAMPLE_SENTENCES
  {
  }

  predicate CommaFree(p: string) {
    forall i :: 0 <= i < |p| ==> p[i] != ','
  }

  /** A sentence of the comma fallback: non-empty, comma-free, no whitespace at either end. */
  predicate CleanPart(p: string) {
    p != [] && !IsWhitespace(p[0]) && !IsWhitespace(p[|p| - 1]) && CommaFree(p)
  }

  /** A comma-free field that does not trim to nothing trims to a clean part. */
  lemma TrimCommaFree(f: string)
    requires CommaFree(f) && Trim(f) != []
    ensures CleanPart(Trim(f))
  {
    TrimChars(f, c => c != ',');
  }

  /** The comma fallback gives non-empty parts without a comma and without whitespace at either end. */
  lemma CommaPartsShape(raw: string)
    ensures forall k :: 0 <= k < |CommaParts(raw)| ==> CleanPart(CommaParts(raw)[k])
  {
    var fields := Split(raw, IsComma);
    var trimmed := TrimAll(fields);
    var parts := CommaParts(raw);
    assert parts == NonEmpty(trimmed);
    SplitFields(raw, IsComma);
    NonEmptyMembers(trimmed);
    forall k | 0 <= k < |parts|
      ensures CleanPart(parts[k])
    {
      var m :| 0 <= m < |trimmed| && trimmed[m] == parts[k];
      assert CommaFree(fields[m]);
      TrimCommaFree(fields[m]);
    }
  }

  /** `parts.join(",")` */
  function JoinComma(parts: seq<string>): string
    requires parts != []
  {
    if |parts| == 1 then parts[0] else parts[0] + [','] + JoinComma(parts[1..])
  }

  lemma {:induction false} SplitJoinComma(parts: seq<string>)
    requires parts != [] && forall k, i :: 0 <= k < |parts| && 0 <= i < |parts[k]| ==> parts[k][i] != ','
    ensures Split(JoinComma(parts), IsComma) == parts
  {
    SplitWithoutSeparator(parts[0], IsComma);
    if |parts| > 1 {
      SplitJoinComma(parts[1..]);
      SplitAt(parts[0], ',', JoinComma(parts[1..]), IsComma);
    }
  }

  lemma {:induction false} NonEmptyOfNonEmpty(ws: seq<string>)
    requires forall k :: 0 <= k < |ws| ==> ws[k] != []
    ensures NonEmpty(ws) == ws
  {
    if ws != [] {
      NonEmptyOfNonEmpty(ws[1..]);
      NonEmptyCons(ws[0], ws[1..]);
      assert [ws[0]] + ws[1..] == ws;
    }
  }

  /**
   * A comma-separated list of two or more sentences that is not valid JSON
   * comes back as those sentences, provided each is non-empty, comma-free
   * and has no whitespace at its ends.
   */
  lemma CommaListRoundTrip(parts: seq<string>)
    requires |parts| > 1
    requires forall k :: 0 <= k < |parts| ==> parts[k] != [] && !IsWhitespace(parts[k][0]) && !IsWhitespace(parts[k][|parts[k]| - 1])
    requires forall k, i :: 0 <= k < |parts| && 0 <= i < |parts[k]| ==> parts[k][i] != ','
    ensures CanonicalOrder(Some(JoinComma(parts)), ParseError) == parts
  {
    CommaPartsOfJoin(parts);
  }

  /** The comma split of a comma-joined list of clean sentences gives the list back. */
  lemma CommaPartsOfJoin(parts: seq<string>)
    requires |parts| > 1
    requires forall k :: 0 <= k < |parts| ==> parts[k] != [] && !IsWhitespace(parts[k][0]) && !IsWhitespace(parts[k][|parts[k]| - 1])
    requires forall k, i :: 0 <= k < |parts| && 0 <= i < |parts[k]| ==> parts[k][i] != ','
    ensures CommaParts(JoinComma(parts)) == parts && JoinComma(parts) != []
  {
    SplitJoinComma(parts);
    forall k | 0 <= k < |parts| ensures Trim(parts[k]) == parts[k] {
      TrimOfTrimmed(parts[k]);
    }
    assert TrimAll(parts) == parts;
    NonEmptyOfNonEmpty(parts);
    assert JoinComma(parts) != [] by { assert |JoinComma(parts)| >= |parts[0]|; }
  }

  // ------------------------------------------------------------ the items

  datatype SortItem = SortItem(id: string, text: string, correctIndex: nat)

  /** `item-${index}` */
  function ItemId(i: nat): string {
    "item-" + Decimal(i)
  }

  lemma ItemIdInjective(a: nat, b: nat)
    requires ItemId(a) == ItemId(b)
    ensures a == b
  {
    assert Decimal(a) == ItemId(a)[5..];
    assert Decimal(b) == ItemId(b)[5..];
    DecimalInjective(a, b);
  }

  /** `correctOrder.map((text, index) => ({ id: `item-${index}`, text, correctIndex: index }))` */
  function BuildItems(order: seq<string>): seq<SortItem> {
    seq(|order|, i requires 0 <= i < |order| => SortItem(ItemId(i), order[i], i))
  }

  /** No two items share an id. */
  predicate DistinctIds(items: seq<SortItem>) {
    forall i, j :: 0 <= i < j < |items| ==> items[i].id != items[j].id
  }

  /** Built items carry distinct ids, and each knows its own place. */
  lemma BuildItemsMeaning(order: seq<string>)
    ensures |BuildItems(order)| == |order| && DistinctIds(BuildItems(order))
    ensures forall i :: 0 <= i < |order| ==> BuildItems(order)[i].correctIndex == i && BuildItems(order)[i].text == order[i]
  {
    var items := BuildItems(order);
    forall i, j | 0 <= i < j < |items| ensures items[i].id != items[j].id {
      if items[i].id == items[j].id {
        ItemIdInjective(i, j);
      }
    }
  }

  // ------------------------------------------------------------ moving

  /** `items.findIndex((item) => item.id === id)` for an id that is present. */
  function IndexOf(items: seq<SortItem>, id: string): (k: nat)
    requires exists i :: 0 <= i < |items| && items[i].id == id
    ensures k < |items| && items[k].id == id
    ensures forall i :: 0 <= i < k ==> items[i].id != id
  {
    if items[0].id == id then 0
    else
      assert exists i :: 0 <= i < |items[1..]| && items[1..][i].id == id by {
        var i :| 0 <= i < |items| && items[i].id == id;
        assert items[1..][i - 1].id == id;
      }
      1 + IndexOf(items[1..], id)
  }

  /** `arrayMove(xs, from, to)`: take the element at `from` out and put it back in at `to`. */
  function ArrayMove<T>(xs: seq<T>, from: nat, to: nat): (r: seq<T>)
    requires from < |xs| && to < |xs|
    ensures |r| == |xs| && r[to] == xs[from]
  {
    var rest := xs[..from] + xs[from + 1..];
    rest[..to] + [xs[from]] + rest[to..]
  }

  /**
   * Moving keeps every element (a permutation), leaves the others in their
   * relative order, and moving back from `to` to `from` restores the list.
   */
  lemma ArrayMoveMeaning<T>(xs: seq<T>, from: nat, to: nat)
    requires from < |xs| && to < |xs|
    ensures multiset(ArrayMove(xs, from, to)) == multiset(xs)
    ensures var r := ArrayMove(xs, from, to); r[..to] + r[to + 1..] == xs[..from] + xs[from + 1..]
    ensures ArrayMove(ArrayMove(xs, from, to), to, from) == xs
  {
    var x := xs[from];
    var rest := xs[..from] + xs[from + 1..];
    var r := ArrayMove(xs, from, to);
    assert r[..to] == rest[..to];
    assert r[to + 1..] == rest[to..];
    assert rest[..to] + rest[to..] == rest;
    assert xs == xs[..from] + [x] + xs[from + 1..];
    calc {
      multiset(r);
      multiset(rest[..to]) + multiset{x} + multiset(rest[to..]);
      multiset(rest) + multiset{x};
      multiset(xs[..from]) + multiset(xs[from + 1..]) + multiset{x};
      multiset(xs);
    }
    assert r[..to] + r[to + 1..] == rest;
    assert rest[..from] + [x] + rest[from..] == xs by {
      assert rest[..from] == xs[..from];
      assert rest[from..] == xs[from + 1..];
    }
  }

  // ------------------------------------------------------------ checking

  /** `items.map((item, index) => item.correctIndex === index)` */
  function CheckResults(items: seq<SortItem>): (r: seq<bool>)
    ensures |r| == |items|
    ensures forall i :: 0 <= i < |items| ==> (r[i] <==> items[i].correctIndex == i)
  {
    seq(|items|, i requires 0 <= i < |items| => items[i].correctIndex == i)
  }

  /**
   * For any arrangement of the built items, every position is right exactly
   * when the arrangement is the canonical order itself.
   */
  lemma AllRightMeansCanonical(order: seq<string>, items: seq<SortItem>)
    requires multiset(items) == multiset(BuildItems(order))
    ensures (forall i :: 0 <= i < |items| ==> CheckResults(items)[i]) <==> items == BuildItems(order)
  {
    var built := BuildItems(order);
    assert |items| == |built| by {
      assert |multiset(items)| == |items| && |multiset(built)| == |built|;
    }
    if forall i :: 0 <= i < |items| ==> CheckResults(items)[i] {
      forall i | 0 <= i < |items| ensures items[i] == built[i] {
        assert CheckResults(items)[i];
        assert items[i] in multiset(built);
        assert items[i] in built;
        var m :| 0 <= m < |built| && built[m] == items[i];
        assert built[m].correctIndex == m;
      }
    }
  }

  /** A freshly shuffled list of two or more sentences is never already solved. */
  lemma FreshShuffleUnsolved(order: seq<string>, ds: seq<real>)
    requires IsDraws(ds) && |order| > 1 && Shuffled(BuildItems(order), ds).Some?
    ensures CountTrue(CheckResults(Shuffled(BuildItems(order), ds).value)) < |order|
  {
    var items := Shuffled(BuildItems(order), ds).value;
    AllRightMeansCanonical(order, items);
    CountTrueAll(CheckResults(items));
  }

  // ------------------------------------------------------------ the widget

  class SortWidget {
    const correctOrder: seq<string>
    var items: seq<SortItem>
    var hasChecked: bool
    var results: seq<bool>

    /** The items are an arrangement of the built items. */
    predicate Valid()
      reads this
    {
      multiset(items) == multiset(BuildItems(correctOrder))
    }

    constructor (rawSentences: Option<string>, json: JsonOutcome, ds: seq<real>)
      requires IsDraws(ds) && Shuffled(BuildItems(CanonicalOrder(rawSentences, json)), ds).Some?
      ensures correctOrder == CanonicalOrder(rawSentences, json)
      ensures items == Shuffled(BuildItems(correctOrder), ds).value
      ensures !hasChecked && results == []
      ensures Valid()
    {
      var order := CanonicalOrder(rawSentences, json);
      var shuffled := ShuffleArray(BuildItems(order), ds);
      correctOrder := order;
      items := shuffled.value;
      hasChecked := false;
      results := [];
    }

    /** `isAllCorrect` */
    predicate IsAllCorrect()
      reads this
    {
      hasChecked && forall i :: 0 <= i < |results| ==> results[i]
    }

    /** `correctCount` */
    function CorrectCount(): (n: nat)
      reads this
      ensures n <= |results|
    {
      CountTrue(results)
    }

    /** `handleDragEnd`: no target, or a drop on itself, changes nothing; otherwise the dragged item moves to the target's place. */
    method DragEnd(active: string, over: Option<string>)
      requires Valid() && !hasChecked
      requires exists i :: 0 <= i < |items| && items[i].id == active
      requires over.Some? ==> exists i :: 0 <= i < |items| && items[i].id == over.value
      modifies this
      ensures Valid()
      ensures hasChecked == old(hasChecked) && results == old(results)
      ensures over.None? || over.value == active ==> items == old(items)
      ensures over.Some? && over.value != active ==>
        items == ArrayMove(old(items), IndexOf(old(items), active), IndexOf(old(items), over.value))
    {
      if over.Some? && active != over.value {
        var oldIndex := IndexOf(items, active);
        var newIndex := IndexOf(items, over.value);
        var moved := ArrayMove(items, oldIndex, newIndex);
        assert multiset(moved) == multiset(items) by {
          ArrayMoveMeaning(items, oldIndex, newIndex);
        }
        items := moved;
      }
    }

    /** `handleCheck` */
    method Check()
      requires Valid()
      modifies this
      ensures Valid()
      ensures items == old(items) && hasChecked
      ensures results == CheckResults(items)
    {
      results := CheckResults(items);
      hasChecked := true;
    }

    /** `handleRetry`: a new shuffle of the canonical order, unchecked. */
    method Retry(ds: seq<real>)
      requires IsDraws(ds) && Shuffled(BuildItems(correctOrder), ds).Some?
      modifies this
      ensures items == Shuffled(BuildItems(correctOrder), ds).value
      ensures !hasChecked && results == []
      ensures Valid()
    {
      var shuffled := ShuffleArray(BuildItems(correctOrder), ds);
      items := shuffled.value;
      hasChecked := false;
      results := [];
    }
  }
}
