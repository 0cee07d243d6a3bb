/**
 * The word-matching widget: two columns of words, the left word and the
 * right word of each pair shuffled independently; the learner clicks one
 * word in each column and the widget tells whether they belong together.
 *
 * The whole board is the value `Board`; one click is the function `Step`,
 * the delayed reset of a wrong attempt is `Revert`. The class `MatchBoard`
 * holds the same state in fields and updates it as the event handlers do.
 */
module Match {
  import opened Common
  import opened Shuffle

  // ------------------------------------------------------------------ data

  datatype Pair = Pair(left: string, right: string)
  datatype Column = Left | Right
  datatype MatchState = Idle | Selected | Correct | Incorrect

  datatype WordItem = WordItem(id: string, text: string, pairId: string, state: MatchState, column: Column)

  const SAMPLE_PAIRS: seq<Pair> := [
    Pair("apple", "\U{062A}\U{0641}\U{0627}\U{062D}\U{0629}"),
    Pair("book", "\U{0643}\U{062A}\U{0627}\U{0628}"),
    Pair("sun", "\U{0634}\U{0645}\U{0633}"),
    Pair("water", "\U{0645}\U{0627}\U{0621}"),
    Pair("house", "\U{0628}\U{064A}\U{062A}")
  ]

  /** `content.pairs ?? SAMPLE_PAIRS`: only a missing list falls back, an empty one is kept. */
  function PairsOf(content: Option<seq<Pair>>): (pairs: seq<Pair>)
    ensures content.Some? ==> pairs == content.value
    ensures content.None? ==> pairs == SAMPLE_PAIRS && |pairs| == 5
  {
    if content.Some? then content.value else SAMPLE_PAIRS
  }

  function IdOf(w: WordItem): string { w.id }
  function PairIdOf(w: WordItem): string { w.pairId }

  /** The left word of pair `i` is `left-i`, carries pair id `i`, and starts idle. */
  function LeftItems(pairs: seq<Pair>): (ws: seq<WordItem>)
    ensures |ws| == |pairs|
  {
    seq(|pairs|, i requires 0 <= i < |pairs| => WordItem("left-" + Decimal(i), pairs[i].left, Decimal(i), Idle, Left))
  }

  function RightItems(pairs: seq<Pair>): (ws: seq<WordItem>)
    ensures |ws| == |pairs|
  {
    seq(|pairs|, i requires 0 <= i < |pairs| => WordItem("right-" + Decimal(i), pairs[i].right, Decimal(i), Idle, Right))
  }

  /** The pair ids `0`, ..., `n-1`. */
  function Numbers(n: nat): set<string> {
    set i | 0 <= i < n :: Decimal(i)
  }

  /** The pair ids present in a column. */
  function PairIds(ws: seq<WordItem>): set<string> {
    set i | 0 <= i < |ws| :: ws[i].pairId
  }

  // ----------------------------------------------------------- the board

  datatype Board = Board(
    left: seq<WordItem>,
    right: seq<WordItem>,
    selected: Option<WordItem>,
    completed: set<string>,
    incorrectCount: nat)

  function Col(b: Board, c: Column): seq<WordItem> {
    if c == Left then b.left else b.right
  }

  function WithCol(b: Board, c: Column, ws: seq<WordItem>): Board {
    if c == Left then b.(left := ws) else b.(right := ws)
  }

  /** Every item with identifier `id` takes state `st`. */
  function SetState(ws: seq<WordItem>, id: string, st: MatchState): (r: seq<WordItem>)
    ensures SameItems(ws, r)
    ensures forall i :: 0 <= i < |ws| ==> r[i].state == (if ws[i].id == id then st else ws[i].state)
  {
    seq(|ws|, i requires 0 <= i < |ws| => if ws[i].id == id then ws[i].(state := st) else ws[i])
  }

  /** Selection moves from `oldId` to `newId` within one column. */
  function Switch(ws: seq<WordItem>, newId: string, oldId: string): (r: seq<WordItem>)
    ensures SameItems(ws, r)
    ensures forall i :: 0 <= i < |ws| ==>
      r[i].state == (if ws[i].id == newId then Selected else if ws[i].id == oldId then Idle else ws[i].state)
  {
    seq(|ws|, i requires 0 <= i < |ws| =>
      if ws[i].id == newId then ws[i].(state := Selected)
      else if ws[i].id == oldId then ws[i].(state := Idle)
      else ws[i])
  }

  /** Every item of pair `p` becomes correct. */
  function MarkPair(ws: seq<WordItem>, p: string): (r: seq<WordItem>)
    ensures SameItems(ws, r)
    ensures forall i :: 0 <= i < |ws| ==> r[i].state == (if ws[i].pairId == p then Correct else ws[i].state)
  {
    seq(|ws|, i requires 0 <= i < |ws| => if ws[i].pairId == p then ws[i].(state := Correct) else ws[i])
  }

  /** The items `a` and `c` go back to idle, if they are still marked incorrect. */
  function RevertIds(ws: seq<WordItem>, a: string, c: string): (r: seq<WordItem>)
    ensures SameItems(ws, r)
    ensures forall i :: 0 <= i < |ws| ==>
      r[i].state == (if (ws[i].id == a || ws[i].id == c) && ws[i].state == Incorrect then Idle else ws[i].state)
  {
    seq(|ws|, i requires 0 <= i < |ws| =>
      if (ws[i].id == a || ws[i].id == c) && ws[i].state == Incorrect then ws[i].(state := Idle) else ws[i])
  }

  /** `vs` holds the items of `ws`, in the same order, with at most their states changed. */
  predicate SameItems(ws: seq<WordItem>, vs: seq<WordItem>) {
    |vs| == |ws| && forall i :: 0 <= i < |ws| ==> vs[i] == ws[i].(state := vs[i].state)
  }

  /** One click on `w`, the item as the learner saw it; the columns keep their items and order. */
  function Step(b: Board, w: WordItem): (r: Board)
    ensures SameItems(b.left, r.left) && SameItems(b.right, r.right)
  {
    if w.pairId in b.completed then b
    else if b.selected.None? then
      WithCol(b, w.column, SetState(Col(b, w.column), w.id, Selected)).(selected := Some(w))
    else
      var s := b.selected.value;
      if s.id == w.id then
        WithCol(b, w.column, SetState(Col(b, w.column), w.id, Idle)).(selected := None)
      else if s.column == w.column then
        WithCol(b, w.column, Switch(Col(b, w.column), w.id, s.id)).(selected := Some(w))
      else if s.pairId == w.pairId then
        b.(left := MarkPair(b.left, w.pairId), right := MarkPair(b.right, w.pairId),
           completed := b.completed + {w.pairId}, selected := None)
      else
        var b1 := WithCol(b, s.column, SetState(Col(b, s.column), s.id, Incorrect));
        var b2 := WithCol(b1, w.column, SetState(Col(b1, w.column), w.id, Incorrect));
        b2.(selected := None, incorrectCount := b.incorrectCount + 1)
  }

  /** The reset that follows a wrong attempt between `a` and `c`. */
  function Revert(b: Board, a: string, c: string): (r: Board)
    ensures SameItems(b.left, r.left) && SameItems(b.right, r.right)
    ensures forall i :: 0 <= i < |b.left| ==>
      r.left[i].state == (if (b.left[i].id == a || b.left[i].id == c) && b.left[i].state == Incorrect then Idle else b.left[i].state)
    ensures forall i :: 0 <= i < |b.right| ==>
      r.right[i].state == (if (b.right[i].id == a || b.right[i].id == c) && b.right[i].state == Incorrect then Idle else b.right[i].state)
    ensures r.selected == b.selected && r.completed == b.completed && r.incorrectCount == b.incorrectCount
  {
    b.(left := RevertIds(b.left, a, c), right := RevertIds(b.right, a, c))
  }

  // ------------------------------------------------------ the invariant

  predicate InColumn(ws: seq<WordItem>, c: Column) {
    forall i :: 0 <= i < |ws| ==> ws[i].column == c
  }

  /** The board's layout: two columns of equal length over the same pairs, all ids distinct. */
  predicate Shape(b: Board) {
    && |b.left| == |b.right|
    && InColumn(b.left, Left) && InColumn(b.right, Right)
    && DistinctBy(b.left, IdOf) && DistinctBy(b.right, IdOf)
    && DistinctBy(b.left, PairIdOf) && DistinctBy(b.right, PairIdOf)
    && (forall i, j :: 0 <= i < |b.left| && 0 <= j < |b.right| ==> b.left[i].id != b.right[j].id)
    && PairIds(b.left) == PairIds(b.right)
  }

  /** An item shows correct exactly when its pair has been matched. */
  predicate CorrectIff(ws: seq<WordItem>, done: set<string>) {
    forall i :: 0 <= i < |ws| ==> (ws[i].state == Correct <==> ws[i].pairId in done)
  }

  /** An item shows selected exactly when it is the remembered selection. */
  predicate SelectedIff(ws: seq<WordItem>, sel: Option<WordItem>) {
    forall i :: 0 <= i < |ws| ==>
      (ws[i].state == Selected <==> sel.Some? && sel.value.column == ws[i].column && sel.value.id == ws[i].id)
  }

  predicate Inv(b: Board) {
    && Shape(b)
    && b.completed <= PairIds(b.left)
    && CorrectIff(b.left, b.completed) && CorrectIff(b.right, b.completed)
    && SelectedIff(b.left, b.selected) && SelectedIff(b.right, b.selected)
    && (b.selected.Some? ==> b.selected.value.(state := Selected) in Col(b, b.selected.value.column))
  }

  /** `w` is one of the items on the board. */
  predicate OnBoard(b: Board, w: WordItem) {
    w in b.left || w in b.right
  }

  // ------------------------------------------------------ initial board

  /** The board right after the pairs are loaded: both columns shuffled, nothing chosen. */
  function Initial(pairs: seq<Pair>, dsLeft: seq<real>, dsRight: seq<real>): (b: Board)
    requires IsDraws(dsLeft) && IsDraws(dsRight)
    requires |dsLeft| == Passes(|pairs|) && |dsRight| == Passes(|pairs|)
    ensures multiset(b.left) == multiset(LeftItems(pairs))
    ensures multiset(b.right) == multiset(RightItems(pairs))
  {
    FisherYatesPermutes(LeftItems(pairs), dsLeft, Passes(|pairs|));
    FisherYatesPermutes(RightItems(pairs), dsRight, Passes(|pairs|));
    Board(FisherYates(LeftItems(pairs), dsLeft, Passes(|pairs|)),
          FisherYates(RightItems(pairs), dsRight, Passes(|pairs|)), None, {}, 0)
  }

  lemma LeftItemsDistinct(pairs: seq<Pair>)
    ensures DistinctBy(LeftItems(pairs), IdOf) && DistinctBy(LeftItems(pairs), PairIdOf)
  {
    var ws := LeftItems(pairs);
    forall i, j | 0 <= i < j < |ws| ensures IdOf(ws[i]) != IdOf(ws[j]) && PairIdOf(ws[i]) != PairIdOf(ws[j]) {
      if Decimal(i) == Decimal(j) {
        DecimalInjective(i, j);
      }
      assert ws[i].id[5..] == Decimal(i) && ws[j].id[5..] == Decimal(j);
    }
  }

  lemma RightItemsDistinct(pairs: seq<Pair>)
    ensures DistinctBy(RightItems(pairs), IdOf) && DistinctBy(RightItems(pairs), PairIdOf)
  {
    var ws := RightItems(pairs);
    forall i, j | 0 <= i < j < |ws| ensures IdOf(ws[i]) != IdOf(ws[j]) && PairIdOf(ws[i]) != PairIdOf(ws[j]) {
      if Decimal(i) == Decimal(j) {
        DecimalInjective(i, j);
      }
      assert ws[i].id[6..] == Decimal(i) && ws[j].id[6..] == Decimal(j);
    }
  }

  /** Rearranging a column keeps the set of pair ids it covers. */
  lemma PermutationPairIds(s: seq<WordItem>, r: seq<WordItem>)
    requires multiset(r) == multiset(s)
    ensures PairIds(r) == PairIds(s)
  {
    forall p | p in PairIds(r) ensures p in PairIds(s) {
      var i :| 0 <= i < |r| && r[i].pairId == p;
      assert r[i] in multiset(s);
      var j :| 0 <= j < |s| && s[j] == r[i];
    }
    forall p | p in PairIds(s) ensures p in PairIds(r) {
      var i :| 0 <= i < |s| && s[i].pairId == p;
      assert s[i] in multiset(r);
      var j :| 0 <= j < |r| && r[j] == s[i];
    }
  }

  /** A rearranged fresh column still holds idle items of that column, tagged by `tag`. */
  lemma InitialColumn(items: seq<WordItem>, r: seq<WordItem>, c: Column, tag: char)
    requires multiset(r) == multiset(items)
    requires forall i :: 0 <= i < |items| ==>
      items[i].column == c && items[i].state == Idle && |items[i].id| > 0 && items[i].id[0] == tag
    ensures forall i :: 0 <= i < |r| ==> r[i].column == c && r[i].state == Idle && |r[i].id| > 0 && r[i].id[0] == tag
  {
    forall i | 0 <= i < |r| ensures r[i].column == c && r[i].state == Idle && |r[i].id| > 0 && r[i].id[0] == tag {
      assert r[i] in multiset(items);
      var j :| 0 <= j < |items| && items[j] == r[i];
    }
  }

  lemma ItemsPairIds(ws: seq<WordItem>)
    requires forall i :: 0 <= i < |ws| ==> ws[i].pairId == Decimal(i)
    ensures PairIds(ws) == Numbers(|ws|)
  {
    var numbers := Numbers(|ws|);
    forall p | p in PairIds(ws) ensures p in numbers {
      var i :| 0 <= i < |ws| && ws[i].pairId == p;
    }
    forall p | p in numbers ensures p in PairIds(ws) {
      var i :| 0 <= i < |ws| && Decimal(i) == p;
      assert ws[i].pairId == p;
    }
  }

  /** No left identifier is a right identifier, as their first letters differ. */
  lemma TaggedDisjoint(ls: seq<WordItem>, rs: seq<WordItem>)
    requires forall i :: 0 <= i < |ls| ==> |ls[i].id| > 0 && ls[i].id[0] == 'l'
    requires forall j :: 0 <= j < |rs| ==> |rs[j].id| > 0 && rs[j].id[0] == 'r'
    ensures forall i, j :: 0 <= i < |ls| && 0 <= j < |rs| ==> ls[i].id != rs[j].id
  {
    forall i, j | 0 <= i < |ls| && 0 <= j < |rs| ensures ls[i].id != rs[j].id {
      assert ls[i].id[0] != rs[j].id[0];
    }
  }

  /** Any rearrangement of the fresh columns has the board's layout. */
  lemma InitialShape(pairs: seq<Pair>, l: seq<WordItem>, r: seq<WordItem>)
    requires multiset(l) == multiset(LeftItems(pairs)) && multiset(r) == multiset(RightItems(pairs))
    ensures Shape(Board(l, r, None, {}, 0))
    ensures PairIds(l) == Numbers(|pairs|)
    ensures forall i :: 0 <= i < |l| ==> l[i].state == Idle
    ensures forall i :: 0 <= i < |r| ==> r[i].state == Idle
  {
    var ls, rs := LeftItems(pairs), RightItems(pairs);
    LeftItemsDistinct(pairs);
    RightItemsDistinct(pairs);
    PermutationDistinct(ls, l, IdOf);
    PermutationDistinct(ls, l, PairIdOf);
    PermutationDistinct(rs, r, IdOf);
    PermutationDistinct(rs, r, PairIdOf);
    PermutationPairIds(ls, l);
    PermutationPairIds(rs, r);
    ItemsPairIds(ls);
    ItemsPairIds(rs);
    InitialColumn(ls, l, Left, 'l');
    InitialColumn(rs, r, Right, 'r');
    TaggedDisjoint(l, r);
    assert |l| == |multiset(l)| == |ls| == |rs| == |multiset(r)| == |r|;
  }

  /**
   * The freshly loaded board keeps the invariant: each column holds one idle
   * item per pair, nothing is selected and nothing is matched yet.
   */
  lemma InitialInv(pairs: seq<Pair>, dsLeft: seq<real>, dsRight: seq<real>)
    requires IsDraws(dsLeft) && IsDraws(dsRight)
    requires |dsLeft| == Passes(|pairs|) && |dsRight| == Passes(|pairs|)
    ensures Inv(Initial(pairs, dsLeft, dsRight))
    ensures |Initial(pairs, dsLeft, dsRight).left| == |pairs|
    ensures PairIds(Initial(pairs, dsLeft, dsRight).left) == Numbers(|pairs|)
    ensures var b := Initial(pairs, dsLeft, dsRight);
      && (forall i :: 0 <= i < |b.left| ==> b.left[i].state == Idle)
      && (forall i :: 0 <= i < |b.right| ==> b.right[i].state == Idle)
      && b.selected == None && b.completed == {} && b.incorrectCount == 0
  {
    var b := Initial(pairs, dsLeft, dsRight);
    InitialShape(pairs, b.left, b.right);
  }

  // ---------------------------------------------- the click keeps Inv

  lemma SameItemsShape(b: Board, b': Board)
    requires Shape(b) && SameItems(b.left, b'.left) && SameItems(b.right, b'.right)
    ensures Shape(b')
    ensures PairIds(b'.left) == PairIds(b.left)
  {
    assert forall i :: 0 <= i < |b.left| ==> b'.left[i].pairId == b.left[i].pairId;
    assert forall i :: 0 <= i < |b.right| ==> b'.right[i].pairId == b.right[i].pairId;
    assert PairIds(b'.left) == PairIds(b.left);
    assert PairIds(b'.right) == PairIds(b.right);
  }

  /** The item clicked sits in its own column. */
  lemma OnBoardColumn(b: Board, w: WordItem)
    requires Shape(b) && OnBoard(b, w)
    ensures w in Col(b, w.column)
  {
    if w in b.left {
      var i :| 0 <= i < |b.left| && b.left[i] == w;
    } else {
      var i :| 0 <= i < |b.right| && b.right[i] == w;
    }
  }

  /** Within a column, the item with the identifier of `w` is `w` up to its state. */
  lemma FindItem(ws: seq<WordItem>, w: WordItem) returns (k: nat)
    requires DistinctBy(ws, IdOf) && w in ws
    ensures k < |ws| && ws[k] == w
    ensures forall i :: 0 <= i < |ws| && ws[i].id == w.id ==> i == k
  {
    k :| 0 <= k < |ws| && ws[k] == w;
    forall i | 0 <= i < |ws| && i != k ensures ws[i].id != w.id {
      if i < k {
        assert IdOf(ws[i]) != IdOf(ws[k]);
      } else {
        assert IdOf(ws[k]) != IdOf(ws[i]);
      }
    }
  }

  lemma StepSelectInv(b: Board, w: WordItem)
    requires Inv(b) && OnBoard(b, w) && w.pairId !in b.completed && b.selected.None?
    ensures Inv(Step(b, w))
  {
    var b' := Step(b, w);
    OnBoardColumn(b, w);
    var k := FindItem(Col(b, w.column), w);
    SameItemsShape(b, b');
    assert Col(b', w.column)[k] == w.(state := Selected);
  }

  lemma StepDeselectInv(b: Board, w: WordItem)
    requires Inv(b) && OnBoard(b, w) && w.pairId !in b.completed
    requires b.selected.Some? && b.selected.value.id == w.id
    ensures Inv(Step(b, w))
  {
    var b' := Step(b, w);
    var s := b.selected.value;
    OnBoardColumn(b, w);
    var ks := FindItem(Col(b, s.column), s.(state := Selected));
    var k := FindItem(Col(b, w.column), w);
    assert s.column == w.column;
    SameItemsShape(b, b');
  }

  lemma StepSwitchInv(b: Board, w: WordItem)
    requires Inv(b) && OnBoard(b, w) && w.pairId !in b.completed
    requires b.selected.Some? && b.selected.value.id != w.id && b.selected.value.column == w.column
    ensures Inv(Step(b, w))
  {
    var b' := Step(b, w);
    OnBoardColumn(b, w);
    var k := FindItem(Col(b, w.column), w);
    SameItemsShape(b, b');
    assert Col(b', w.column)[k] == w.(state := Selected);
  }

  /** Matching pair `p` in one column, when any selected item there belongs to `p`. */
  lemma MarkPairColumn(ws: seq<WordItem>, p: string, done: set<string>, sel: Option<WordItem>)
    requires CorrectIff(ws, done) && SelectedIff(ws, sel)
    requires forall i :: 0 <= i < |ws| && ws[i].state == Selected ==> ws[i].pairId == p
    ensures CorrectIff(MarkPair(ws, p), done + {p}) && SelectedIff(MarkPair(ws, p), None)
  {
  }

  lemma StepMatchInv(b: Board, w: WordItem)
    requires Inv(b) && OnBoard(b, w) && w.pairId !in b.completed
    requires b.selected.Some? && b.selected.value.column != w.column
    requires b.selected.value.pairId == w.pairId
    ensures Inv(Step(b, w))
  {
    var b' := Step(b, w);
    var s := b.selected.value;
    OnBoardColumn(b, w);
    var k := FindItem(Col(b, w.column), w);
    var ks := FindItem(Col(b, s.column), s.(state := Selected));
    MarkPairColumn(b.left, w.pairId, b.completed, b.selected);
    MarkPairColumn(b.right, w.pairId, b.completed, b.selected);
    SameItemsShape(b, b');
    assert w.pairId in PairIds(Col(b, w.column));
  }

  lemma StepMismatchInv(b: Board, w: WordItem)
    requires Inv(b) && OnBoard(b, w) && w.pairId !in b.completed
    requires b.selected.Some? && b.selected.value.column != w.column
    requires b.selected.value.pairId != w.pairId
    ensures Inv(Step(b, w))
  {
    var b' := Step(b, w);
    var s := b.selected.value;
    OnBoardColumn(b, w);
    var k := FindItem(Col(b, w.column), w);
    var ks := FindItem(Col(b, s.column), s.(state := Selected));
    SameItemsShape(b, b');
  }

  /** Every click keeps the invariant. */
  lemma StepInv(b: Board, w: WordItem)
    requires Inv(b) && OnBoard(b, w)
    ensures Inv(Step(b, w))
    ensures SameItems(b.left, Step(b, w).left) && SameItems(b.right, Step(b, w).right)
  {
    if w.pairId in b.completed {
    } else if b.selected.None? {
      StepSelectInv(b, w);
    } else if b.selected.value.id == w.id {
      StepDeselectInv(b, w);
    } else if b.selected.value.column == w.column {
      StepSwitchInv(b, w);
    } else if b.selected.value.pairId == w.pairId {
      StepMatchInv(b, w);
    } else {
      StepMismatchInv(b, w);
    }
  }

  /** The delayed reset keeps the invariant and touches only incorrect items. */
  lemma RevertInv(b: Board, a: string, c: string)
    requires Inv(b)
    ensures Inv(Revert(b, a, c))
    ensures SameItems(b.left, Revert(b, a, c).left) && SameItems(b.right, Revert(b, a, c).right)
  {
    var b' := Revert(b, a, c);
    SameItemsShape(b, b');
    if b.selected.Some? {
      var s := b.selected.value;
      var ks := FindItem(Col(b, s.column), s.(state := Selected));
      assert Col(b', s.column)[ks] == s.(state := Selected);
    }
  }

  // ------------------------------------------------------- properties

  /** A set inside another is no larger, and as large only when equal. */
  lemma SubsetCard(a: set<string>, c: set<string>)
    requires a <= c
    ensures |a| <= |c|
    ensures |a| == |c| ==> a == c
  {
    assert c == a + (c - a);
    assert a * (c - a) == {};
    if |a| == |c| {
      assert |c - a| == 0;
    }
  }

  /** A column whose pair ids are distinct covers as many pairs as it has items. */
  lemma {:induction false} PairIdsCard(ws: seq<WordItem>)
    requires DistinctBy(ws, PairIdOf)
    ensures |PairIds(ws)| == |ws|
    decreases |ws|
  {
    if ws == [] {
      assert PairIds(ws) == {};
    } else {
      var init := ws[..|ws| - 1];
      var last := ws[|ws| - 1];
      assert DistinctBy(init, PairIdOf);
      PairIdsCard(init);
      assert PairIds(ws) == PairIds(init) + {last.pairId} by {
        assert forall i :: 0 <= i < |init| ==> init[i] == ws[i];
      }
      assert last.pairId !in PairIds(init) by {
        forall i | 0 <= i < |init| ensures init[i].pairId != last.pairId {
          assert PairIdOf(ws[i]) != PairIdOf(ws[|ws| - 1]);
        }
      }
    }
  }

  /** At most one item on the whole board shows as selected. */
  lemma AtMostOneSelected(b: Board)
    requires Inv(b)
    ensures forall i, j :: 0 <= i < j < |b.left| ==> !(b.left[i].state == Selected && b.left[j].state == Selected)
    ensures forall i, j :: 0 <= i < j < |b.right| ==> !(b.right[i].state == Selected && b.right[j].state == Selected)
    ensures forall i, j :: 0 <= i < |b.left| && 0 <= j < |b.right| ==>
      !(b.left[i].state == Selected && b.right[j].state == Selected)
  {
    forall i, j | 0 <= i < j < |b.left| ensures !(b.left[i].state == Selected && b.left[j].state == Selected) {
      assert IdOf(b.left[i]) != IdOf(b.left[j]);
    }
    forall i, j | 0 <= i < j < |b.right| ensures !(b.right[i].state == Selected && b.right[j].state == Selected) {
      assert IdOf(b.right[i]) != IdOf(b.right[j]);
    }
  }

  /**
   * The completion test `completedPairs.size === leftWords.length` holds
   * exactly when every item of both columns shows correct; the count of
   * matched pairs never exceeds the number of pairs.
   */
  lemma CompletionMeansAllCorrect(b: Board)
    requires Inv(b)
    ensures |b.completed| <= |b.left|
    ensures |b.completed| == |b.left| <==>
      (forall i :: 0 <= i < |b.left| ==> b.left[i].state == Correct) &&
      (forall j :: 0 <= j < |b.right| ==> b.right[j].state == Correct)
  {
    PairIdsCard(b.left);
    SubsetCard(b.completed, PairIds(b.left));
    if forall i :: 0 <= i < |b.left| ==> b.left[i].state == Correct {
      assert PairIds(b.left) <= b.completed;
    }
    if |b.completed| == |b.left| {
      assert forall j :: 0 <= j < |b.right| ==> b.right[j].pairId in PairIds(b.right);
    }
  }

  /** A click never undoes a match and counts at most one mistake. */
  lemma StepMonotone(b: Board, w: WordItem)
    requires Inv(b) && OnBoard(b, w)
    ensures b.completed <= Step(b, w).completed <= b.completed + {w.pairId}
    ensures Step(b, w).incorrectCount == b.incorrectCount || Step(b, w).incorrectCount == b.incorrectCount + 1
    ensures forall i :: 0 <= i < |b.left| && b.left[i].state == Correct ==> Step(b, w).left[i].state == Correct
    ensures forall j :: 0 <= j < |b.right| && b.right[j].state == Correct ==> Step(b, w).right[j].state == Correct
  {
    var b' := Step(b, w);
    StepInv(b, w);
    assert b.completed <= b'.completed;
    forall i | 0 <= i < |b.left| && b.left[i].state == Correct ensures b'.left[i].state == Correct {
      assert b'.left[i].pairId == b.left[i].pairId;
    }
    forall j | 0 <= j < |b.right| && b.right[j].state == Correct ensures b'.right[j].state == Correct {
      assert b'.right[j].pairId == b.right[j].pairId;
    }
  }

  /** Clicking an item already shown correct (its button is disabled) changes nothing. */
  lemma CorrectClickIgnored(b: Board, w: WordItem)
    requires Inv(b) && OnBoard(b, w) && w.state == Correct
    ensures Step(b, w) == b
  {
    OnBoardColumn(b, w);
    var k := FindItem(Col(b, w.column), w);
  }

  /** Clicking a word and then its partner in the other column completes their pair. */
  lemma PartnerCompletes(b: Board, l: WordItem, r: WordItem)
    requires Inv(b) && b.selected.None?
    requires l in b.left && r in b.right && l.pairId == r.pairId && l.pairId !in b.completed
    ensures OnBoard(Step(b, l), r)
    ensures Step(Step(b, l), r).completed == b.completed + {l.pairId}
    ensures Step(Step(b, l), r).incorrectCount == b.incorrectCount
    ensures Step(Step(b, l), r).selected.None?
    ensures forall i :: 0 <= i < |b.left| ==>
      Step(Step(b, l), r).left[i].state == (if b.left[i].pairId == l.pairId then Correct else b.left[i].state)
    ensures forall j :: 0 <= j < |b.right| ==>
      Step(Step(b, l), r).right[j].state == (if b.right[j].pairId == l.pairId then Correct else b.right[j].state)
  {
    OnBoardColumn(b, l);
    OnBoardColumn(b, r);
    var k := FindItem(b.left, l);
  }

  /**
   * Clicking a word and then a word of another pair in the other column
   * counts one mistake, matches nothing and shows both as incorrect; the
   * reset that follows makes both idle again.
   */
  lemma WrongPartnerCounts(b: Board, l: WordItem, r: WordItem)
    requires Inv(b) && b.selected.None?
    requires l in b.left && r in b.right && l.pairId != r.pairId
    requires l.pairId !in b.completed && r.pairId !in b.completed
    ensures OnBoard(Step(b, l), r)
    ensures Step(Step(b, l), r).completed == b.completed
    ensures Step(Step(b, l), r).incorrectCount == b.incorrectCount + 1
    ensures Step(Step(b, l), r).selected.None?
    ensures forall i :: 0 <= i < |b.left| && b.left[i].id == l.id ==> Step(Step(b, l), r).left[i].state == Incorrect
    ensures forall j :: 0 <= j < |b.right| && b.right[j].id == r.id ==> Step(Step(b, l), r).right[j].state == Incorrect
    ensures forall i :: 0 <= i < |b.left| && b.left[i].id != l.id ==> Step(Step(b, l), r).left[i].state == b.left[i].state
    ensures forall j :: 0 <= j < |b.right| && b.right[j].id != r.id ==> Step(Step(b, l), r).right[j].state == b.right[j].state
    ensures forall i :: 0 <= i < |b.left| && b.left[i].id == l.id ==>
      Revert(Step(Step(b, l), r), l.id, r.id).left[i].state == Idle
    ensures forall j :: 0 <= j < |b.right| && b.right[j].id == r.id ==>
      Revert(Step(Step(b, l), r), l.id, r.id).right[j].state == Idle
  {
    OnBoardColumn(b, l);
    OnBoardColumn(b, r);
  }

  /** The invariant, and a completion flag that is only raised when every pair is matched. */
  predicate BoardValid(b: Board, isComplete: bool) {
    Inv(b) && (isComplete ==> |b.left| > 0 && |b.completed| == |b.left|)
  }

  lemma StepValid(b: Board, w: WordItem, isComplete: bool)
    requires BoardValid(b, isComplete) && OnBoard(b, w)
    ensures BoardValid(Step(b, w), isComplete)
  {
    var b' := Step(b, w);
    StepInv(b, w);
    StepMonotone(b, w);
    CompletionMeansAllCorrect(b');
    SubsetCard(b.completed, b'.completed);
    assert |b'.left| == |b.left|;
  }

  /**
   * The mark reported when the learner moves on:
   * `Math.max(0, leftWords.length - incorrectCount)`.
   */
  function MarkOf(total: nat, incorrectCount: nat): (m: nat)
    ensures m <= total
    ensures incorrectCount == 0 ==> m == total
    ensures incorrectCount <= total ==> m + incorrectCount == total
    ensures incorrectCount >= total ==> m == 0
  {
    Max(0, total - incorrectCount)
  }

  /** The plain swap loop `shuffleArray`, with no retry. */
  method ShuffleArray<T>(xs: seq<T>, ds: seq<real>) returns (r: seq<T>)
    requires IsDraws(ds) && |ds| == Passes(|xs|)
    ensures r == FisherYates(xs, ds, Passes(|xs|))
    ensures multiset(r) == multiset(xs)
  {
    var shuffled := new T[|xs|](i requires 0 <= i < |xs| => xs[i]);
    assert shuffled[..] == xs;
    FisherYatesInPlace(shuffled, ds);
    r := shuffled[..];
    FisherYatesPermutes(xs, ds, Passes(|xs|));
  }

  // ------------------------------------------------------- the widget

  class MatchBoard {
    var leftWords: seq<WordItem>
    var rightWords: seq<WordItem>
    var selectedWord: Option<WordItem>
    var completedPairs: set<string>
    var isComplete: bool
    var incorrectCount: nat

    function State(): Board
      reads this
    {
      Board(leftWords, rightWords, selectedWord, completedPairs, incorrectCount)
    }

    /** The board invariant, and completion is only announced when every pair is matched. */
    ghost predicate Valid()
      reads this
    {
      BoardValid(State(), isComplete)
    }

    /** Loading the pairs: both columns shuffled with their own draws, nothing chosen. */
    constructor (content: Option<seq<Pair>>, dsLeft: seq<real>, dsRight: seq<real>)
      requires IsDraws(dsLeft) && IsDraws(dsRight)
      requires |dsLeft| == Passes(|PairsOf(content)|) && |dsRight| == Passes(|PairsOf(content)|)
      ensures Valid() && !isComplete
      ensures State() == Initial(PairsOf(content), dsLeft, dsRight)
    {
      var pairs := PairsOf(content);
      var l := ShuffleArray(LeftItems(pairs), dsLeft);
      var r := ShuffleArray(RightItems(pairs), dsRight);
      leftWords := l;
      rightWords := r;
      completedPairs := {};
      selectedWord := None;
      isComplete := false;
      incorrectCount := 0;
      InitialInv(pairs, dsLeft, dsRight);
    }

    /** A click on a word, keeping the board's invariant. */
    method Click(word: WordItem)
      requires Valid() && OnBoard(State(), word)
      requires word.state != Correct && word.state != Incorrect
      modifies this
      ensures Valid() && isComplete == old(isComplete)
      ensures State() == Step(old(State()), word)
    {
      StepValid(State(), word, isComplete);
      HandleWordClick(word);
    }

    /** `handleWordClick`, branch by branch. */
    method HandleWordClick(word: WordItem)
      modifies this
      ensures State() == Step(old(State()), word) && isComplete == old(isComplete)
    {
      ghost var before := State();
      if word.pairId in completedPairs {
        // an item of a matched pair: ignored
      } else if selectedWord.None? {
        selectedWord := Some(word);
        UpdateColumn(word.column, SetState(Col(State(), word.column), word.id, Selected));
      } else if selectedWord.value.id == word.id {
        selectedWord := None;
        UpdateColumn(word.column, SetState(Col(State(), word.column), word.id, Idle));
      } else if selectedWord.value.column == word.column {
        UpdateColumn(word.column, Switch(Col(State(), word.column), word.id, selectedWord.value.id));
        selectedWord := Some(word);
      } else if selectedWord.value.pairId == word.pairId {
        leftWords := MarkPair(leftWords, word.pairId);
        rightWords := MarkPair(rightWords, word.pairId);
        completedPairs := completedPairs + {word.pairId};
        selectedWord := None;
      } else {
        var selectedId, clickedId := selectedWord.value.id, word.id;
        var selectedCol, clickedCol := selectedWord.value.column, word.column;
        UpdateColumn(selectedCol, SetState(Col(State(), selectedCol), selectedId, Incorrect));
        UpdateColumn(clickedCol, SetState(Col(State(), clickedCol), clickedId, Incorrect));
        selectedWord := None;
        incorrectCount := incorrectCount + 1;
      }
      assert State() == Step(before, word);
    }

    /** `setLeftWords` or `setRightWords`, by column. */
    method UpdateColumn(c: Column, ws: seq<WordItem>)
      modifies this
      ensures State() == WithCol(old(State()), c, ws) && isComplete == old(isComplete)
    {
      if c == Left {
        leftWords := ws;
      } else {
        rightWords := ws;
      }
    }

    /** The timer that fires after a wrong attempt between `selectedId` and `clickedId`. */
    method RevertAttempt(selectedId: string, clickedId: string)
      requires Valid()
      modifies this
      ensures Valid() && isComplete == old(isComplete)
      ensures State() == Revert(old(State()), selectedId, clickedId)
    {
      RevertInv(State(), selectedId, clickedId);
      leftWords := RevertIds(leftWords, selectedId, clickedId);
      rightWords := RevertIds(rightWords, selectedId, clickedId);
    }

    /** The completion effect: once every pair is matched the board is complete, for good. */
    method CheckComplete()
      requires Valid()
      modifies this
      ensures Valid() && State() == old(State())
      ensures isComplete <==> |leftWords| > 0 && |completedPairs| == |leftWords|
    {
      var totalPairs := |leftWords|;
      if totalPairs > 0 && |completedPairs| == totalPairs {
        isComplete := true;
      }
    }

    /** The mark sent on "continue". */
    function Mark(): (m: nat)
      reads this
      ensures m <= |leftWords|
      ensures incorrectCount == 0 ==> m == |leftWords|
    {
      MarkOf(|leftWords|, incorrectCount)
    }
  }
}
