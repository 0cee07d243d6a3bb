/**
 * The drag-and-drop placement exercise: items are dropped on a square
 * stage, snap into the first dropzone that holds their centre, and are
 * scored once against their designated dropzone.
 *
 * Coordinates are modelled as `real`: the widget only compares, adds and
 * halves them. The stage size is a parameter (the viewport scaling that
 * produces it is not modelled), and the jitter drawn from the random
 * generator when snapping is an injected offset.
 */
module Drag {
  import opened Common

  datatype Point = Point(x: real, y: real)

  datatype Dropzone = Dropzone(id: string, x: real, y: real, width: real, height: real)

  datatype DraggableItem = DraggableItem(
    id: string,
    text: string,
    width: real,
    height: real,
    initialX: real,
    initialY: real,
    correctDropzoneId: Option<string>)

  /** The centre of a `w` by `h` box whose top-left corner is `p`. */
  function Center(p: Point, w: real, h: real): Point {
    Point(p.x + w / 2.0, p.y + h / 2.0)
  }

  /** The closed rectangle test: all four edges belong to the dropzone. */
  predicate Contains(dz: Dropzone, c: Point) {
    c.x >= dz.x && c.x <= dz.x + dz.width && c.y >= dz.y && c.y <= dz.y + dz.height
  }

  /** Corners and edges of a dropzone lie inside it, and nothing left of or above it does. */
  lemma ContainsClosed(dz: Dropzone, c: Point)
    requires dz.width >= 0.0 && dz.height >= 0.0
    ensures Contains(dz, Point(dz.x, dz.y)) && Contains(dz, Point(dz.x + dz.width, dz.y + dz.height))
    ensures Contains(dz, Point(dz.x + dz.width, dz.y)) && Contains(dz, Point(dz.x, dz.y + dz.height))
    ensures c.x < dz.x || c.y < dz.y || c.x > dz.x + dz.width || c.y > dz.y + dz.height ==> !Contains(dz, c)
  {
  }

  /** `Math.max(0, Math.min(v, hi))`. */
  function Clamp(v: real, hi: real): (r: real)
    ensures 0.0 <= r
    ensures hi >= 0.0 ==> r <= hi
    ensures 0.0 <= v <= hi ==> r == v
    ensures hi < 0.0 || v <= 0.0 ==> r == 0.0
    ensures 0.0 <= hi <= v ==> r == hi
  {
    var m := if v <= hi then v else hi;
    if m >= 0.0 then m else 0.0
  }

  /** A value of `Math.random() * 0.001` for each axis. */
  predicate IsJitter(off: Point) {
    0.0 <= off.x < 0.001 && 0.0 <= off.y < 0.001
  }

  /** Index of the first dropzone, at `k` or later, that contains `c`. */
  function FirstContainingFrom(dzs: seq<Dropzone>, c: Point, k: nat): (r: Option<nat>)
    requires k <= |dzs|
    ensures r.Some? ==> k <= r.value < |dzs| && Contains(dzs[r.value], c)
    ensures r.Some? ==> forall m :: k <= m < r.value ==> !Contains(dzs[m], c)
    ensures r.None? <==> forall m :: k <= m < |dzs| ==> !Contains(dzs[m], c)
    decreases |dzs| - k
  {
    if k == |dzs| then None
    else if Contains(dzs[k], c) then Some(k)
    else FirstContainingFrom(dzs, c, k + 1)
  }

  function FirstContaining(dzs: seq<Dropzone>, c: Point): Option<nat> {
    FirstContainingFrom(dzs, c, 0)
  }

  /** Where an item lands when it snaps into `dz`: centred in it, up to the jitter. */
  function Snap(dz: Dropzone, d: DraggableItem, off: Point): Point {
    Point(dz.x + dz.width / 2.0 - d.width / 2.0 + off.x,
          dz.y + dz.height / 2.0 - d.height / 2.0 + off.y)
  }

  /** Where an item dropped at `drop` is placed: snapped, or else clamped to the stage. */
  function DropPosition(dzs: seq<Dropzone>, stageW: real, stageH: real, d: DraggableItem,
                        drop: Point, off: Point): (p: Point)
    ensures FirstContaining(dzs, Center(drop, d.width, d.height)).None? ==> 0.0 <= p.x && 0.0 <= p.y
  {
    match FirstContaining(dzs, Center(drop, d.width, d.height))
    case None => Point(Clamp(drop.x, stageW - d.width), Clamp(drop.y, stageH - d.height))
    case Some(k) => Snap(dzs[k], d, off)
  }

  /** Dropped where no dropzone holds its centre, an item stays on the stage. */
  lemma DropClamped(dzs: seq<Dropzone>, stageW: real, stageH: real, d: DraggableItem,
                    drop: Point, off: Point)
    requires forall m :: 0 <= m < |dzs| ==> !Contains(dzs[m], Center(drop, d.width, d.height))
    ensures var p := DropPosition(dzs, stageW, stageH, d, drop, off);
      0.0 <= p.x && 0.0 <= p.y &&
      (d.width <= stageW ==> p.x <= stageW - d.width) &&
      (d.height <= stageH ==> p.y <= stageH - d.height) &&
      (0.0 <= drop.x <= stageW - d.width && 0.0 <= drop.y <= stageH - d.height ==> p == drop)
  {
    assert FirstContaining(dzs, Center(drop, d.width, d.height)).None?;
  }

  /**
   * Dropped with its centre in dropzone `k` and in none listed before it, an
   * item is centred in dropzone `k`, off by the jitter alone.
   */
  lemma DropSnapsToFirst(dzs: seq<Dropzone>, stageW: real, stageH: real, d: DraggableItem,
                         drop: Point, off: Point, k: nat)
    requires k < |dzs| && Contains(dzs[k], Center(drop, d.width, d.height))
    requires forall m :: 0 <= m < k ==> !Contains(dzs[m], Center(drop, d.width, d.height))
    requires IsJitter(off)
    ensures var c := Center(DropPosition(dzs, stageW, stageH, d, drop, off), d.width, d.height);
      var dz := dzs[k];
      0.0 <= c.x - (dz.x + dz.width / 2.0) < 0.001 &&
      0.0 <= c.y - (dz.y + dz.height / 2.0) < 0.001
  {
    var r := FirstContaining(dzs, Center(drop, d.width, d.height));
    assert r.Some?;
    assert r.value >= k;
    assert r.value <= k;
    assert r == Some(k);
  }

  /** A snapped item is scored inside its dropzone whenever the jitter fits in half of it. */
  lemma SnapStaysInside(dz: Dropzone, d: DraggableItem, off: Point)
    requires IsJitter(off)
    requires dz.width >= 0.002 && dz.height >= 0.002
    ensures Contains(dz, Center(Snap(dz, d, off), d.width, d.height))
  {
  }

  /** JavaScript truthiness: a missing or empty `correctDropzoneId` counts as absent. */
  predicate HasTarget(d: DraggableItem) {
    d.correctDropzoneId.Some? && d.correctDropzoneId.value != ""
  }

  /** `dropzones.find(dz => dz.id === id)`, as the index of the first match. */
  function FindDropzone(dzs: seq<Dropzone>, id: string): (r: Option<nat>)
    ensures r.Some? ==> r.value < |dzs| && dzs[r.value].id == id
    ensures r.Some? ==> forall m :: 0 <= m < r.value ==> dzs[m].id != id
    ensures r.None? <==> forall m :: 0 <= m < |dzs| ==> dzs[m].id != id
    decreases |dzs|
  {
    if dzs == [] then None
    else if dzs[0].id == id then Some(0)
    else match FindDropzone(dzs[1..], id)
      case None => None
      case Some(k) => Some(k + 1)
  }

  /** The stored preview position, or the initial one for an item never dropped. */
  function CurrentPos(positions: map<string, Point>, d: DraggableItem): Point {
    if d.id in positions then positions[d.id] else Point(d.initialX, d.initialY)
  }

  /** The validation verdict of one item. */
  predicate IsPlacedCorrectly(dzs: seq<Dropzone>, positions: map<string, Point>, d: DraggableItem) {
    HasTarget(d) &&
    match FindDropzone(dzs, d.correctDropzoneId.value)
    case None => false
    case Some(k) => Contains(dzs[k], Center(CurrentPos(positions, d), d.width, d.height))
  }

  /**
   * An item is scored correct exactly when it names a target, some dropzone
   * carries that id, and the centre of the item's current position (its
   * initial one if it was never dropped) lies in the first such dropzone.
   */
  lemma PlacementMeaning(dzs: seq<Dropzone>, positions: map<string, Point>, d: DraggableItem)
    ensures IsPlacedCorrectly(dzs, positions, d) <==>
      HasTarget(d) &&
      exists k :: 0 <= k < |dzs| && dzs[k].id == d.correctDropzoneId.value &&
        (forall m :: 0 <= m < k ==> dzs[m].id != dzs[k].id) &&
        Contains(dzs[k], Center(if d.id in positions then positions[d.id] else Point(d.initialX, d.initialY),
                                d.width, d.height))
  {
    var c := Center(CurrentPos(positions, d), d.width, d.height);
    if HasTarget(d) {
      var r := FindDropzone(dzs, d.correctDropzoneId.value);
      if r.Some? {
        forall k | 0 <= k < |dzs| && dzs[k].id == d.correctDropzoneId.value &&
          (forall m :: 0 <= m < k ==> dzs[m].id != dzs[k].id)
          ensures k == r.value
        {
          assert dzs[r.value].id == dzs[k].id;
        }
        if IsPlacedCorrectly(dzs, positions, d) {
          assert Contains(dzs[r.value], c);
        }
      }
    }
  }

  /** Without a target, or with a target no dropzone carries, an item always scores false. */
  lemma NoTargetScoresFalse(dzs: seq<Dropzone>, positions: map<string, Point>, d: DraggableItem)
    requires !HasTarget(d) || forall m :: 0 <= m < |dzs| ==> dzs[m].id != d.correctDropzoneId.value
    ensures !IsPlacedCorrectly(dzs, positions, d)
  {
    if HasTarget(d) {
      assert FindDropzone(dzs, d.correctDropzoneId.value).None?;
    }
  }

  /** The verdicts of all items, in list order. */
  function Verdicts(dzs: seq<Dropzone>, ds: seq<DraggableItem>, positions: map<string, Point>): (vs: seq<bool>)
    ensures |vs| == |ds|
    ensures forall i :: 0 <= i < |ds| && vs[i] ==> HasTarget(ds[i])
  {
    seq(|ds|, i requires 0 <= i < |ds| => IsPlacedCorrectly(dzs, positions, ds[i]))
  }

  /** The `results` record after the first `n` items: later entries overwrite earlier ones with the same id. */
  function Results(dzs: seq<Dropzone>, ds: seq<DraggableItem>, positions: map<string, Point>, n: nat): (r: map<string, bool>)
    requires n <= |ds|
    ensures n > 0 ==> ds[n - 1].id in r && r[ds[n - 1].id] == IsPlacedCorrectly(dzs, positions, ds[n - 1])
  {
    if n == 0 then map[]
    else Results(dzs, ds, positions, n - 1)[ds[n - 1].id := IsPlacedCorrectly(dzs, positions, ds[n - 1])]
  }

  /** The ids of the first `n` items. */
  function Ids(ds: seq<DraggableItem>, n: nat): set<string>
    requires n <= |ds|
  {
    set i | 0 <= i < n :: ds[i].id
  }

  predicate DistinctIds(ds: seq<DraggableItem>) {
    forall i, j :: 0 <= i < j < |ds| ==> ds[i].id != ds[j].id
  }

  /** The ids whose entry in `results` is `true`. */
  function TrueKeys(results: map<string, bool>): set<string> {
    set id | id in results && results[id]
  }

  /** `results` holds an entry for exactly the ids of the items scored so far. */
  lemma {:induction false} ResultsKeys(dzs: seq<Dropzone>, ds: seq<DraggableItem>,
                                       positions: map<string, Point>, n: nat)
    requires n <= |ds|
    ensures Results(dzs, ds, positions, n).Keys == Ids(ds, n)
  {
    if n > 0 {
      ResultsKeys(dzs, ds, positions, n - 1);
      assert Ids(ds, n) == Ids(ds, n - 1) + {ds[n - 1].id};
    }
  }

  /** The entry of an item is its own verdict unless a later item shares its id. */
  lemma {:induction false} ResultsLastWins(dzs: seq<Dropzone>, ds: seq<DraggableItem>,
                                           positions: map<string, Point>, n: nat, i: nat)
    requires i < n <= |ds|
    requires forall m :: i < m < n ==> ds[m].id != ds[i].id
    ensures ds[i].id in Results(dzs, ds, positions, n)
    ensures Results(dzs, ds, positions, n)[ds[i].id] == IsPlacedCorrectly(dzs, positions, ds[i])
  {
    if i < n - 1 {
      ResultsLastWins(dzs, ds, positions, n - 1, i);
      assert ds[n - 1].id != ds[i].id;
    }
  }

  /** Adding a fresh id to a record adds one entry. */
  lemma KeysAdd(results: map<string, bool>, id: string, v: bool)
    requires id !in results
    ensures |results[id := v].Keys| == |results.Keys| + 1
  {
    assert results[id := v].Keys == results.Keys + {id};
  }

  /** Adding a fresh id to a record adds one `true` entry exactly when its value is `true`. */
  lemma TrueKeysAdd(results: map<string, bool>, id: string, v: bool)
    requires id !in results
    ensures |TrueKeys(results[id := v])| == |TrueKeys(results)| + (if v then 1 else 0)
  {
    var after := results[id := v];
    if v {
      assert TrueKeys(after) == TrueKeys(results) + {id};
    } else {
      assert TrueKeys(after) == TrueKeys(results);
    }
  }

  /** Scoring one more item adds one to the count exactly when that item is correct. */
  lemma CountNext(dzs: seq<Dropzone>, ds: seq<DraggableItem>, positions: map<string, Point>, n: nat)
    requires 0 < n <= |ds|
    ensures CountTrue(Verdicts(dzs, ds, positions)[..n]) ==
      CountTrue(Verdicts(dzs, ds, positions)[..n - 1]) + (if IsPlacedCorrectly(dzs, positions, ds[n - 1]) then 1 else 0)
  {
    var vs := Verdicts(dzs, ds, positions);
    assert vs[..n] == vs[..n - 1] + [vs[n - 1]];
    CountTrueAppend(vs[..n - 1], [vs[n - 1]]);
  }

  /** With distinct ids, no item's id is among those scored before it. */
  lemma FreshId(ds: seq<DraggableItem>, n: nat)
    requires 0 < n <= |ds| && DistinctIds(ds)
    ensures ds[n - 1].id !in Ids(ds, n - 1)
  {
    forall i | 0 <= i < n - 1 ensures ds[i].id != ds[n - 1].id {
    }
  }

  /** With distinct ids, `results` has exactly one entry per item. */
  lemma {:induction false} ResultsCount(dzs: seq<Dropzone>, ds: seq<DraggableItem>,
                                        positions: map<string, Point>, n: nat)
    requires n <= |ds| && DistinctIds(ds)
    ensures |Results(dzs, ds, positions, n).Keys| == n
  {
    if n > 0 {
      ResultsCount(dzs, ds, positions, n - 1);
      ResultsKeys(dzs, ds, positions, n - 1);
      FreshId(ds, n);
      KeysAdd(Results(dzs, ds, positions, n - 1), ds[n - 1].id, IsPlacedCorrectly(dzs, positions, ds[n - 1]));
    }
  }

  /** With distinct ids, the score is the number of `true` entries in `results`. */
  lemma {:induction false} ScoreCountsTrueEntries(dzs: seq<Dropzone>, ds: seq<DraggableItem>,
                                                  positions: map<string, Point>, n: nat)
    requires n <= |ds| && DistinctIds(ds)
    ensures |TrueKeys(Results(dzs, ds, positions, n))| == CountTrue(Verdicts(dzs, ds, positions)[..n])
  {
    if n > 0 {
      var before := Results(dzs, ds, positions, n - 1);
      var d := ds[n - 1];
      var v := IsPlacedCorrectly(dzs, positions, d);
      assert Results(dzs, ds, positions, n) == before[d.id := v];
      assert d.id !in before by {
        ResultsKeys(dzs, ds, positions, n - 1);
        FreshId(ds, n);
      }
      ScoreCountsTrueEntries(dzs, ds, positions, n - 1);
      TrueKeysAdd(before, d.id, v);
      CountNext(dzs, ds, positions, n);
    }
  }

  /** The drag-end handler's loop: clamp, then snap into the first dropzone that holds the centre. */
  method DropPositionOf(dzs: seq<Dropzone>, stageW: real, stageH: real, d: DraggableItem,
                        drop: Point, off: Point) returns (newPos: Point)
    ensures newPos == DropPosition(dzs, stageW, stageH, d, drop, off)
  {
    newPos := Point(Clamp(drop.x, stageW - d.width), Clamp(drop.y, stageH - d.height));
    var c := Center(drop, d.width, d.height);
    var i := 0;
    while i < |dzs|
      invariant 0 <= i <= |dzs|
      invariant FirstContaining(dzs, c) == FirstContainingFrom(dzs, c, i)
      invariant newPos == Point(Clamp(drop.x, stageW - d.width), Clamp(drop.y, stageH - d.height))
    {
      if Contains(dzs[i], c) {
        newPos := Snap(dzs[i], d, off);
        break;
      }
      i := i + 1;
    }
  }

  /** Number of correctly placed items among the first `n`, counted as the validation loop counts them. */
  function PlacedCount(dzs: seq<Dropzone>, ds: seq<DraggableItem>, positions: map<string, Point>, n: nat): nat
    requires n <= |ds|
  {
    if n == 0 then 0
    else PlacedCount(dzs, ds, positions, n - 1) + (if IsPlacedCorrectly(dzs, positions, ds[n - 1]) then 1 else 0)
  }

  lemma {:induction false} PlacedCountIsCountTrue(dzs: seq<Dropzone>, ds: seq<DraggableItem>,
                                                  positions: map<string, Point>, n: nat)
    requires n <= |ds|
    ensures PlacedCount(dzs, ds, positions, n) == CountTrue(Verdicts(dzs, ds, positions)[..n])
  {
    if n > 0 {
      PlacedCountIsCountTrue(dzs, ds, positions, n - 1);
      CountNext(dzs, ds, positions, n);
    }
  }

  /** The body of the validation loop for one item: its target dropzone, if any, must hold its centre. */
  method PlacedCorrectly(dzs: seq<Dropzone>, positions: map<string, Point>, d: DraggableItem)
    returns (isCorrect: bool)
    ensures isCorrect == IsPlacedCorrectly(dzs, positions, d)
  {
    var currentPos := CurrentPos(positions, d);
    isCorrect := false;
    if HasTarget(d) {
      var found := FindDropzone(dzs, d.correctDropzoneId.value);
      if found.Some? {
        isCorrect := Contains(dzs[found.value], Center(currentPos, d.width, d.height));
      }
    }
  }

  /** The validate button's loop: fill `results` and count the correct placements. */
  method ScorePlacements(dzs: seq<Dropzone>, ds: seq<DraggableItem>, positions: map<string, Point>)
    returns (results: map<string, bool>, correctCount: nat)
    ensures results == Results(dzs, ds, positions, |ds|)
    ensures correctCount == CountTrue(Verdicts(dzs, ds, positions))
    ensures correctCount <= |ds|
  {
    results := map[];
    correctCount := 0;
    var i := 0;
    while i < |ds|
      invariant 0 <= i <= |ds|
      invariant results == Results(dzs, ds, positions, i)
      invariant correctCount == PlacedCount(dzs, ds, positions, i)
    {
      var d := ds[i];
      var isCorrect := PlacedCorrectly(dzs, positions, d);
      results := results[d.id := isCorrect];
      if isCorrect {
        correctCount := correctCount + 1;
      }
      i := i + 1;
    }
    assert correctCount == CountTrue(Verdicts(dzs, ds, positions)) by {
      PlacedCountIsCountTrue(dzs, ds, positions, |ds|);
      assert Verdicts(dzs, ds, positions)[..|ds|] == Verdicts(dzs, ds, positions);
    }
  }

  /** The exercise's state: preview positions, and the verdicts once validated. */
  class DragBoard {
    const dropzones: seq<Dropzone>
    const draggables: seq<DraggableItem>
    const stageW: real
    const stageH: real
    var previewPositions: map<string, Point>
    var isValidated: bool
    var validationResults: map<string, bool>
    var score: nat

    constructor(dropzones: seq<Dropzone>, draggables: seq<DraggableItem>, stageW: real, stageH: real)
      ensures this.dropzones == dropzones && this.draggables == draggables
      ensures this.stageW == stageW && this.stageH == stageH
      ensures previewPositions == map[] && !isValidated && validationResults == map[] && score == 0
    {
      this.dropzones := dropzones;
      this.draggables := draggables;
      this.stageW := stageW;
      this.stageH := stageH;
      previewPositions := map[];
      isValidated := false;
      validationResults := map[];
      score := 0;
    }

    /** Items can be dragged only until the answer is validated. */
    predicate CanDrag()
      reads this
    {
      !isValidated
    }

    /** Drop `d` at `drop`; only the preview position of `d` changes. */
    method DragEnd(d: DraggableItem, drop: Point, off: Point)
      requires CanDrag() && IsJitter(off)
      modifies this
      ensures previewPositions == old(previewPositions)[d.id := DropPosition(dropzones, stageW, stageH, d, drop, off)]
      ensures isValidated == old(isValidated) && validationResults == old(validationResults) && score == old(score)
    {
      var newPos := DropPositionOf(dropzones, stageW, stageH, d, drop, off);
      previewPositions := previewPositions[d.id := newPos];
    }

    /** Score every item at its current position and lock the board. */
    method Validate()
      modifies this
      ensures validationResults == Results(dropzones, draggables, previewPositions, |draggables|)
      ensures score == CountTrue(Verdicts(dropzones, draggables, previewPositions)) && score <= |draggables|
      ensures isValidated && !CanDrag()
      ensures previewPositions == old(previewPositions)
    {
      var results, correctCount := ScorePlacements(dropzones, draggables, previewPositions);
      validationResults := results;
      score := correctCount;
      isValidated := true;
    }
  }
}
