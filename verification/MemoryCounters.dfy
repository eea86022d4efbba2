/** The lock-free object counters of one kind, as a protocol: each actor is a tracked object
    (or a pooled buffer) whose calls are broken into their atomic operations, and a run is
    any interleaving. Loads, fetch_adds and single compare-exchange attempts are the steps;
    a weak compare-exchange may fail for no reason. Counters are 64-bit and wrap. */
module MemoryCounters {
  import opened Prelude

  datatype Cells = Cells(
    created: nat, dropped: nat, bytesCreated: nat, bytesDropped: nat,
    live: nat, peakLive: nat, bytesLive: nat, peakBytes: nat,
    checkouts: nat, handbacks: nat)

  /** Where an actor stands. `b` is its size in bytes; `seen` is what its compare-exchange
      loop last loaded, None when it has yet to load; `pooled` tells a checkout's or
      return's byte accounting from a create's or drop's. */
  datatype Pc =
    | Idle | Held(b: nat) | Borrowed(b: nat)
    // record_created
    | CreateCount(b: nat) | CreateBytes(b: nat) | CreateLive(b: nat)
    | RaisePeakLive(b: nat, v: nat, seen: Option<nat>)
    | AddBytesLive(b: nat, pooled: bool)
    | RaisePeakBytes(b: nat, v: nat, seen: Option<nat>, pooled: bool)
    // record_dropped
    | DropCount(b: nat) | DropBytes(b: nat) | LowerLive(b: nat, seen: Option<nat>)
    | LowerBytesLive(b: nat, seen: Option<nat>)
    // record_checkout, record_return
    | CheckoutCount(b: nat) | ReturnCount(b: nat)

  /** What the scheduler decides: a call to start, an ordinary step, or a spurious failure. */
  datatype Choice = StartCreate(b: nat) | StartDrop(b: nat) | StartCheckout(b: nat) | StartReturn(b: nat) | Go | Fail

  datatype State = State(cells: Cells, actors: seq<Pc>)

  predicate AtRest(p: Pc) { p.Idle? || p.Held? || p.Borrowed? }

  /** `fetch_add` on a u64. */
  function Add64(x: nat, y: nat): nat { (x + y) % TWO_64 }

  function SaturatingSub(x: nat, y: nat): nat { if x < y then 0 else x - y }

  /** The state after a completed create or checkout; a zero size skips the byte accounting. */
  function AfterPeakLive(b: nat): Pc { if b > 0 then AddBytesLive(b, false) else Held(b) }

  /** One atomic operation of an actor. */
  function Act(c: Cells, p: Pc, ch: Choice): (r: Option<(Cells, Pc)>) {
    match (p, ch)
    // A call starts from rest, with any size that fits a u64.
    case (_, StartCreate(b)) => if AtRest(p) && b < TWO_64 then Some((c, CreateCount(b))) else None
    case (_, StartDrop(b)) => if AtRest(p) && b < TWO_64 then Some((c, DropCount(b))) else None
    case (_, StartCheckout(b)) => if AtRest(p) && b < TWO_64 then Some((c, CheckoutCount(b))) else None
    case (_, StartReturn(b)) => if AtRest(p) && b < TWO_64 then Some((c, ReturnCount(b))) else None

    case (CreateCount(b), Go) =>
      Some((c.(created := Add64(c.created, 1)), if b > 0 then CreateBytes(b) else CreateLive(b)))
    case (CreateBytes(b), Go) => Some((c.(bytesCreated := Add64(c.bytesCreated, b)), CreateLive(b)))
    case (CreateLive(b), Go) =>
      var v := Add64(c.live, 1); Some((c.(live := v), RaisePeakLive(b, v, None)))
    case (AddBytesLive(b, pooled), Go) =>
      var v := Add64(c.bytesLive, b); Some((c.(bytesLive := v), RaisePeakBytes(b, v, None, pooled)))

    // update_max: load, then compare-exchange until the value is stored or no longer larger.
    case (RaisePeakLive(b, v, seen), Go) =>
      if seen.None? then Some((c, RaisePeakLive(b, v, Some(c.peakLive))))
      else if v <= seen.value then Some((c, AfterPeakLive(b)))
      else if c.peakLive == seen.value then Some((c.(peakLive := v), AfterPeakLive(b)))
      else Some((c, RaisePeakLive(b, v, Some(c.peakLive))))
    case (RaisePeakLive(b, v, seen), Fail) =>
      if seen.Some? && v > seen.value then Some((c, RaisePeakLive(b, v, Some(c.peakLive)))) else None
    case (RaisePeakBytes(b, v, seen, pooled), Go) =>
      if seen.None? then Some((c, RaisePeakBytes(b, v, Some(c.peakBytes), pooled)))
      else if v <= seen.value then Some((c, if pooled then Borrowed(b) else Held(b)))
      else if c.peakBytes == seen.value then Some((c.(peakBytes := v), if pooled then Borrowed(b) else Held(b)))
      else Some((c, RaisePeakBytes(b, v, Some(c.peakBytes), pooled)))
    case (RaisePeakBytes(b, v, seen, pooled), Fail) =>
      if seen.Some? && v > seen.value then Some((c, RaisePeakBytes(b, v, Some(c.peakBytes), pooled))) else None

    case (DropCount(b), Go) =>
      Some((c.(dropped := Add64(c.dropped, 1)), if b > 0 then DropBytes(b) else LowerLive(b, None)))
    case (DropBytes(b), Go) => Some((c.(bytesDropped := Add64(c.bytesDropped, b)), LowerLive(b, None)))

    // fetch_update with saturating_sub: load, then compare-exchange until it succeeds.
    case (LowerLive(b, seen), Go) =>
      if seen.Some? && c.live == seen.value
      then Some((c.(live := SaturatingSub(seen.value, 1)), if b > 0 then LowerBytesLive(b, None) else Idle))
      else Some((c, LowerLive(b, Some(c.live))))
    case (LowerLive(b, seen), Fail) => if seen.Some? then Some((c, LowerLive(b, Some(c.live)))) else None
    case (LowerBytesLive(b, seen), Go) =>
      if seen.Some? && c.bytesLive == seen.value
      then Some((c.(bytesLive := SaturatingSub(seen.value, b)), Idle))
      else Some((c, LowerBytesLive(b, Some(c.bytesLive))))
    case (LowerBytesLive(b, seen), Fail) => if seen.Some? then Some((c, LowerBytesLive(b, Some(c.bytesLive)))) else None

    case (CheckoutCount(b), Go) =>
      Some((c.(checkouts := Add64(c.checkouts, 1)), if b > 0 then AddBytesLive(b, true) else Borrowed(b)))
    case (ReturnCount(b), Go) =>
      Some((c.(handbacks := Add64(c.handbacks, 1)), if b > 0 then LowerBytesLive(b, None) else Idle))
    case _ => None
  }

  /** Nobody ever waits for anybody: from rest every call can start, every other step can be taken,
      and a compare-exchange about to be tried may fail without changing a counter. */
  lemma NeverBlocks(c: Cells, p: Pc, b: nat)
    ensures AtRest(p) && b < TWO_64 ==>
              && Act(c, p, StartCreate(b)) == Some((c, CreateCount(b)))
              && Act(c, p, StartDrop(b)) == Some((c, DropCount(b)))
              && Act(c, p, StartCheckout(b)) == Some((c, CheckoutCount(b)))
              && Act(c, p, StartReturn(b)) == Some((c, ReturnCount(b)))
    ensures !AtRest(p) ==> Act(c, p, Go).Some?
    ensures Attempts(p) ==> Act(c, p, Fail).Some? && Act(c, p, Fail).value.0 == c && Act(c, p, Fail).value.1.seen.Some?
    ensures !Attempts(p) ==> Act(c, p, Fail).None?
  {
  }

  /** A compare-exchange is the actor's next operation. */
  predicate Attempts(p: Pc) {
    match p
    case RaisePeakLive(_, v, Some(seen)) => v > seen
    case RaisePeakBytes(_, v, Some(seen), _) => v > seen
    case LowerLive(_, Some(_)) => true
    case LowerBytesLive(_, Some(_)) => true
    case _ => false
  }

  predicate Step(s: State, s': State, i: nat, ch: Choice) {
    && i < |s.actors|
    && var r := Act(s.cells, s.actors[i], ch);
       r.Some? && s' == State(r.value.0, s.actors[i := r.value.1])
  }

  predicate Initial(s: State) {
    && s.cells == Cells(0, 0, 0, 0, 0, 0, 0, 0, 0, 0)
    && forall p :: p in s.actors ==> p.Idle?
  }

  /** Some actor takes some step. */
  ghost predicate Next(s: State, s': State) {
    exists i: nat, ch :: Step(s, s', i, ch)
  }

  ghost predicate StepAt(run: seq<State>, k: nat)
    requires k + 1 < |run|
  {
    Next(run[k], run[k + 1])
  }

  /** Any interleaving of any calls. */
  ghost predicate IsRun(run: seq<State>) {
    && |run| > 0 && Initial(run[0])
    && forall k: nat :: k + 1 < |run| ==> StepAt(run, k)
  }

  predicate Quiet(s: State) { forall p :: p in s.actors ==> AtRest(p) }
}

/** The peak counters record the maximum of the whole history. */
module PeakCounters {
  import opened Prelude
  import opened MemoryCounters

  /** The two counters that have a peak: live objects and live bytes. */
  datatype Gauge = Objects | Bytes

  function Level(c: Cells, g: Gauge): nat { if g.Objects? then c.live else c.bytesLive }
  function Peak(c: Cells, g: Gauge): nat { if g.Objects? then c.peakLive else c.peakBytes }

  /** The actor is inside `update_max` for this gauge, with this value and last load. */
  function Raising(p: Pc, g: Gauge): Option<(nat, Option<nat>)> {
    match p
    case RaisePeakLive(_, v, seen) => if g.Objects? then Some((v, seen)) else None
    case RaisePeakBytes(_, v, seen, _) => if g.Bytes? then Some((v, seen)) else None
    case _ => None
  }

  /** What one step can do to a gauge. */
  datatype Effect = Nothing | Rises | Falls | Loads | Stores | GivesUp

  ghost predicate HasEffect(c: Cells, p: Pc, c': Cells, p': Pc, g: Gauge, e: Effect) {
    var h, h', top, top', r, r' := Level(c, g), Level(c', g), Peak(c, g), Peak(c', g), Raising(p, g), Raising(p', g);
    match e
    case Nothing => h' == h && top' == top && r.None? && r'.None?
    case Rises => top' == top && r.None? && r' == Some((h', None))
    case Falls => h' <= h && top' == top && r.None? && r'.None?
    case Loads => h' == h && top' == top && r.Some? && r' == Some((r.value.0, Some(top)))
    case Stores => h' == h && r.Some? && r.value.1 == Some(top) && r.value.0 > top && top' == r.value.0 && r'.None?
    case GivesUp => h' == h && top' == top && r.Some? && r.value.1.Some? && r.value.0 <= r.value.1.value && r'.None?
  }

  lemma StepEffect(c: Cells, p: Pc, ch: Choice, g: Gauge)
    requires Act(c, p, ch).Some?
    ensures var (c', p') := Act(c, p, ch).value; exists e :: HasEffect(c, p, c', p', g, e)
  {
    var (c', p') := Act(c, p, ch).value;
    var r, r' := Raising(p, g), Raising(p', g);
    if r.None? && r'.Some? {
      assert HasEffect(c, p, c', p', g, Rises);
    } else if r.None? {
      assert HasEffect(c, p, c', p', g, Nothing) || HasEffect(c, p, c', p', g, Falls);
    } else if r'.Some? {
      assert HasEffect(c, p, c', p', g, Loads);
    } else {
      assert HasEffect(c, p, c', p', g, Stores) || HasEffect(c, p, c', p', g, GivesUp);
    }
  }

  /** A level reached is below the peak, or below a value still on its way into it. */
  ghost predicate Covered(h: nat, s: State, g: Gauge) {
    || h <= Peak(s.cells, g)
    || exists i :: 0 <= i < |s.actors| && Raising(s.actors[i], g).Some? && h <= Raising(s.actors[i], g).value.0
  }

  /** The invariant tying the peak to the levels reached so far. */
  ghost predicate PeakInv(hist: seq<nat>, s: State, g: Gauge) {
    && Level(s.cells, g) in hist
    && Peak(s.cells, g) in hist
    && (forall i :: 0 <= i < |s.actors| && Raising(s.actors[i], g).Some? ==>
          var (v, seen) := Raising(s.actors[i], g).value;
          v in hist && (seen.Some? ==> seen.value <= Peak(s.cells, g)))
    && (forall h :: h in hist ==> Covered(h, s, g))
  }

  /** Only actor `i` moved, and this is what its step did. */
  ghost predicate Moved(s: State, s': State, i: nat, g: Gauge, e: Effect) {
    && i < |s.actors| && |s'.actors| == |s.actors|
    && (forall j :: 0 <= j < |s.actors| && j != i ==> s'.actors[j] == s.actors[j])
    && HasEffect(s.cells, s.actors[i], s'.cells, s'.actors[i], g, e)
  }

  lemma PeakRises(c: Cells, p: Pc, c': Cells, p': Pc, g: Gauge, e: Effect)
    requires HasEffect(c, p, c', p', g, e)
    ensures Peak(c, g) <= Peak(c', g)
  {
    hide Raising;
  }

  /** A value on its way into the peak stays on its way, or arrives, or was not needed. */
  lemma RaisingKept(c: Cells, p: Pc, c': Cells, p': Pc, g: Gauge, e: Effect, h: nat)
    requires HasEffect(c, p, c', p', g, e) && Raising(p, g).Some? && h <= Raising(p, g).value.0
    requires var (v, seen) := Raising(p, g).value; seen.Some? ==> seen.value <= Peak(c, g)
    ensures h <= Peak(c', g) || (Raising(p', g).Some? && h <= Raising(p', g).value.0)
  {
    hide Raising;
  }

  lemma CoveredKept(hist: seq<nat>, s: State, s': State, i: nat, g: Gauge, e: Effect, h: nat)
    requires PeakInv(hist, s, g) && Moved(s, s', i, g, e) && Covered(h, s, g)
    ensures Covered(h, s', g)
  {
    hide HasEffect, Raising, Peak;
    PeakRises(s.cells, s.actors[i], s'.cells, s'.actors[i], g, e);
    if h > Peak(s.cells, g) {
      var j :| 0 <= j < |s.actors| && Raising(s.actors[j], g).Some? && h <= Raising(s.actors[j], g).value.0;
      if j == i {
        RaisingKept(s.cells, s.actors[i], s'.cells, s'.actors[i], g, e, h);
      } else {
        assert s'.actors[j] == s.actors[j];
      }
    }
  }

  lemma PeakInvStep(hist: seq<nat>, s: State, s': State, i: nat, ch: Choice, g: Gauge)
    requires PeakInv(hist, s, g) && Step(s, s', i, ch)
    ensures PeakInv(hist + [Level(s'.cells, g)], s', g)
    ensures Peak(s.cells, g) <= Peak(s'.cells, g)
  {
    StepEffect(s.cells, s.actors[i], ch, g);
    var e :| HasEffect(s.cells, s.actors[i], s'.cells, s'.actors[i], g, e);
    assert Moved(s, s', i, g, e);
    var hist' := hist + [Level(s'.cells, g)];
    forall j | 0 <= j < |s'.actors| && Raising(s'.actors[j], g).Some?
      ensures var (v, seen) := Raising(s'.actors[j], g).value;
              v in hist' && (seen.Some? ==> seen.value <= Peak(s'.cells, g))
    {
      if j != i { assert s'.actors[j] == s.actors[j]; }
    }
    forall h | h in hist' ensures Covered(h, s', g) {
      if h in hist {
        CoveredKept(hist, s, s', i, g, e, h);
      } else if e.Rises? {
        assert Raising(s'.actors[i], g).Some?;
      } else {
        CoveredKept(hist, s, s', i, g, e, Level(s.cells, g));
      }
    }
  }

  /** The levels of a run, state by state. */
  function Levels(run: seq<State>, g: Gauge): (hist: seq<nat>)
    ensures |hist| == |run| && forall k :: 0 <= k < |run| ==> hist[k] == Level(run[k].cells, g)
  {
    seq(|run|, k requires 0 <= k < |run| => Level(run[k].cells, g))
  }

  lemma PeakInvInitially(s: State, g: Gauge)
    requires Initial(s)
    ensures PeakInv([Level(s.cells, g)], s, g)
  {
    forall i | 0 <= i < |s.actors| ensures Raising(s.actors[i], g).None? { assert s.actors[i] in s.actors; }
  }

  lemma {:induction false} PeakInvHolds(run: seq<State>, k: nat, g: Gauge)
    requires IsRun(run) && k < |run|
    ensures PeakInv(Levels(run[..k + 1], g), run[k], g)
    ensures k > 0 ==> Peak(run[k - 1].cells, g) <= Peak(run[k].cells, g)
  {
    if k == 0 {
      assert Levels(run[..1], g) == [Level(run[0].cells, g)];
      PeakInvInitially(run[0], g);
    } else {
      PeakInvHolds(run, k - 1, g);
      assert StepAt(run, k - 1);
      var i: nat, ch :| Step(run[k - 1], run[k], i, ch);
      assert Levels(run[..k + 1], g) == Levels(run[..k], g) + [Level(run[k].cells, g)];
      PeakInvStep(Levels(run[..k], g), run[k - 1], run[k], i, ch, g);
    }
  }

  lemma QuietMeansCovered(s: State, h: nat, g: Gauge)
    requires Quiet(s) && Covered(h, s, g)
    ensures h <= Peak(s.cells, g)
  {
    forall i | 0 <= i < |s.actors| ensures Raising(s.actors[i], g).None? { assert s.actors[i] in s.actors; }
  }

  /** Under every interleaving the peaks never decrease ... */
  lemma {:induction false} PeakNeverDecreases(run: seq<State>, j: nat, k: nat, g: Gauge)
    requires IsRun(run) && j <= k < |run|
    ensures Peak(run[j].cells, g) <= Peak(run[k].cells, g)
  {
    if j < k {
      PeakNeverDecreases(run, j, k - 1, g);
      PeakInvHolds(run, k, g);
    }
  }

  /** ... never exceed a level that was really reached ... */
  lemma PeakWasReached(run: seq<State>, k: nat, g: Gauge)
    requires IsRun(run) && k < |run|
    ensures exists j :: 0 <= j <= k && Level(run[j].cells, g) == Peak(run[k].cells, g)
  {
    PeakInvHolds(run, k, g);
    var hist := Levels(run[..k + 1], g);
    var j :| 0 <= j < |hist| && hist[j] == Peak(run[k].cells, g);
    assert Level(run[j].cells, g) == Peak(run[k].cells, g);
  }

  /** ... and once no call is in progress they equal the maximum of the whole history, lost
      races and spurious failures notwithstanding. */
  lemma PeakIsMaximumAtRest(run: seq<State>, k: nat, g: Gauge)
    requires IsRun(run) && k < |run| && Quiet(run[k])
    ensures forall j :: 0 <= j <= k ==> Level(run[j].cells, g) <= Peak(run[k].cells, g)
    ensures exists j :: 0 <= j <= k && Level(run[j].cells, g) == Peak(run[k].cells, g)
  {
    PeakWasReached(run, k, g);
    forall j | 0 <= j <= k ensures Level(run[j].cells, g) <= Peak(run[k].cells, g) {
      PeakInvHolds(run, k, g);
      assert Levels(run[..k + 1], g)[j] == Level(run[j].cells, g);
      QuietMeansCovered(run[k], Level(run[j].cells, g), g);
    }
  }
}

/** Under the guard discipline the counters are exact. */
module GuardCounters {
  import opened Prelude
  import opened MemoryCounters

  /** What ownership of a guard or a pooled buffer allows an actor to start: an object is
      dropped once, after its creation returned and with its own size; likewise a buffer. */
  predicate Disciplined(p: Pc, ch: Choice) {
    match ch
    case StartCreate(_) => p.Idle?
    case StartCheckout(_) => p.Idle?
    case StartDrop(b) => p == Held(b)
    case StartReturn(b) => p == Borrowed(b)
    case _ => true
  }

  /** The totals of the step stay within 64 bits. */
  predicate TotalsFit(c: Cells, p: Pc) {
    match p
    case CreateCount(_) => c.created + 1 < TWO_64
    case CreateBytes(b) => c.bytesCreated + b < TWO_64
    case DropCount(_) => c.dropped + 1 < TWO_64
    case DropBytes(b) => c.bytesDropped + b < TWO_64
    case _ => true
  }

  predicate GuardStep(s: State, s': State, i: nat, ch: Choice) {
    Step(s, s', i, ch) && Disciplined(s.actors[i], ch)
  }

  ghost predicate GuardNext(s: State, s': State) { exists i: nat, ch :: GuardStep(s, s', i, ch) }

  ghost predicate GuardStepAt(run: seq<State>, k: nat)
    requires k + 1 < |run|
  {
    GuardNext(run[k], run[k + 1])
  }

  /** Any interleaving of disciplined calls. Any counter may wrap. */
  ghost predicate IsGuardRun(run: seq<State>) {
    && |run| > 0 && Initial(run[0])
    && forall k: nat :: k + 1 < |run| ==> GuardStepAt(run, k)
  }

  predicate FittingStep(s: State, s': State, i: nat, ch: Choice) {
    GuardStep(s, s', i, ch) && TotalsFit(s.cells, s.actors[i])
  }

  ghost predicate FittingNext(s: State, s': State) { exists i: nat, ch :: FittingStep(s, s', i, ch) }

  ghost predicate FittingStepAt(run: seq<State>, k: nat)
    requires k + 1 < |run|
  {
    FittingNext(run[k], run[k + 1])
  }

  /** A run of disciplined calls in which no total has wrapped. */
  ghost predicate IsFittingRun(run: seq<State>) {
    && |run| > 0 && Initial(run[0])
    && forall k: nat :: k + 1 < |run| ==> FittingStepAt(run, k)
  }

  lemma FittingIsGuardRun(run: seq<State>)
    requires IsFittingRun(run)
    ensures IsGuardRun(run)
  {
    forall k: nat | k + 1 < |run| ensures GuardStepAt(run, k) {
      assert FittingStepAt(run, k);
      var i: nat, ch :| FittingStep(run[k], run[k + 1], i, ch);
      assert GuardStep(run[k], run[k + 1], i, ch);
    }
  }

  // ----- Sums over actors -----

  function Sum(actors: seq<Pc>, w: Pc -> nat): (n: nat) {
    if actors == [] then 0 else Sum(actors[..|actors| - 1], w) + w(actors[|actors| - 1])
  }

  lemma {:induction false} SumUpdate(actors: seq<Pc>, i: nat, p: Pc, w: Pc -> nat)
    requires i < |actors|
    ensures Sum(actors[i := p], w) == Sum(actors, w) - w(actors[i]) + w(p)
    ensures Sum(actors, w) >= w(actors[i])
  {
    var n := |actors| - 1;
    if i == n {
      assert actors[i := p][..n] == actors[..n];
    } else {
      SumUpdate(actors[..n], i, p, w);
      assert actors[i := p][..n] == actors[..n][i := p];
    }
  }

  lemma {:induction false} SumZero(actors: seq<Pc>, w: Pc -> nat)
    requires forall p :: p in actors ==> w(p) == 0
    ensures Sum(actors, w) == 0
  {
    if actors != [] { SumZero(actors[..|actors| - 1], w); }
  }

  lemma {:induction false} SumAdds(actors: seq<Pc>, w: Pc -> nat, u: Pc -> nat, v: Pc -> nat)
    requires forall p :: p in actors ==> w(p) == u(p) + v(p)
    ensures Sum(actors, w) == Sum(actors, u) + Sum(actors, v)
  {
    if actors != [] { SumAdds(actors[..|actors| - 1], w, u, v); }
  }

  // ----- What each actor contributes -----

  /** Counted by `created` and not yet by `dropped`: the objects that exist. */
  function Exists(): Pc -> nat {
    (p: Pc) =>
      match p
      case CreateBytes(_) => 1 case CreateLive(_) => 1 case RaisePeakLive(_, _, _) => 1
      case AddBytesLive(_, pooled) => if pooled then 0 else 1
      case RaisePeakBytes(_, _, _, pooled) => if pooled then 0 else 1
      case Held(_) => 1 case DropCount(_) => 1
      case _ => 0
  }

  /** Past the step that raises `live` and not past the one that lowers it. */
  function CountsLive(): Pc -> nat {
    (p: Pc) =>
      match p
      case RaisePeakLive(_, _, _) => 1
      case AddBytesLive(_, pooled) => if pooled then 0 else 1
      case RaisePeakBytes(_, _, _, pooled) => if pooled then 0 else 1
      case Held(_) => 1 case DropCount(_) => 1 case DropBytes(_) => 1 case LowerLive(_, _) => 1
      case _ => 0
  }

  /** Bytes counted by `bytesCreated` and not yet by `bytesDropped`. */
  function ExistingBytes(): Pc -> nat {
    (p: Pc) =>
      match p
      case CreateLive(b) => b case RaisePeakLive(b, _, _) => b
      case AddBytesLive(b, pooled) => if pooled then 0 else b
      case RaisePeakBytes(b, _, _, pooled) => if pooled then 0 else b
      case Held(b) => b case DropCount(b) => b case DropBytes(b) => b
      case _ => 0
  }

  /** Bytes past the step that raises `bytesLive` and not past the one that lowers it. */
  function CountsBytes(): Pc -> nat {
    (p: Pc) =>
      match p
      case RaisePeakBytes(b, _, _, _) => b
      case Held(b) => b case DropCount(b) => b case DropBytes(b) => b case LowerLive(b, _) => b
      case LowerBytesLive(b, _) => b
      case Borrowed(b) => b case ReturnCount(b) => b
      case _ => 0
  }

  /** Counted by `checkouts` and not yet by `handbacks`: the buffers out of their pool. */
  function LentOut(): Pc -> nat {
    (p: Pc) =>
      match p
      case AddBytesLive(_, pooled) => if pooled then 1 else 0
      case RaisePeakBytes(_, _, _, pooled) => if pooled then 1 else 0
      case Borrowed(_) => 1 case ReturnCount(_) => 1
      case _ => 0
  }

  function BorrowedBytes(): Pc -> nat { (p: Pc) => if p.Borrowed? then p.b else 0 }

  /** Equal as 64-bit words. */
  predicate Congruent(x: int, y: int) { (x - y) % TWO_64 == 0 }

  /** The two live counters are the sums of what the actors contribute. */
  ghost predicate GaugesExact(s: State) {
    s.cells.live == Sum(s.actors, CountsLive()) && s.cells.bytesLive == Sum(s.actors, CountsBytes())
  }

  /** What exists at one time can be counted in 64 bits. */
  ghost predicate SumsFit(s: State) {
    Sum(s.actors, CountsLive()) < TWO_64 && Sum(s.actors, CountsBytes()) < TWO_64
  }

  /** The totals are exact as 64-bit words. */
  ghost predicate TotalsCongruent(s: State) {
    && Congruent(s.cells.created - s.cells.dropped, Sum(s.actors, Exists()))
    && Congruent(s.cells.bytesCreated - s.cells.bytesDropped, Sum(s.actors, ExistingBytes()))
  }

  /** The totals are exact as numbers. */
  ghost predicate TotalsExact(s: State) {
    && s.cells.created - s.cells.dropped == Sum(s.actors, Exists())
    && s.cells.bytesCreated - s.cells.bytesDropped == Sum(s.actors, ExistingBytes())
  }

  // ----- The live counters -----

  /** In an exact state neither saturating subtraction saturates. */
  lemma NeverSaturates(s: State, i: nat)
    requires GaugesExact(s) && i < |s.actors|
    ensures s.actors[i].LowerLive? ==> s.cells.live >= 1
    ensures s.actors[i].LowerBytesLive? ==> s.cells.bytesLive >= s.actors[i].b
  {
    SumUpdate(s.actors, i, Idle, CountsLive());
    SumUpdate(s.actors, i, Idle, CountsBytes());
  }

  /** The step's addition to a live counter, if it makes one, does not wrap. */
  predicate GaugesFit(c: Cells, p: Pc) {
    match p
    case CreateLive(_) => c.live + 1 < TWO_64
    case AddBytesLive(b, _) => c.bytesLive + b < TWO_64
    case _ => true
  }

  /** What a disciplined step changes in the live counters is what it changes in its actor's
      contribution, unless it wraps or saturates. */
  lemma GaugesBalance(c: Cells, p: Pc, ch: Choice)
    requires Act(c, p, ch).Some? && Disciplined(p, ch) && (ch.Go? ==> GaugesFit(c, p))
    requires (p.LowerLive? ==> c.live >= 1) && (p.LowerBytesLive? ==> c.bytesLive >= p.b)
    ensures var (c', p') := Act(c, p, ch).value;
            && c'.live - c.live == CountsLive()(p') - CountsLive()(p)
            && c'.bytesLive - c.bytesLive == CountsBytes()(p') - CountsBytes()(p)
  {
    if ch.Go? && p.CreateLive? { NoWrap(c.live, 1); }
    if ch.Go? && p.AddBytesLive? { NoWrap(c.bytesLive, p.b); }
  }

  /** What the addition to a live counter does to the sums. */
  lemma AdditionsContribute(c: Cells, p: Pc)
    ensures p.CreateLive? ==> Act(c, p, Go).Some? && CountsLive()(Act(c, p, Go).value.1) == CountsLive()(p) + 1
    ensures p.AddBytesLive? ==> Act(c, p, Go).Some? && CountsBytes()(Act(c, p, Go).value.1) == CountsBytes()(p) + p.b
  {
  }

  lemma GaugesStep(s: State, s': State, i: nat, ch: Choice)
    requires GaugesExact(s) && GuardStep(s, s', i, ch) && SumsFit(s')
    ensures GaugesExact(s')
  {
    hide Act;
    var p, p' := s.actors[i], s'.actors[i];
    NeverSaturates(s, i);
    assert s'.actors == s.actors[i := p'];
    SumUpdate(s.actors, i, p', CountsLive());
    SumUpdate(s.actors, i, p', CountsBytes());
    if ch.Go? { AdditionsContribute(s.cells, p); }
    GaugesBalance(s.cells, p, ch);
  }

  /** As long as what exists has always fitted, the live counters are exact. */
  lemma {:induction false} GaugesHold(run: seq<State>, k: nat)
    requires IsGuardRun(run) && k < |run| && forall j: nat :: j <= k ==> SumsFit(run[j])
    ensures GaugesExact(run[k])
  {
    hide GaugesExact, SumsFit, GuardStep;
    if k == 0 {
      ExactInitially(run[0]);
    } else {
      GaugesHold(run, k - 1);
      assert GuardStepAt(run, k - 1);
      var i: nat, ch :| GuardStep(run[k - 1], run[k], i, ch);
      assert SumsFit(run[k]);
      GaugesStep(run[k - 1], run[k], i, ch);
    }
  }

  predicate GaugesAreWords(c: Cells) { c.live < TWO_64 && c.bytesLive < TWO_64 }

  lemma StepKeepsWords(c: Cells, p: Pc, ch: Choice)
    requires Act(c, p, ch).Some? && GaugesAreWords(c)
    ensures GaugesAreWords(Act(c, p, ch).value.0)
  {
  }

  lemma {:induction false} WordsHold(run: seq<State>, k: nat)
    requires IsGuardRun(run) && k < |run|
    ensures GaugesAreWords(run[k].cells)
  {
    hide Act;
    if k > 0 {
      WordsHold(run, k - 1);
      assert GuardStepAt(run, k - 1);
      var i: nat, ch :| GuardStep(run[k - 1], run[k], i, ch);
      StepKeepsWords(run[k - 1].cells, run[k - 1].actors[i], ch);
    }
  }

  /** For every run of disciplined calls: the live counters are exact throughout, and so never
      saturate, exactly when what exists at one time always fits in 64 bits. */
  lemma GaugesExactIff(run: seq<State>)
    requires IsGuardRun(run)
    ensures (forall k: nat :: k < |run| ==> GaugesExact(run[k])) <==> (forall k: nat :: k < |run| ==> SumsFit(run[k]))
  {
    hide IsGuardRun;
    if forall k: nat :: k < |run| ==> SumsFit(run[k]) {
      forall k: nat | k < |run| ensures GaugesExact(run[k]) { GaugesHold(run, k); }
    }
    if forall k: nat :: k < |run| ==> GaugesExact(run[k]) {
      forall k: nat | k < |run| ensures SumsFit(run[k]) { WordsHold(run, k); }
    }
  }

  // ----- The totals -----

  lemma ObjectsBalance(c: Cells, p: Pc, ch: Choice)
    requires Act(c, p, ch).Some? && Disciplined(p, ch)
    ensures var (c', p') := Act(c, p, ch).value;
            var change := (c'.created - c'.dropped) - (c.created - c.dropped);
            var due: int := Exists()(p') - Exists()(p);
            Congruent(change, due) && (TotalsFit(c, p) ==> change == due)
  {
    if ch.Go? && p.CreateCount? { Wraps(c.created, 1); }
    if ch.Go? && p.DropCount? { Wraps(c.dropped, 1); }
  }

  lemma BytesBalance(c: Cells, p: Pc, ch: Choice)
    requires Act(c, p, ch).Some? && Disciplined(p, ch)
    ensures var (c', p') := Act(c, p, ch).value;
            var change := (c'.bytesCreated - c'.bytesDropped) - (c.bytesCreated - c.bytesDropped);
            var due: int := ExistingBytes()(p') - ExistingBytes()(p);
            Congruent(change, due) && (TotalsFit(c, p) ==> change == due)
  {
    if ch.Go? && p.CreateBytes? { Wraps(c.bytesCreated, p.b); }
    if ch.Go? && p.DropBytes? { Wraps(c.bytesDropped, p.b); }
  }

  lemma NoWrap(x: nat, y: nat)
    requires x + y < TWO_64
    ensures Add64(x, y) == x + y
  {
  }

  lemma Wraps(x: nat, y: nat)
    ensures Congruent(Add64(x, y) - x, y) && Congruent(x - Add64(x, y), 0 - y)
    ensures x + y < TWO_64 ==> Add64(x, y) == x + y
  {
    var k := (x + y) / TWO_64;
    assert Add64(x, y) == x + y - k * TWO_64;
    Multiple(-k);
    Multiple(k);
  }

  lemma Multiple(k: int)
    ensures (k * TWO_64) % TWO_64 == 0
  {
  }

  lemma CongruentSum(x: int, y: int, change: int, due: int)
    requires Congruent(x, y) && Congruent(change, due)
    ensures Congruent(x + change, y + due)
  {
  }

  lemma TotalsStep(s: State, s': State, i: nat, ch: Choice)
    requires TotalsCongruent(s) && GuardStep(s, s', i, ch)
    ensures TotalsCongruent(s')
    ensures TotalsExact(s) && TotalsFit(s.cells, s.actors[i]) ==> TotalsExact(s')
  {
    hide Act, Congruent;
    var p, p' := s.actors[i], s'.actors[i];
    var c, c' := s.cells, s'.cells;
    assert s'.actors == s.actors[i := p'];
    ObjectsBalance(c, p, ch);
    BytesBalance(c, p, ch);
    SumUpdate(s.actors, i, p', Exists());
    SumUpdate(s.actors, i, p', ExistingBytes());
    CongruentSum(c.created - c.dropped, Sum(s.actors, Exists()),
                 (c'.created - c'.dropped) - (c.created - c.dropped), Exists()(p') - Exists()(p));
    CongruentSum(c.bytesCreated - c.bytesDropped, Sum(s.actors, ExistingBytes()),
                 (c'.bytesCreated - c'.bytesDropped) - (c.bytesCreated - c.bytesDropped),
                 ExistingBytes()(p') - ExistingBytes()(p));
  }

  lemma ExactInitially(s: State)
    requires Initial(s)
    ensures GaugesExact(s) && TotalsCongruent(s) && TotalsExact(s)
  {
    SumZero(s.actors, Exists());
    SumZero(s.actors, CountsLive());
    SumZero(s.actors, ExistingBytes());
    SumZero(s.actors, CountsBytes());
  }

  /** Under every interleaving of disciplined calls the totals count, as 64-bit words, the
      objects that exist and their bytes. */
  lemma {:induction false} TotalsHold(run: seq<State>, k: nat)
    requires IsGuardRun(run) && k < |run|
    ensures TotalsCongruent(run[k])
  {
    hide GaugesExact, TotalsCongruent, TotalsExact, GuardStep;
    if k == 0 {
      ExactInitially(run[0]);
    } else {
      TotalsHold(run, k - 1);
      assert GuardStepAt(run, k - 1);
      var i: nat, ch :| GuardStep(run[k - 1], run[k], i, ch);
      TotalsStep(run[k - 1], run[k], i, ch);
    }
  }

  lemma PoolsBalance(c: Cells, p: Pc, ch: Choice)
    requires Act(c, p, ch).Some? && Disciplined(p, ch)
    ensures var (c', p') := Act(c, p, ch).value;
            Congruent((c'.checkouts - c'.handbacks) - (c.checkouts - c.handbacks), LentOut()(p') - LentOut()(p))
  {
    if ch.Go? && p.CheckoutCount? { Wraps(c.checkouts, 1); }
    if ch.Go? && p.ReturnCount? { Wraps(c.handbacks, 1); }
  }

  ghost predicate PoolsCongruent(s: State) {
    Congruent(s.cells.checkouts - s.cells.handbacks, Sum(s.actors, LentOut()))
  }

  lemma PoolsStep(s: State, s': State, i: nat, ch: Choice)
    requires PoolsCongruent(s) && GuardStep(s, s', i, ch)
    ensures PoolsCongruent(s')
  {
    hide Act, Congruent;
    var c, c', p, p' := s.cells, s'.cells, s.actors[i], s'.actors[i];
    assert s'.actors == s.actors[i := p'];
    SumUpdate(s.actors, i, p', LentOut());
    PoolsBalance(c, p, ch);
    CongruentSum(c.checkouts - c.handbacks, Sum(s.actors, LentOut()),
                 (c'.checkouts - c'.handbacks) - (c.checkouts - c.handbacks), LentOut()(p') - LentOut()(p));
  }

  /** Under every interleaving of disciplined calls, checkouts less returns count the buffers out
      of their pool, as 64-bit words. */
  lemma {:induction false} PoolsHold(run: seq<State>, k: nat)
    requires IsGuardRun(run) && k < |run|
    ensures PoolsCongruent(run[k])
  {
    if k == 0 {
      SumZero(run[0].actors, LentOut());
    } else {
      hide PoolsCongruent, GuardStep;
      PoolsHold(run, k - 1);
      assert GuardStepAt(run, k - 1);
      var i: nat, ch :| GuardStep(run[k - 1], run[k], i, ch);
      PoolsStep(run[k - 1], run[k], i, ch);
    }
  }

  /** As long as no total has wrapped they are exact as numbers too. */
  lemma {:induction false} TotalsExactHold(run: seq<State>, k: nat)
    requires IsFittingRun(run) && k < |run|
    ensures TotalsExact(run[k])
  {
    hide GaugesExact, TotalsCongruent, TotalsExact;
    if k == 0 {
      ExactInitially(run[0]);
    } else {
      TotalsExactHold(run, k - 1);
      FittingIsGuardRun(run);
      TotalsHold(run, k - 1);
      assert FittingStepAt(run, k - 1);
      var i: nat, ch :| FittingStep(run[k - 1], run[k], i, ch);
      TotalsStep(run[k - 1], run[k], i, ch);
    }
  }

  // ----- At rest -----

  /** At rest the books balance: as long as what exists has always fitted, `live` counts the held
      objects and is created minus dropped, and `bytesLive` is bytes created minus bytes dropped
      plus what the pool has lent out, as 64-bit words. */
  lemma BalancedAtRest(run: seq<State>, k: nat)
    requires IsGuardRun(run) && k < |run| && Quiet(run[k]) && forall j: nat :: j <= k ==> SumsFit(run[j])
    ensures var c := run[k].cells;
            && c.live == Sum(run[k].actors, Exists()) && Congruent(c.live, c.created - c.dropped)
            && Congruent(c.bytesLive, c.bytesCreated - c.bytesDropped + Sum(run[k].actors, BorrowedBytes()))
  {
    hide IsGuardRun, SumsFit;
    AtRestSums(run[k]);
    GaugesHold(run, k);
    TotalsHold(run, k);
    var c := run[k].cells;
    Swapped(c.created - c.dropped, c.live);
    Swapped(c.bytesCreated - c.bytesDropped, Sum(run[k].actors, ExistingBytes()));
  }

  lemma Swapped(x: int, y: int)
    requires Congruent(x, y)
    ensures Congruent(y, x)
  {
  }

  lemma AtRestSums(s: State)
    requires Quiet(s)
    ensures Sum(s.actors, CountsLive()) == Sum(s.actors, Exists())
    ensures Sum(s.actors, CountsBytes()) == Sum(s.actors, ExistingBytes()) + Sum(s.actors, BorrowedBytes())
  {
    SumZero(s.actors, _ => 0);
    SumAdds(s.actors, CountsLive(), Exists(), _ => 0);
    SumAdds(s.actors, CountsBytes(), ExistingBytes(), BorrowedBytes());
  }

  /** And as numbers, as long as no total has wrapped either. */
  lemma BalancedExactly(run: seq<State>, k: nat)
    requires IsFittingRun(run) && k < |run| && Quiet(run[k]) && forall j: nat :: j <= k ==> SumsFit(run[j])
    ensures var c := run[k].cells;
            && c.live == c.created - c.dropped
            && c.bytesLive == c.bytesCreated - c.bytesDropped + Sum(run[k].actors, BorrowedBytes())
  {
    hide IsGuardRun, IsFittingRun, SumsFit;
    AtRestSums(run[k]);
    FittingIsGuardRun(run);
    GaugesHold(run, k);
    TotalsExactHold(run, k);
  }

  // ----- Two guards that do not fit -----

  /** A run so far, and the step that continues it. */
  lemma Continue(run: seq<State>, i: nat, ch: Choice) returns (run': seq<State>)
    requires IsGuardRun(run)
    requires var s := run[|run| - 1];
             i < |s.actors| && Act(s.cells, s.actors[i], ch).Some? && Disciplined(s.actors[i], ch)
    ensures IsGuardRun(run') && |run'| == |run| + 1 && run <= run'
    ensures var s := run[|run| - 1];
            var r := Act(s.cells, s.actors[i], ch).value;
            run'[|run|] == State(r.0, s.actors[i := r.1])
  {
    var s := run[|run| - 1];
    var r := Act(s.cells, s.actors[i], ch).value;
    var s' := State(r.0, s.actors[i := r.1]);
    run' := run + [s'];
    assert GuardStep(s, s', i, ch);
    forall k: nat | k + 1 < |run'| ensures GuardStepAt(run', k) {
      if k + 1 < |run| {
        assert GuardStepAt(run, k);
        assert run'[k] == run[k] && run'[k + 1] == run[k + 1];
      } else {
        assert run'[k] == s && run'[k + 1] == s';
        assert GuardNext(s, s');
      }
    }
  }

  /** One actor's whole create call, nobody else moving, up to the raising of the peak of bytes. */
  lemma CreateAlone(run: seq<State>, i: nat, b: nat) returns (run': seq<State>)
    requires IsGuardRun(run) && i < |run[|run| - 1].actors| && run[|run| - 1].actors[i].Idle? && 0 < b < TWO_64
    ensures IsGuardRun(run') && |run'| > |run|
    ensures var s, s' := run[|run| - 1], run'[|run'| - 1];
            && |s'.actors| == |s.actors| && s'.actors[i] == Held(b)
            && (forall j :: 0 <= j < |s.actors| && j != i ==> s'.actors[j] == s.actors[j])
            && s'.cells.live == Add64(s.cells.live, 1) && s'.cells.bytesLive == Add64(s.cells.bytesLive, b)
  {
    hide IsGuardRun;
    run' := Continue(run, i, StartCreate(b));
    run' := Continue(run', i, Go);
    run' := Continue(run', i, Go);
    run' := Continue(run', i, Go);
    run' := RaiseLiveAlone(run', i);
    run' := Continue(run', i, Go);
    run' := RaiseBytesAlone(run', i);
  }

  lemma RaiseLiveAlone(run: seq<State>, i: nat) returns (run': seq<State>)
    requires IsGuardRun(run) && i < |run[|run| - 1].actors|
    requires var p := run[|run| - 1].actors[i]; p.RaisePeakLive? && p.seen.None? && p.b > 0
    ensures IsGuardRun(run') && |run'| > |run|
    ensures var s, s' := run[|run| - 1], run'[|run'| - 1];
            && s'.actors == s.actors[i := AddBytesLive(s.actors[i].b, false)]
            && s'.cells.live == s.cells.live && s'.cells.bytesLive == s.cells.bytesLive
  {
    hide IsGuardRun;
    run' := Continue(run, i, Go);
    run' := Continue(run', i, Go);
  }

  lemma RaiseBytesAlone(run: seq<State>, i: nat) returns (run': seq<State>)
    requires IsGuardRun(run) && i < |run[|run| - 1].actors|
    requires var p := run[|run| - 1].actors[i]; p.RaisePeakBytes? && p.seen.None? && !p.pooled
    ensures IsGuardRun(run') && |run'| > |run|
    ensures var s, s' := run[|run| - 1], run'[|run'| - 1];
            && s'.actors == s.actors[i := Held(s.actors[i].b)]
            && s'.cells.live == s.cells.live && s'.cells.bytesLive == s.cells.bytesLive
  {
    hide IsGuardRun;
    run' := Continue(run, i, Go);
    run' := Continue(run', i, Go);
  }

  /** One actor's drop call up to the subtraction of its bytes. */
  lemma DropAlone(run: seq<State>, i: nat) returns (run': seq<State>)
    requires IsGuardRun(run) && i < |run[|run| - 1].actors|
    requires var p := run[|run| - 1].actors[i]; p.Held? && 0 < p.b < TWO_64
    ensures IsGuardRun(run') && |run'| > |run|
    ensures var s, s' := run[|run| - 1], run'[|run'| - 1];
            && s'.actors == s.actors[i := LowerBytesLive(s.actors[i].b, None)]
            && s'.cells.bytesLive == s.cells.bytesLive
  {
    var b := run[|run| - 1].actors[i].b;
    hide IsGuardRun;
    run' := Continue(run, i, StartDrop(b));
    run' := Continue(run', i, Go);
    run' := Continue(run', i, Go);
    run' := Continue(run', i, Go);
    run' := Continue(run', i, Go);
  }

  /** Two guards of 2^63 bytes each: the live bytes wrap to zero, and the first drop finds less
      than it subtracts. */
  lemma TwoGuardsSaturate() returns (run: seq<State>)
    ensures IsGuardRun(run)
    ensures var s := run[|run| - 1];
            && |s.actors| == 2 && s.actors[0] == LowerBytesLive(TWO_63, None) && s.actors[1] == Held(TWO_63)
            && s.cells.bytesLive == 0
  {
    run := [State(Cells(0, 0, 0, 0, 0, 0, 0, 0, 0, 0), [Idle, Idle])];
    assert IsGuardRun(run);
    run := CreateAlone(run, 0, TWO_63);
    NoWrap(0, TWO_63);
    run := CreateAlone(run, 1, TWO_63);
    assert Add64(TWO_63, TWO_63) == 0;
    run := DropAlone(run, 0);
  }

  // ----- Racing snapshots -----

  /** `snapshot_kind`: `created`, `dropped` and (only when both are zero) `live`, loaded one
      after the other while the run goes on. */
  function ReportedLive(created: nat, dropped: nat, live: nat): nat {
    if created > 0 || dropped > 0 then SaturatingSub(created, dropped) else live
  }

  lemma {:induction false} DroppedNeverDecreases(run: seq<State>, j: nat, k: nat)
    requires IsFittingRun(run) && j <= k < |run|
    ensures run[j].cells.dropped <= run[k].cells.dropped
  {
    if j < k {
      DroppedNeverDecreases(run, j, k - 1);
      assert FittingStepAt(run, k - 1);
      var i: nat, ch :| FittingStep(run[k - 1], run[k], i, ch);
    }
  }

  /** A snapshot whose three loads happen at t1 <= t2 <= t3 reports no more objects than existed
      when `created` was loaded, exactly unless both counts read zero and `live` then does not. */
  lemma SnapshotBound(run: seq<State>, t1: nat, t2: nat, t3: nat)
    requires IsFittingRun(run) && t1 <= t2 <= t3 < |run|
    ensures var c, d, l := run[t1].cells.created, run[t2].cells.dropped, run[t3].cells.live;
            ReportedLive(c, d, l) <= Sum(run[t1].actors, Exists()) <==> (c > 0 || d > 0 || l == 0)
    ensures var c, d, l := run[t1].cells.created, run[t2].cells.dropped, run[t3].cells.live;
            c > 0 || d > 0 ==>
              ReportedLive(c, d, l) == SaturatingSub(Sum(run[t1].actors, Exists()) + run[t1].cells.dropped, d)
  {
    TotalsExactHold(run, t1);
    DroppedNeverDecreases(run, t1, t2);
  }

  // ----- Snapshots when totals have wrapped -----

  /** How often a total has been raised, without wrapping. */
  ghost function TrueCreated(run: seq<State>, k: nat): nat
    requires k < |run|
  {
    if k == 0 then 0
    else TrueCreated(run, k - 1) + if run[k].cells.created != run[k - 1].cells.created then 1 else 0
  }

  ghost function TrueDropped(run: seq<State>, k: nat): nat
    requires k < |run|
  {
    if k == 0 then 0
    else TrueDropped(run, k - 1) + if run[k].cells.dropped != run[k - 1].cells.dropped then 1 else 0
  }

  /** A step raises a total by one or leaves it, and the difference is what begins or ends to
      exist. */
  lemma RaisesByOne(c: Cells, p: Pc, ch: Choice)
    requires Act(c, p, ch).Some? && Disciplined(p, ch) && c.created < TWO_64 && c.dropped < TWO_64
    ensures var (c', p') := Act(c, p, ch).value;
            && (c'.created == c.created || c'.created == Add64(c.created, 1))
            && (c'.dropped == c.dropped || c'.dropped == Add64(c.dropped, 1))
            && Exists()(p') - Exists()(p)
               == (if c'.created != c.created then 1 else 0) - (if c'.dropped != c.dropped then 1 else 0)
  {
  }

  lemma NextWord(n: nat)
    ensures Add64(n % TWO_64, 1) == (n + 1) % TWO_64 && Add64(n % TWO_64, 1) != n % TWO_64
  {
  }

  /** The counters hold the true totals as 64-bit words, and the true totals differ by what exists. */
  lemma {:induction false} TrueTotals(run: seq<State>, k: nat)
    requires IsGuardRun(run) && k < |run|
    ensures run[k].cells.created == TrueCreated(run, k) % TWO_64
    ensures run[k].cells.dropped == TrueDropped(run, k) % TWO_64
    ensures TrueCreated(run, k) - TrueDropped(run, k) == Sum(run[k].actors, Exists())
  {
    hide Act, Add64;
    if k == 0 {
      ExactInitially(run[0]);
    } else {
      TrueTotals(run, k - 1);
      assert GuardStepAt(run, k - 1);
      var i: nat, ch :| GuardStep(run[k - 1], run[k], i, ch);
      var p, p' := run[k - 1].actors[i], run[k].actors[i];
      assert run[k].actors == run[k - 1].actors[i := p'];
      RaisesByOne(run[k - 1].cells, p, ch);
      SumUpdate(run[k - 1].actors, i, p', Exists());
      NextWord(TrueCreated(run, k - 1));
      NextWord(TrueDropped(run, k - 1));
    }
  }

  /** The drops as the snapshot read them, taken to be of the same turn of the 64-bit word as the
      creations it read. */
  ghost function DropsAsRead(run: seq<State>, t1: nat, t2: nat): nat
    requires t1 < |run| && t2 < |run|
  {
    TrueCreated(run, t1) / TWO_64 * TWO_64 + TrueDropped(run, t2) % TWO_64
  }

  /** For every run of disciplined calls, wrapped totals or not, the exact condition: with both
      totals read as zero `live` must not exceed what existed; otherwise the drops as read must
      exceed the creations of that turn, or not be fewer than the drops there had been. */
  lemma SnapshotIff(run: seq<State>, t1: nat, t2: nat, t3: nat)
    requires IsGuardRun(run) && t1 <= t2 <= t3 < |run|
    ensures var c, d, l := run[t1].cells.created, run[t2].cells.dropped, run[t3].cells.live;
            ReportedLive(c, d, l) <= Sum(run[t1].actors, Exists())
            <==> (if c == 0 && d == 0 then l <= Sum(run[t1].actors, Exists())
                  else c < d || TrueDropped(run, t1) <= DropsAsRead(run, t1, t2))
  {
    hide IsGuardRun, TrueCreated, TrueDropped;
    TrueTotals(run, t1);
    TrueTotals(run, t2);
    var made := TrueCreated(run, t1);
    assert made == made / TWO_64 * TWO_64 + made % TWO_64;
  }

  /** A whole life of an object of no size, by one actor alone. */
  lemma LiveAlone(run: seq<State>) returns (run': seq<State>)
    requires IsGuardRun(run) && run[|run| - 1].actors == [Idle]
    ensures IsGuardRun(run') && run <= run' && run'[|run'| - 1].actors == [Idle]
    ensures var c, c' := run[|run| - 1].cells, run'[|run'| - 1].cells;
            c'.created == Add64(c.created, 1) && c'.dropped == Add64(c.dropped, 1)
  {
    run' := HeldAlone(run);
    hide IsGuardRun;
    run' := Continue(run', 0, StartDrop(0));
    run' := Continue(run', 0, Go);
    run' := Continue(run', 0, Go);
    run' := Continue(run', 0, Go);
  }

  lemma HeldAlone(run: seq<State>) returns (run': seq<State>)
    requires IsGuardRun(run) && run[|run| - 1].actors == [Idle]
    ensures IsGuardRun(run') && run <= run' && run'[|run'| - 1].actors == [Held(0)]
    ensures var c, c' := run[|run| - 1].cells, run'[|run'| - 1].cells;
            c'.created == Add64(c.created, 1) && c'.dropped == c.dropped
  {
    hide IsGuardRun;
    run' := Continue(run, 0, StartCreate(0));
    run' := Continue(run', 0, Go);
    run' := Continue(run', 0, Go);
    run' := Continue(run', 0, Go);
    run' := Continue(run', 0, Go);
  }

  lemma {:induction false} LivesAlone(n: nat) returns (run: seq<State>)
    ensures IsGuardRun(run) && run[|run| - 1].actors == [Idle]
    ensures run[|run| - 1].cells.created == n % TWO_64 && run[|run| - 1].cells.dropped == n % TWO_64
  {
    if n == 0 {
      run := [State(Cells(0, 0, 0, 0, 0, 0, 0, 0, 0, 0), [Idle])];
    } else {
      run := LivesAlone(n - 1);
      NextWord(n - 1);
      run := LiveAlone(run);
    }
  }

  /** The condition is needed: after 2^64 - 1 objects have come and gone the creations are read,
      one more comes and goes, and the drops are read as zero. */
  lemma WrappedSnapshotOvercounts() returns (run: seq<State>, t1: nat, t2: nat)
    ensures IsGuardRun(run) && t1 <= t2 < |run|
    ensures ReportedLive(run[t1].cells.created, run[t2].cells.dropped, run[t2].cells.live)
            > Sum(run[t1].actors, Exists())
  {
    var early := LivesAlone(TWO_64 - 1);
    run := LiveAlone(early);
    t1, t2 := |early| - 1, |run| - 1;
    assert run[t1] == early[t1];
    NextWord(TWO_64 - 1);
    SumZero([Idle], Exists());
  }

  /** The exception is real: two zeros are read, an object is created, and one is reported. */
  lemma SnapshotCanOvercount() returns (run: seq<State>)
    ensures IsFittingRun(run) && |run| > 1
    ensures var end := run[|run| - 1].cells;
            ReportedLive(run[0].cells.created, run[0].cells.dropped, end.live) > Sum(run[0].actors, Exists())
  {
    var zero := Cells(0, 0, 0, 0, 0, 0, 0, 0, 0, 0);
    var s0 := State(zero, [Idle]);
    var s1 := State(zero, [CreateCount(0)]);
    var s2 := State(zero.(created := 1), [CreateLive(0)]);
    var s3 := State(zero.(created := 1, live := 1), [RaisePeakLive(0, 1, None)]);
    run := [s0, s1, s2, s3];
    assert FittingStep(s0, s1, 0, StartCreate(0));
    assert FittingStep(s1, s2, 0, Go);
    assert FittingStep(s2, s3, 0, Go);
    assert FittingNext(s0, s1) && FittingNext(s1, s2) && FittingNext(s2, s3);
    assert FittingStepAt(run, 0) && FittingStepAt(run, 1) && FittingStepAt(run, 2);
    SumZero([Idle], Exists());
  }
}
