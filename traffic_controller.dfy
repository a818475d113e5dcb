/**
 * The live junction controller: the rule that turns a vehicle count into a green
 * time, and one signal cycle over the four approaches. Printing and sleeping are
 * recorded as events of a trace, so a cycle is the sequence of events it emits.
 */
module TrafficController {
  import opened Wrappers

  datatype Direction = North | East | South | West

  /** The order in which the junction serves its approaches. */
  const Directions: seq<Direction> := [North, East, South, West]

  /** The cap on a live green phase, in seconds. */
  const MaxGreenSeconds: int := 60

  /** The fixed length of every yellow phase, in seconds. */
  const YellowSeconds: int := 2

  /**
   * Live green time for `cars` waiting vehicles: no phase for an empty approach,
   * 4 s for one car and 3 s for each further car, capped at 60 s. Negative counts
   * are not rejected; the bounds below are stated for real counts.
   */
  function GreenTime(cars: int): (seconds: int)
    ensures cars >= 0 ==> 0 <= seconds <= MaxGreenSeconds
    ensures cars >= 0 ==> (seconds == 0 <==> cars == 0)
    ensures cars >= 1 ==> seconds >= 4
  {
    if cars == 0 then 0
    else if cars == 1 then 4
    else Min(MaxGreenSeconds, 4 + (cars - 1) * 3)
  }

  lemma GreenTimeSmallCounts()
    ensures GreenTime(0) == 0 && GreenTime(1) == 4 && GreenTime(2) == 7
  {
  }

  /** From two cars on the green lies in [7, 60]; it is 58 at 19 cars and 60 from 20 cars on. */
  lemma GreenTimeRange(cars: int)
    requires cars >= 2
    ensures 7 <= GreenTime(cars) <= MaxGreenSeconds
    ensures cars >= 20 <==> GreenTime(cars) == MaxGreenSeconds
    ensures cars == 19 ==> GreenTime(cars) == 58
  {
  }

  lemma GreenTimeMonotone(a: int, b: int)
    requires 0 <= a <= b
    ensures GreenTime(a) <= GreenTime(b)
  {
  }

  /**
   * An independent reading of the rule: the first car earns 4 s and each further car
   * adds 3 s, never beyond the cap.
   */
  function GreenTimeStepwise(cars: nat): nat {
    if cars == 0 then 0
    else if cars == 1 then 4
    else Min(MaxGreenSeconds, GreenTimeStepwise(cars - 1) + 3)
  }

  lemma {:induction false} GreenTimeIsStepwise(cars: nat)
    ensures GreenTime(cars) == GreenTimeStepwise(cars)
  {
    if cars >= 2 {
      GreenTimeIsStepwise(cars - 1);
    }
  }

  /**
   * What the controller emits: one event per console line, and a `Wait` for each
   * sleep.
   */
  datatype Event =
    | Skipped(dir: Direction)
    | Green(dir: Direction, cars: int, seconds: int)
    | Wait(seconds: int)
    | Yellow(dir: Direction, seconds: int)
    | Red(dir: Direction)
    | CycleComplete

  predicate HasAllDirections(counts: map<Direction, int>) {
    forall d: Direction :: d in counts
  }

  predicate NonNegativeCounts(counts: map<Direction, int>) {
    forall d :: d in counts ==> counts[d] >= 0
  }

  /** The events one approach contributes to a cycle. */
  function PhaseTrace(dir: Direction, cars: int): seq<Event> {
    var g := GreenTime(cars);
    if g == 0 then [Skipped(dir)]
    else [Green(dir, cars, g), Wait(g), Yellow(dir, YellowSeconds), Wait(YellowSeconds), Red(dir)]
  }

  /** The events of the approaches `dirs`, served in that order. */
  function PhasesTrace(dirs: seq<Direction>, counts: map<Direction, int>): seq<Event>
    requires HasAllDirections(counts)
  {
    if dirs == [] then []
    else
      var last := dirs[|dirs| - 1];
      PhasesTrace(dirs[..|dirs| - 1], counts) + PhaseTrace(last, counts[last])
  }

  /** The whole single pass: every approach in the fixed order, then the completion line. */
  function CycleTrace(counts: map<Direction, int>): seq<Event>
    requires HasAllDirections(counts)
  {
    PhasesTrace(Directions, counts) + [CycleComplete]
  }

  /** One pass of the junction controller, emitting its events in order. */
  method JunctionCycle(counts: map<Direction, int>) returns (trace: seq<Event>)
    requires HasAllDirections(counts)
    requires NonNegativeCounts(counts)
    ensures trace == CycleTrace(counts)
  {
    trace := [];
    for i := 0 to |Directions|
      invariant trace == PhasesTrace(Directions[..i], counts)
    {
      assert Directions[..i + 1][..i] == Directions[..i];
      var dir := Directions[i];
      var cars := counts[dir];
      var greenTime := GreenTime(cars);
      if greenTime == 0 {
        trace := trace + [Skipped(dir)];
        continue;
      }
      trace := trace + [Green(dir, cars, greenTime)];
      trace := trace + [Wait(greenTime)];
      trace := trace + [Yellow(dir, YellowSeconds)];
      trace := trace + [Wait(YellowSeconds)];
      trace := trace + [Red(dir)];
    }
    assert Directions[..|Directions|] == Directions;
    trace := trace + [CycleComplete];
  }

  // ----- Observations of a trace -----

  /** The approaches whose turn begins (with a skip or a green), in trace order. */
  function Served(t: seq<Event>): seq<Direction> {
    if t == [] then []
    else (if t[0].Skipped? || t[0].Green? then [t[0].dir] else []) + Served(t[1..])
  }

  /** The seconds slept over a trace. */
  function TotalWait(t: seq<Event>): int {
    if t == [] then 0 else (if t[0].Wait? then t[0].seconds else 0) + TotalWait(t[1..])
  }

  predicate About(e: Event, d: Direction) {
    (e.Skipped? || e.Green? || e.Yellow? || e.Red?) && e.dir == d
  }

  /** The events that name approach `d`, in trace order. */
  function EventsFor(t: seq<Event>, d: Direction): seq<Event> {
    if t == [] then [] else (if About(t[0], d) then [t[0]] else []) + EventsFor(t[1..], d)
  }

  lemma {:induction false} ServedAppend(a: seq<Event>, b: seq<Event>)
    ensures Served(a + b) == Served(a) + Served(b)
  {
    if a != [] {
      assert (a + b)[1..] == a[1..] + b;
      ServedAppend(a[1..], b);
    } else {
      assert a + b == b;
    }
  }

  lemma {:induction false} TotalWaitAppend(a: seq<Event>, b: seq<Event>)
    ensures TotalWait(a + b) == TotalWait(a) + TotalWait(b)
  {
    if a != [] {
      assert (a + b)[1..] == a[1..] + b;
      TotalWaitAppend(a[1..], b);
    } else {
      assert a + b == b;
    }
  }

  lemma {:induction false} EventsForAppend(a: seq<Event>, b: seq<Event>, d: Direction)
    ensures EventsFor(a + b, d) == EventsFor(a, d) + EventsFor(b, d)
  {
    if a != [] {
      assert (a + b)[1..] == a[1..] + b;
      EventsForAppend(a[1..], b, d);
    } else {
      assert a + b == b;
    }
  }

  /** What an approach shows of its turn: a skip, or green with its time, yellow and red. */
  function ApproachEvents(dir: Direction, cars: int): seq<Event> {
    if GreenTime(cars) == 0 then [Skipped(dir)]
    else [Green(dir, cars, GreenTime(cars)), Yellow(dir, YellowSeconds), Red(dir)]
  }

  /** What each observation sees of a single approach's phase. */
  lemma PhaseObservations(dir: Direction, cars: int, d: Direction)
    ensures var p := PhaseTrace(dir, cars);
      && Served(p) == [dir]
      && TotalWait(p) == PhaseCost(cars)
      && EventsFor(p, d) == if dir == d then ApproachEvents(dir, cars) else []
  {
    var p := PhaseTrace(dir, cars);
    var g := GreenTime(cars);
    if g != 0 {
      var tail := if dir == d then [Red(dir)] else [];
      assert Served(p[4..]) == [] && TotalWait(p[4..]) == 0 && EventsFor(p[4..], d) == tail;
      assert Served(p[3..]) == [] && TotalWait(p[3..]) == YellowSeconds && EventsFor(p[3..], d) == tail;
      tail := if dir == d then [Yellow(dir, YellowSeconds), Red(dir)] else [];
      assert Served(p[2..]) == [] && TotalWait(p[2..]) == YellowSeconds && EventsFor(p[2..], d) == tail;
      assert Served(p[1..]) == [] && TotalWait(p[1..]) == g + YellowSeconds && EventsFor(p[1..], d) == tail;
    } else {
      assert p[1..] == [];
    }
  }

  /** A cycle is the four approaches' phases in the fixed order, then the completion event. */
  lemma CycleShape(counts: map<Direction, int>)
    requires HasAllDirections(counts)
    ensures CycleTrace(counts)
         == PhaseTrace(North, counts[North]) + PhaseTrace(East, counts[East])
          + PhaseTrace(South, counts[South]) + PhaseTrace(West, counts[West]) + [CycleComplete]
  {
    assert Directions[..3] == [North, East, South];
    assert [North, East, South][..2] == [North, East];
    assert [North, East][..1] == [North];
    assert [North][..0] == [];
    var pn, pe := PhaseTrace(North, counts[North]), PhaseTrace(East, counts[East]);
    var ps, pw := PhaseTrace(South, counts[South]), PhaseTrace(West, counts[West]);
    assert PhasesTrace([North], counts) == pn;
    assert PhasesTrace([North, East], counts) == pn + pe;
    assert PhasesTrace([North, East, South], counts) == pn + pe + ps;
    assert PhasesTrace(Directions, counts) == pn + pe + ps + pw;
  }

  /** The approaches of `dirs` are served in the order of `dirs`. */
  lemma {:induction false} PhasesServed(dirs: seq<Direction>, counts: map<Direction, int>)
    requires HasAllDirections(counts)
    ensures Served(PhasesTrace(dirs, counts)) == dirs
  {
    if dirs != [] {
      var n := |dirs| - 1;
      PhasesServed(dirs[..n], counts);
      ServedAppend(PhasesTrace(dirs[..n], counts), PhaseTrace(dirs[n], counts[dirs[n]]));
      PhaseObservations(dirs[n], counts[dirs[n]], dirs[n]);
      assert dirs == dirs[..n] + [dirs[n]];
    }
  }

  /** The approaches are served exactly once each, in the order North, East, South, West. */
  lemma CycleServesInOrder(counts: map<Direction, int>)
    requires HasAllDirections(counts)
    ensures Served(CycleTrace(counts)) == Directions
  {
    PhasesServed(Directions, counts);
    ServedAppend(PhasesTrace(Directions, counts), [CycleComplete]);
    assert Served([CycleComplete]) == [];
  }

  /** The trace ends with the completion event, which occurs nowhere else. */
  lemma CycleCompletesOnceAtEnd(counts: map<Direction, int>)
    requires HasAllDirections(counts)
    ensures var t := CycleTrace(counts);
      t[|t| - 1] == CycleComplete && forall i :: 0 <= i < |t| - 1 ==> t[i] != CycleComplete
  {
    CycleShape(counts);
  }

  predicate Distinct(dirs: seq<Direction>) {
    forall i, j :: 0 <= i < j < |dirs| ==> dirs[i] != dirs[j]
  }

  /** Dropping the last of distinct approaches leaves distinct approaches, none of them the last. */
  lemma DistinctInit(dirs: seq<Direction>)
    requires Distinct(dirs) && dirs != []
    ensures Distinct(dirs[..|dirs| - 1]) && dirs[|dirs| - 1] !in dirs[..|dirs| - 1]
  {
    var init := dirs[..|dirs| - 1];
    assert forall i :: 0 <= i < |init| ==> init[i] == dirs[i];
  }

  /** Over distinct approaches `dirs`, approach `d` shows its own turn if it is among them, else nothing. */
  lemma {:induction false} PhasesEventsFor(dirs: seq<Direction>, counts: map<Direction, int>, d: Direction)
    requires HasAllDirections(counts) && Distinct(dirs)
    ensures EventsFor(PhasesTrace(dirs, counts), d) == if d in dirs then ApproachEvents(d, counts[d]) else []
  {
    if dirs != [] {
      var n := |dirs| - 1;
      var init, last := dirs[..n], dirs[n];
      DistinctInit(dirs);
      assert dirs == init + [last];
      var before, turn := PhasesTrace(init, counts), PhaseTrace(last, counts[last]);
      assert PhasesTrace(dirs, counts) == before + turn;
      PhasesEventsFor(init, counts, d);
      EventsForAppend(before, turn, d);
      PhaseObservations(last, counts[last], d);
      assert d in dirs <==> d in init || d == last;
    }
  }

  /**
   * An empty approach shows up only as a skip (no green, yellow or red); any other
   * approach shows green with its time, then yellow, then red.
   */
  lemma CycleEventsForApproach(counts: map<Direction, int>, d: Direction)
    requires HasAllDirections(counts) && NonNegativeCounts(counts)
    ensures var c := counts[d];
      EventsFor(CycleTrace(counts), d)
        == if c == 0 then [Skipped(d)]
           else [Green(d, c, GreenTime(c)), Yellow(d, YellowSeconds), Red(d)]
  {
    assert Distinct(Directions);
    PhasesEventsFor(Directions, counts, d);
    EventsForAppend(PhasesTrace(Directions, counts), [CycleComplete], d);
    assert EventsFor([CycleComplete], d) == [];
    assert d in Directions by {
      match d
      case North => assert Directions[0] == North;
      case East => assert Directions[1] == East;
      case South => assert Directions[2] == South;
      case West => assert Directions[3] == West;
    }
  }

  /** `run` occurs in `t` from position `k` on. */
  predicate RunAt(t: seq<Event>, k: int, run: seq<Event>) {
    0 <= k <= |t| - |run| && t[k..k + |run|] == run
  }

  /** A piece of a concatenation occurs at the length of what precedes it. */
  lemma RunInside(a: seq<Event>, p: seq<Event>, b: seq<Event>)
    ensures RunAt(a + p + b, |a|, p)
  {
    assert (a + p + b)[|a|..|a| + |p|] == p;
  }

  /** Within the trace, an occupied approach's turn is one unbroken run of five events. */
  lemma CycleActivePhaseIsContiguous(counts: map<Direction, int>, d: Direction)
    requires HasAllDirections(counts) && NonNegativeCounts(counts)
    requires counts[d] != 0
    ensures var t, c := CycleTrace(counts), counts[d];
      exists k :: RunAt(t, k, [Green(d, c, GreenTime(c)), Wait(GreenTime(c)), Yellow(d, YellowSeconds), Wait(YellowSeconds), Red(d)])
  {
    CycleShape(counts);
    var t := CycleTrace(counts);
    var pn, pe := PhaseTrace(North, counts[North]), PhaseTrace(East, counts[East]);
    var ps, pw := PhaseTrace(South, counts[South]), PhaseTrace(West, counts[West]);
    var end := [CycleComplete];
    match d
    case North =>
      assert t == [] + pn + (pe + ps + pw + end);
      RunInside([], pn, pe + ps + pw + end);
    case East =>
      assert t == pn + pe + (ps + pw + end);
      RunInside(pn, pe, ps + pw + end);
    case South =>
      assert t == (pn + pe) + ps + (pw + end);
      RunInside(pn + pe, ps, pw + end);
    case West =>
      assert t == (pn + pe + ps) + pw + end;
      RunInside(pn + pe + ps, pw, end);
  }

  /** The seconds an approach holds the junction: its green plus its yellow, none when skipped. */
  function PhaseCost(cars: int): int {
    if GreenTime(cars) == 0 then 0 else GreenTime(cars) + YellowSeconds
  }

  /** Time slept over a cycle is the green-plus-yellow of every approach that was not skipped. */
  lemma CycleTotalWait(counts: map<Direction, int>)
    requires HasAllDirections(counts)
    ensures TotalWait(CycleTrace(counts))
         == PhaseCost(counts[North]) + PhaseCost(counts[East]) + PhaseCost(counts[South]) + PhaseCost(counts[West])
  {
    CycleShape(counts);
    var pn, pe := PhaseTrace(North, counts[North]), PhaseTrace(East, counts[East]);
    var ps, pw := PhaseTrace(South, counts[South]), PhaseTrace(West, counts[West]);
    TotalWaitAppend(pn, pe);
    TotalWaitAppend(pn + pe, ps);
    TotalWaitAppend(pn + pe + ps, pw);
    TotalWaitAppend(pn + pe + ps + pw, [CycleComplete]);
    PhaseObservations(North, counts[North], North);
    PhaseObservations(East, counts[East], North);
    PhaseObservations(South, counts[South], North);
    PhaseObservations(West, counts[West], North);
  }

  /** Every sleep of a cycle is a yellow (2 s) or a green of 4 to 60 s; a cycle sleeps at most 248 s. */
  lemma CycleWaitBounds(counts: map<Direction, int>)
    requires HasAllDirections(counts) && NonNegativeCounts(counts)
    ensures var t := CycleTrace(counts);
      (forall i :: 0 <= i < |t| && t[i].Wait? ==>
         t[i].seconds == YellowSeconds || 4 <= t[i].seconds <= MaxGreenSeconds)
      && TotalWait(t) <= 4 * (MaxGreenSeconds + YellowSeconds)
  {
    CycleShape(counts);
    CycleTotalWait(counts);
  }

  /** The counts the vision stub reports. */
  const MockedCounts: map<Direction, int> := map[North := 12, East := 3, South := 0, West := 7]

  /** On the stub's counts South is skipped, the others get 37 s, 10 s and 22 s, and 75 s are slept. */
  lemma MockedCycle()
    ensures HasAllDirections(MockedCounts)
    ensures CycleTrace(MockedCounts) == [
      Green(North, 12, 37), Wait(37), Yellow(North, 2), Wait(2), Red(North),
      Green(East, 3, 10), Wait(10), Yellow(East, 2), Wait(2), Red(East),
      Skipped(South),
      Green(West, 7, 22), Wait(22), Yellow(West, 2), Wait(2), Red(West),
      CycleComplete]
    ensures TotalWait(CycleTrace(MockedCounts)) == 75
  {
    forall d: Direction
      ensures d in MockedCounts
    {
      match d
      case North =>
      case East =>
      case South =>
      case West =>
    }
    CycleShape(MockedCounts);
    CycleTotalWait(MockedCounts);
  }
}
