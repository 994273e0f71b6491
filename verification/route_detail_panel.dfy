/**
  The route detail panel: from a route's steps it derives the overall
  origin and destination, the step count and its label, the distinct
  transport types in order of first use, the timeline's inputs, and one
  numbered detail card per step.
*/
module RouteDetailPanel {
  import opened Wrappers
  import TransportStyle
  import RouteTimeline

  datatype Location = Location(id: int, locationCode: string, name: string, city: string, country: string)

  /** One leg. `operatingDays` is carried but never read by the panel. */
  datatype RouteStep = RouteStep(
    transportationId: int,
    transportType: string,
    origin: Location,
    destination: Location,
    operatingDays: seq<int>)

  datatype Route = Route(steps: seq<RouteStep>)

  /** One card of the "Transportation Details" list. */
  datatype StepDetail = StepDetail(
    number: nat,
    transportType: string,
    badgeClass: TransportStyle.ClassList,
    transportationId: int,
    origin: Location,
    destination: Location)

  datatype Summary = Summary(
    origin: Location,
    destination: Location,
    totalSteps: nat,
    stepWord: string,
    transportTypes: seq<string>,
    stops: seq<RouteTimeline.Stop>,
    transports: seq<string>,
    details: seq<StepDetail>)

  /**
    What the panel shows. For a route with no steps `steps[0]` is
    `undefined`, and reading its `.origin` throws while rendering.
  */
  datatype PanelView = Closed | MissingFirstStep | Open(summary: Summary)

  predicate NoDuplicates<T(==)>(s: seq<T>) {
    forall i, j :: 0 <= i < j < |s| ==> s[i] != s[j]
  }

  /** Where `x` first occurs in `xs`. */
  function FirstIndex<T(==)>(xs: seq<T>, x: T): (k: nat)
    requires x in xs
    ensures k < |xs| && xs[k] == x && x !in xs[..k]
  {
    if xs[0] == x then 0
    else
      var k := 1 + FirstIndex(xs[1..], x);
      assert xs[..k] == [xs[0]] + xs[1..][..k - 1];
      k
  }

  /** A first occurrence inside a prefix is the first occurrence in the whole sequence. */
  lemma FirstIndexInPrefix<T>(xs: seq<T>, n: nat, x: T)
    requires n <= |xs| && x in xs[..n]
    ensures FirstIndex(xs, x) == FirstIndex(xs[..n], x)
  {
    var a := FirstIndex(xs[..n], x);
    var b := FirstIndex(xs, x);
    assert xs[..n][..a] == xs[..a];
    assert forall k :: 0 <= k < a ==> xs[k] != x by {
      forall k | 0 <= k < a
        ensures xs[k] != x
      {
        assert xs[..a][k] == xs[k];
      }
    }
    assert forall k :: 0 <= k < b ==> xs[k] != x by {
      forall k | 0 <= k < b
        ensures xs[k] != x
      {
        assert xs[..b][k] == xs[k];
      }
    }
  }

  /** `[...new Set(xs)]`: each value once, in the order it first appears. */
  function Distinct<T(==, !new)>(xs: seq<T>): (r: seq<T>)
    ensures forall x :: x in r <==> x in xs
    ensures NoDuplicates(r)
    ensures |r| <= |xs|
    ensures forall i, j :: 0 <= i < j < |r| ==> FirstIndex(xs, r[i]) < FirstIndex(xs, r[j])
    decreases |xs|
  {
    if |xs| == 0 then []
    else
      var n := |xs| - 1;
      var init := xs[..n];
      var d := Distinct(init);
      assert forall x :: x in xs <==> x in init || x == xs[n] by {
        assert xs == init + [xs[n]];
      }
      assert forall i :: 0 <= i < |d| ==> FirstIndex(xs, d[i]) == FirstIndex(init, d[i]) by {
        forall i | 0 <= i < |d|
          ensures FirstIndex(xs, d[i]) == FirstIndex(init, d[i])
        {
          FirstIndexInPrefix(xs, n, d[i]);
        }
      }
      if xs[n] in d then d
      else
        assert FirstIndex(xs, xs[n]) == n;
        d + [xs[n]]
  }

  function TypesOf(steps: seq<RouteStep>): (types: seq<string>)
    ensures |types| == |steps|
    ensures forall i :: 0 <= i < |steps| ==> types[i] == steps[i].transportType
  {
    seq(|steps|, i requires 0 <= i < |steps| => steps[i].transportType)
  }

  function StopOf(loc: Location): RouteTimeline.Stop {
    RouteTimeline.Stop(loc.name, loc.locationCode, loc.city)
  }

  /** The timeline's stops: the first origin, then every destination. */
  function StopsOf(steps: seq<RouteStep>): (stops: seq<RouteTimeline.Stop>)
    requires |steps| > 0
    ensures |stops| == |steps| + 1
    ensures stops[0] == StopOf(steps[0].origin)
    ensures forall i :: 0 <= i < |steps| ==> stops[i + 1] == StopOf(steps[i].destination)
  {
    [StopOf(steps[0].origin)] + seq(|steps|, i requires 0 <= i < |steps| => StopOf(steps[i].destination))
  }

  /** "Step" for a single step (or none), "Steps" otherwise. */
  function StepWord(totalSteps: nat): (word: string)
    ensures word == "Steps" <==> totalSteps > 1
    ensures word == "Step" <==> totalSteps <= 1
  {
    "Step" + (if totalSteps > 1 then "s" else "")
  }

  /** The card for the step at `index`: numbered from 1, badge from the shared table. */
  function DetailOf(step: RouteStep, index: nat): (d: StepDetail)
    ensures d.number == index + 1
    ensures d.badgeClass == TransportStyle.BadgeClass(step.transportType)
    ensures d.transportType == step.transportType && d.transportationId == step.transportationId
    ensures d.origin == step.origin && d.destination == step.destination
  {
    TransportStyle.PanelAndTimelineBadgesAgree(step.transportType);
    StepDetail(index + 1, step.transportType, TransportStyle.PanelBadgeClass(step.transportType),
      step.transportationId, step.origin, step.destination)
  }

  /** The panel's derivations for a route with at least one step. */
  function Summarize(steps: seq<RouteStep>): (s: Summary)
    requires |steps| > 0
    ensures s.origin == steps[0].origin && s.destination == steps[|steps| - 1].destination
    ensures s.totalSteps == |steps|
    ensures s.stepWord == "Steps" <==> |steps| > 1
    ensures NoDuplicates(s.transportTypes)
    ensures forall t :: t in s.transportTypes <==> t in TypesOf(steps)
    ensures |s.transportTypes| <= |steps|
    ensures |s.stops| == |steps| + 1 && |s.transports| == |steps|
    ensures s.stops[0] == StopOf(steps[0].origin)
    ensures forall i :: 0 <= i < |steps| ==> s.stops[i + 1] == StopOf(steps[i].destination)
    ensures forall i :: 0 <= i < |steps| ==> s.transports[i] == steps[i].transportType
    ensures |s.details| == |steps|
    ensures forall i :: 0 <= i < |steps| ==>
      && s.details[i].number == i + 1
      && s.details[i].transportType == steps[i].transportType
      && s.details[i].badgeClass == TransportStyle.BadgeClass(steps[i].transportType)
  {
    var types := TypesOf(steps);
    Summary(
      steps[0].origin,
      steps[|steps| - 1].destination,
      |steps|,
      StepWord(|steps|),
      Distinct(types),
      StopsOf(steps),
      types,
      seq(|steps|, i requires 0 <= i < |steps| => DetailOf(steps[i], i)))
  }

  /** `RouteDetailPanel`: nothing when closed or without a route; otherwise the summary. */
  function Panel(isOpen: bool, route: Option<Route>): (v: PanelView)
    ensures v.Closed? <==> !isOpen || route.None?
    ensures v.MissingFirstStep? <==> isOpen && route.Some? && |route.value.steps| == 0
    ensures v.Open? ==> isOpen && route.Some? && |route.value.steps| > 0
    ensures v.Open? ==> v.summary == Summarize(route.value.steps)
  {
    if !isOpen || route.None? then Closed
    else if |route.value.steps| == 0 then MissingFirstStep
    else Open(Summarize(route.value.steps))
  }

  /** Consecutive steps meet: each leg starts where the previous one ended. The panel never checks this. */
  predicate Chained(steps: seq<RouteStep>) {
    forall i :: 0 <= i < |steps| - 1 ==> steps[i].destination == steps[i + 1].origin
  }

  /** For a chained route, timeline stop i is where step i departs, so transport i is the leg leaving it. */
  lemma ChainedStopsAreOrigins(steps: seq<RouteStep>)
    requires |steps| > 0 && Chained(steps)
    ensures var s := Summarize(steps);
      forall i :: 0 <= i < |steps| ==>
        s.stops[i] == StopOf(steps[i].origin) && s.transports[i] == steps[i].transportType
  {
    var s := Summarize(steps);
    forall i | 0 <= i < |steps|
      ensures s.stops[i] == StopOf(steps[i].origin)
    {
      if i > 0 {
        assert s.stops[i] == StopOf(steps[i - 1].destination);
        assert steps[i - 1].destination == steps[i].origin;
      }
    }
  }

  /**
    The opened panel's timeline draws n + 1 stops for n steps, and shows
    every step's type exactly once, in step order, between the stops.
  */
  lemma TimelineShowsEveryStep(steps: seq<RouteStep>)
    requires |steps| > 0
    ensures var s := Summarize(steps);
      var shown := RouteTimeline.Shown(RouteTimeline.Timeline(s.stops, s.transports));
      && |RouteTimeline.Timeline(s.stops, s.transports)| == |steps| + 1
      && |shown| == |steps|
      && forall i :: 0 <= i < |steps| ==> shown[i] == Some(steps[i].transportType)
  {
    var s := Summarize(steps);
    RouteTimeline.EveryTransportShownOnce(s.stops, s.transports);
  }

  /** The summary's type badges list each type once, in order of the first step that uses it. */
  lemma TypeBadgesInFirstUseOrder(steps: seq<RouteStep>)
    requires |steps| > 0
    ensures var badges := Summarize(steps).transportTypes;
      var types := TypesOf(steps);
      forall i, j :: 0 <= i < j < |badges| ==> FirstIndex(types, badges[i]) < FirstIndex(types, badges[j])
  {
  }

  /** Two flights IST -> DXB -> JFK: one badge type, two steps, "Steps". */
  lemma TwoFlightLegs(ist: Location, dxb: Location, jfk: Location)
    ensures var steps := [RouteStep(1, "FLIGHT", ist, dxb, []), RouteStep(2, "FLIGHT", dxb, jfk, [])];
      var s := Summarize(steps);
      && s.origin == ist && s.destination == jfk
      && s.totalSteps == 2 && s.stepWord == "Steps"
      && s.transportTypes == ["FLIGHT"]
      && s.transports == ["FLIGHT", "FLIGHT"]
  {
    var steps := [RouteStep(1, "FLIGHT", ist, dxb, []), RouteStep(2, "FLIGHT", dxb, jfk, [])];
    assert TypesOf(steps) == ["FLIGHT", "FLIGHT"];
    assert TypesOf(steps)[..1] == ["FLIGHT"];
    assert Distinct(["FLIGHT"]) == ["FLIGHT"] by {
      assert ["FLIGHT"][..0] == [];
    }
  }
}
