/**
  The journey timeline: one row per stop, each followed, except the last,
  by a segment showing the transport that leaves it. Layout and the class
  strings of the circles are not modelled; which circle style a stop gets
  is.
*/
module RouteTimeline {
  import opened Wrappers
  import TransportStyle

  /** The fields of a location the timeline reads. */
  datatype Stop = Stop(name: string, locationCode: string, city: string)

  /** The circle drawn for a stop: filled primary, filled gray, or hollow. */
  datatype Marker = OriginMarker | TerminalMarker | WaypointMarker

  /** The badge between two stops. `transport` is None where the timeline reads past the end of its array. */
  datatype Segment = Segment(transport: Option<string>, icon: string, badgeClass: TransportStyle.ClassList, iconClass: TransportStyle.ClassList)

  datatype Row = Row(
    stop: Stop,
    isFirst: bool,
    isLast: bool,
    marker: Marker,
    subtitle: string,
    segment: Option<Segment>)

  /** The separator as the timeline spells it: the UTF-8 bytes of a bullet read back as Windows-1252. */
  const SEPARATOR_AS_WRITTEN: string := "\U{E2}\U{20AC}\U{A2}"
  /** The bullet that was meant. */
  const BULLET: char := '\U{2022}'

  /** The city, a space, then the separated code when there is one (falsy "" renders nothing). */
  function SubtitleWith(separator: string, stop: Stop): string {
    stop.city + " " + (if stop.locationCode != "" then separator + " " + stop.locationCode else "")
  }

  /** The subtitle as the timeline renders it. */
  function SubtitleAsWritten(stop: Stop): (s: string)
    ensures |s| >= |stop.city| + 1
    ensures s[..|stop.city| + 1] == stop.city + " "
    ensures stop.locationCode == "" ==> s == stop.city + " "
    ensures stop.locationCode != "" ==>
      && |s| == |stop.city| + |stop.locationCode| + 5
      && s[|stop.city| + 1..|stop.city| + 4] == SEPARATOR_AS_WRITTEN
      && s[|stop.city| + 4] == ' '
      && s[|s| - |stop.locationCode|..] == stop.locationCode
  {
    var s := SubtitleWith(SEPARATOR_AS_WRITTEN, stop);
    assert s[..|stop.city| + 1] == stop.city + " ";
    s
  }

  /** The subtitle with a one-character bullet, shown only when the code is non-empty. */
  function Subtitle(stop: Stop): (s: string)
    ensures |s| >= |stop.city| + 1
    ensures |s| > |stop.city| + 1 <==> stop.locationCode != ""
    ensures s[..|stop.city| + 1] == stop.city + " "
    ensures stop.locationCode != "" ==>
      && |s| == |stop.city| + |stop.locationCode| + 3
      && s[|stop.city| + 1] == BULLET
      && s[|stop.city| + 2] == ' '
      && s[|s| - |stop.locationCode|..] == stop.locationCode
  {
    var s := SubtitleWith([BULLET], stop);
    assert s[..|stop.city| + 1] == stop.city + " ";
    s
  }

  /** The timeline's separator puts three characters where one bullet was meant. */
  lemma SeparatorIsMisencoded()
    ensures |SEPARATOR_AS_WRITTEN| == 3 && SEPARATOR_AS_WRITTEN != [BULLET]
    ensures SubtitleAsWritten(Stop("Istanbul Airport", "IST", "Istanbul")) == "Istanbul \U{E2}\U{20AC}\U{A2} IST"
    ensures Subtitle(Stop("Istanbul Airport", "IST", "Istanbul")) == "Istanbul \U{2022} IST"
  {
  }

  /** `transports[index]`, with JavaScript's `undefined` past the end. */
  function TransportAt(transports: seq<string>, index: nat): (t: Option<string>)
    ensures t.Some? <==> index < |transports|
    ensures t.Some? ==> t.value == transports[index]
  {
    if index < |transports| then Some(transports[index]) else None
  }

  /** The transport badge for one (possibly undefined) transport. */
  function SegmentFor(transport: Option<string>): (seg: Segment)
    ensures seg.transport == transport
    ensures transport.Some? ==> seg.icon == TransportStyle.Icon(transport.value)
    ensures transport.None? ==> seg.icon == "directions"
    ensures seg.badgeClass == TransportStyle.BadgeClassOf(transport)
    ensures seg.iconClass == TransportStyle.IconClassOf(transport)
    ensures seg.badgeClass[2..] == seg.iconClass
  {
    Segment(transport,
      TransportStyle.IconOf(transport),
      TransportStyle.BadgeClassOf(transport),
      TransportStyle.IconClassOf(transport))
  }

  /** The row the timeline renders for `stops[index]`. */
  function RowAt(stops: seq<Stop>, transports: seq<string>, index: nat): (row: Row)
    requires index < |stops|
    ensures row.stop == stops[index]
    ensures row.isFirst <==> index == 0
    ensures row.isLast <==> index == |stops| - 1
    ensures row.marker == OriginMarker <==> index == 0
    ensures row.marker == TerminalMarker <==> 0 < index == |stops| - 1
    ensures row.subtitle == SubtitleAsWritten(stops[index])
    ensures row.segment.Some? <==> index < |stops| - 1
    ensures row.segment.Some? ==> row.segment.value == SegmentFor(TransportAt(transports, index))
  {
    var isFirst := index == 0;
    var isLast := index == |stops| - 1;
    var marker := if isFirst then OriginMarker else if isLast then TerminalMarker else WaypointMarker;
    var segment := if !isLast then Some(SegmentFor(TransportAt(transports, index))) else None;
    Row(stops[index], isFirst, isLast, marker, SubtitleAsWritten(stops[index]), segment)
  }

  /** `RouteTimeline`: every stop in order, and the transport after each but the last. */
  function Timeline(stops: seq<Stop>, transports: seq<string>): (rows: seq<Row>)
    ensures |rows| == |stops|
    ensures forall i :: 0 <= i < |rows| ==> rows[i].stop == stops[i]
    ensures forall i :: 0 <= i < |rows| ==> rows[i].subtitle == SubtitleAsWritten(stops[i])
    ensures forall i :: 0 <= i < |rows| ==> (rows[i].isFirst <==> i == 0)
    ensures forall i :: 0 <= i < |rows| ==> (rows[i].isLast <==> i == |rows| - 1)
    ensures forall i :: 0 <= i < |rows| ==> (rows[i].segment.Some? <==> i < |rows| - 1)
    ensures forall i :: 0 <= i < |rows| && rows[i].segment.Some? ==>
      rows[i].segment.value.transport == TransportAt(transports, i)
  {
    seq(|stops|, i requires 0 <= i < |stops| => RowAt(stops, transports, i))
  }

  /**
    The circle rule: the first stop is always the origin circle, even when it
    is also the last; the last of two or more stops is the terminal circle.
  */
  lemma MarkerRule(stops: seq<Stop>, transports: seq<string>, i: nat)
    requires i < |stops|
    ensures var row := Timeline(stops, transports)[i];
      && (row.marker == OriginMarker <==> i == 0)
      && (row.marker == TerminalMarker <==> 0 < i == |stops| - 1)
      && (row.marker == WaypointMarker <==> 0 < i < |stops| - 1)
  {
    assert Timeline(stops, transports)[i] == RowAt(stops, transports, i);
  }

  /** A single stop is both first and last, and is drawn as the origin with no segment. */
  lemma SingleStop(stop: Stop, transports: seq<string>)
    ensures var rows := Timeline([stop], transports);
      && |rows| == 1
      && rows[0].isFirst && rows[0].isLast
      && rows[0].marker == OriginMarker
      && rows[0].segment.None?
  {
    assert Timeline([stop], transports)[0] == RowAt([stop], transports, 0);
  }

  /** The transports the segments display, top to bottom. */
  function Shown(rows: seq<Row>): seq<Option<string>>
    decreases |rows|
  {
    if |rows| == 0 then []
    else (if rows[0].segment.Some? then [rows[0].segment.value.transport] else []) + Shown(rows[1..])
  }

  /** `transports[k..]`, read index by index, up to `count` entries. */
  function ReadFrom(transports: seq<string>, k: nat, count: nat): (r: seq<Option<string>>)
    ensures |r| == count
    ensures forall i :: 0 <= i < count ==> r[i] == TransportAt(transports, k + i)
  {
    seq(count, i requires 0 <= i < count => TransportAt(transports, k + i))
  }

  /** Every row but the last carries a segment, and segment i reads `transports[i]`. */
  predicate SegmentsRead(rows: seq<Row>, transports: seq<string>) {
    forall i :: 0 <= i < |rows| ==>
      && (rows[i].segment.Some? <==> i < |rows| - 1)
      && (rows[i].segment.Some? ==> rows[i].segment.value.transport == TransportAt(transports, i))
  }

  lemma {:induction false} ShownFrom(rows: seq<Row>, transports: seq<string>, k: nat)
    requires k < |rows| && SegmentsRead(rows, transports)
    ensures Shown(rows[k..]) == ReadFrom(transports, k, |rows| - 1 - k)
    decreases |rows| - k
  {
    var tail := rows[k..];
    assert tail[1..] == rows[k + 1..];
    assert tail[0] == rows[k];
    if k == |rows| - 1 {
      assert Shown(tail[1..]) == [];
    } else {
      ShownFrom(rows, transports, k + 1);
      var head := [TransportAt(transports, k)];
      assert Shown(tail) == head + ReadFrom(transports, k + 1, |rows| - 2 - k);
    }
  }

  /**
    k stops show exactly k - 1 segments, and segment i shows `transports[i]`
    (undefined once the array runs out).
  */
  lemma SegmentsFollowTransports(stops: seq<Stop>, transports: seq<string>)
    requires |stops| > 0
    ensures var shown := Shown(Timeline(stops, transports));
      && |shown| == |stops| - 1
      && forall i :: 0 <= i < |shown| ==> shown[i] == TransportAt(transports, i)
  {
    var rows := Timeline(stops, transports);
    ShownFrom(rows, transports, 0);
    assert rows[0..] == rows;
  }

  /** With one transport fewer than stops, every transport is displayed exactly once, in order. */
  lemma EveryTransportShownOnce(stops: seq<Stop>, transports: seq<string>)
    requires |transports| == |stops| - 1
    ensures var shown := Shown(Timeline(stops, transports));
      && |shown| == |transports|
      && forall i :: 0 <= i < |shown| ==> shown[i] == Some(transports[i])
  {
    SegmentsFollowTransports(stops, transports);
  }
}
