/**
 * What the sign shows, as a function of the power flag, the notification list,
 * the current time, the clock text and the sensor summary.
 *
 * Switched off, the sign is blank.  Otherwise the list is walked in order: the
 * first notification younger than a minute is shown alone, scrolling.  When
 * there is none, the sign cycles through the clock over the sensor summary and
 * then, for each notification, its age label over its text.
 */
module Composer {
  import opened Optional
  import opened Store
  import opened Frames
  import opened AgeLabels

  function Age(n: Notification, now: int): int {
    now - n.timestamp
  }

  /** Young enough to be shown scrolling. */
  predicate Fresh(n: Notification, now: int) {
    Age(n, now) < SECONDS_PER_MINUTE
  }

  predicate NoneFresh(ns: seq<Notification>, now: int) {
    forall j :: 0 <= j < |ns| ==> !Fresh(ns[j], now)
  }

  /** Position of the first fresh notification, if there is one. */
  function FirstFresh(ns: seq<Notification>, now: int): (r: Option<nat>)
    ensures r.Some? ==> r.value < |ns| && Fresh(ns[r.value], now)
    ensures r.Some? ==> forall j :: 0 <= j < r.value ==> !Fresh(ns[j], now)
    ensures r.None? <==> NoneFresh(ns, now)
  {
    if ns == [] then None
    else if Fresh(ns[0], now) then Some(0)
    else
      match FirstFresh(ns[1..], now)
      case None => None
      case Some(i) => Some(i + 1)
  }

  /** The (age label, text) pair of frames for each notification, in list order. */
  function NotificationFrames(ns: seq<Notification>, now: int): (fs: seq<Frame>)
    requires NoneFresh(ns, now)
    ensures |fs| == 2 * |ns|
  {
    if ns == [] then []
    else
      NotificationFrames(ns[..|ns| - 1], now) + PairFrames(ns[|ns| - 1], now)
  }

  /** The frames of one notification: its age label on top, its text below. */
  function PairFrames(n: Notification, now: int): (fs: seq<Frame>)
    requires !Fresh(n, now)
  {
    [TopLine(AgeLabel(Age(n, now))), BottomLine(n.text)]
  }

  /** The `k`-th notification's age label sits at position `2 * k`. */
  lemma {:induction false} LabelFrameAt(ns: seq<Notification>, now: int, k: nat)
    requires NoneFresh(ns, now) && k < |ns|
    ensures NotificationFrames(ns, now)[2 * k] == TopLine(AgeLabel(Age(ns[k], now)))
  {
    var p := ns[..|ns| - 1];
    if k < |p| {
      LabelFrameAt(p, now, k);
      assert p[k] == ns[k];
    }
  }

  /** The `k`-th notification's text sits at position `2 * k + 1`. */
  lemma {:induction false} TextFrameAt(ns: seq<Notification>, now: int, k: nat)
    requires NoneFresh(ns, now) && k < |ns|
    ensures NotificationFrames(ns, now)[2 * k + 1] == BottomLine(ns[k].text)
  {
    var p := ns[..|ns| - 1];
    if k < |p| {
      TextFrameAt(p, now, k);
      assert p[k] == ns[k];
    }
  }

  /** The cyclic frame list as built, before the last frame loses its duration. */
  function CycleFrames(ns: seq<Notification>, now: int, clock: string, sensor: string): (fs: seq<Frame>)
    requires NoneFresh(ns, now)
    ensures |fs| == 2 + 2 * |ns|
    ensures fs[0] == TopLine(clock) && fs[1] == BottomLine(sensor)
    ensures fs[|fs| - 1] == BottomLine(if ns == [] then sensor else ns[|ns| - 1].text)
  {
    var fs := [TopLine(clock), BottomLine(sensor)] + NotificationFrames(ns, now);
    if ns == [] then fs
    else
      TextFrameAt(ns, now, |ns| - 1);
      fs
  }

  /** One more notification adds its pair at the end. */
  lemma CycleFramesAppend(ns: seq<Notification>, x: Notification, now: int, clock: string, sensor: string)
    requires NoneFresh(ns, now) && !Fresh(x, now)
    ensures NoneFresh(ns + [x], now)
    ensures CycleFrames(ns + [x], now, clock, sensor) == CycleFrames(ns, now, clock, sensor) + PairFrames(x, now)
  {
    var s := ns + [x];
    assert s[..|s| - 1] == ns;
    assert NotificationFrames(s, now) == NotificationFrames(ns, now) + PairFrames(x, now);
  }

  /** After the clock and the sensor frame, the list holds each notification's pair in order. */
  lemma CycleFramesAt(ns: seq<Notification>, now: int, clock: string, sensor: string, k: nat)
    requires NoneFresh(ns, now) && k < |ns|
    ensures CycleFrames(ns, now, clock, sensor)[2 + 2 * k] == TopLine(AgeLabel(Age(ns[k], now)))
    ensures CycleFrames(ns, now, clock, sensor)[3 + 2 * k] == BottomLine(ns[k].text)
  {
    LabelFrameAt(ns, now, k);
    TextFrameAt(ns, now, k);
  }

  /** The `i`-th notification is not fresh either: the pairs so far grow by its pair. */
  lemma CycleStep(ns: seq<Notification>, now: int, clock: string, sensor: string, i: nat)
    requires i < |ns| && NoneFresh(ns[..i], now) && !Fresh(ns[i], now)
    ensures NoneFresh(ns[..i + 1], now)
    ensures CycleFrames(ns[..i + 1], now, clock, sensor)
      == CycleFrames(ns[..i], now, clock, sensor) + PairFrames(ns[i], now)
  {
    assert ns[..i + 1] == ns[..i] + [ns[i]];
    CycleFramesAppend(ns[..i], ns[i], now, clock, sensor);
  }

  /** `del texts[-1]['duration']`, which needs a last frame that has a duration. */
  function WithoutLastDuration(fs: seq<Frame>): (gs: seq<Frame>)
    requires fs != [] && fs[|fs| - 1].duration.Some?
    ensures |gs| == |fs|
    ensures forall i :: 0 <= i < |fs| - 1 ==> gs[i] == fs[i]
    ensures gs[|fs| - 1] == DropDuration(fs[|fs| - 1])
  {
    fs[..|fs| - 1] + [DropDuration(fs[|fs| - 1])]
  }

  /** The frame list of the cyclic display. */
  function CyclicFrames(ns: seq<Notification>, now: int, clock: string, sensor: string): (fs: seq<Frame>)
    requires NoneFresh(ns, now)
    ensures |fs| == 2 + 2 * |ns|
    ensures fs[|fs| - 1].duration.None?
  {
    WithoutLastDuration(CycleFrames(ns, now, clock, sensor))
  }

  /** The driver call for the given state. */
  function Compose(on: bool, ns: seq<Notification>, now: int, clock: string, sensor: string): (r: Output)
    ensures r.StaticText? <==> !on
    ensures r.StaticText? ==> r == BLANK
  {
    if !on then BLANK
    else
      match FirstFresh(ns, now)
      case Some(i) => Texts([ScrollFrame(ns[i].text)], true)
      case None => Texts(CyclicFrames(ns, now, clock, sensor), false)
  }

  /** The first fresh notification, when all before it are not, is the one shown. */
  lemma ScrollStop(ns: seq<Notification>, now: int, clock: string, sensor: string, i: nat)
    requires i < |ns| && NoneFresh(ns[..i], now) && Fresh(ns[i], now)
    ensures Compose(true, ns, now, clock, sensor) == Texts([ScrollFrame(ns[i].text)], true)
  {
    assert ns[..i][..i] == ns[..i];
    assert FirstFresh(ns, now) == Some(i) by {
      var r := FirstFresh(ns, now);
      assert !NoneFresh(ns, now);
      assert r.Some?;
    }
  }

  /** Past the last notification with none fresh, the cyclic list is shown. */
  lemma CycleDone(ns: seq<Notification>, now: int, clock: string, sensor: string)
    requires NoneFresh(ns, now)
    ensures Compose(true, ns, now, clock, sensor) == Texts(CyclicFrames(ns, now, clock, sensor), false)
  {
  }

  /**
   * The cyclic frame list: the clock, the sensor summary, then an age label and
   * a text per notification in list order.  Only the last frame differs from
   * the list as built, and only by missing the duration it had.
   */
  lemma CyclicLayout(ns: seq<Notification>, now: int, clock: string, sensor: string)
    requires NoneFresh(ns, now)
    ensures var fs := CyclicFrames(ns, now, clock, sensor);
      && |fs| == 2 + 2 * |ns|
      && fs[0] == TopLine(clock)
      && fs[1].text == sensor && fs[1].x == 0 && fs[1].y == BOTTOM_Y && fs[1].font == BOTTOM_FONT
      && (forall k :: 0 <= k < |ns| ==> fs[2 + 2 * k] == TopLine(AgeLabel(Age(ns[k], now))))
      && (forall k :: 0 <= k < |ns| ==>
            fs[3 + 2 * k].text == ns[k].text && fs[3 + 2 * k].x == 0 && fs[3 + 2 * k].y == BOTTOM_Y
            && fs[3 + 2 * k].font == BOTTOM_FONT)
    ensures var built := CycleFrames(ns, now, clock, sensor);
      var fs := CyclicFrames(ns, now, clock, sensor);
      && built[|built| - 1].duration.Some?
      && (forall i :: 0 <= i < |fs| - 1 ==> fs[i] == built[i])
      && fs[|fs| - 1] == built[|built| - 1].(duration := None)
  {
    var built := CycleFrames(ns, now, clock, sensor);
    var fs := CyclicFrames(ns, now, clock, sensor);
    forall k | 0 <= k < |ns|
      ensures fs[2 + 2 * k] == TopLine(AgeLabel(Age(ns[k], now)))
      ensures fs[3 + 2 * k].text == ns[k].text && fs[3 + 2 * k].x == 0 && fs[3 + 2 * k].y == BOTTOM_Y
      ensures fs[3 + 2 * k].font == BOTTOM_FONT
    {
      CycleFramesAt(ns, now, clock, sensor, k);
    }
  }

  /**
   * Only the sensor and text frames carry a duration, of one cycle step, and
   * the last frame carries none.
   */
  lemma CyclicDurations(ns: seq<Notification>, now: int, clock: string, sensor: string)
    requires NoneFresh(ns, now)
    ensures var fs := CyclicFrames(ns, now, clock, sensor);
      forall i :: 0 <= i < |fs| ==>
        fs[i].duration == if i % 2 == 1 && i < |fs| - 1 then Some(CYCLE_TIME_SECONDS) else None
  {
    var built := CycleFrames(ns, now, clock, sensor);
    var fs := CyclicFrames(ns, now, clock, sensor);
    forall i | 0 <= i < |fs|
      ensures fs[i].duration == if i % 2 == 1 && i < |fs| - 1 then Some(CYCLE_TIME_SECONDS) else None
    {
      if 2 <= i {
        var k := (i - 2) / 2;
        CycleFramesAt(ns, now, clock, sensor, k);
        assert i == 2 + 2 * k || i == 3 + 2 * k;
      }
    }
  }

  /**
   * On a newest-first list the sign scrolls exactly when the newest
   * notification is under a minute old, and then shows that one alone.
   */
  lemma ScrollModeOnSorted(ns: seq<Notification>, now: int, clock: string, sensor: string)
    requires SortedDesc(ns)
    ensures Compose(true, ns, now, clock, sensor).useEffects <==> ns != [] && Fresh(ns[0], now)
    ensures ns != [] && Fresh(ns[0], now) ==>
      Compose(true, ns, now, clock, sensor) == Texts([ScrollFrame(ns[0].text)], true)
  {
    match FirstFresh(ns, now)
    case Some(i) =>
      assert ns[0].timestamp >= ns[i].timestamp;
    case None =>
  }

  /** A scrolling sign shows one frame, with the notification's text, over the whole display. */
  lemma ScrollFrameLayout(ns: seq<Notification>, now: int, clock: string, sensor: string)
    requires SortedDesc(ns) && ns != [] && Fresh(ns[0], now)
    ensures var out := Compose(true, ns, now, clock, sensor);
      && out.Texts? && out.useEffects && |out.frames| == 1
      && out.frames[0].text == ns[0].text
      && out.frames[0].area == Some(Area(0, 0, 144, 16))
      && out.frames[0].font == 97
      && out.frames[0].effect.Some? && out.frames[0].effect.value.speed == 60
  {
    ScrollModeOnSorted(ns, now, clock, sensor);
  }

  /**
   * Composed at the very time of a prune, no label says more than one hour:
   * an entry two hours old is gone before it could be labelled "2 hours ago".
   */
  lemma PrunedLabelsAtMostOneHour(ns: seq<Notification>, now: int)
    ensures forall n :: n in Unexpired(ns, now) && Age(n, now) >= SECONDS_PER_HOUR ==>
      AgeLabel(Age(n, now)) == "1 hour ago"
  {
    forall n | n in Unexpired(ns, now) && Age(n, now) >= SECONDS_PER_HOUR
      ensures AgeLabel(Age(n, now)) == "1 hour ago"
    {
      assert Age(n, now) / SECONDS_PER_HOUR == 1;
      assert DecimalString(1) == "1";
    }
  }

  /**
   * The bound above needs the prune and the redraw to read the same clock.
   * Pruned one second before the redraw, an entry 7199 seconds old survives
   * and is then labelled "2 hours ago".
   */
  lemma LaterRedrawShowsTwoHours(ns: seq<Notification>, n: Notification)
    requires n in ns
    ensures n in Unexpired(ns, n.timestamp + 7199)
    ensures AgeLabel(Age(n, n.timestamp + 7200)) == "2 hours ago"
  {
    HourBoundaries();
  }
}
