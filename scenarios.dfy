/**
 * Two sessions with a fresh display, from the first notification to the
 * cyclic view, and through switching the display off and on again.
 */
module Scenarios {
  import opened Optional
  import opened Store
  import opened Frames
  import opened AgeLabels
  import opened Composer
  import opened Switch
  import opened Display

  /** One notification ninety seconds old, on a switched-on display. */
  lemma NinetySecondsLater(n: Notification, now: int, clock: string, sensor: string)
    requires now - n.timestamp == 90
    ensures var out := Compose(true, [n], now, clock, sensor);
      && out.Texts? && !out.useEffects && |out.frames| == 4
      && out.frames[0] == TopLine(clock) && out.frames[1] == BottomLine(sensor)
      && out.frames[2] == TopLine("1 minute ago")
      && out.frames[3].text == n.text && out.frames[3].duration.None?
  {
    assert FirstFresh([n], now).None?;
    CyclicLayout([n], now, clock, sensor);
    CyclicDurations([n], now, clock, sensor);
    assert DecimalString(1) + Suffix(Minute, 1) == "1 minute ago";
    assert AgeLabel(90) == DecimalString(1) + Suffix(Minute, 1);
  }

  /** A notification scrolls up to an age of 59 seconds and is labelled "1 minute ago" at 60. */
  lemma ScrollBoundary(n: Notification, clock: string, sensor: string)
    ensures Compose(true, [n], n.timestamp + 59, clock, sensor) == Texts([ScrollFrame(n.text)], true)
    ensures var out := Compose(true, [n], n.timestamp + 60, clock, sensor);
      && out.Texts? && !out.useEffects && |out.frames| == 4
      && out.frames[2] == TopLine("1 minute ago")
  {
    ScrollModeOnSorted([n], n.timestamp + 59, clock, sensor);
    assert FirstFresh([n], n.timestamp + 60).None?;
    CycleFramesAt([n], n.timestamp + 60, clock, sensor, 0);
    MinuteBoundaries();
  }

  /**
   * A parcel notification scrolls alone for its first minute; a minute and a
   * half later it is shown under the clock and the sensors, labelled
   * "1 minute ago", and its text is the last frame, without a duration.
   */
  method PackageDelivered(t0: int, clock: string, sensor: string)
      returns (atArrival: Output, after30: Output, after90: Output)
    ensures atArrival == Texts([ScrollFrame("Package delivered")], true)
    ensures after30 == atArrival
    ensures after90.Texts? && !after90.useEffects && |after90.frames| == 4
    ensures after90.frames[0] == TopLine(clock) && after90.frames[1] == BottomLine(sensor)
    ensures after90.frames[2] == TopLine("1 minute ago")
    ensures after90.frames[3].text == "Package delivered" && after90.frames[3].duration.None?
  {
    var d := new NotificationDisplay();
    atArrival := d.Notify(t0, "Package delivered", clock, sensor);
    assert d.notifications == [Notification(t0, "Package delivered")];
    after30 := d.UpdateDisplay(t0 + 30, clock, sensor);
    after90 := d.UpdateDisplay(t0 + 90, clock, sensor);
    NinetySecondsLater(Notification(t0, "Package delivered"), t0 + 90, clock, sensor);
  }

  /**
   * Switched off, the display is blank and reports "OFF", but still takes
   * notifications; switched on again, it shows the one that came in.
   */
  method OffAndOnAgain(t0: int, clock: string, sensor: string)
      returns (offReply: string, getReply: string, whileOff: Output, onReply: string, shown: Output)
    ensures offReply == "OFF" && getReply == "OFF" && onReply == "ON"
    ensures whileOff == BLANK
    ensures shown.Texts? && |shown.frames| == 4 && shown.frames[3].text == "Doorbell"
  {
    var d := new NotificationDisplay();
    var drawn;
    offReply, drawn := HandleSwitch(d, Post, OFF_BODY, t0, clock, sensor);
    getReply, drawn := HandleSwitch(d, Get, [], t0, clock, sensor);
    whileOff := d.Notify(t0, "Doorbell", clock, sensor);
    assert d.notifications == [Notification(t0, "Doorbell")];
    onReply, drawn := HandleSwitch(d, Post, ON_BODY, t0 + 120, clock, sensor);
    var ns := d.notifications;
    assert FirstFresh(ns, t0 + 120).None?;
    CyclicLayout(ns, t0 + 120, clock, sensor);
    shown := drawn.value;
  }
}
