/**
 * The notification display controller: a power flag, the notification list
 * (newest first), and the minute label of the last redraw made by the tick
 * loop.  Every operation that redraws returns the driver call it makes.
 *
 * Time is whole seconds: `now` is the current time, passed in; the clock text,
 * the minute label and the sensor summary are passed in as strings.
 */
module Display {
  import opened Optional
  import opened Store
  import opened Frames
  import opened AgeLabels
  import opened Composer
  import opened Switch

  class NotificationDisplay {
    var displayOn: bool
    var notifications: seq<Notification>
    /** The minute label of the last redraw of the tick loop; empty before the first tick. */
    var lastMinute: string

    /** The list is kept newest first. */
    ghost predicate Valid()
      reads this
    {
      SortedDesc(notifications)
    }

    /** A new display is switched on, has no notifications and has not ticked yet. */
    constructor ()
      ensures Valid()
      ensures displayOn && notifications == [] && lastMinute == ""
    {
      displayOn := true;
      notifications := [];
      lastMinute := "";
    }

    /**
     * Records `text` as arriving at `now`, re-sorts newest first and redraws.
     * The stable sort puts the new entry after every entry at least as new
     * and before every older one.
     */
    method Notify(now: int, text: string, clock: string, sensor: string) returns (out: Output)
      requires Valid()
      modifies this
      ensures Valid()
      ensures notifications == SortDesc(old(notifications) + [Notification(now, text)])
      ensures var k := NewerPrefix(old(notifications), now);
        && k <= |old(notifications)|
        && notifications == old(notifications)[..k] + [Notification(now, text)] + old(notifications)[k..]
        && (forall j :: 0 <= j < k ==> old(notifications)[j].timestamp >= now)
        && (forall j :: k <= j < |old(notifications)| ==> old(notifications)[j].timestamp < now)
      ensures displayOn == old(displayOn) && lastMinute == old(lastMinute)
      ensures out == Compose(displayOn, notifications, now, clock, sensor)
    {
      var entry := Notification(now, text);
      NotifyPlacement(notifications, entry);
      var appended := notifications + [entry];
      notifications := SortDesc(appended);
      out := UpdateDisplay(now, clock, sensor);
    }

    method GetState() returns (on: bool)
      ensures on == displayOn
    {
      on := displayOn;
    }

    /** Switches the display on or off and redraws; the list is left alone. */
    method SetState(state: bool, now: int, clock: string, sensor: string) returns (out: Output)
      requires Valid()
      modifies this
      ensures Valid()
      ensures displayOn == state
      ensures notifications == old(notifications) && lastMinute == old(lastMinute)
      ensures out == Compose(state, notifications, now, clock, sensor)
    {
      displayOn := state;
      out := UpdateDisplay(now, clock, sensor);
    }

    /**
     * The driver call for the current state: blank when off; otherwise the
     * frame list is grown pair by pair until a notification under a minute
     * old turns up, which is then shown alone, scrolling.
     */
    method UpdateDisplay(now: int, clock: string, sensor: string) returns (out: Output)
      ensures out == Compose(displayOn, notifications, now, clock, sensor)
    {
      if !displayOn {
        return BLANK;
      }
      var ns := notifications;
      var texts := [TopLine(clock), BottomLine(sensor)];
      for i := 0 to |ns|
        invariant NoneFresh(ns[..i], now)
        invariant texts == CycleFrames(ns[..i], now, clock, sensor)
      {
        var n := ns[i];
        var seconds := now - n.timestamp;
        if seconds < SECONDS_PER_MINUTE {
          ScrollStop(ns, now, clock, sensor, i);
          return Texts([ScrollFrame(n.text)], true);
        }
        CycleStep(ns, now, clock, sensor, i);
        texts := texts + [TopLine(AgeLabel(seconds)), BottomLine(n.text)];
      }
      assert ns[..|ns|] == ns;
      CycleDone(ns, now, clock, sensor);
      texts := WithoutLastDuration(texts);
      out := Texts(texts, false);
    }

    /**
     * One pass of the background loop at time `now`, when the clock's minute
     * reads `minute`: expired notifications are pruned, and the display is
     * redrawn when the minute changed since the loop's last redraw.
     */
    method Tick(now: int, minute: string, clock: string, sensor: string) returns (out: Option<Output>)
      requires Valid()
      modifies this
      ensures Valid()
      ensures notifications == Unexpired(old(notifications), now)
      ensures displayOn == old(displayOn)
      ensures lastMinute == minute
      ensures out.Some? <==> minute != old(lastMinute)
      ensures out.Some? ==> out.value == Compose(displayOn, notifications, now, clock, sensor)
    {
      PruneKeepsSorted(notifications, now);
      notifications := RemoveExpired(notifications, now);
      if minute != lastMinute {
        var drawn := UpdateDisplay(now, clock, sensor);
        out := Some(drawn);
        lastMinute := minute;
      } else {
        out := None;
      }
    }
  }

  /**
   * The switch endpoint served by `d`: a POST of `ON` or `OFF` sets the state
   * (and so redraws); then the reply reports the state.
   */
  method HandleSwitch(d: NotificationDisplay, m: HttpMethod, body: seq<byte>,
                      now: int, clock: string, sensor: string)
      returns (reply: string, out: Option<Output>)
    requires d.Valid()
    modifies d
    ensures d.Valid()
    ensures var r := RestSwitch(m, body, old(d.displayOn));
      && d.displayOn == StateAfter(r, old(d.displayOn))
      && reply == r.reply
      && (out.Some? <==> r.setState.Some?)
    ensures d.notifications == old(d.notifications) && d.lastMinute == old(d.lastMinute)
    ensures out.Some? ==> out.value == Compose(d.displayOn, d.notifications, now, clock, sensor)
  {
    out := None;
    if m == Post {
      if body == ON_BODY {
        var drawn := d.SetState(true, now, clock, sensor);
        out := Some(drawn);
      } else if body == OFF_BODY {
        var drawn := d.SetState(false, now, clock, sensor);
        out := Some(drawn);
      }
    }
    var on := d.GetState();
    reply := if on then "ON" else "OFF";
  }
}
