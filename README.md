# Notification display controller, modelled in Dafny

This project models the controller behind a 144 x 16 matrix sign, `NotificationDisplay` in `wsgi.py`. The sign shows home notifications. The controller keeps a list of `(timestamp, text)` notifications, newest first. `notify` appends an entry and re-sorts the list. A background loop drops entries once they are two hours old and redraws the sign when the minute changes. A power flag switches the sign off (blank) and back on. Each redraw is one of three outputs:

- a blank static text, when the sign is off;
- a single scrolling frame, when a notification is younger than a minute;
- otherwise a cyclic list of frames: the clock over the sensor summary, then, for each notification, an age label ("N minutes ago", "N hours ago") over its text.

The last frame of the cycle loses its duration.

Files and modules:

- `store.dfy` (`Store`): the notification entry and the lifetime constant. It holds the stable newest-first sort (`SortDesc`, an insertion sort used as the reference for Python's stable `sort(reverse=True)`) and the pruning filter `Unexpired`. It also holds the prune walk `RemoveExpired`, which removes entries through a copy of the list with `list.remove`'s first-occurrence semantics (`RemoveFirst`).
- `labels.dfy` (`AgeLabels`): the age label, integer formatting, and a reader for labels that proves them correct.
- `frames.dfy` (`Frames`): frames, driver outputs and the frame constants (fonts 67/65/97, y values 7/15, cycle time 3, scroll area and speed).
- `composer.dfy` (`Composer`): `Compose`, the driver call as a function of the power flag, the list, the time, the clock text and the sensor text, with its layout lemmas.
- `display.dfy` (`Display`): the `NotificationDisplay` class. Its fields are `displayOn`, `notifications` and `lastMinute`. Its methods are `Notify`, `GetState`, `SetState`, `UpdateDisplay` (the frame-building loop) and `Tick` (one pass of the background loop). The module also holds the switch endpoint's handler, `HandleSwitch`.
- `switch.dfy` (`Switch`): the body-to-state rule of the switch endpoint, as a pure function.
- `scenarios.dfy` (`Scenarios`): end-to-end sessions on a new display.
- `optional.dfy` (`Optional`): the `Option` type.

Time is whole seconds. The current time, the clock text (`%d.%m.%Y %H:%M`), the minute text (`%M`) and the sensor summary are parameters. A notification's age is `now - timestamp`.

Behaviour of the code worth knowing, which the model keeps:

- **Ties.** On equal timestamps, the stable reverse sort keeps insertion order. So a newer insertion goes behind an older one with the same timestamp, not in front of it (`Store.NotifyPlacement`).
- **Pruning.** It walks a copy of the list and calls `list.remove`. The model keeps that walk and proves it equal to the filter. Two equal entries that are both expired are both removed.

One behaviour the model does not keep: the sensor summary is fetched before the notification loop, so it is fetched even when the sign then scrolls. Here the summary is a parameter of every redraw, so where the fetch happens is not modelled.

## Model

| member | source | states |
|---|---|---|
| Store.SortDesc | wsgi.py:46 | The result is newest first, is a permutation of the input, and keeps the relative order of the entries of each timestamp (stability). |
| Store.StableSortUnique | wsgi.py:46 | Two newest-first lists that hold the same entries per timestamp, in the same order, are equal. So a stable reverse sort has only one possible result. |
| Store.SortDescOfSorted | wsgi.py:46 | Sorting a list that is already newest first leaves it unchanged. |
| Store.InsertDescKeepsOrder | wsgi.py:46 | Inserting behind the entries stamped at or after the new one keeps the list sorted. The result is the old multiset plus the entry, and the entry comes last among those with its timestamp. |
| Store.NotifyPlacement | wsgi.py:44-46 | Appending to a sorted list and re-sorting puts the new entry exactly between the entries stamped at or after it (ahead) and the older ones (behind). |
| Store.Expired | wsgi.py:151 | The prune test: an entry is expired when its age is at least two hours. It is a predicate with no ensures of its own; `Unexpired` and `PruneExact` state what pruning does with it. |
| Store.Unexpired | wsgi.py:149-152 | Every survivor of pruning comes from the list and is younger than the lifetime, and every entry younger than the lifetime survives. |
| Store.PruneExact | wsgi.py:149-152 | After pruning, an expired entry occurs zero times and every other entry occurs as often as before. |
| Store.PruneSplits | wsgi.py:149-152 | Pruning a concatenation is the concatenation of the pruned parts, so survivors keep their relative order. |
| Store.PruneKeepsSorted | wsgi.py:149-152 | Pruning a newest-first list leaves it newest first. |
| Store.PruneIdempotent | wsgi.py:149-152 | Pruning twice at the same time is pruning once. |
| Store.IndexOf | wsgi.py:152 | The position of the first element equal to the entry: it holds the entry and no earlier position does. |
| Store.RemoveFirst | wsgi.py:152 | `list.remove` drops the first element equal to the entry and nothing else. The elements before it and after it stay, in their order, so the length falls by one and the entry's multiplicity falls by one. |
| Store.RemoveExpiredStep | wsgi.py:151-152 | When the walk reaches an expired entry, the entries before it in the list are survivors. So the first occurrence removed is the entry itself, and the rest of the list is untouched. |
| Store.PruneStepRemoves | wsgi.py:149-152 | At an expired entry, one step of the walk keeps the invariant "filtered prefix of the copy, then the untouched rest". The entry is in the list, and `remove` takes it from its own place. |
| Store.PruneStepKeeps | wsgi.py:149-151 | At an entry that has not expired, the list is left as it is, and it already has the invariant's form one position further on. |
| Store.RemoveExpired | wsgi.py:149-152 | The walk over a copy, removing expired entries by `list.remove`, returns exactly `Unexpired` of its input. |
| AgeLabels.DecimalString | wsgi.py:93-101 | Python's `str` of a count is a non-empty string of decimal digits with no leading zero. |
| AgeLabels.DecimalRoundTrip | wsgi.py:93-101 | Reading the decimal digits back gives the count. |
| AgeLabels.AgeLabel | wsgi.py:89-101 | The label for an age of a minute or more. Younger ages take the scroll branch and get no label. No ensures of its own: `AgeLabelForms` gives its four forms, `LabelReadsBack` shows the count and unit are right, and the boundary lemmas give the exact texts. |
| AgeLabels.AgeLabelForms | wsgi.py:89-101 | A label takes one of four forms: "1 hour ago" or "N hours ago" with N the age divided by 3600 (from an hour on), or "1 minute ago" or "N minutes ago" with N the age divided by 60 (below an hour). |
| AgeLabels.ReadsBackAs | wsgi.py:89-101 | A count followed by its unit suffix reads back as exactly that count and unit. |
| AgeLabels.LabelReadsBack | wsgi.py:89-101 | Every label reads back as a positive count of hours exactly when the age is at least an hour, and of minutes otherwise. The count times the unit is at most the age, and the age is below one more unit. |
| AgeLabels.MinuteBoundaries | wsgi.py:96-101 | Ages 60 and 119 give "1 minute ago"; age 120 gives "2 minutes ago". |
| AgeLabels.LastMinuteBoundary | wsgi.py:96-101 | Age 3599 gives "59 minutes ago". |
| AgeLabels.HourBoundaries | wsgi.py:89-95 | Ages 3600 and 7199 give "1 hour ago"; age 7200 gives "2 hours ago". |
| Frames.TopLine | wsgi.py:73-78 | The top-line frame: the given text at x 0, y 7, font 67, with no duration, area or effect. It is the clock frame here and the age-label frame at wsgi.py:122-127. No ensures of its own; `CyclicLayout` and `LabelFrameAt` state its use. |
| Frames.BottomLine | wsgi.py:79-85 | The bottom-line frame: the given text at x 0, y 15, font 65, duration 3, with no area or effect. It is the sensor frame here and the notification-text frame at wsgi.py:128-134. No ensures of its own; `CyclicLayout`, `CyclicDurations` and `TextFrameAt` state its use. |
| Frames.ScrollFrame | wsgi.py:105-117 | The scrolling frame: the text at x 0, y 0, font 97, area (0, 0, 144, 16), with a right-to-left scroll effect of cycles 0, time 0 and speed 60, and no duration. No ensures of its own; `ScrollModeOnSorted` and `ScrollFrameLayout` state its use. |
| Frames.DropDuration | wsgi.py:136 | Deleting the duration key leaves a frame with no duration that differs from the original in nothing else. |
| Composer.Age | wsgi.py:89 | A notification's age in whole seconds. No ensures of its own; the rounding it leaves out is under "Left out". |
| Composer.Fresh | wsgi.py:96-102 | A notification is fresh when it is under a minute old, which is the scroll branch. No ensures of its own; `FirstFresh` and `ScrollModeOnSorted` state its use. |
| Composer.FirstFresh | wsgi.py:87-119 | The position where the loop stops to scroll: the first notification younger than a minute, with none before it. It is absent exactly when no notification is that young. |
| Composer.PairFrames | wsgi.py:121-135 | One notification's two frames, its age label above its text. No ensures of its own; `LabelFrameAt` and `TextFrameAt` give the frames' place and layout. |
| Composer.NotificationFrames | wsgi.py:121-135 | The pairs added for the notifications: two frames per notification. `LabelFrameAt` and `TextFrameAt` state which frame is where. |
| Composer.LabelFrameAt | wsgi.py:121-127 | The k-th notification's age label is frame 2k of the notification frames: font 67, y 7, no duration. |
| Composer.TextFrameAt | wsgi.py:128-134 | The k-th notification's text is frame 2k+1 of the notification frames: font 65, y 15, duration 3. |
| Composer.CycleFrames | wsgi.py:72-135 | The list as built has 2 + 2n frames. It starts with the clock and the sensor frame, and its last frame is a bottom-line frame (sensor or last text), so it has a duration. |
| Composer.CycleFramesAt | wsgi.py:72-135 | After the clock and the sensor frame, frames 2 + 2k and 3 + 2k are the k-th notification's label and text. |
| Composer.CycleFramesAppend | wsgi.py:121-135 | One more notification adds its pair at the end of the list. |
| Composer.CycleStep | wsgi.py:87-135 | A notification at least a minute old extends the list built so far by its pair. |
| Composer.WithoutLastDuration | wsgi.py:136 | Deleting the last frame's duration changes only the last frame. |
| Composer.CyclicFrames | wsgi.py:136 | The list sent in the cyclic case has 2 + 2n frames and its last frame has no duration. `CyclicLayout` and `CyclicDurations` give the full layout. |
| Composer.Compose | wsgi.py:65-70 | The output is a static text exactly when the sign is off, and that text is blank. |
| Composer.ScrollStop | wsgi.py:102-119 | The first notification under a minute old, with none before it, is shown alone, scrolling, with effects on. |
| Composer.CycleDone | wsgi.py:136-137 | With no notification under a minute old, the output is the cyclic list without effects. |
| Composer.CyclicLayout | wsgi.py:72-137 | The cyclic list has length 2 + 2n, in this order: clock (x 0, y 7, font 67), sensor (x 0, y 15, font 65), then for each notification its age label (x 0, y 7, font 67) and its text (x 0, y 15, font 65). Only the last frame differs from the list as built, and only by losing the duration it had. |
| Composer.CyclicDurations | wsgi.py:72-137 | In the cyclic list, exactly the odd positions except the last (the sensor and text frames) carry duration 3. All others, the last included, carry none. |
| Composer.ScrollModeOnSorted | wsgi.py:87-119 | On a newest-first list the sign scrolls exactly when the newest notification is under a minute old, and then shows that notification alone. |
| Composer.ScrollFrameLayout | wsgi.py:104-117 | A scrolling sign sends exactly one frame, with effects on. The frame holds the newest text, area (0, 0, 144, 16), font 97 and effect speed 60. |
| Composer.PrunedLabelsAtMostOneHour | wsgi.py:89-93 | When the prune and the redraw use the same whole-second time, any label of an hour or more reads "1 hour ago". In the code the two read the clock separately, so this does not hold there (see `Composer.LaterRedrawShowsTwoHours`). |
| Composer.LaterRedrawShowsTwoHours | wsgi.py:145-156 | A prune one second before the redraw keeps an entry 7199 seconds old, and the redraw labels it "2 hours ago". So the sign can show the plural hour form. |
| Display.NotificationDisplay.constructor | wsgi.py:37-42 | A new display is on, has no notifications, and its loop has not drawn a minute yet. |
| Display.NotificationDisplay.Notify | wsgi.py:44-47 | The list becomes the stable newest-first sort of the old list plus the new entry. The new entry sits behind every entry stamped at or after it and ahead of every older one. The power flag is unchanged, and the output is the redraw of the new state. |
| Display.NotificationDisplay.GetState | wsgi.py:49-50 | Returns the power flag. |
| Display.NotificationDisplay.SetState | wsgi.py:52-54 | Only the power flag changes; the list is kept. The output is the redraw, which is blank when the flag is off. |
| Display.NotificationDisplay.UpdateDisplay | wsgi.py:65-137 | The frame-building loop returns exactly `Compose` of the current state and changes nothing. |
| Display.NotificationDisplay.Tick | wsgi.py:142-159 | A tick always prunes. It redraws exactly when the minute text differs from the last one drawn, and afterwards the last minute is the current one. The power flag is unchanged. |
| Display.HandleSwitch | wsgi.py:168-175 | The state after the request, and the reply, are those of `Switch.RestSwitch`. A redraw happens exactly when the request sets the state. The list is kept. |
| Switch.RestSwitch | wsgi.py:170-175 | POST "ON" sets the state on and POST "OFF" sets it off. Every other request leaves it alone. The reply is "ON" or "OFF", matching the state after the request. |
| Switch.GetLeavesState | wsgi.py:170-175 | A GET changes nothing and reports the current state. |
| Switch.RestSwitchIdempotent | wsgi.py:170-175 | Repeating a request leaves the state where the first one put it. |
| Switch.BodiesSpellWords | wsgi.py:171-173 | The two bodies the endpoint accepts are the ASCII bytes of "ON" and "OFF". |
| Scenarios.ScrollBoundary | wsgi.py:87-119 | A notification 59 seconds old scrolls; at 60 seconds it is labelled "1 minute ago" in the cycle. |
| Scenarios.NinetySecondsLater | wsgi.py:72-137 | One notification 90 seconds old gives four frames: clock, sensor, "1 minute ago", then its text with no duration. |
| Scenarios.PackageDelivered | wsgi.py:44-47 | On a new display, "Package delivered" scrolls when it arrives and 30 seconds later. At 90 seconds it is shown in the cycle under "1 minute ago". |
| Scenarios.OffAndOnAgain | wsgi.py:168-175 | After POST "OFF", both the reply and a GET say "OFF". A notification taken while off draws blank, but it is stored: after POST "ON" (reply "ON") it is shown. |

## Left out

- HTTP plumbing: Flask routing, request and response objects, the notify endpoint with its `{"test": true}` acknowledgement, and server start-up. These are framework glue. The switch endpoint's rule is modelled as `Switch.RestSwitch` and `Display.HandleSwitch`.
- `get_default_screen_text` and the Home Assistant client: network calls with float formatting. The sensor summary is a string parameter, so its failure path is not modelled either. A CO₂ state that is not a number, such as "unavailable", makes `float(...)` raise (wsgi.py:63). A network error raises too. The other four states are put into the text as they are. The exception escapes `update_display` (wsgi.py:80). After `notify`, the new entry is already stored but nothing is drawn (wsgi.py:45-47). In `loop`, the exception ends the thread, so pruning and minute redraws stop.
- The MobitecMatrix driver: serial I/O in a library that is not part of this model. Each driver call is the returned `Output` value. `EFFECT_SCROLL_RTL` is the enumeration value `ScrollRightToLeft`, since its numeric code belongs to the driver.
- `time.time`, `time.strftime` and `time.sleep`: the clock is a parameter, a whole number of seconds, and its two formatted strings are parameters too. Each operation reads the time once. The source reads it separately in `notify` (wsgi.py:45) and in `update_display` (wsgi.py:66-67).
- Display.NotificationDisplay.Tick: one `now` serves both the prune and the redraw. In the source, `loop` reads the clock for the prune and the minute (wsgi.py:145-146), and then `update_display` reads it again (wsgi.py:66-67). So an entry can survive the prune and then be drawn older than the prune saw it.
- Composer.Age: the age is `now - timestamp` in whole seconds. Python's `round()` of a float difference, with its ties-to-even at .5, is not modelled.
- Composer.PrunedLabelsAtMostOneHour: holds only for the model's single whole-second `now`. The source can show "2 hours ago". The prune compares the unrounded age with 7200 at the loop's own time (wsgi.py:145, 151). The label rounds an age taken at a later clock read (wsgi.py:66, 89), so an entry 7199.6 seconds old survives and is labelled "2 hours ago". Later ticks prune without redrawing until the minute changes. Redraws from `notify` and `set_state` do not prune at all.
- The background thread, the `running` flag, `stop()` and the endless loop: concurrency and shutdown. `Display.NotificationDisplay.Tick` is one pass of the loop's body.
- Display.NotificationDisplay.Tick: `last_minute` is a local variable of `loop`. Here it is the field `lastMinute`, set to the empty string by the constructor, which stands for the loop's start.
- Display.NotificationDisplay.Tick: the prune walk runs on a local list (`Store.RemoveExpired`), and the field is assigned once at the end. The code removes from the field in place. The two agree only in this sequential model. In the source, the HTTP thread's `notify` can append to and sort the same list during the walk (wsgi.py:45-46). The in-place removal keeps that entry, but a local copy assigned at the end would lose it. Concurrency is left out, as the line on the background thread says.
