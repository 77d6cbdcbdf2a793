/**
 * What the controller hands to the matrix driver: either one static text, or a
 * list of text frames sent together, with or without effects.
 */
module Frames {
  import opened Optional

  /** How long each step of the cyclic display is shown, in seconds. */
  const CYCLE_TIME_SECONDS: int := 3

  /** Fonts of the sign: the narrow top line, the bottom line, and the full-height scroll font. */
  const TOP_FONT: int := 67
  const BOTTOM_FONT: int := 65
  const SCROLL_FONT: int := 97

  /** Baselines of the two text lines. */
  const TOP_Y: int := 7
  const BOTTOM_Y: int := 15

  /** Speed of the scrolling effect used for fresh notifications. */
  const SCROLL_SPEED: int := 60

  /** A rectangle of the display, corner to corner. */
  datatype Area = Area(x1: int, y1: int, x2: int, y2: int)

  /** The whole 144 x 16 display. */
  const FULL_AREA: Area := Area(0, 0, 144, 16)

  /** The driver's right-to-left scroll; the driver's own code for it is not modelled. */
  datatype EffectKind = ScrollRightToLeft

  datatype Effect = Effect(kind: EffectKind, cycles: int, time: int, speed: int)

  /** One text entry of a `send_texts` call. */
  datatype Frame = Frame(
    text: string,
    x: int,
    y: int,
    font: int,
    duration: Option<int>,
    area: Option<Area>,
    effect: Option<Effect>)

  /** One call into the driver. */
  datatype Output =
    | StaticText(text: string)
    | Texts(frames: seq<Frame>, useEffects: bool)

  /** What a switched-off sign shows. */
  const BLANK: Output := StaticText("")

  /** A top-line frame (clock or age label): no duration of its own. */
  function TopLine(text: string): Frame {
    Frame(text, 0, TOP_Y, TOP_FONT, None, None, None)
  }

  /** A bottom-line frame (sensor summary or notification text), shown for one cycle step. */
  function BottomLine(text: string): Frame {
    Frame(text, 0, BOTTOM_Y, BOTTOM_FONT, Some(CYCLE_TIME_SECONDS), None, None)
  }

  /** A fresh notification, scrolling right to left over the whole display, endlessly. */
  function ScrollFrame(text: string): Frame {
    Frame(text, 0, 0, SCROLL_FONT, None, Some(FULL_AREA),
          Some(Effect(ScrollRightToLeft, 0, 0, SCROLL_SPEED)))
  }

  /** `del frame['duration']`, which needs the key to be there. */
  function DropDuration(f: Frame): (g: Frame)
    requires f.duration.Some?
    ensures g.duration.None?
    ensures g.(duration := f.duration) == f
  {
    f.(duration := None)
  }
}
