/**
 * The power switch endpoint: a POST whose body is exactly `ON` or `OFF`
 * switches the display; any other request leaves it as it is.  The reply
 * names the state after the request.
 */
module Switch {
  import opened Optional

  newtype byte = x: int | 0 <= x < 256

  datatype HttpMethod = Get | Post

  /** The request bodies the endpoint understands, as ASCII bytes. */
  const ON_BODY: seq<byte> := [0x4F, 0x4E]
  const OFF_BODY: seq<byte> := [0x4F, 0x46, 0x46]

  /** What a request does: the state it sets, if any, and the reply text. */
  datatype SwitchOutcome = SwitchOutcome(setState: Option<bool>, reply: string)

  /** The state the display is in after the request. */
  function StateAfter(r: SwitchOutcome, current: bool): bool {
    r.setState.GetOr(current)
  }

  /** The endpoint's rule, given the display's state before the request. */
  function RestSwitch(m: HttpMethod, body: seq<byte>, current: bool): (r: SwitchOutcome)
    ensures r.setState == Some(true) <==> m == Post && body == ON_BODY
    ensures r.setState == Some(false) <==> m == Post && body == OFF_BODY
    ensures r.setState.None? <==> m != Post || (body != ON_BODY && body != OFF_BODY)
    ensures r.reply == "ON" <==> StateAfter(r, current)
    ensures r.reply == "OFF" <==> !StateAfter(r, current)
  {
    var requested :=
      if m == Post then
        if body == ON_BODY then Some(true)
        else if body == OFF_BODY then Some(false)
        else None
      else None;
    var state := requested.GetOr(current);
    assert |ON_BODY| != |OFF_BODY| && |"ON"| != |"OFF"|;
    SwitchOutcome(requested, if state then "ON" else "OFF")
  }

  /** The bodies are the ASCII spellings of the two words. */
  lemma BodiesSpellWords()
    ensures |ON_BODY| == |"ON"| && forall i :: 0 <= i < |ON_BODY| ==> ON_BODY[i] as int == "ON"[i] as int
    ensures |OFF_BODY| == |"OFF"| && forall i :: 0 <= i < |OFF_BODY| ==> OFF_BODY[i] as int == "OFF"[i] as int
  {
  }

  /** A GET only reads the state. */
  lemma GetLeavesState(body: seq<byte>, current: bool)
    ensures RestSwitch(Get, body, current).setState.None?
    ensures RestSwitch(Get, body, current).reply == if current then "ON" else "OFF"
  {
  }

  /** Repeating a request changes nothing more: the endpoint is idempotent. */
  lemma RestSwitchIdempotent(m: HttpMethod, body: seq<byte>, current: bool)
    ensures var once := StateAfter(RestSwitch(m, body, current), current);
      StateAfter(RestSwitch(m, body, once), once) == once
  {
  }
}
