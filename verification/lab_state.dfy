/**
 * The lab-state endpoint as the polling step sees it, and the mapping from its
 * payload to the open/closed status the rest of the bot works with.
 */
module LabState {

  /** The `id` field of the payload is deserialised as an unsigned byte. */
  type U8 = x: int | 0 <= x < 256

  /** What one GET on the lab-state endpoint yields. */
  datatype StateFetch =
    | TransportFailed          // the request itself failed
    | Payload(id: U8)          // the body deserialised into `{ id, description }`
    | MalformedPayload         // the body did not deserialise; the step panics on it

  /**
   * The status the step compares against the log: the mutable flag starts
   * closed and becomes `id == 1` only when a payload arrived. A malformed
   * payload never reaches this point (the step aborts first).
   */
  function CurrentStatus(fetched: StateFetch): (open: bool)
    requires !fetched.MalformedPayload?
    ensures open <==> fetched == Payload(1)
    ensures fetched.TransportFailed? ==> !open
  {
    match fetched
    case TransportFailed => false
    case Payload(id) => id == 1
  }
}
