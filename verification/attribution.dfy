/**
 * Attribution: who (if anyone) most recently acted on the lab, taken from the
 * head of the activity history and accepted only inside a freshness window.
 */
module Attribution {
  import opened Wrappers

  /** Instants are counted in nanosecond ticks, the resolution of the clock. */
  const TicksPerSecond: int := 1_000_000_000

  /** One record of the history endpoint; `time` carries no offset. */
  datatype HistoryEntry = HistoryEntry(user: string, time: string)

  /** What one GET on the history endpoint yields. */
  datatype HistoryFetch =
    | HistoryUnreachable                        // the request failed
    | HistoryMalformed                          // the body did not deserialise; the step panics on it
    | HistoryBody(entries: seq<HistoryEntry>)   // most recent first

  /**
   * The whole seconds of a signed duration given in ticks, truncated toward
   * zero (a duration of -1.5 s has -1 whole seconds).
   */
  function WholeSeconds(ticks: int): (s: int)
    ensures ticks >= 0 ==> 0 <= s && s * 1_000_000_000 <= ticks < (s + 1) * 1_000_000_000
    ensures ticks < 0 ==> s <= 0 && (s - 1) * 1_000_000_000 < ticks <= s * 1_000_000_000
  {
    if ticks >= 0 then ticks / TicksPerSecond else -((-ticks) / TicksPerSecond)
  }

  /**
   * The user of the first history record, when its time (with the configured
   * offset appended) parses to an instant whose age at `now`, in whole seconds,
   * is strictly below `window`; None for an empty history, an unparsable time
   * or an age at or above the window. Only the head record is ever looked at.
   */
  function Attribute(history: seq<HistoryEntry>, offset: string, parse: string -> Option<int>,
                     now: int, window: int): (actor: Option<string>)
    ensures actor.Some? <==>
              && history != []
              && parse(history[0].time + offset).Some?
              && WholeSeconds(now - parse(history[0].time + offset).value) < window
    ensures actor.Some? ==> actor.value == history[0].user
  {
    if history == [] then None
    else
      match parse(history[0].time + offset)
      case None => None
      case Some(t) => if WholeSeconds(now - t) < window then Some(history[0].user) else None
  }

  /**
   * Comparing whole seconds with the window is the same as comparing the
   * exact age with the window, strictly, whenever the window is at least one
   * second or the record is not in the future.
   */
  lemma SecondsBelowWindow(ticks: int, window: int)
    requires ticks >= 0 || window >= 1
    ensures WholeSeconds(ticks) < window <==> ticks < window * TicksPerSecond
  {
    var s := WholeSeconds(ticks);
    if ticks >= 0 {
      if s < window {
        assert (s + 1) * TicksPerSecond <= window * TicksPerSecond;
      } else {
        assert window * TicksPerSecond <= s * TicksPerSecond;
      }
    } else {
      assert s < window;
      assert ticks < 0 <= (window - 1) * TicksPerSecond + TicksPerSecond;
    }
  }

  /**
   * With a positive window, the head's user is attributed exactly when its
   * parsed instant is strictly less than `window` seconds before `now`;
   * a record exactly `window` seconds old is not attributed.
   */
  lemma AttributionWindowStrict(history: seq<HistoryEntry>, offset: string,
                                parse: string -> Option<int>, now: int, window: int)
    requires window >= 1
    requires history != [] && parse(history[0].time + offset).Some?
    ensures Attribute(history, offset, parse, now, window).Some? <==>
              now - parse(history[0].time + offset).value < window * TicksPerSecond
    ensures now - parse(history[0].time + offset).value == window * TicksPerSecond ==>
              Attribute(history, offset, parse, now, window) == None
  {
    SecondsBelowWindow(now - parse(history[0].time + offset).value, window);
  }

  /** A record that is attributed within one window is attributed within every wider one. */
  lemma AttributionMonotoneInWindow(history: seq<HistoryEntry>, offset: string,
                                    parse: string -> Option<int>, now: int, window: int, wider: int)
    requires window <= wider
    requires Attribute(history, offset, parse, now, window).Some?
    ensures Attribute(history, offset, parse, now, wider) == Attribute(history, offset, parse, now, window)
  {
  }

  /** Records after the first never influence the attribution. */
  lemma AttributionReadsOnlyHead(head: HistoryEntry, rest: seq<HistoryEntry>, offset: string,
                                 parse: string -> Option<int>, now: int, window: int)
    ensures Attribute([head] + rest, offset, parse, now, window) == Attribute([head], offset, parse, now, window)
  {
    assert ([head] + rest)[0] == head;
  }
}
