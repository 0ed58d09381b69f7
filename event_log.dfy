/**
 * The central event buffer of mesh_pulse/tui/widgets/event_log.py: a
 * `deque(maxlen=max_events)` of `(time, level, message)` entries that every
 * subsystem logs into and the dashboard reads the tail of.
 */
module Events {
  import opened Slices

  /** `EventLog()` keeps at most this many events. */
  const DEFAULT_MAX_EVENTS: nat := 200
  /** `get_events()` returns at most this many events. */
  const DEFAULT_COUNT: int := 50

  /** One logged entry: when, how severe ('info', 'success', 'warning', 'error'), what. */
  datatype Event = Event(time: real, level: string, message: string)

  /**
   * `deque.append` on a deque bounded by `maxLen`: the new entry goes at the
   * tail and, once the deque is full, the oldest entry falls off the head.
   */
  function Appended(events: seq<Event>, e: Event, maxLen: nat): (r: seq<Event>)
    requires |events| <= maxLen
    // As many entries as fit, and they are the newest ones, in order.
    ensures |r| == Min(|events| + 1, maxLen)
    ensures r == (events + [e])[|events| + 1 - |r|..]
  {
    if |events| < maxLen then events + [e]
    else if maxLen == 0 then []
    else events[1..] + [e]
  }

  /** With room for at least one entry, appending one more entry keeps the newest `maxLen`. */
  lemma AppendedIsWindow(events: seq<Event>, e: Event, rest: seq<Event>, maxLen: nat)
    requires 1 <= maxLen && |events| <= maxLen
    ensures SliceFrom(Appended(events, e, maxLen) + rest, -(maxLen as int))
         == SliceFrom(events + ([e] + rest), -(maxLen as int))
  {
    assert Appended(events, e, maxLen) == SliceFrom(events + [e], -(maxLen as int));
    LastOfLast(events + [e], rest, maxLen);
    assert events + [e] + rest == events + ([e] + rest);
  }

  /**
   * Logging the entries `es` one after the other. However many entries are
   * logged, the buffer holds exactly the newest `maxLen` of everything ever
   * logged, in logging order (nothing when the bound is 0).
   */
  function AppendedAll(events: seq<Event>, es: seq<Event>, maxLen: nat): (r: seq<Event>)
    requires |events| <= maxLen
    ensures |r| <= maxLen
    ensures maxLen >= 1 ==> r == SliceFrom(events + es, -(maxLen as int))
    ensures maxLen == 0 ==> r == []
    decreases |es|
  {
    if es == [] then
      assert events + es == events;
      events
    else
      var rest := es[1..];
      var r := AppendedAll(Appended(events, es[0], maxLen), rest, maxLen);
      if maxLen >= 1 then
        AppendedIsWindow(events, es[0], rest, maxLen);
        assert [es[0]] + rest == es;
        r
      else r
  }

  /** `EventLog`: the thread-safe bounded buffer (its lock is not modelled). */
  class EventLog {
    /** `maxlen` of the deque. */
    const maxEvents: nat
    /** `_events`, oldest first. */
    var events: seq<Event>

    /** The deque never holds more than its `maxlen`. */
    ghost predicate Valid()
      reads this
    {
      |events| <= maxEvents
    }

    constructor (maxEvents: nat := DEFAULT_MAX_EVENTS)
      ensures Valid() && this.maxEvents == maxEvents && events == []
    {
      this.maxEvents := maxEvents;
      events := [];
    }

    /** `log(message, level)` at time `now`: append, dropping the oldest entry when full. */
    method Log(now: real, message: string, level: string)
      requires Valid()
      modifies this
      ensures Valid()
      ensures events == Appended(old(events), Event(now, level, message), maxEvents)
    {
      var e := Event(now, level, message);
      if |events| == maxEvents {
        if maxEvents > 0 {
          events := events[1..];
        }
      }
      if |events| < maxEvents {
        events := events + [e];
      }
    }

    /**
     * `get_events(count)`: `list(self._events)[-count:]`, a fresh list. For a
     * positive count the newest `min(count, len)` events, in order; `[-0:]`
     * makes a count of 0 return every event; a negative count drops the
     * first `-count` events.
     */
    function GetEvents(count: int := DEFAULT_COUNT): (r: seq<Event>)
      reads this
      ensures count >= 1 ==> |r| == Min(count, |events|) && r == events[|events| - |r|..]
      ensures count == 0 ==> r == events
      ensures count < 0 ==> r == events[Min(-count, |events|)..]
    {
      SliceFrom(events, -count)
    }

    /** `clear()`: afterwards nothing is counted and nothing is returned. */
    method Clear()
      requires Valid()
      modifies this
      ensures Valid() && events == []
      ensures Count() == 0 && forall count :: GetEvents(count) == []
    {
      events := [];
    }

    /** The `count` property: the number of buffered events, every one of which `get_events(0)` returns. */
    function Count(): (n: nat)
      reads this
      ensures n == |GetEvents(0)|
    {
      |events|
    }
  }
}
