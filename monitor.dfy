/**
 * The rolling metrics window of `SystemMonitor` (mesh_pulse/core/monitor.py):
 * each sampling round records the newest snapshot as `latest`, appends it to
 * `history`, and trims `history` to its last `history_size` entries.
 */
module Monitor {
  import opened Wrappers
  import opened Slices

  /** `METRIC_HISTORY_SIZE`: the default length of the window. */
  const METRIC_HISTORY_SIZE: int := 60

  /**
   * A `SystemMetrics` snapshot: when it was taken and its readings by name
   * ("cpu_percent", "net_sent_bytes", ...); a reading absent from the map is 0.
   */
  datatype Snapshot = Snapshot(timestamp: real, readings: map<string, real>)

  /** The value of one reading of a snapshot. */
  function Reading(m: Snapshot, name: string): real
  {
    if name in m.readings then m.readings[name] else 0.0
  }

  /** `SystemMetrics()` created at time `now`: every reading is zero. */
  function DefaultSnapshot(now: real): (m: Snapshot)
    ensures m.timestamp == now
    ensures forall name :: Reading(m, name) == 0.0
  {
    Snapshot(now, map[])
  }

  /**
   * One update of the window: append, then, when longer than `size`, keep
   * `history[-size:]`. With `size >= 1` that is the newest `size` snapshots;
   * with `size == 0` the slice `[-0:]` keeps everything; with a negative
   * `size` the first `-size` snapshots are dropped.
   */
  function Windowed(history: seq<Snapshot>, m: Snapshot, size: int): (r: seq<Snapshot>)
    ensures size >= 1 ==> |r| == Min(|history| + 1, size) && r == (history + [m])[|history| + 1 - |r|..]
    ensures size == 0 ==> r == history + [m]
    ensures size < 0 ==> r == (history + [m])[Min(-size, |history| + 1)..]
    // Except for a negative size, the newest snapshot ends the window.
    ensures size >= 0 ==> r != [] && r[|r| - 1] == m
  {
    var appended := history + [m];
    if |appended| > size then SliceFrom(appended, -size) else appended
  }

  /** The window after the snapshots `ms`, one round each. */
  function WindowedAll(history: seq<Snapshot>, ms: seq<Snapshot>, size: int): seq<Snapshot>
    decreases |ms|
  {
    if ms == [] then history else WindowedAll(Windowed(history, ms[0], size), ms[1..], size)
  }

  /** One round followed by further snapshots, stated on the whole stream. */
  lemma WindowedStep(history: seq<Snapshot>, m: Snapshot, rest: seq<Snapshot>, size: int)
    requires size >= 1
    ensures SliceFrom(Windowed(history, m, size) + rest, -size) == SliceFrom(history + ([m] + rest), -size)
  {
    assert Windowed(history, m, size) == SliceFrom(history + [m], -size);
    LastOfLast(history + [m], rest, size);
    assert history + [m] + rest == history + ([m] + rest);
  }

  /**
   * Trimming keeps the most recent samples in order: after any number of
   * rounds a window of `size >= 1` holds exactly the newest `size`
   * snapshots ever taken.
   */
  lemma {:induction false} WindowHoldsNewest(history: seq<Snapshot>, ms: seq<Snapshot>, size: int)
    requires size >= 1 && |history| <= size
    ensures WindowedAll(history, ms, size) == SliceFrom(history + ms, -size)
    decreases |ms|
  {
    if ms == [] {
      assert history + ms == history;
    } else {
      var next := Windowed(history, ms[0], size);
      var rest := ms[1..];
      assert [ms[0]] + rest == ms;
      WindowHoldsNewest(next, rest, size);
      WindowedStep(history, ms[0], rest, size);
    }
  }

  /** With `history_size == 0` the `[-0:]` slice never trims: the window keeps every snapshot. */
  lemma {:induction false} ZeroSizeKeepsAll(history: seq<Snapshot>, ms: seq<Snapshot>)
    ensures WindowedAll(history, ms, 0) == history + ms
    decreases |ms|
  {
    if ms != [] {
      var m, rest := ms[0], ms[1..];
      assert ms == [m] + rest;
      AppendedThenRest(history, m, rest);
      ZeroSizeKeepsAll(history + [m], rest);
    } else {
      assert history + ms == history;
    }
  }

  /** The first round of a zero-size window appends; the rest then continue from there. */
  lemma AppendedThenRest(history: seq<Snapshot>, m: Snapshot, rest: seq<Snapshot>)
    ensures WindowedAll(history, [m] + rest, 0) == WindowedAll(history + [m], rest, 0)
  {
    var ms := [m] + rest;
    assert WindowedAll(history, ms, 0) == WindowedAll(Windowed(history, m, 0), rest, 0) by {
      assert ms[0] == m && ms[1..] == rest;
    }
    assert Windowed(history, m, 0) == history + [m];
  }

  /** `SystemMonitor`: the sampled state guarded by its lock (the thread and lock are not modelled). */
  class SystemMonitor {
    /** `_history_size`. */
    const historySize: int
    /** `_history`, oldest first. */
    var history: seq<Snapshot>
    /** `_latest`. */
    var latest: Snapshot
    /** `_prev_metrics`. */
    var prev: Option<Snapshot>

    /**
     * The window never exceeds a positive size; once a snapshot was taken it is
     * both `latest` and `_prev_metrics`, and (unless the size is negative) the
     * last entry of the window.
     */
    ghost predicate Valid()
      reads this
    {
      && (historySize >= 1 ==> |history| <= historySize)
      && (prev.Some? ==> latest == prev.value)
      && (historySize >= 0 ==> (prev.Some? <==> history != []))
      && (historySize >= 0 && history != [] ==> latest == history[|history| - 1])
    }

    /** `SystemMonitor(history_size=...)` created at time `now`. */
    constructor (now: real, historySize: int := METRIC_HISTORY_SIZE)
      ensures Valid() && this.historySize == historySize
      ensures history == [] && latest == DefaultSnapshot(now) && prev == None
    {
      this.historySize := historySize;
      history := [];
      latest := DefaultSnapshot(now);
      prev := None;
    }

    /**
     * The state update of one `_monitor_loop` round. `sample` is what
     * `_sample()` produced, or None when it raised: then the round is
     * swallowed by the `except` and nothing changes.
     */
    method RecordSample(sample: Option<Snapshot>)
      requires Valid()
      modifies this
      ensures Valid()
      ensures sample.None? ==> history == old(history) && latest == old(latest) && prev == old(prev)
      ensures sample.Some? ==>
        && latest == sample.value && prev == sample
        && history == Windowed(old(history), sample.value, historySize)
    {
      if sample.Some? {
        var metrics := sample.value;
        prev := Some(metrics);
        latest := metrics;
        history := history + [metrics];
        if |history| > historySize {
          history := SliceFrom(history, -historySize);
        }
      }
    }

    /** The `latest` property: the default snapshot until the first round, then the newest sample. */
    function Latest(): (m: Snapshot)
      requires Valid()
      reads this
      ensures prev.Some? ==> m == prev.value
      ensures historySize >= 0 && history != [] ==> m == history[|history| - 1]
    {
      latest
    }

    /** The `history` property: a copy of the window, never longer than a positive size. */
    function History(): (h: seq<Snapshot>)
      requires Valid()
      reads this
      ensures historySize >= 1 ==> |h| <= historySize
      ensures historySize >= 0 && prev.Some? ==> h != [] && h[|h| - 1] == Latest()
    {
      history
    }
  }
}
