/**
 * Properties of whole sessions: a sequence of frames fed to `analyze` one
 * call at a time, starting from a freshly constructed tracker.
 */
module Traces {
  import opened Wrappers
  import opened Geometry
  import opened OverlapSearch
  import opened TrackerSpec

  /**
   * One `analyze` call: an outcome of the overlap search (any pair or none;
   * `Detect` gives the one a frame's detections produce) and the time at
   * which the call is made. Session properties hold for every sequence of
   * such outcomes.
   */
  datatype Frame = Frame(found: Option<Pair>, now: real)

  /** The state after a session and what each call returned, in order. */
  datatype RunResult = RunResult(state: TrackerState, emitted: seq<Option<EventView>>)

  /** The overlap signal pushed for a frame. */
  predicate Signal(f: Frame) {
    f.found.Some?
  }

  function Signals(frames: seq<Frame>): seq<bool> {
    seq(|frames|, k requires 0 <= k < |frames| => Signal(frames[k]))
  }

  /** Feeds `frames` to the tracker, one `analyze` call each. */
  function Run(cfg: Config, s: TrackerState, frames: seq<Frame>): (r: RunResult)
    ensures |r.emitted| == |frames|
  {
    if frames == [] then RunResult(s, [])
    else
      var prev := Run(cfg, s, frames[..|frames| - 1]);
      var f := frames[|frames| - 1];
      var step := StepOn(cfg, prev.state, f.found, f.now);
      RunResult(step.state, prev.emitted + [step.emitted])
  }

  /** The state of a fresh tracker after the first `m` frames. */
  function After(cfg: Config, frames: seq<Frame>, m: nat): TrackerState
    requires m <= |frames|
  {
    Run(cfg, Init(), frames[..m]).state
  }

  /** The frames' clock never runs backwards. */
  predicate NonDecreasingClock(frames: seq<Frame>) {
    forall i, j :: 0 <= i <= j < |frames| ==> frames[i].now <= frames[j].now
  }

  /** Pushing onto a history already trimmed to `n` trims the same as pushing onto the untrimmed one. */
  lemma LastNPush(xs: seq<bool>, b: bool, n: nat)
    ensures Push(LastN(xs, n), b, n) == LastN(xs + [b], n)
  {
    if n > 0 && |xs| >= n {
      var tail := xs[|xs| - n..];
      assert (tail + [b])[1..] == xs[|xs| + 1 - n..] + [b];
      assert (xs + [b])[|xs| + 1 - n..] == xs[|xs| + 1 - n..] + [b];
    }
  }

  lemma LastNAt<T>(xs: seq<T>, n: nat, k: nat)
    requires k < |LastN(xs, n)|
    ensures LastN(xs, n)[k] == xs[|xs| - |LastN(xs, n)| + k]
  {
  }

  /** What a session returns is a prefix of what any longer session returns. */
  lemma {:induction false} RunPrefix(cfg: Config, s: TrackerState, frames: seq<Frame>, m: nat)
    requires m <= |frames|
    ensures Run(cfg, s, frames[..m]).emitted == Run(cfg, s, frames).emitted[..m]
    decreases |frames|
  {
    if m == |frames| {
      assert frames[..m] == frames;
    } else {
      var init := frames[..|frames| - 1];
      assert init[..m] == frames[..m];
      RunPrefix(cfg, s, init, m);
    }
  }

  /** Call `k` of a session is one `Step` from the state the calls before it left. */
  lemma AfterStep(cfg: Config, frames: seq<Frame>, k: nat)
    requires k < |frames|
    ensures var step := StepOn(cfg, After(cfg, frames, k), frames[k].found, frames[k].now);
      Run(cfg, Init(), frames).emitted[k] == step.emitted &&
      After(cfg, frames, k + 1) == step.state
  {
    RunPrefix(cfg, Init(), frames, k + 1);
    assert frames[..k + 1][..k] == frames[..k];
  }

  /**
   * The detection history is always the last `temporalFrames` overlap
   * signals of the session.
   */
  lemma {:induction false} RunHistory(cfg: Config, s: TrackerState, frames: seq<Frame>)
    requires |s.history| <= cfg.temporalFrames
    ensures Run(cfg, s, frames).state.history == LastN(s.history + Signals(frames), cfg.temporalFrames)
  {
    if frames == [] {
      assert s.history + Signals(frames) == s.history;
    } else {
      var init, f := frames[..|frames| - 1], frames[|frames| - 1];
      RunHistory(cfg, s, init);
      LastNPush(s.history + Signals(init), Signal(f), cfg.temporalFrames);
      assert Signals(frames) == Signals(init) + [Signal(f)];
      assert s.history + Signals(frames) == (s.history + Signals(init)) + [Signal(f)];
    }
  }

  /** After `m` frames the history is the last `temporalFrames` signals of those frames. */
  lemma HistoryAfter(cfg: Config, frames: seq<Frame>, m: nat)
    requires m <= |frames|
    ensures After(cfg, frames, m).history == LastN(Signals(frames[..m]), cfg.temporalFrames)
  {
    RunHistory(cfg, Init(), frames[..m]);
    assert Init().history + Signals(frames[..m]) == Signals(frames[..m]);
  }

  /**
   * After `m` frames the history holds the signals of the last
   * `min(m, temporalFrames)` frames, oldest first.
   */
  lemma WindowAfter(cfg: Config, frames: seq<Frame>, m: nat)
    requires m <= |frames|
    ensures var h := After(cfg, frames, m).history;
      |h| == (if m <= cfg.temporalFrames then m else cfg.temporalFrames) &&
      forall i :: 0 <= i < |h| ==> h[i] == Signal(frames[m - |h| + i])
  {
    HistoryAfter(cfg, frames, m);
    SignalWindow(frames, m, cfg.temporalFrames);
  }

  /** The last `n` signals of the first `m` frames, position by position. */
  lemma SignalWindow(frames: seq<Frame>, m: nat, n: nat)
    requires m <= |frames|
    ensures var w := LastN(Signals(frames[..m]), n);
      |w| == (if m <= n then m else n) &&
      forall i :: 0 <= i < |w| ==> w[i] == Signal(frames[m - |w| + i])
  {
    var prefix := frames[..m];
    var sig := Signals(prefix);
    var w := LastN(sig, n);
    assert |sig| == m;
    forall i | 0 <= i < |w|
      ensures w[i] == Signal(frames[m - |w| + i])
    {
      LastNAt(sig, n, i);
      var j := m - |w| + i;
      assert prefix[j] == frames[j];
      assert sig[j] == Signal(prefix[j]);
    }
  }

  /** A call that returns an event leaves a full history of overlapping frames. */
  lemma EmitAt(cfg: Config, frames: seq<Frame>, k: nat)
    requires k < |frames| && Run(cfg, Init(), frames).emitted[k].Some?
    ensures var h := After(cfg, frames, k + 1).history;
      |h| == cfg.temporalFrames && forall i :: 0 <= i < |h| ==> h[i]
  {
    AfterStep(cfg, frames, k);
    StepContract(cfg, After(cfg, frames, k), frames[k].found, frames[k].now);
  }

  /** A call that ends the active event found no overlap and records its time. */
  lemma EndAt(cfg: Config, frames: seq<Frame>, k: nat)
    requires k < |frames|
    requires After(cfg, frames, k).active.Some? && After(cfg, frames, k + 1).active.None?
    ensures !Signal(frames[k]) && true !in After(cfg, frames, k + 1).history
    ensures After(cfg, frames, k + 1).lastEventTime == Some(frames[k].now)
  {
    AfterStep(cfg, frames, k);
    StepContract(cfg, After(cfg, frames, k), frames[k].found, frames[k].now);
  }

  /** A call either keeps the last event time or sets it to the call's time. */
  lemma LastEventTimeStep(cfg: Config, frames: seq<Frame>, k: nat)
    requires k < |frames|
    ensures After(cfg, frames, k + 1).lastEventTime == After(cfg, frames, k).lastEventTime ||
            After(cfg, frames, k + 1).lastEventTime == Some(frames[k].now)
  {
    AfterStep(cfg, frames, k);
    StepContract(cfg, After(cfg, frames, k), frames[k].found, frames[k].now);
  }

  /**
   * A window of the last `n` signals that is full and all true means the
   * last `n` frames all had an overlapping pair.
   */
  lemma FullWindow(frames: seq<Frame>, m: nat, n: nat)
    requires m <= |frames|
    requires var w := LastN(Signals(frames[..m]), n);
      |w| == n && forall i :: 0 <= i < |w| ==> w[i]
    ensures m >= n
    ensures forall j :: m - n <= j < m ==> Signal(frames[j])
  {
    var w := LastN(Signals(frames[..m]), n);
    SignalWindow(frames, m, n);
    forall j | m - n <= j < m
      ensures Signal(frames[j])
    {
      assert w[j - (m - n)] == Signal(frames[j]);
    }
  }

  /**
   * Debouncing: a call returns an event only when it and the
   * `temporalFrames - 1` calls before it all found an overlapping pair.
   */
  lemma Debounce(cfg: Config, frames: seq<Frame>, k: nat)
    requires k < |frames| && Run(cfg, Init(), frames).emitted[k].Some?
    ensures k + 1 >= cfg.temporalFrames
    ensures forall j :: k + 1 - cfg.temporalFrames <= j <= k ==> Signal(frames[j])
  {
    EmitAt(cfg, frames, k);
    HistoryAfter(cfg, frames, k + 1);
    FullWindow(frames, k + 1, cfg.temporalFrames);
  }

  /**
   * An event ends only on a frame without overlap that closes a run of
   * `temporalFrames` frames without overlap (or fewer, at the session's start).
   */
  lemma QuietBeforeEnd(cfg: Config, frames: seq<Frame>, k: nat)
    requires k < |frames|
    requires After(cfg, frames, k).active.Some? && After(cfg, frames, k + 1).active.None?
    ensures !Signal(frames[k])
    ensures forall j :: k + 1 - cfg.temporalFrames <= j <= k && 0 <= j ==> !Signal(frames[j])
    ensures After(cfg, frames, k + 1).lastEventTime == Some(frames[k].now)
  {
    var h := After(cfg, frames, k + 1).history;
    EndAt(cfg, frames, k);
    WindowAfter(cfg, frames, k + 1);
    forall j | k + 1 - cfg.temporalFrames <= j <= k && 0 <= j
      ensures !Signal(frames[j])
    {
      var i := j - (k + 1 - |h|);
      assert h[i] == Signal(frames[j]);
    }
  }

  /**
   * Events are returned with strictly increasing identifiers, each drawn
   * from those the tracker had not yet handed out.
   */
  lemma {:induction false} IdsIncrease(cfg: Config, s: TrackerState, frames: seq<Frame>)
    ensures var r := Run(cfg, s, frames);
      s.nextId <= r.state.nextId &&
      (forall k :: 0 <= k < |frames| && r.emitted[k].Some? ==>
         s.nextId <= r.emitted[k].value.eventId < r.state.nextId) &&
      (forall k1, k2 :: 0 <= k1 < k2 < |frames| && r.emitted[k1].Some? && r.emitted[k2].Some? ==>
         r.emitted[k1].value.eventId < r.emitted[k2].value.eventId)
  {
    if frames != [] {
      var init := frames[..|frames| - 1];
      IdsIncrease(cfg, s, init);
      var prev, r := Run(cfg, s, init), Run(cfg, s, frames);
      assert forall k :: 0 <= k < |init| ==> r.emitted[k] == prev.emitted[k];
    }
  }

  /**
   * Exactly-once notification, first half: the active event after any
   * session was returned by one of its calls (with frame count 1) and has
   * differed from what was returned only in its frame count since.
   */
  lemma {:induction false} ActiveWasEmitted(cfg: Config, frames: seq<Frame>) returns (k: nat)
    requires Run(cfg, Init(), frames).state.active.Some?
    ensures var r := Run(cfg, Init(), frames);
      k < |frames| && r.emitted[k].Some? && r.emitted[k].value.frameCount == 1 &&
      r.state.active.value == r.emitted[k].value.(frameCount := r.state.active.value.frameCount)
  {
    var init := frames[..|frames| - 1];
    var prev, r := Run(cfg, Init(), init), Run(cfg, Init(), frames);
    if r.state.active == r.emitted[|frames| - 1] {
      k := |frames| - 1;
    } else {
      k := ActiveWasEmitted(cfg, init);
      assert r.emitted[k] == prev.emitted[k];
    }
  }

  /**
   * Exactly-once notification, second half: no two calls of a session return
   * events with the same identifier.
   */
  lemma EmittedOnce(cfg: Config, frames: seq<Frame>, k1: nat, k2: nat)
    requires k1 < |frames| && k2 < |frames|
    requires Run(cfg, Init(), frames).emitted[k1].Some? && Run(cfg, Init(), frames).emitted[k2].Some?
    requires Run(cfg, Init(), frames).emitted[k1].value.eventId == Run(cfg, Init(), frames).emitted[k2].value.eventId
    ensures k1 == k2
  {
    IdsIncrease(cfg, Init(), frames);
  }

  /** Once an event has ended, the last event time stays at or after its end. */
  lemma {:induction false} LastEventTimeKeeps(cfg: Config, frames: seq<Frame>, k: nat, m: nat)
    requires NonDecreasingClock(frames)
    requires k < m <= |frames|
    requires After(cfg, frames, k).active.Some? && After(cfg, frames, k + 1).active.None?
    ensures After(cfg, frames, m).lastEventTime.Some?
    ensures After(cfg, frames, m).lastEventTime.value >= frames[k].now
  {
    if m == k + 1 {
      EndAt(cfg, frames, k);
    } else {
      LastEventTimeKeeps(cfg, frames, k, m - 1);
      LastEventTimeStep(cfg, frames, m - 1);
      assert frames[k].now <= frames[m - 1].now;
    }
  }

  /**
   * The cooldown gate over a session: with a clock that never runs
   * backwards, no event is returned less than `cooldownSeconds` after any
   * earlier event ended.
   */
  lemma CooldownAfterEnd(cfg: Config, frames: seq<Frame>, k1: nat, k2: nat)
    requires NonDecreasingClock(frames)
    requires k1 < k2 < |frames|
    requires After(cfg, frames, k1).active.Some? && After(cfg, frames, k1 + 1).active.None?
    requires Run(cfg, Init(), frames).emitted[k2].Some?
    ensures frames[k2].now - frames[k1].now >= cfg.cooldownSeconds
  {
    LastEventTimeKeeps(cfg, frames, k1, k2);
    AfterStep(cfg, frames, k2);
  }
}
