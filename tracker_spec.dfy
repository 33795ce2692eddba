/**
 * A value-level specification of one `ProximityAnalyzer.analyze` call:
 * the detection history, the active event and the cooldown timestamp
 * before and after the call, and the event (if any) the call returns.
 * The class in module ProximityAnalyzer is proved to follow it.
 */
module TrackerSpec {
  import opened Wrappers
  import opened Geometry
  import opened OverlapSearch

  /** The two constructor parameters: the window length and the cooldown. */
  datatype Config = Config(temporalFrames: nat, cooldownSeconds: real)

  /**
   * A snapshot of a `PhoneUsageEvent`: its identifier, the time it was
   * confirmed, the boxes that triggered it and the frames counted so far.
   */
  datatype EventView = EventView(eventId: nat, startTime: real, personBox: Box, phoneBox: Box, frameCount: nat)

  /**
   * The tracker's state: the detection history (oldest first), the active
   * event, the time the last event ended, and the identifier the next event
   * will receive (standing in for `uuid.uuid4()`).
   */
  datatype TrackerState = TrackerState(
    history: seq<bool>,
    active: Option<EventView>,
    lastEventTime: Option<real>,
    nextId: nat)

  /** What one call leaves behind and what it returns. */
  datatype StepResult = StepResult(state: TrackerState, emitted: Option<EventView>)

  /** The state right after construction. */
  function Init(): TrackerState {
    TrackerState([], None, None, 0)
  }

  /** The last `n` entries of `xs` (all of them when there are fewer). */
  function LastN<T>(xs: seq<T>, n: nat): (r: seq<T>)
    ensures |r| == if |xs| <= n then |xs| else n
  {
    if |xs| <= n then xs else xs[|xs| - n..]
  }

  /**
   * `deque(maxlen=n).append(b)` on a deque holding `h`: the history grows by
   * one entry, and once it would exceed `n` entries the oldest is dropped.
   */
  function Push(h: seq<bool>, b: bool, n: nat): seq<bool> {
    LastN(h + [b], n)
  }

  /** `_is_temporally_consistent`: the window is full and every entry is true. */
  function Consistent(n: nat, h: seq<bool>): (r: bool)
    ensures r <==> |h| >= n && forall k :: 0 <= k < |h| ==> h[k]
  {
    if |h| < n then false else false !in h
  }

  /** The cooldown gate: an event ended less than `cooldownSeconds` before `now`. */
  predicate InCooldown(cfg: Config, lastEventTime: Option<real>, now: real) {
    lastEventTime.Some? && now - lastEventTime.value < cfg.cooldownSeconds
  }

  /**
   * `_check_event_end`: an active event ends when the history holds no
   * `true`; ending records `now` as the last event time.
   */
  function EndIfQuiet(s: TrackerState, now: real): (r: TrackerState)
    ensures r.history == s.history && r.nextId == s.nextId
    ensures r.active.None? && s.active.Some? <==> s.active.Some? && true !in s.history
    ensures r.active.Some? ==> r.active == s.active
    ensures r.lastEventTime == if r.active != s.active then Some(now) else s.lastEventTime
  {
    if s.active.Some? && true !in s.history then
      s.(active := None, lastEventTime := Some(now))
    else
      s
  }

  /**
   * `_handle_confirmed_detection`: inside the cooldown nothing changes and
   * nothing is returned; otherwise a new event is created and returned when
   * none is active, or the active event's frame count grows by one and
   * nothing is returned.
   */
  function HandleConfirmed(cfg: Config, s: TrackerState, pair: Pair, now: real): (r: StepResult)
    ensures r.state.history == s.history && r.state.lastEventTime == s.lastEventTime
    ensures InCooldown(cfg, s.lastEventTime, now) ==> r == StepResult(s, None)
    ensures !InCooldown(cfg, s.lastEventTime, now) && s.active.None? ==>
      r.emitted == Some(EventView(s.nextId, now, pair.person, pair.phone, 1)) &&
      r.state.active == r.emitted && r.state.nextId == s.nextId + 1
    ensures !InCooldown(cfg, s.lastEventTime, now) && s.active.Some? ==>
      r.emitted.None? && r.state.nextId == s.nextId &&
      r.state.active == Some(s.active.value.(frameCount := s.active.value.frameCount + 1))
  {
    if InCooldown(cfg, s.lastEventTime, now) then
      StepResult(s, None)
    else if s.active.None? then
      var event := EventView(s.nextId, now, pair.person, pair.phone, 1);
      StepResult(s.(active := Some(event), nextId := s.nextId + 1), Some(event))
    else
      var event := s.active.value;
      StepResult(s.(active := Some(event.(frameCount := event.frameCount + 1))), None)
  }

  /**
   * What `analyze` finds in one frame's detections: no pair when either list
   * is empty, otherwise the first overlapping pair of the search.
   */
  function Detect(persons: seq<Box>, phones: seq<Box>): Option<Pair> {
    if persons == [] || phones == [] then None else FirstOverlap(persons, phones)
  }

  /**
   * A frame yields a pair exactly when some person box overlaps some phone
   * box, and the pair it yields is one of those.
   */
  lemma DetectSpec(persons: seq<Box>, phones: seq<Box>)
    ensures Detect(persons, phones).None? <==>
      forall i, j :: 0 <= i < |persons| && 0 <= j < |phones| ==> !BoxesOverlap(persons[i], phones[j])
    ensures Detect(persons, phones).Some? ==>
      var pair := Detect(persons, phones).value;
      pair.person in persons && pair.phone in phones && BoxesOverlap(pair.person, pair.phone)
  {
    if persons != [] && phones != [] {
      var _, _ := FirstOverlapSpec(persons, phones);
    }
  }

  /**
   * The state update of one `analyze` call, given what the overlap search
   * found: `true` is pushed for a pair and leads to the confirmed-detection
   * handling once the window is consistent; `false` is pushed otherwise and
   * may end the active event.
   */
  function StepOn(cfg: Config, s: TrackerState, found: Option<Pair>, now: real): (r: StepResult)
    // each call appends exactly one entry, evicting the oldest once full
    ensures r.state.history == Push(s.history, found.Some?, cfg.temporalFrames)
  {
    match found
    case Some(pair) =>
      var pushed := s.(history := Push(s.history, true, cfg.temporalFrames));
      if Consistent(cfg.temporalFrames, pushed.history) then
        HandleConfirmed(cfg, pushed, pair, now)
      else
        StepResult(pushed, None)
    case None =>
      var pushed := s.(history := Push(s.history, false, cfg.temporalFrames));
      StepResult(EndIfQuiet(pushed, now), None)
  }

  /** One `analyze(detections)` call made at time `now`. */
  function Step(cfg: Config, s: TrackerState, persons: seq<Box>, phones: seq<Box>, now: real): StepResult {
    StepOn(cfg, s, Detect(persons, phones), now)
  }

  /**
   * A frame with no person or no phone records `false`, runs the end-of-event
   * check and returns nothing.
   */
  lemma EmptyFrame(cfg: Config, s: TrackerState, persons: seq<Box>, phones: seq<Box>, now: real)
    requires persons == [] || phones == []
    ensures Step(cfg, s, persons, phones, now) ==
      StepResult(EndIfQuiet(s.(history := Push(s.history, false, cfg.temporalFrames)), now), None)
  {
  }

  /**
   * What one `analyze` call promises, stated on `StepOn`.
   */
  lemma StepContract(cfg: Config, s: TrackerState, found: Option<Pair>, now: real)
    // an event is returned only on a confirmed frame, outside the cooldown,
    // when none was active; it becomes the active event
    ensures var r := StepOn(cfg, s, found, now);
      r.emitted.Some? ==>
      found.Some? &&
      |r.state.history| == cfg.temporalFrames && (forall k :: 0 <= k < |r.state.history| ==> r.state.history[k]) &&
      !InCooldown(cfg, s.lastEventTime, now) && s.active.None? &&
      r.emitted == Some(EventView(s.nextId, now, found.value.person, found.value.phone, 1)) &&
      r.state.active == r.emitted
    // ... and is returned whenever those conditions hold
    ensures var r := StepOn(cfg, s, found, now);
      (found.Some? && Consistent(cfg.temporalFrames, r.state.history) &&
       !InCooldown(cfg, s.lastEventTime, now) && s.active.None?) ==> r.emitted.Some?
    // inside the cooldown a confirmed frame changes nothing but the history
    ensures var r := StepOn(cfg, s, found, now);
      found.Some? && InCooldown(cfg, s.lastEventTime, now) ==>
      r == StepResult(s.(history := r.state.history), None)
    // outside the cooldown a confirmed frame grows the active event by exactly one frame
    ensures var r := StepOn(cfg, s, found, now);
      (found.Some? && Consistent(cfg.temporalFrames, r.state.history) &&
       !InCooldown(cfg, s.lastEventTime, now) && s.active.Some?) ==>
      r.emitted.None? && r.state.nextId == s.nextId &&
      r.state.active == Some(s.active.value.(frameCount := s.active.value.frameCount + 1))
    // a `true` push never ends an event, and leaves it alone unless the frame is confirmed
    ensures var r := StepOn(cfg, s, found, now);
      found.Some? && s.active.Some? ==>
      r.state.active.Some? && r.state.active.value.eventId == s.active.value.eventId
    ensures var r := StepOn(cfg, s, found, now);
      found.Some? && !Consistent(cfg.temporalFrames, r.state.history) ==>
      r == StepResult(s.(history := r.state.history), None)
    // an active event ends only on a `false` push that leaves no `true` in the history
    ensures var r := StepOn(cfg, s, found, now);
      s.active.Some? && r.state.active.None? <==>
      s.active.Some? && found.None? && true !in r.state.history
    ensures var r := StepOn(cfg, s, found, now);
      s.active.Some? && r.state.active.None? ==> r.state.lastEventTime == Some(now)
    // the last event time only ever moves to `now`; identifiers are never reused
    ensures var r := StepOn(cfg, s, found, now);
      r.state.lastEventTime == s.lastEventTime || r.state.lastEventTime == Some(now)
    ensures var r := StepOn(cfg, s, found, now);
      r.state.nextId == if r.emitted.Some? then s.nextId + 1 else s.nextId
    // the active event afterwards is the one just returned, or the previous
    // one with its frame count unchanged or grown by one, or none
    ensures var r := StepOn(cfg, s, found, now);
      r.state.active.Some? ==>
      r.state.active == r.emitted ||
      (s.active.Some? &&
       (r.state.active == s.active ||
        r.state.active == Some(s.active.value.(frameCount := s.active.value.frameCount + 1))))
  {
  }

  /**
   * The invariant every reachable state keeps: the history holds at most
   * `temporalFrames` entries, the active event has counted at least one
   * frame and carries an identifier already handed out, and (for a window of
   * at least one frame) an active event always has a `true` in the history.
   */
  predicate Inv(cfg: Config, s: TrackerState) {
    |s.history| <= cfg.temporalFrames &&
    (s.active.Some? ==> s.active.value.frameCount >= 1 && s.active.value.eventId < s.nextId) &&
    (s.active.Some? && cfg.temporalFrames >= 1 ==> true in s.history)
  }

  lemma InitInv(cfg: Config)
    ensures Inv(cfg, Init())
  {
  }

  /** Every `analyze` call keeps the invariant. */
  lemma StepPreservesInv(cfg: Config, s: TrackerState, found: Option<Pair>, now: real)
    requires Inv(cfg, s)
    ensures Inv(cfg, StepOn(cfg, s, found, now).state)
  {
    var r := StepOn(cfg, s, found, now);
    var h := r.state.history;
    if found.Some? && cfg.temporalFrames >= 1 {
      assert h[|h| - 1];
    }
  }
}
