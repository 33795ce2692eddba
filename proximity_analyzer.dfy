/**
 * The stateful tracker of `src/core/proximity_analyzer.py`: a
 * `PhoneUsageEvent` whose frame count is updated in place, and a
 * `ProximityAnalyzer` holding the bounded detection history, the active
 * event and the last event time. Each method is proved to follow the
 * value-level specification in module TrackerSpec.
 */
module ProximityAnalyzer {
  import opened Wrappers
  import opened Geometry
  import opened OverlapSearch
  import opened TrackerSpec

  /** A detected phone-usage event. Only `frameCount` changes after creation. */
  class PhoneUsageEvent {
    const eventId: nat
    const startTime: real
    const personBbox: Box
    const phoneBbox: Box
    var frameCount: nat

    constructor (eventId: nat, startTime: real, personBbox: Box, phoneBbox: Box, frameCount: nat)
      ensures View() == EventView(eventId, startTime, personBbox, phoneBbox, frameCount)
    {
      this.eventId := eventId;
      this.startTime := startTime;
      this.personBbox := personBbox;
      this.phoneBbox := phoneBbox;
      this.frameCount := frameCount;
    }

    /** The event's current contents as a value. */
    function View(): EventView
      reads this
    {
      EventView(eventId, startTime, personBbox, phoneBbox, frameCount)
    }
  }

  class ProximityAnalyzer {
    const temporalFrames: nat
    const cooldownSeconds: real
    /** The last `temporalFrames` overlap outcomes, oldest first. */
    var detectionHistory: seq<bool>
    var activeEvent: PhoneUsageEvent?
    var lastEventTime: Option<real>
    /** The identifier the next event receives; stands in for `uuid.uuid4()`. */
    var nextId: nat

    function Cfg(): Config {
      Config(temporalFrames, cooldownSeconds)
    }

    /** The tracker's state as a value. */
    ghost function State(): TrackerState
      reads this, activeEvent
    {
      TrackerState(detectionHistory,
                   if activeEvent == null then None else Some(activeEvent.View()),
                   lastEventTime, nextId)
    }

    ghost predicate Valid()
      reads this, activeEvent
    {
      Inv(Cfg(), State())
    }

    constructor (temporalFrames: nat, cooldownSeconds: real)
      ensures Cfg() == Config(temporalFrames, cooldownSeconds)
      ensures Valid() && State() == Init()
    {
      this.temporalFrames := temporalFrames;
      this.cooldownSeconds := cooldownSeconds;
      detectionHistory := [];
      activeEvent := null;
      lastEventTime := None;
      nextId := 0;
    }

    /**
     * `analyze`: classify the frame, push the outcome, and create, extend or
     * end the active event. A returned event is the tracker's own active
     * event object, so later frame-count updates are visible through it; an
     * event that is no longer active is never modified again.
     */
    method Analyze(persons: seq<Box>, phones: seq<Box>, now: real) returns (event: PhoneUsageEvent?)
      requires Valid()
      modifies this, activeEvent
      ensures Valid()
      ensures State() == Step(Cfg(), old(State()), persons, phones, now).state
      ensures event == null <==> Step(Cfg(), old(State()), persons, phones, now).emitted.None?
      ensures event != null ==>
        fresh(event) && event == activeEvent &&
        event.View() == Step(Cfg(), old(State()), persons, phones, now).emitted.value
      ensures activeEvent == null || activeEvent == old(activeEvent) || activeEvent == event
      ensures old(activeEvent) != null && activeEvent != old(activeEvent) ==>
        old(activeEvent).frameCount == old(activeEvent.frameCount)
    {
      ghost var before := State();
      StepPreservesInv(Cfg(), before, Detect(persons, phones), now);
      if persons == [] || phones == [] {
        AppendHistory(false);
        CheckEventEnd(now);
        assert State() == EndIfQuiet(before.(history := Push(before.history, false, temporalFrames)), now);
        return null;
      }
      var bestPair := FindOverlappingPair(persons, phones);
      if bestPair.Some? {
        AppendHistory(true);
        ghost var pushed := before.(history := Push(before.history, true, temporalFrames));
        assert State() == pushed;
        if Consistent(temporalFrames, detectionHistory) {
          event := HandleConfirmedDetection(bestPair.value, now);
          return;
        }
      } else {
        AppendHistory(false);
        CheckEventEnd(now);
        assert State() == EndIfQuiet(before.(history := Push(before.history, false, temporalFrames)), now);
      }
      event := null;
    }

    /** `detection_history.append(b)` on a deque bounded by `temporalFrames`. */
    method AppendHistory(b: bool)
      requires |detectionHistory| <= temporalFrames
      modifies this`detectionHistory
      ensures detectionHistory == Push(old(detectionHistory), b, temporalFrames)
    {
      if |detectionHistory| < temporalFrames {
        detectionHistory := detectionHistory + [b];
      } else {
        detectionHistory := (detectionHistory + [b])[1..];
      }
    }

    /** `_handle_confirmed_detection`: the cooldown gate, then create or extend the event. */
    method HandleConfirmedDetection(pair: Pair, now: real) returns (event: PhoneUsageEvent?)
      modifies this`activeEvent, this`nextId, activeEvent
      ensures State() == HandleConfirmed(Cfg(), old(State()), pair, now).state
      ensures event == null <==> HandleConfirmed(Cfg(), old(State()), pair, now).emitted.None?
      ensures event != null ==>
        fresh(event) && event == activeEvent &&
        event.View() == HandleConfirmed(Cfg(), old(State()), pair, now).emitted.value
      ensures activeEvent == old(activeEvent) || (old(activeEvent) == null && activeEvent == event)
    {
      if lastEventTime.Some? {
        var timeSinceLast := now - lastEventTime.value;
        if timeSinceLast < cooldownSeconds {
          return null;
        }
      }
      if activeEvent == null {
        activeEvent := new PhoneUsageEvent(nextId, now, pair.person, pair.phone, 1);
        nextId := nextId + 1;
        return activeEvent;
      } else {
        activeEvent.frameCount := activeEvent.frameCount + 1;
        return null;
      }
    }

    /** `_check_event_end`: end the active event once the history holds no `true`. */
    method CheckEventEnd(now: real)
      modifies this`activeEvent, this`lastEventTime
      ensures State() == EndIfQuiet(old(State()), now)
      ensures activeEvent == null || activeEvent == old(activeEvent)
    {
      if activeEvent != null && true !in detectionHistory {
        lastEventTime := Some(now);
        activeEvent := null;
      }
    }
  }

  /**
   * With a three-frame window already holding two overlaps, a third
   * overlapping frame returns a new event, and a fourth returns nothing but
   * grows the frame count of that same object, which the caller still holds.
   */
  method SharedEventGrows(analyzer: ProximityAnalyzer, person: Box, phone: Box, now: real)
      returns (event: PhoneUsageEvent)
    requires analyzer.Valid() && analyzer.Cfg() == Config(3, 10.0)
    requires analyzer.State() == TrackerState([true, true], None, None, 0)
    requires BoxesOverlap(person, phone)
    modifies analyzer
    ensures fresh(event) && analyzer.activeEvent == event
    ensures event.View() == EventView(0, now, person, phone, 2)
  {
    assert FirstOverlap([person], [phone]) == Some(Pair(person, phone));
    var e := analyzer.Analyze([person], [phone], now);
    assert e != null;
    event := e;
    e := analyzer.Analyze([person], [phone], now);
  }
}
