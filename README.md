# Phone-usage event tracker, modelled in Dafny

This project models the core of the phone-usage detector: the tracker in
`src/core/proximity_analyzer.py`, which turns a stream of per-frame person
and phone bounding boxes into discrete, de-duplicated phone-usage events.

- **Overlap classifier** (module `Geometry`): `_boxes_overlap` on
  `[x1, y1, x2, y2]` boxes: strict overlap on both axes.
- **First-pair search** (module `OverlapSearch`): the nested person-major loop
  in `analyze`, with its flag and `break`, as a method proved equal to a
  recursive specification. The pair it returns is the first overlapping pair
  in that visiting order, and there is none exactly when no pair overlaps.
- **Tracker specification** (module `TrackerSpec`): one `analyze` call as a
  function over a state value. The state is:
  - the bounded detection history;
  - the active event;
  - the time the last event ended;
  - the next event identifier.

  The specification also covers the pieces `_is_temporally_consistent`,
  `_handle_confirmed_detection` and `_check_event_end`, what one call
  promises, and the invariant every reachable state keeps.
- **The classes** (module `ProximityAnalyzer`): `PhoneUsageEvent` and
  `ProximityAnalyzer` are Dafny classes whose fields the methods update in
  place. The window is a `seq<bool>` field trimmed to the last
  `temporalFrames` entries. Each method is proved to produce exactly the state
  the specification prescribes. A returned event is the analyzer's own active
  event object, so later frame-count increments are visible through it.
- **Sessions** (module `Traces`): properties of a whole sequence of calls
  starting from a fresh tracker:
  - the history is always the last `temporalFrames` overlap signals;
  - debouncing;
  - how events end;
  - distinct identifiers (strictly increasing under the counter) and
    exactly-once notification;
  - the cooldown gate under a clock that never runs backwards.
- **A worked session** (module `Session`): with a three-frame window and a
  ten-second cooldown:
  - three overlapping frames start an event, and a fourth only extends it;
  - three frames without a phone end it;
  - overlapping frames five seconds later are suppressed;
  - a frame eleven seconds after the end starts a second event.

`datetime.now()` is the parameter `now: real`, in seconds, so
`(a - b).total_seconds()` is `a - b`. `uuid.uuid4()` is a counter `nextId`:
each new event takes the next number. Box coordinates are `real`.

**Degenerate boxes.** Degenerate boxes are not special-cased:
`_boxes_overlap` only compares coordinates, so a zero-width box strictly
inside another box satisfies all four strict comparisons and is reported as
overlapping it, although the two share no interior point.
`Geometry.DegenerateBoxOverlaps` shows such a pair.

## Model

| member | source | states |
|---|---|---|
| Geometry.BoxesOverlapSymmetric | src/core/proximity_analyzer.py:76-90 | the overlap test gives the same answer with its two boxes swapped |
| Geometry.TouchingBoxesDoNotOverlap | src/core/proximity_analyzer.py:82-87 | boxes that only share an edge (equal x or y coordinates on facing sides) do not overlap |
| Geometry.OverlapIffCommonInterior | src/core/proximity_analyzer.py:76-90 | for well-formed boxes, the test is true exactly when some point lies strictly inside both boxes |
| Geometry.DegenerateBoxOverlaps | src/core/proximity_analyzer.py:82-90 | a zero-width box strictly inside another box is reported as overlapping it |
| Geometry.EdgeAndCornerExamples | src/core/proximity_analyzer.py:76-90 | concrete verdicts for a proper overlap, corner contact, edge contact and containment |
| OverlapSearch.FirstPhoneForSpec | src/core/proximity_analyzer.py:45-49 | the inner loop finds a phone exactly when one overlaps the person; it returns the first such phone |
| OverlapSearch.FirstOverlapSpec | src/core/proximity_analyzer.py:41-51 | no pair is found exactly when no person-phone pair overlaps; a found pair overlaps and every pair visited before it (person-major, then phone order) does not |
| OverlapSearch.FindOverlappingPair | src/core/proximity_analyzer.py:41-51 | the nested loops with flag and `break` return exactly the first overlapping pair of the specification |
| TrackerSpec.LastN | src/core/proximity_analyzer.py:23 | a `deque(maxlen=n)` keeps all entries while there are at most `n`, and otherwise exactly `n` |
| TrackerSpec.Consistent | src/core/proximity_analyzer.py:92-104 | the window is consistent exactly when it holds at least `temporal_frames` entries and every entry is true |
| TrackerSpec.EndIfQuiet | src/core/proximity_analyzer.py:132-136 | an active event ends exactly when the history holds no true; ending records `now` as the last event time; history and identifiers are untouched |
| TrackerSpec.HandleConfirmed | src/core/proximity_analyzer.py:106-130 | inside the cooldown nothing changes and nothing is returned; otherwise a new event (frame count 1, start `now`, the pair's boxes, a fresh identifier) is created, made active and returned, or the active event's frame count grows by one and nothing is returned |
| TrackerSpec.DetectSpec | src/core/proximity_analyzer.py:34-51 | a frame yields no pair exactly when no person box overlaps a phone box; a yielded pair is an overlapping pair taken from the two lists |
| TrackerSpec.EmptyFrame | src/core/proximity_analyzer.py:35-38 | an empty person or phone list appends false, runs the end-of-event check and returns nothing |
| TrackerSpec.StepOn | src/core/proximity_analyzer.py:53-61 | each call appends exactly one entry (true when a pair was found), evicting the oldest once the window is full |
| TrackerSpec.StepContract | src/core/proximity_analyzer.py:53-63 | an event is returned iff the frame is confirmed, outside the cooldown, with no active event, and it then becomes active; the cooldown and non-consistent cases change only the history; an active event is extended by exactly one frame; a true push never ends an event; an event ends iff a false push leaves no true, setting the last event time to `now`; the identifier counter grows iff an event is returned |
| TrackerSpec.InitInv | src/core/proximity_analyzer.py:18-27 | a fresh tracker satisfies the invariant |
| TrackerSpec.StepPreservesInv | src/core/proximity_analyzer.py:29-63 | every call keeps the invariant: at most `temporal_frames` history entries; an active event has counted at least one frame, carries an identifier already handed out and (for a window of at least one frame) has a true in the history |
| ProximityAnalyzer.PhoneUsageEvent.constructor | src/core/proximity_analyzer.py:8-15 | the event holds the given identifier, start time, boxes and frame count |
| ProximityAnalyzer.ProximityAnalyzer.constructor | src/core/proximity_analyzer.py:18-27 | a new tracker has the given window length and cooldown, an empty history, no active event and no last event time |
| ProximityAnalyzer.ProximityAnalyzer.Analyze | src/core/proximity_analyzer.py:29-63 | the new state is exactly one specification step; a non-null result is a freshly created event, is the active event and matches the returned specification event; an event that stops being active is not modified |
| ProximityAnalyzer.ProximityAnalyzer.AppendHistory | src/core/proximity_analyzer.py:23 | appending to the bounded deque yields the last `temporal_frames` entries of the old history plus the new one |
| ProximityAnalyzer.ProximityAnalyzer.HandleConfirmedDetection | src/core/proximity_analyzer.py:106-130 | the new state and the result follow the confirmed-detection specification; the active event is either unchanged or a freshly created event that is returned |
| ProximityAnalyzer.ProximityAnalyzer.CheckEventEnd | src/core/proximity_analyzer.py:132-136 | the new state follows the end-of-event specification |
| ProximityAnalyzer.SharedEventGrows | src/core/proximity_analyzer.py:118-130 | after an event is returned, a further confirmed frame increments the frame count of that same object the caller holds |
| Session.SessionStarts | src/core/proximity_analyzer.py:53-58 | with a three-frame window, the third overlapping frame returns event 0 with frame count 1, and the fourth only raises the count to 2 |
| Session.SessionEnds | src/core/proximity_analyzer.py:34-38 | frames without a phone keep the event through two calls and end it on the third, at time 0 |
| Session.SessionSuppressed | src/core/proximity_analyzer.py:111-115 | five seconds after the end, a full window of overlapping frames returns nothing because of the ten-second cooldown |
| Session.SessionRestarts | src/core/proximity_analyzer.py:111-126 | eleven seconds after the end, the same frame returns event 1 |
| Traces.LastNPush | src/core/proximity_analyzer.py:23 | appending to an already trimmed window gives the same result as trimming after the append |
| Traces.RunHistory | src/core/proximity_analyzer.py:23 | after any session the history is the last `temporal_frames` overlap signals (appended to the starting history) |
| Traces.HistoryAfter | src/core/proximity_analyzer.py:22-23 | after the first `m` calls of a fresh tracker, the history is the last `temporal_frames` of those calls' signals |
| Traces.WindowAfter | src/core/proximity_analyzer.py:22-23 | after `m` calls the history holds, position by position, the signals of the last `min(m, temporal_frames)` calls, oldest first |
| Traces.Debounce | src/core/proximity_analyzer.py:56-58 | a call returns an event only if it and the `temporal_frames - 1` calls before it all found an overlapping pair |
| Traces.QuietBeforeEnd | src/core/proximity_analyzer.py:132-136 | an event ends only on a call without overlap, all of the last `temporal_frames` calls were without overlap, and the end time is that call's time |
| Traces.IdsIncrease | src/core/proximity_analyzer.py:117-126 | the events a session returns carry distinct identifiers that no earlier event had; that they strictly increase is a property of the counter standing in for `uuid.uuid4()`, and only their distinctness carries over to the source |
| Traces.ActiveWasEmitted | src/core/proximity_analyzer.py:118-130 | the active event after any session was returned by one earlier call with frame count 1, and has changed only in its frame count since |
| Traces.EmittedOnce | src/core/proximity_analyzer.py:126-130 | no two calls of a session return events with the same identifier |
| Traces.LastEventTimeKeeps | src/core/proximity_analyzer.py:132-136 | once an event has ended, the last event time stays set and never drops below that end time (clock never running backwards) |
| Traces.CooldownAfterEnd | src/core/proximity_analyzer.py:111-115 | with a clock that never runs backwards, no event is returned less than `cooldown_seconds` after an earlier event ended |

## Left out

- Detection itself (`src/core/detector.py`) is not part of this model. A frame is just its lists of person boxes and phone boxes. The `confidence` field, the `center` and the numpy `.tolist()` conversion of the boxes are not represented.
- Camera capture, the polling loop, the GUI, storage, screenshots, image rendering and the network clients are not part of this model; they are I/O around the tracker.
- `datetime.now()` is a parameter `now` of each call, and the model does not assume that successive calls see increasing times. Only `Traces.LastEventTimeKeeps` and `Traces.CooldownAfterEnd` assume a non-decreasing clock. The source reads the clock once per call on every path that uses it.
- `uuid.uuid4()` is a counter. The model proves that identifiers never repeat within one tracker; the source relies on random UUIDs being distinct.
- Coordinates and times are exact reals. Floating-point rounding and NaN coordinates (for which every comparison is false) are not modelled.
- `temporal_frames` is a natural number. A negative value, which makes `deque(maxlen=...)` raise `ValueError` in the constructor, is excluded by the type. Zero is modelled literally: the history then stays empty, every overlapping frame is confirmed and every other frame ends the active event.
- The constructor defaults `temporal_frames=5, cooldown_seconds=10` (src/core/proximity_analyzer.py:18) are not modelled; both values are always passed explicitly.
- The dataclass default `frame_count = 0` is not modelled separately. The tracker always creates events with frame count 1.
- Traces: sessions are stated on the value-level specification (`StepOn`), for every sequence of overlap-search outcomes (any pair or none per frame, a harmless generalisation of what `Detect` can produce), not on a sequence of method calls on one object. `Analyze` is proved equal to one specification step. `ProximityAnalyzer.SharedEventGrows` shows the object-level aliasing over two calls.
