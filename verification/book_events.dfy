/** The `useBookEvents` hook: two subscriptions (book added, book deleted) merged into
    one newest-first event log, plus the most recent payload seen on each stream. */
module BookEvents {
  import opened Catalog
  import opened Sequences

  datatype HookState = HookState(bookEvents: seq<BookEvent>, lastAdded: Option<Book>, lastDeleted: Option<Book>)

  /** The hook's state when it mounts: no events, nothing seen on either stream. */
  const Mounted := HookState([], None, None)

  /** The effect on the added stream's data: a present payload is logged in front of
      every earlier event and becomes `lastAdded`; a missing one changes nothing. */
  function OnBookAdded(h: HookState, payload: Option<Book>, now: Timestamp): (r: HookState)
    ensures payload.None? ==> r == h
    ensures payload.Some? ==> |r.bookEvents| == |h.bookEvents| + 1
    ensures payload.Some? ==> r.bookEvents[0] == BookEvent(Added, payload.value, now)
    ensures payload.Some? ==> r.lastAdded == payload
    ensures IsSuffix(h.bookEvents, r.bookEvents)
    ensures r.lastDeleted == h.lastDeleted
  {
    match payload
    case None => h
    case Some(b) => h.(bookEvents := [BookEvent(Added, b, now)] + h.bookEvents, lastAdded := payload)
  }

  /** The effect on the deleted stream's data, symmetric to `OnBookAdded`. */
  function OnBookDeleted(h: HookState, payload: Option<Book>, now: Timestamp): (r: HookState)
    ensures payload.None? ==> r == h
    ensures payload.Some? ==> |r.bookEvents| == |h.bookEvents| + 1
    ensures payload.Some? ==> r.bookEvents[0] == BookEvent(Deleted, payload.value, now)
    ensures payload.Some? ==> r.lastDeleted == payload
    ensures IsSuffix(h.bookEvents, r.bookEvents)
    ensures r.lastAdded == h.lastAdded
  {
    match payload
    case None => h
    case Some(b) => h.(bookEvents := [BookEvent(Deleted, b, now)] + h.bookEvents, lastDeleted := payload)
  }

  /** One subscription message: the stream it arrived on, its payload (possibly missing),
      and the clock reading taken when the hook's effect ran. */
  datatype Delivery = Delivery(stream: EventType, payload: Option<Book>, time: Timestamp)

  /** One message runs the effect of its own stream: the event it carries, if any, goes
      in front of the log, its payload (when present) becomes that stream's slot, and the
      other stream's slot is left alone. */
  function Receive(h: HookState, d: Delivery): (r: HookState)
    ensures r.bookEvents == Logged(d) + h.bookEvents
    ensures d.payload.Some? && d.stream == Added ==> r.lastAdded == d.payload
    ensures d.payload.Some? && d.stream == Deleted ==> r.lastDeleted == d.payload
    ensures d.payload.None? || d.stream == Deleted ==> r.lastAdded == h.lastAdded
    ensures d.payload.None? || d.stream == Added ==> r.lastDeleted == h.lastDeleted
  {
    match d.stream
    case Added => OnBookAdded(h, d.payload, d.time)
    case Deleted => OnBookDeleted(h, d.payload, d.time)
  }

  /** The hook's state after the deliveries `ds`, in arrival order. The log only ever
      grows at its front, and by at most one event per delivery. */
  function ReceiveAll(h: HookState, ds: seq<Delivery>): (r: HookState)
    ensures IsSuffix(h.bookEvents, r.bookEvents)
    ensures |r.bookEvents| <= |h.bookEvents| + |ds|
    decreases |ds|
  {
    if |ds| == 0 then h else Receive(ReceiveAll(h, ds[..|ds| - 1]), ds[|ds| - 1])
  }

  /** The event a delivery contributes to the log: one when its payload is present. */
  function Logged(d: Delivery): seq<BookEvent>
  {
    match d.payload
    case None => []
    case Some(b) => [BookEvent(d.stream, b, d.time)]
  }

  /** The logged events of `ds`, oldest first. */
  function Arrivals(ds: seq<Delivery>): seq<BookEvent>
    decreases |ds|
  {
    if |ds| == 0 then [] else Arrivals(ds[..|ds| - 1]) + Logged(ds[|ds| - 1])
  }

  /** The payload `lastAdded` (for `Added`) or `lastDeleted` (for `Deleted`) ends up
      holding: the newest present payload on that stream, or `prior` if there is none. */
  function Latest(ds: seq<Delivery>, stream: EventType, prior: Option<Book>): Option<Book>
    decreases |ds|
  {
    if |ds| == 0 then prior
    else if ds[|ds| - 1].stream == stream && ds[|ds| - 1].payload.Some? then ds[|ds| - 1].payload
    else Latest(ds[..|ds| - 1], stream, prior)
  }

  /** Whatever the interleaving of the two streams, the log is the arrival order
      reversed (newest first) in front of the events that were already there. */
  lemma {:induction false} LogIsArrivalsReversed(h: HookState, ds: seq<Delivery>)
    ensures ReceiveAll(h, ds).bookEvents == Reverse(Arrivals(ds)) + h.bookEvents
    decreases |ds|
  {
    if |ds| > 0 {
      var prefix, d := ds[..|ds| - 1], ds[|ds| - 1];
      LogIsArrivalsReversed(h, prefix);
      PrependReversed(Arrivals(prefix), Logged(d), h.bookEvents);
    }
  }

  /** The algebra behind one step of the log: putting at most one new event in front
      of a reversed history is reversing the history extended by that event. */
  lemma PrependReversed(older: seq<BookEvent>, newer: seq<BookEvent>, base: seq<BookEvent>)
    requires |newer| <= 1
    ensures newer + (Reverse(older) + base) == Reverse(older + newer) + base
  {
    ReverseConcat(older, newer);
    assert Reverse(newer) == newer;
  }

  /** Each delivery with a payload adds exactly one event: a log started from the
      mounted state holds one event per such delivery. */
  lemma {:induction false} LogCountsDeliveries(ds: seq<Delivery>)
    requires forall i :: 0 <= i < |ds| ==> ds[i].payload.Some?
    ensures |ReceiveAll(Mounted, ds).bookEvents| == |ds|
    ensures ReceiveAll(Mounted, ds).bookEvents == Reverse(Arrivals(ds))
  {
    LogIsArrivalsReversed(Mounted, ds);
    ArrivalsOfPresentPayloads(ds);
  }

  lemma {:induction false} ArrivalsOfPresentPayloads(ds: seq<Delivery>)
    requires forall i :: 0 <= i < |ds| ==> ds[i].payload.Some?
    ensures |Arrivals(ds)| == |ds|
    decreases |ds|
  {
    if |ds| > 0 {
      ArrivalsOfPresentPayloads(ds[..|ds| - 1]);
    }
  }

  /** `lastAdded` and `lastDeleted` each track only their own stream: after any
      interleaving each holds the newest payload that arrived on it. */
  lemma {:induction false} SlotsHoldLatest(h: HookState, ds: seq<Delivery>)
    ensures ReceiveAll(h, ds).lastAdded == Latest(ds, Added, h.lastAdded)
    ensures ReceiveAll(h, ds).lastDeleted == Latest(ds, Deleted, h.lastDeleted)
    decreases |ds|
  {
    if |ds| > 0 {
      SlotsHoldLatest(h, ds[..|ds| - 1]);
    }
  }
}
