/** The breadcrumb manager: an in-memory, time-bucketed log of short event
    messages kept for crash reports, with a registry of observers.

    The wall clock is not read here: every operation that needs the time takes
    the current minute `now`. The retention window, the minimum number of
    events kept, and the rendering of elapsed time as a timestamp are fixed
    when the manager is created.
*/
module Breadcrumbs {
  import opened BreadcrumbEvents

  /** An observer of a breadcrumb manager; only its identity matters here. */
  class BreadcrumbManagerObserver { }

  /** The position of the first registration of `o`. */
  function FirstIndex<T(==)>(observers: seq<T>, o: T): (k: nat)
    requires o in observers
    ensures k < |observers| && observers[k] == o && o !in observers[..k]
  {
    if observers[0] == o then 0 else 1 + FirstIndex(observers[1..], o)
  }

  /** The registry after removing the first registration of `o`; a registry
      without `o` is left as it was. */
  function WithoutObserver<T(==)>(observers: seq<T>, o: T): (r: seq<T>)
    ensures o !in observers ==> r == observers
    ensures o in observers ==> |r| == |observers| - 1
    ensures forall x :: x in r ==> x in observers
  {
    if observers == [] then []
    else if observers[0] == o then observers[1..]
    else [observers[0]] + WithoutObserver(observers[1..], o)
  }

  /** Removing `o` takes out exactly its first registration: the observers
      before it and after it stay, in their order. */
  lemma {:induction false} WithoutObserverRemovesFirst<T>(observers: seq<T>, o: T)
    requires o in observers
    ensures var k := FirstIndex(observers, o);
      WithoutObserver(observers, o) == observers[..k] + observers[k + 1..]
  {
    if observers[0] != o {
      var tail := observers[1..];
      var k := FirstIndex(tail, o);
      WithoutObserverRemovesFirst(tail, o);
      assert WithoutObserver(observers, o) == [observers[0]] + (tail[..k] + tail[k + 1..]);
      assert [observers[0]] + tail[..k] == observers[..k + 1];
      assert tail[k + 1..] == observers[k + 2..];
    }
  }

  /** Registering an observer that was not registered and then removing it
      gives back the registry as it was. */
  lemma {:induction false} RemoveAfterAdd<T>(observers: seq<T>, o: T)
    requires o !in observers
    ensures WithoutObserver(observers + [o], o) == observers
  {
    if observers != [] {
      assert (observers + [o])[1..] == observers[1..] + [o];
      RemoveAfterAdd(observers[1..], o);
    }
  }

  /** The count loop of GetEventCount: the sizes of the buckets, summed
      oldest first. */
  method CountEvents(bs: seq<Bucket>) returns (count: nat)
    ensures count == |Flatten(bs)|
  {
    count := 0;
    var i := 0;
    while i < |bs|
      invariant 0 <= i <= |bs|
      invariant count == Count(bs[..i])
    {
      CountSnoc(bs[..i], bs[i]);
      assert bs[..i + 1] == bs[..i] + [bs[i]];
      count := count + |bs[i].events|;
      i := i + 1;
    }
    assert bs[..i] == bs;
    CountIsLength(bs);
  }

  /** A tail of the events is the answer to a read once it is as long as a
      positive limit. */
  lemma TailIsNewest(all: seq<string>, taken: seq<string>, limit: nat)
    requires |taken| <= |all| && all[|all| - |taken|..] == taken
    requires limit == 0 || |taken| <= limit
    requires |taken| == |all| || (limit > 0 && |taken| == limit)
    ensures taken == Newest(all, limit)
  {
  }

  /** The events of the first `i + 1` buckets are those of the first `i`
      followed by bucket `i`'s. */
  lemma FlattenTake(bs: seq<Bucket>, i: nat)
    requires i < |bs|
    ensures Flatten(bs[..i + 1]) == Flatten(bs[..i]) + bs[i].events
  {
    assert bs[..i + 1] == bs[..i] + [bs[i]];
    FlattenConcat(bs[..i], [bs[i]]);
    assert Flatten([bs[i]]) == bs[i].events + Flatten([]);
  }

  /** The read loop of GetEvents: walks the buckets and their events from the
      newest back, putting each event in front of those already taken, and
      stops once `limit` (when not zero) events are taken. */
  method CollectNewest(bs: seq<Bucket>, limit: nat) returns (events: seq<string>)
    ensures events == Newest(Flatten(bs), limit)
  {
    ghost var all := Flatten(bs);
    events := [];
    var i := |bs|;
    assert bs[..i] == bs;
    while i > 0
      invariant 0 <= i <= |bs|
      invariant all == Flatten(bs[..i]) + events
      invariant limit == 0 || |events| < limit
    {
      i := i - 1;
      var bucket := bs[i].events;
      FlattenTake(bs, i);
      ghost var older := Flatten(bs[..i]);
      var j := |bucket|;
      assert bucket[..j] == bucket;
      while j > 0
        invariant 0 <= j <= |bucket|
        invariant all == older + bucket[..j] + events
        invariant limit == 0 || |events| < limit
      {
        j := j - 1;
        assert bucket[..j + 1] == bucket[..j] + [bucket[j]];
        events := [bucket[j]] + events;
        if limit > 0 && |events| >= limit {
          assert all == (older + bucket[..j]) + events;
          TailIsNewest(all, events, limit);
          return;
        }
      }
      assert bucket[..j] == [];
    }
    assert bs[..i] == [];
    TailIsNewest(all, events, limit);
  }

  class BreadcrumbManager {
    /** The minute the manager was created in. */
    const startTime: Minute
    /** How long a bucket stays fresh, in minutes. */
    const window: nat
    /** How many newer events must remain before a stale bucket may go. */
    const minimumKept: nat
    /** The timestamp text for an event logged the given number of minutes
        after creation. */
    const stamp: int -> string

    /** The buckets of events, oldest first. */
    var eventBuckets: seq<Bucket>
    /** The registered observers, in registration order. */
    var observers: seq<BreadcrumbManagerObserver>

    ghost predicate Valid()
    {
      && minimumKept >= 1
      && forall t :: StampOk(stamp(t))
    }

    /** The events retained, oldest first. */
    ghost function Events(): seq<string>
      reads this
    {
      Flatten(eventBuckets)
    }

    /** The clock has not gone back behind the newest bucket. */
    ghost predicate NotBefore(now: Minute)
      reads this
    {
      eventBuckets != [] ==> eventBuckets[|eventBuckets| - 1].time <= now
    }

    /** No bucket is older than the manager itself. */
    ghost predicate NotBeforeStart()
      reads this
    {
      eventBuckets != [] ==> startTime <= eventBuckets[0].time
    }

    /** The manager may be destroyed only once every observer has left. */
    ghost predicate ReadyForDestruction(): (ready: bool)
      reads this
      ensures ready <==> forall o :: o !in observers
    {
      assert observers != [] ==> observers[0] in observers;
      observers == []
    }

    constructor(now: Minute, window: nat, minimumKept: nat, stamp: int -> string)
      requires minimumKept >= 1
      requires forall t :: StampOk(stamp(t))
      ensures Valid()
      ensures startTime == now && this.window == window
      ensures this.minimumKept == minimumKept && this.stamp == stamp
      ensures eventBuckets == [] && observers == []
    {
      startTime := now;
      this.window := window;
      this.minimumKept := minimumKept;
      this.stamp := stamp;
      eventBuckets := [];
      observers := [];
    }

    /** The line stored for `event` logged at minute `now`. */
    function EntryAt(event: string, now: Minute): string
    {
      Entry(stamp(now - startTime), event)
    }

    /** Logs `event`, which must hold no newline, at minute `now`: its line goes
        last into the bucket of that minute. */
    method AddEvent(event: string, now: Minute)
      requires Valid()
      requires '\n' !in event
      modifies this
      ensures eventBuckets == AddedTo(old(eventBuckets), now, EntryAt(event, now))
      ensures observers == old(observers)
      ensures Events() == old(Events()) + [EntryAt(event, now)]
      ensures MessageOf(Events()[|Events()| - 1]) == event
      ensures old(NewlineFree(Events())) ==> NewlineFree(Events())
      ensures old(Ordered(eventBuckets)) && old(NotBefore(now)) ==> Ordered(eventBuckets)
    {
      var entry := EntryAt(event, now);
      ghost var before := eventBuckets;
      if eventBuckets == [] || eventBuckets[|eventBuckets| - 1].time != now {
        eventBuckets := eventBuckets + [Bucket(now, [])];
      }
      AddedInPlace(before, eventBuckets, now, entry);
      var last := eventBuckets[|eventBuckets| - 1];
      eventBuckets := eventBuckets[..|eventBuckets| - 1] + [last.(events := last.events + [entry])];
      AddedLine(before, now, stamp(now - startTime), event);
    }

    /** Puts the restored `events` before every event already logged, in one
        bucket stamped with the creation minute. */
    method SetPreviousEvents(events: seq<string>)
      modifies this
      ensures eventBuckets == Restored(old(eventBuckets), startTime, events)
      ensures observers == old(observers)
      ensures Events() == events + old(Events())
      ensures old(Ordered(eventBuckets)) && old(NotBeforeStart()) ==> Ordered(eventBuckets)
      ensures NewlineFree(Events()) <==> NewlineFree(events) && old(NewlineFree(Events()))
    {
      eventBuckets := [Bucket(startTime, events)] + eventBuckets;
    }

    /** Drops the oldest buckets while they are stale at minute `now` and the
        newer buckets hold at least `minimumKept` events. */
    method DropOldEvents(now: Minute)
      requires Valid()
      modifies this
      ensures eventBuckets == Pruned(old(eventBuckets), now, window, minimumKept)
      ensures observers == old(observers)
    {
      while eventBuckets != [] && Stale(eventBuckets[0], now, window)
        && Count(eventBuckets[1..]) >= minimumKept
        invariant Pruned(eventBuckets, now, window, minimumKept)
               == Pruned(old(eventBuckets), now, window, minimumKept)
        invariant observers == old(observers)
        decreases |eventBuckets|
      {
        eventBuckets := eventBuckets[1..];
      }
    }

    /** The number of events still relevant at minute `now`, after dropping
        old ones. */
    method GetEventCount(now: Minute) returns (count: nat)
      requires Valid()
      modifies this
      ensures eventBuckets == Pruned(old(eventBuckets), now, window, minimumKept)
      ensures observers == old(observers)
      ensures count == |Events()|
      ensures count <= old(|Events()|)
      ensures count >= minimumKept || count == old(|Events()|)
    {
      DropOldEvents(now);
      PrunedKeepsFloor(old(eventBuckets), now, window, minimumKept);
      PrunedOnlyRemoves(old(eventBuckets), now, window, minimumKept);
      CountIsLength(old(eventBuckets));
      CountIsLength(eventBuckets);
      count := CountEvents(eventBuckets);
    }

    /** The events still relevant at minute `now`, after dropping old ones:
        all of them when `limit` is zero, otherwise the newest `limit`, oldest
        first. */
    method GetEvents(limit: nat, now: Minute) returns (events: seq<string>)
      requires Valid()
      modifies this
      ensures eventBuckets == Pruned(old(eventBuckets), now, window, minimumKept)
      ensures observers == old(observers)
      ensures events == Newest(Events(), limit)
    {
      DropOldEvents(now);
      events := CollectNewest(eventBuckets, limit);
    }

    /** Registers `observer`, after every observer already registered. */
    method AddObserver(observer: BreadcrumbManagerObserver)
      modifies this
      ensures observers == old(observers) + [observer]
      ensures eventBuckets == old(eventBuckets)
    {
      observers := observers + [observer];
    }

    /** Removes the registration of `observer`, if any. */
    method RemoveObserver(observer: BreadcrumbManagerObserver)
      modifies this
      ensures observers == WithoutObserver(old(observers), observer)
      ensures observer in old(observers) ==>
        var k := FirstIndex(old(observers), observer);
        observers == old(observers)[..k] + old(observers)[k + 1..]
      ensures eventBuckets == old(eventBuckets)
      ensures old(observers) == [observer] ==> ReadyForDestruction()
    {
      if observer in observers {
        WithoutObserverRemovesFirst(observers, observer);
      }
      observers := WithoutObserver(observers, observer);
    }
  }
}
