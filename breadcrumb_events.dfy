/** The event store of a breadcrumb manager, as values.

    A breadcrumb log is a list of buckets, oldest first. Each bucket pairs a
    minute-resolution time with the events logged in that minute, oldest
    first. This module defines what each operation of the manager does to that
    list, and proves the properties the manager relies on: adding appends one
    event at the tail, restoring puts a batch before everything, pruning only
    trims stale buckets from the old end and never below a minimum, and a
    limited read returns the newest events in order.
*/
module BreadcrumbEvents {

  /** A point in time at minute resolution (minutes since the epoch). */
  type Minute = nat

  /** One element of the event list: the minute its events were logged in,
      and those events, oldest first. */
  datatype Bucket = Bucket(time: Minute, events: seq<string>)

  /** Every event of the log, oldest first. */
  function Flatten(bs: seq<Bucket>): seq<string>
  {
    if bs == [] then [] else bs[0].events + Flatten(bs[1..])
  }

  /** The number of events in the log, summed bucket by bucket. */
  function Count(bs: seq<Bucket>): nat
  {
    if bs == [] then 0 else |bs[0].events| + Count(bs[1..])
  }

  lemma {:induction false} CountIsLength(bs: seq<Bucket>)
    ensures Count(bs) == |Flatten(bs)|
  {
    if bs != [] {
      CountIsLength(bs[1..]);
    }
  }

  lemma {:induction false} FlattenConcat(bs: seq<Bucket>, cs: seq<Bucket>)
    ensures Flatten(bs + cs) == Flatten(bs) + Flatten(cs)
  {
    if bs == [] {
      assert bs + cs == cs;
    } else {
      assert (bs + cs)[1..] == bs[1..] + cs;
      FlattenConcat(bs[1..], cs);
    }
  }

  /** Counting one more bucket at the tail adds its size. */
  lemma CountSnoc(bs: seq<Bucket>, b: Bucket)
    ensures Count(bs + [b]) == Count(bs) + |b.events|
  {
    CountIsLength(bs + [b]);
    CountIsLength(bs);
    FlattenConcat(bs, [b]);
    assert Flatten([b]) == b.events + Flatten([]);
  }

  /** The events of one bucket, each paired with the bucket's minute. */
  function Tagged(at: Minute, events: seq<string>): (r: seq<(Minute, string)>)
    ensures |r| == |events|
    ensures forall k :: 0 <= k < |r| ==> r[k] == (at, events[k])
  {
    seq(|events|, k requires 0 <= k < |events| => (at, events[k]))
  }

  /** Every event of the log, oldest first, paired with the minute it was
      logged in: the minute its pruning is decided by. */
  function Stamped(bs: seq<Bucket>): seq<(Minute, string)>
  {
    if bs == [] then [] else Tagged(bs[0].time, bs[0].events) + Stamped(bs[1..])
  }

  lemma {:induction false} StampedConcat(bs: seq<Bucket>, cs: seq<Bucket>)
    ensures Stamped(bs + cs) == Stamped(bs) + Stamped(cs)
  {
    if bs == [] {
      assert bs + cs == cs;
    } else {
      assert (bs + cs)[1..] == bs[1..] + cs;
      StampedConcat(bs[1..], cs);
    }
  }

  /** Dropping the minutes from the stamped log gives the events. */
  lemma {:induction false} StampedEvents(bs: seq<Bucket>)
    ensures |Stamped(bs)| == |Flatten(bs)|
    ensures forall k :: 0 <= k < |Flatten(bs)| ==> Stamped(bs)[k].1 == Flatten(bs)[k]
  {
    if bs != [] {
      StampedEvents(bs[1..]);
      var n := |bs[0].events|;
      forall k | 0 <= k < |Flatten(bs)|
        ensures Stamped(bs)[k].1 == Flatten(bs)[k]
      {
        if k >= n {
          assert Stamped(bs)[k] == Stamped(bs[1..])[k - n];
          assert Flatten(bs)[k] == Flatten(bs[1..])[k - n];
        }
      }
    }
  }

  /** Bucket times never decrease from the oldest bucket to the newest. */
  predicate Ordered(bs: seq<Bucket>)
  {
    forall i, j :: 0 <= i < j < |bs| ==> bs[i].time <= bs[j].time
  }

  /** No event line holds the newline that separates lines in persisted logs. */
  predicate NewlineFree(lines: seq<string>)
  {
    forall k :: 0 <= k < |lines| ==> '\n' !in lines[k]
  }

  /** A timestamp text fit to prefix an event: it holds neither the space that
      separates it from the message nor a newline. */
  predicate StampOk(ts: string)
  {
    ' ' !in ts && '\n' !in ts
  }

  /** The stored form of an event: its timestamp, a space, then the message. */
  function Entry(ts: string, message: string): (line: string)
    ensures |line| == |ts| + 1 + |message|
    ensures line[|line| - |message|..] == message
  {
    ts + " " + message
  }

  /** The message part of a stored line: everything after its first space. */
  function MessageOf(line: string): string
  {
    if line == [] then []
    else if line[0] == ' ' then line[1..]
    else MessageOf(line[1..])
  }

  /** Splitting a stored line at its first space gives back the message. */
  lemma {:induction false} MessageOfEntry(ts: string, message: string)
    requires ' ' !in ts
    ensures MessageOf(Entry(ts, message)) == message
  {
    if ts == [] {
      assert Entry(ts, message) == [' '] + message;
    } else {
      assert Entry(ts, message)[1..] == Entry(ts[1..], message);
      MessageOfEntry(ts[1..], message);
    }
  }

  /** A stored line has no newline when neither its timestamp nor its
      message has one. */
  lemma EntryNewlineFree(ts: string, message: string)
    requires StampOk(ts) && '\n' !in message
    ensures '\n' !in Entry(ts, message)
  {
    var line := Entry(ts, message);
    forall k | 0 <= k < |line|
      ensures line[k] != '\n'
    {
      if k < |ts| {
        assert line[k] == ts[k];
      } else if k > |ts| {
        assert line[k] == message[k - |ts| - 1];
      }
    }
  }

  /** The log after adding `entry` at minute `now`: appended to the newest
      bucket when that bucket is of the same minute, otherwise in a new bucket
      at the tail. */
  function AddedTo(bs: seq<Bucket>, now: Minute, entry: string): (r: seq<Bucket>)
    ensures |r| > 0 && r[|r| - 1].time == now
    ensures |r[|r| - 1].events| > 0 && r[|r| - 1].events[|r[|r| - 1].events| - 1] == entry
  {
    if bs != [] && bs[|bs| - 1].time == now
    then bs[..|bs| - 1] + [Bucket(now, bs[|bs| - 1].events + [entry])]
    else bs + [Bucket(now, [entry])]
  }

  /** Adding leaves every older bucket as it was. It reuses the newest bucket
      exactly when that bucket is of the same minute; otherwise it opens one
      new bucket holding only the entry. */
  lemma AddedToShape(bs: seq<Bucket>, now: Minute, entry: string)
    ensures var r := AddedTo(bs, now, entry);
      && (bs != [] && bs[|bs| - 1].time == now <==> |r| == |bs|)
      && (|r| == |bs| || |r| == |bs| + 1)
      && r[..|r| - 1] == bs[..|r| - 1]
      && (|r| == |bs| ==> r[|r| - 1].events == bs[|bs| - 1].events + [entry])
      && (|r| == |bs| + 1 ==> r[|r| - 1].events == [entry])
  {
  }

  /** Adding an event keeps every earlier event in its place and puts the new
      one last. */
  lemma AddedToEvents(bs: seq<Bucket>, now: Minute, entry: string)
    ensures Flatten(AddedTo(bs, now, entry)) == Flatten(bs) + [entry]
  {
    if bs != [] && bs[|bs| - 1].time == now {
      var init, last := bs[..|bs| - 1], bs[|bs| - 1];
      assert bs == init + [last];
      FlattenConcat(init, [last]);
      FlattenConcat(init, [Bucket(now, last.events + [entry])]);
      assert Flatten([last]) == last.events + Flatten([]);
      assert Flatten([Bucket(now, last.events + [entry])]) == last.events + [entry] + Flatten([]);
    } else {
      FlattenConcat(bs, [Bucket(now, [entry])]);
      assert Flatten([Bucket(now, [entry])]) == [entry] + Flatten([]);
    }
  }

  /** Opening a bucket for `now` when the newest one is of another minute,
      then appending `entry` to the newest bucket, is `AddedTo`. */
  lemma AddedInPlace(bs: seq<Bucket>, grown: seq<Bucket>, now: Minute, entry: string)
    requires grown == (if bs != [] && bs[|bs| - 1].time == now then bs else bs + [Bucket(now, [])])
    ensures grown != []
    ensures var last := grown[|grown| - 1];
      grown[..|grown| - 1] + [last.(events := last.events + [entry])] == AddedTo(bs, now, entry)
  {
    if bs != [] && bs[|bs| - 1].time == now {
    } else {
      assert grown[..|grown| - 1] == bs && grown[|grown| - 1] == Bucket(now, []);
      assert Bucket(now, []).(events := [] + [entry]) == Bucket(now, [entry]);
    }
  }

  /** Adding an event keeps every earlier event with the minute it was logged
      in, and pairs the new one with `now`. */
  lemma AddedToStamped(bs: seq<Bucket>, now: Minute, entry: string)
    ensures Stamped(AddedTo(bs, now, entry)) == Stamped(bs) + [(now, entry)]
  {
    if bs != [] && bs[|bs| - 1].time == now {
      var init, last := bs[..|bs| - 1], bs[|bs| - 1];
      assert bs == init + [last];
      StampedConcat(init, [last]);
      StampedConcat(init, [Bucket(now, last.events + [entry])]);
      assert Stamped([last]) == Tagged(now, last.events) + Stamped([]);
      assert Stamped([Bucket(now, last.events + [entry])])
        == Tagged(now, last.events + [entry]) + Stamped([]);
      assert Tagged(now, last.events + [entry]) == Tagged(now, last.events) + [(now, entry)];
    } else {
      StampedConcat(bs, [Bucket(now, [entry])]);
      assert Stamped([Bucket(now, [entry])]) == Tagged(now, [entry]) + Stamped([]);
    }
  }

  /** Adding at a minute no earlier than the newest bucket keeps bucket times
      in order. */
  lemma AddedToOrdered(bs: seq<Bucket>, now: Minute, entry: string)
    requires Ordered(bs)
    requires bs != [] ==> bs[|bs| - 1].time <= now
    ensures Ordered(AddedTo(bs, now, entry))
  {
    var r := AddedTo(bs, now, entry);
    forall i, j | 0 <= i < j < |r|
      ensures r[i].time <= r[j].time
    {
      assert i < |bs|;
      assert r[i].time == bs[i].time;
      if j < |bs| {
        assert r[j].time == bs[j].time;
      } else {
        assert r[j].time == now;
      }
    }
  }

  /** What adding the line of `message` stamped `ts` does to the events: the
      line goes last, its message is recoverable, newline-freedom is kept,
      and so is time order when the minute is not earlier than the newest
      bucket. */
  lemma AddedLine(bs: seq<Bucket>, now: Minute, ts: string, message: string)
    requires StampOk(ts) && '\n' !in message
    ensures var events := Flatten(AddedTo(bs, now, Entry(ts, message)));
      && events == Flatten(bs) + [Entry(ts, message)]
      && MessageOf(events[|events| - 1]) == message
      && (NewlineFree(Flatten(bs)) ==> NewlineFree(events))
    ensures Ordered(bs) && (bs != [] ==> bs[|bs| - 1].time <= now) ==>
      Ordered(AddedTo(bs, now, Entry(ts, message)))
  {
    var line := Entry(ts, message);
    AddedToEvents(bs, now, line);
    MessageOfEntry(ts, message);
    EntryNewlineFree(ts, message);
    if Ordered(bs) && (bs != [] ==> bs[|bs| - 1].time <= now) {
      AddedToOrdered(bs, now, line);
    }
  }

  /** The log after restoring `batch`: a bucket of the restored events at
      minute `at`, before all existing buckets. */
  function Restored(bs: seq<Bucket>, at: Minute, batch: seq<string>): (r: seq<Bucket>)
    ensures |r| == |bs| + 1 && r[0] == Bucket(at, batch) && r[1..] == bs
    ensures Flatten(r) == batch + Flatten(bs)
    ensures Stamped(r) == Tagged(at, batch) + Stamped(bs)
    ensures Ordered(bs) && (bs != [] ==> at <= bs[0].time) ==> Ordered(r)
    ensures NewlineFree(Flatten(r)) <==> NewlineFree(batch) && NewlineFree(Flatten(bs))
  {
    var r := [Bucket(at, batch)] + bs;
    assert r[1..] == bs;
    assert NewlineFree(batch) && NewlineFree(Flatten(bs)) ==> NewlineFree(Flatten(r)) by {
      if NewlineFree(batch) && NewlineFree(Flatten(bs)) {
        forall k | 0 <= k < |Flatten(r)|
          ensures '\n' !in Flatten(r)[k]
        {
          if k >= |batch| {
            assert Flatten(r)[k] == Flatten(bs)[k - |batch|];
          }
        }
      }
    }
    assert NewlineFree(Flatten(r)) ==> NewlineFree(batch) && NewlineFree(Flatten(bs)) by {
      if NewlineFree(Flatten(r)) {
        forall k | 0 <= k < |batch|
          ensures '\n' !in batch[k]
        {
          assert batch[k] == Flatten(r)[k];
        }
        forall k | 0 <= k < |Flatten(bs)|
          ensures '\n' !in Flatten(bs)[k]
        {
          assert Flatten(bs)[k] == Flatten(r)[|batch| + k];
        }
      }
    }
    r
  }

  /** A batch restored into an empty log at minute `at` is the newest bucket,
      so an event added in that same minute joins it. */
  lemma AddedToRestoredBucket(at: Minute, batch: seq<string>, entry: string)
    ensures AddedTo(Restored([], at, batch), at, entry) == [Bucket(at, batch + [entry])]
  {
    assert Restored([], at, batch) == [Bucket(at, batch)];
  }

  /** A bucket is stale once the retention window has passed since its minute. */
  predicate Stale(b: Bucket, now: Minute, window: nat)
  {
    b.time + window <= now
  }

  /** The log after dropping old events at minute `now`: the oldest bucket goes
      while it is stale and the newer buckets still hold at least `floor`
      events; pruning stops at the first bucket that must stay. */
  function Pruned(bs: seq<Bucket>, now: Minute, window: nat, floor: nat): (r: seq<Bucket>)
    ensures |r| <= |bs| && r == bs[|bs| - |r|..]
  {
    if bs != [] && Stale(bs[0], now, window) && Count(bs[1..]) >= floor
    then Pruned(bs[1..], now, window, floor)
    else bs
  }

  /** Every bucket pruning drops is stale, and what it keeps either is the
      whole log or still holds at least `floor` events. */
  lemma {:induction false} PrunedDropsOnlyStale(bs: seq<Bucket>, now: Minute, window: nat, floor: nat)
    ensures var r := Pruned(bs, now, window, floor);
      forall i :: 0 <= i < |bs| - |r| ==> Stale(bs[i], now, window)
    ensures var r := Pruned(bs, now, window, floor);
      r == bs || Count(r) >= floor
  {
    if bs != [] && Stale(bs[0], now, window) && Count(bs[1..]) >= floor {
      var tail := bs[1..];
      PrunedDropsOnlyStale(tail, now, window, floor);
      var r := Pruned(tail, now, window, floor);
      assert Pruned(bs, now, window, floor) == r;
      forall i | 0 <= i < |bs| - |r|
        ensures Stale(bs[i], now, window)
      {
        if i > 0 {
          assert i - 1 < |tail| - |r|;
          assert bs[i] == tail[i - 1];
        }
      }
    }
  }

  /** Pruning stops where it must: the oldest kept bucket is fresh, or the
      buckets after it hold fewer than `floor` events. */
  lemma {:induction false} PrunedIsStable(bs: seq<Bucket>, now: Minute, window: nat, floor: nat)
    ensures var r := Pruned(bs, now, window, floor);
      r != [] ==> !Stale(r[0], now, window) || Count(r[1..]) < floor
  {
    if bs != [] && Stale(bs[0], now, window) && Count(bs[1..]) >= floor {
      PrunedIsStable(bs[1..], now, window, floor);
    }
  }

  /** Pruning keeps at least `min(Count(bs), floor)` events; in particular,
      with a positive floor it never empties a log that holds an event. */
  lemma PrunedKeepsFloor(bs: seq<Bucket>, now: Minute, window: nat, floor: nat)
    ensures var c := Count(Pruned(bs, now, window, floor));
      c >= floor || c == Count(bs)
    ensures floor > 0 && Count(bs) > 0 ==> Count(Pruned(bs, now, window, floor)) > 0
  {
    PrunedDropsOnlyStale(bs, now, window, floor);
  }

  /** Pruning only removes events from the old end: the events it keeps are
      a suffix of the events before, in the same order. */
  lemma PrunedOnlyRemoves(bs: seq<Bucket>, now: Minute, window: nat, floor: nat)
    ensures var before, after := Flatten(bs), Flatten(Pruned(bs, now, window, floor));
      |after| <= |before| && after == before[|before| - |after|..]
  {
    var r := Pruned(bs, now, window, floor);
    var dropped := bs[..|bs| - |r|];
    assert bs == dropped + r;
    FlattenConcat(dropped, r);
  }

  /** Pruning keeps bucket times in order. */
  lemma {:induction false} PrunedOrdered(bs: seq<Bucket>, now: Minute, window: nat, floor: nat)
    requires Ordered(bs)
    ensures Ordered(Pruned(bs, now, window, floor))
  {
    if bs != [] && Stale(bs[0], now, window) && Count(bs[1..]) >= floor {
      var tail := bs[1..];
      assert Ordered(tail) by {
        forall i, j | 0 <= i < j < |tail|
          ensures tail[i].time <= tail[j].time
        {
          assert tail[i] == bs[i + 1] && tail[j] == bs[j + 1];
        }
      }
      PrunedOrdered(tail, now, window, floor);
    }
  }

  /** Pruning at an earlier minute and then at a later one is the same as
      pruning once at the later minute; so a count read repeatedly can only
      shrink as time passes. */
  lemma {:induction false} PrunedLater(bs: seq<Bucket>, earlier: Minute, later: Minute, window: nat, floor: nat)
    requires earlier <= later
    ensures Pruned(Pruned(bs, earlier, window, floor), later, window, floor)
         == Pruned(bs, later, window, floor)
  {
    if bs != [] && Stale(bs[0], earlier, window) && Count(bs[1..]) >= floor {
      assert Stale(bs[0], later, window);
      PrunedLater(bs[1..], earlier, later, window, floor);
    }
  }

  /** Pruning twice at the same minute drops nothing the first pass kept. */
  lemma PrunedIdempotent(bs: seq<Bucket>, now: Minute, window: nat, floor: nat)
    ensures Pruned(Pruned(bs, now, window, floor), now, window, floor)
         == Pruned(bs, now, window, floor)
  {
    PrunedLater(bs, now, now, window, floor);
  }

  /** The events a read with limit `limit` returns: all of them when `limit`
      is zero, otherwise the newest `limit` of them, oldest first. */
  function Newest(lines: seq<string>, limit: nat): (r: seq<string>)
    ensures limit == 0 ==> r == lines
    ensures limit > 0 ==> |r| == if |lines| <= limit then |lines| else limit
    ensures r == lines[|lines| - |r|..]
  {
    if limit == 0 || |lines| <= limit then lines else lines[|lines| - limit..]
  }
}
