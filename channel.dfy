/**
  The bounded FIFO queues between the threads (chat.py:228-230) and the three
  ways the program puts into them: `put_nowait` that gives up when the queue
  is full (the audio callback, chat.py:235-238), and `put_nowait` that on
  `Full` drains the queue with `flush_queue` and puts again (chat.py:692-695,
  chat.py:758-765, chat.py:580-586).
*/
module Channel {
  import opened Wrappers

  /**
    The queue contents left by `flush_queue(q, maxItems)`: one `get_nowait`
    per round, for at most `maxItems` rounds, stopping early once the queue
    is empty.
  */
  function Flushed<T>(items: seq<T>, maxItems: nat): (r: seq<T>)
    ensures |r| <= |items|
  {
    if maxItems == 0 || items == [] then items else Flushed(items[1..], maxItems - 1)
  }

  /** `flush_queue` drops exactly the `min(|q|, maxItems)` oldest items and keeps the rest in order. */
  lemma {:induction false} FlushedDropsOldest<T>(items: seq<T>, maxItems: nat)
    ensures Flushed(items, maxItems) == items[Min(|items|, maxItems)..]
  {
    if maxItems != 0 && items != [] {
      FlushedDropsOldest(items[1..], maxItems - 1);
      assert items[1..][Min(|items| - 1, maxItems - 1)..] == items[Min(|items|, maxItems)..];
    }
  }

  /** A flush whose limit reaches the queue's length empties it. */
  lemma FlushedEmpties<T>(items: seq<T>, maxItems: nat)
    requires |items| <= maxItems
    ensures Flushed(items, maxItems) == []
  {
    FlushedDropsOldest(items, maxItems);
  }

  /** The contents after a `put_nowait` of `x` whose `Full` is ignored. */
  function PutIfRoom<T>(items: seq<T>, cap: nat, x: T): seq<T> {
    if |items| < cap then items + [x] else items
  }

  /**
    The contents after the flush-and-retry put of `x` into a queue of capacity
    `cap`: a plain append when there is room, otherwise `flush_queue(q, maxItems)`
    and then the append if that made room. When no room was made the source's
    second `put_nowait` raises `Full` (swallowed at chat.py:763 and chat.py:585).
  */
  function AfterPut<T>(items: seq<T>, cap: nat, x: T, maxItems: nat): seq<T> {
    if |items| < cap then items + [x] else PutIfRoom(Flushed(items, maxItems), cap, x)
  }

  /** The flush-and-retry put never grows a queue beyond its capacity. */
  lemma AfterPutBounded<T>(items: seq<T>, cap: nat, x: T, maxItems: nat)
    requires |items| <= cap
    ensures |AfterPut(items, cap, x, maxItems)| <= cap
  {
  }

  /** The new item always gets in, as the newest one, when the flush may take at least one item. */
  lemma AfterPutKeepsNewest<T>(items: seq<T>, cap: nat, x: T, maxItems: nat)
    requires 0 < cap && |items| <= cap && 0 < maxItems
    ensures var r := AfterPut(items, cap, x, maxItems); r != [] && r[|r| - 1] == x
  {
    if |items| == cap {
      FlushedDropsOldest(items, maxItems);
    }
  }

  /** On a full queue whose flush limit is at least its capacity, the new item replaces everything. */
  lemma AfterPutOnFullReplaces<T>(items: seq<T>, cap: nat, x: T, maxItems: nat)
    requires 0 < cap && |items| == cap && cap <= maxItems
    ensures AfterPut(items, cap, x, maxItems) == [x]
  {
    FlushedEmpties(items, maxItems);
  }

  /** When there is room, the put appends and keeps every older item in order. */
  lemma AfterPutWithRoomAppends<T>(items: seq<T>, cap: nat, x: T, maxItems: nat)
    requires |items| < cap
    ensures AfterPut(items, cap, x, maxItems)[..|items|] == items
    ensures |AfterPut(items, cap, x, maxItems)| == |items| + 1
  {
    assert (items + [x])[..|items|] == items;
  }

  /** A `queue.Queue(maxsize=cap)`: its items, oldest first. */
  class BoundedQueue<T> {
    var items: seq<T>
    const cap: nat

    ghost predicate Valid()
      reads this
    {
      0 < cap && |items| <= cap
    }

    constructor (cap: nat)
      requires 0 < cap
      ensures Valid() && this.cap == cap && items == []
    {
      this.cap := cap;
      items := [];
    }

    /** `put_nowait`: appends, or reports `Full` (`ok == false`) and changes nothing. */
    method PutNowait(x: T) returns (ok: bool)
      requires Valid()
      modifies this
      ensures Valid()
      ensures ok == (|old(items)| < cap)
      ensures items == PutIfRoom(old(items), cap, x)
    {
      ok := |items| < cap;
      if ok {
        items := items + [x];
      }
    }

    /** `get_nowait`: the oldest item, or `None` for `queue.Empty`. */
    method GetNowait() returns (r: Option<T>)
      requires Valid()
      modifies this
      ensures Valid()
      ensures old(items) == [] ==> r == None && items == []
      ensures old(items) != [] ==> r == Some(old(items)[0]) && items == old(items)[1..]
    {
      if items == [] {
        r := None;
      } else {
        r := Some(items[0]);
        items := items[1..];
      }
    }

    /** `flush_queue(q, maxItems)` (chat.py:163-168). */
    method Flush(maxItems: nat)
      requires Valid()
      modifies this
      ensures Valid()
      ensures items == Flushed(old(items), maxItems)
    {
      var i := 0;
      while i < maxItems
        invariant Valid() && 0 <= i <= maxItems
        invariant Flushed(items, maxItems - i) == Flushed(old(items), maxItems)
      {
        var got := GetNowait();
        if got == None {
          break;
        }
        i := i + 1;
      }
    }

    /** `put_nowait`, and on `Full` a `flush_queue(q, maxItems)` and a second `put_nowait` whose `Full` is ignored. */
    method PutFlushingOnFull(x: T, maxItems: nat) returns (ok: bool)
      requires Valid()
      modifies this
      ensures Valid()
      ensures items == AfterPut(old(items), cap, x, maxItems)
      ensures ok == (|old(items)| < cap || 0 < maxItems)
    {
      ok := PutNowait(x);
      if !ok {
        Flush(maxItems);
        FlushedDropsOldest(old(items), maxItems);
        ok := PutNowait(x);
      }
    }
  }
}
