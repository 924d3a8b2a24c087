/** The bounded channel between the logging calls and the background writer
    (Channel.CreateBounded with capacity 10000, FullMode = Wait, a single reader): a FIFO
    queue that never holds more than its capacity. A producer that finds it full waits for
    room instead of dropping its item. */
module Channels {
  import opened Models

  /** BoundedChannelOptions(10000). */
  const Capacity: nat := 10000

  /** What ChannelWriter.WriteAsync does with an item. */
  datatype WriteOutcome =
    | Written     // appended at the tail
    | MustWait    // full: the producer is suspended until the reader makes room; nothing changed
    | Closed      // the writer was completed: WriteAsync throws ChannelClosedException

  class BoundedChannel {
    var items: seq<UserActivity>
    var completed: bool

    ghost predicate Valid()
      reads this
    {
      |items| <= Capacity
    }

    constructor ()
      ensures Valid()
      ensures items == [] && !completed
    {
      items, completed := [], false;
    }

    /** ChannelWriter.WriteAsync(x), one attempt. */
    method Write(x: UserActivity) returns (w: WriteOutcome)
      requires Valid()
      modifies this
      ensures Valid()
      ensures completed == old(completed)
      ensures w == if old(completed) then Closed
                   else if |old(items)| == Capacity then MustWait
                   else Written
      ensures items == if w == Written then old(items) + [x] else old(items)
    {
      if completed {
        w := Closed;
      } else if |items| == Capacity {
        w := MustWait;
      } else {
        items := items + [x];
        w := Written;
      }
    }

    /** ChannelReader.TryRead(out item): the head of the queue, if there is one. */
    method TryRead() returns (r: Option<UserActivity>)
      requires Valid()
      modifies this
      ensures Valid()
      ensures completed == old(completed)
      ensures old(items) == [] ==> r.None? && items == []
      ensures old(items) != [] ==> r == Some(old(items)[0]) && items == old(items)[1..]
    {
      if items == [] {
        r := None;
      } else {
        r := Some(items[0]);
        items := items[1..];
      }
    }

    /** ChannelWriter.Complete(): no more writes are accepted. It throws when the writer was
        already completed, which `ok == false` stands for. */
    method Complete() returns (ok: bool)
      requires Valid()
      modifies this
      ensures Valid()
      ensures items == old(items)
      ensures completed
      ensures ok == !old(completed)
    {
      ok := !completed;
      completed := true;
    }
  }
}
