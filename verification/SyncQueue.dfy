/** The linked task queue of sync_queue.c: what its two critical sections do while the lock is held.
    The order in which threads enter them is the subject of ThreadPool. */
module SyncQueue {

  class Entry {
    var next: Entry?
  }

  class SyncQueue {
    var head: Entry?
    var tail: Entry?
    ghost var entries: seq<Entry>

    ghost predicate Valid()
      reads this, entries
    {
      && (forall i, j :: 0 <= i < j < |entries| ==> entries[i] != entries[j])
      && (forall i :: 0 <= i < |entries| - 1 ==> entries[i].next == entries[i + 1])
      && (if entries == [] then head == null && tail == null
          else head == entries[0] && tail == entries[|entries| - 1] && entries[|entries| - 1].next == null)
    }

    /** sync_queue_init. */
    constructor ()
      ensures Valid() && entries == []
    {
      head, tail, entries := null, null, [];
    }

    /** sync_queue_push_back, lines 27-36, the destroy flag being clear. */
    method Link(ele: Entry)
      requires Valid() && ele !in entries
      modifies this, ele, entries
      ensures Valid() && entries == old(entries) + [ele]
    {
      ele.next := null;
      if tail == null {
        tail := ele;
        head := ele;
      } else {
        tail.next := ele;
        tail := ele;
      }
      entries := entries + [ele];
    }

    /** sync_queue_pop_front, lines 51-57. */
    method Take() returns (ret: Entry?)
      requires Valid()
      modifies this
      ensures Valid()
      ensures if old(entries) == [] then ret == null && entries == [] else ret == old(entries)[0] && entries == old(entries)[1..]
    {
      ret := null;
      if head != null {
        ret := head;
        head := head.next;
        if tail == ret {
          tail := head;
        }
        entries := entries[1..];
      }
    }
  }
}
