/** The free list of connection slots (object_pool.c). */
module ObjectPool {

  class Object {
    var next: Object?
  }

  /** `s` is the chain that starts at `first` and runs along the `next` links to null. */
  ghost predicate Chain(first: Object?, s: seq<Object>)
    reads s
  {
    if s == [] then first == null else first == s[0] && Chain(s[0].next, s[1..])
  }

  ghost predicate Distinct(s: seq<Object>) {
    forall i, j :: 0 <= i < j < |s| ==> s[i] != s[j]
  }

  class ObjectPool {
    var available: Object?
    ghost var free: seq<Object>

    ghost predicate Valid()
      reads this, free
    {
      Chain(available, free) && Distinct(free)
    }

    /** object_pool_create: `num` slots in one block, each linked to the one behind it. */
    constructor (num: nat)
      requires num > 0
      ensures Valid() && |free| == num && forall o :: o in free ==> fresh(o)
    {
      new;
      var mem := Allocate(num);
      available, free := mem[0], mem;
      var p := 0;
      while p < num - 1
        invariant 0 <= p <= num - 1 && available == mem[0] && free == mem
        invariant forall k :: 0 <= k < p ==> mem[k].next == mem[k + 1]
      {
        assert mem[p] in mem;
        mem[p].next := mem[p + 1];
        p := p + 1;
      }
      assert mem[p] in mem;
      mem[p].next := null;
      LinkedIsChain(mem, 0);
      assert mem[0..] == mem;
    }

    /** object_pool_acquire: null exactly when nothing is free. */
    method Acquire() returns (ob: Object?)
      requires Valid()
      modifies this
      ensures Valid()
      ensures if old(free) == [] then ob == null && free == [] else ob == old(free)[0] && free == old(free)[1..]
    {
      ob := null;
      if available != null {
        ob := available;
        available, free := ob.next, free[1..];
      }
    }

    /** object_pool_return. */
    method Return(ob: Object)
      requires Valid() && ob !in free
      modifies this, ob
      ensures Valid() && free == [ob] + old(free)
    {
      if available == null {
        ob.next := null;
      } else {
        ob.next := available;
      }
      available, free := ob, [ob] + free;
    }
  }

  /** The block: objects apart from each other, with whatever links. */
  method Allocate(num: nat) returns (mem: seq<Object>)
    ensures |mem| == num && Distinct(mem) && forall o :: o in mem ==> fresh(o)
  {
    mem := [];
    while |mem| < num
      invariant |mem| <= num && Distinct(mem) && forall o :: o in mem ==> fresh(o)
    {
      var o := new Object;
      mem := mem + [o];
    }
  }

  lemma {:induction false} LinkedIsChain(mem: seq<Object>, k: nat)
    requires k < |mem| && mem[|mem| - 1].next == null
    requires forall i :: k <= i < |mem| - 1 ==> mem[i].next == mem[i + 1]
    ensures Chain(mem[k], mem[k..])
    decreases |mem| - k
  {
    if k < |mem| - 1 {
      LinkedIsChain(mem, k + 1);
      assert mem[k..][1..] == mem[k + 1..];
    }
  }
}
