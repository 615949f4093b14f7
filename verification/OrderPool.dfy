/**
 The slab of orders: fixed storage with a last-in first-out stack of free slots.
 */
module OrderPools {
  import opened BookModel

  class OrderPool {
    const orders: array<Order>
    const freelist: array<nat>
    /** The next slot to hand out is `freelist[top - 1]`. */
    var top: nat
    var inUse: nat

    ghost predicate Valid()
      reads this
    {
      && orders.Length == freelist.Length < NONE
      && top <= freelist.Length
      && inUse == freelist.Length - top
    }

    /** The free stack, the next slot last. */
    ghost function Free(): (s: seq<nat>)
      requires top <= freelist.Length
      reads this, freelist
    {
      freelist[..top]
    }

    /** Takes over storage that may hold anything. */
    constructor (backing: array<Order>)
      requires backing.Length < NONE
      ensures Valid() && orders == backing && fresh(freelist)
      ensures Free() == InitialFree(backing.Length)
    {
      orders := backing;
      freelist := new nat[backing.Length];
      top, inUse := backing.Length, 0;
      new;
      Refill(freelist);
    }

    /** Slot, or `NONE` when the pool is exhausted. */
    method Alloc() returns (idx: nat)
      requires Valid() && forall i :: 0 <= i < top ==> freelist[i] < orders.Length
      modifies this, orders
      ensures Valid()
      ensures if old(top) == 0
              then idx == NONE && Free() == old(Free()) && orders[..] == old(orders[..])
              else && idx == old(freelist[top - 1]) < orders.Length
                   && Free() == old(Free())[..old(top) - 1]
                   && orders[..] == old(orders[..])[idx := old(orders[..])[idx].(prev := NONE, next := NONE)]
    {
      if top == 0 {
        return NONE;
      }
      top := top - 1;
      idx := freelist[top];
      inUse := inUse + 1;
      orders[idx] := orders[idx].(prev := NONE, next := NONE);
    }

    method Release(idx: nat)
      requires Valid() && top < freelist.Length
      modifies this, freelist
      ensures Valid() && Free() == old(Free()) + [idx]
    {
      freelist[top] := idx;
      top := top + 1;
      inUse := inUse - 1;
    }

    /** Back to the initial order of slots; the orders themselves are not cleared. */
    method Reset()
      requires Valid()
      modifies this, freelist
      ensures Valid() && Free() == InitialFree(orders.Length) && inUse == 0
    {
      top := freelist.Length;
      Refill(freelist);
      inUse := 0;
    }
  }

  /** Slot 0 on top. */
  method Refill(freelist: array<nat>)
    modifies freelist
    ensures freelist[..] == InitialFree(freelist.Length)
  {
    for i := 0 to freelist.Length
      invariant forall j :: 0 <= j < i ==> freelist[j] == freelist.Length - 1 - j
    {
      freelist[i] := freelist.Length - 1 - i;
    }
  }
}
