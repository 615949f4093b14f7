/**
 One side of the book as it is meant: a finite map from prices to the queue of orders resting
 there, oldest first.  No queue is empty.
 */
module PriceQueues {

  datatype Resting = Resting(id: nat, qty: nat)

  type Queues = map<int, seq<Resting>>

  function Enqueue(a: Queues, price: int, e: Resting): (r: Queues) {
    a[price := (if price in a then a[price] else []) + [e]]
  }

  function Without(q: seq<Resting>, id: nat): (r: seq<Resting>) {
    if q == [] then [] else if q[0].id == id then q[1..] else [q[0]] + Without(q[1..], id)
  }

  /** The order `id` leaves the queue at `price`; a queue left empty goes with it. */
  function Dequeue(a: Queues, price: int, id: nat): (r: Queues) {
    if price !in a then a
    else
      var q := Without(a[price], id);
      if q == [] then a - {price} else a[price := q]
  }

  function Swapped(q: seq<Resting>, id: nat, e: Resting): (r: seq<Resting>) {
    if q == [] then [] else if q[0].id == id then [e] + q[1..] else [q[0]] + Swapped(q[1..], id, e)
  }

  /** The order `id` becomes `e` without losing its place. */
  function Update(a: Queues, price: int, id: nat, e: Resting): (r: Queues) {
    if price !in a then a else a[price := Swapped(a[price], id, e)]
  }

  /** The quantity of the order `id` at `price`. */
  function QtyOf(a: Queues, price: int, id: nat): (r: nat) {
    if price !in a then 0 else QtyIn(a[price], id)
  }

  function QtyIn(q: seq<Resting>, id: nat): (r: nat) {
    if q == [] then 0 else if q[0].id == id then q[0].qty else QtyIn(q[1..], id)
  }

  function Total(q: seq<Resting>): (s: nat) {
    if q == [] then 0 else Total(q[..|q| - 1]) + q[|q| - 1].qty
  }

  ghost predicate FirstAt(q: seq<Resting>, id: nat, k: nat) {
    k < |q| && q[k].id == id && forall j :: 0 <= j < k ==> q[j].id != id
  }

  lemma {:induction false} WithoutAt(q: seq<Resting>, id: nat, k: nat)
    requires FirstAt(q, id, k)
    ensures Without(q, id) == q[..k] + q[k + 1..]
  {
    if k > 0 {
      assert forall j :: 0 <= j < k - 1 ==> q[1..][j] == q[j + 1];
      WithoutAt(q[1..], id, k - 1);
    }
  }

  lemma {:induction false} SwappedAt(q: seq<Resting>, id: nat, e: Resting, k: nat)
    requires FirstAt(q, id, k)
    ensures Swapped(q, id, e) == q[k := e]
  {
    if k > 0 {
      assert forall j :: 0 <= j < k - 1 ==> q[1..][j] == q[j + 1];
      SwappedAt(q[1..], id, e, k - 1);
    }
  }

  lemma {:induction false} QtyAt(q: seq<Resting>, id: nat, k: nat)
    requires FirstAt(q, id, k)
    ensures QtyIn(q, id) == q[k].qty
  {
    if k > 0 {
      assert forall j :: 0 <= j < k - 1 ==> q[1..][j] == q[j + 1];
      QtyAt(q[1..], id, k - 1);
    }
  }
}
