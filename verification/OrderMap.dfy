/**
 The order index: an open-addressing table from order references to pool slots, with
 Robin Hood insertion, early-exit lookup and backward-shift erasure.
 */
module OrderIndex {
  import opened RobinHood
  import opened Words

  const HASH_MULTIPLIER: nat := 11400714819323198485

  /** The 64-bit product of Fibonacci hashing. */
  function Mix(id: nat): (r: nat) {
    (id * HASH_MULTIPLIER) % WORD64
  }

  /** Fibonacci hashing: the top `bits` bits of the 64-bit product. */
  function HashSlot(id: nat, bits: nat): (r: nat)
    requires 1 <= bits <= 31
  {
    Quotient(Mix(id), Pow2(64 - bits))
  }

  function Quotient(a: nat, d: nat): (r: nat)
    requires d > 0
  {
    assert a == d * (a / d) + a % d;
    a / d
  }

  lemma HashInRange(id: nat, bits: nat)
    requires 1 <= bits <= 31
    ensures HashSlot(id, bits) < Pow2(bits)
  {
    Pow2Add(bits, 64 - bits);
    WordIsPow2();
    QuotientBelow(Mix(id), Pow2(64 - bits), Pow2(bits));
  }

  lemma WordIsPow2()
    ensures Pow2(64) == WORD64
  {
    Square(8, 0x100);
    Square(16, 0x1_0000);
    Square(32, 0x1_0000_0000);
  }

  lemma Square(n: nat, p: nat)
    requires Pow2(n) == p
    ensures Pow2(2 * n) == p * p
  {
    Pow2Add(n, n);
  }

  lemma QuotientBelow(x: nat, d: nat, n: nat)
    requires d > 0 && x < n * d
    ensures Quotient(x, d) < n
  {
    var q := Quotient(x, d);
    assert q * d <= x;
    assert (q - n) * d < 0;
  }

  /** A 16-bit counter wraps; the room that the operations ask for keeps it from doing so. */
  function Inc16(d: nat): (r: nat) {
    if d + 1 == DIST_LIMIT then 0 else d + 1
  }

  function Home(bits: nat): (nat -> nat)
    requires 1 <= bits <= 31
  {
    (id: nat) => HashSlot(id, bits)
  }

  class OrderMap {
    const bits: nat
    const table: array<Entry>
    var size: nat
    /** The finite map this table stands for. */
    ghost var contents: map<nat, nat>

    ghost predicate Valid()
      reads this, table
    {
      && 1 <= bits <= 31
      && table.Length == Pow2(bits)
      && Table(table[..], Home(bits))
      && Models(table[..], contents)
      && size == |contents|
    }

    /** A slot is empty, and no stored distance has reached 65535. */
    ghost predicate HasRoom()
      reads this, table
    {
      Roomy(table[..])
    }

    constructor (bits: nat)
      requires 1 <= bits <= 31
      ensures Valid() && contents == map[] && this.bits == bits && fresh(table)
      ensures HasRoom()
    {
      this.bits := bits;
      table := new Entry[Pow2(bits)](_ => BLANK);
      size := 0;
      contents := map[];
      new;
      assert Pow2(bits) == 2 * Pow2(bits - 1);
      BlankTable(table[..], Home(bits));
    }

    method Reset()
      requires Valid()
      modifies this, table
      ensures Valid() && contents == map[] && HasRoom()
      ensures table[..] == seq(table.Length, _ => BLANK)
    {
      for i := 0 to table.Length
        invariant forall j :: 0 <= j < i ==> table[j] == BLANK
      {
        table[i] := BLANK;
      }
      size := 0;
      contents := map[];
      BlankTable(table[..], Home(bits));
    }

    /** Lookup answers exactly as the finite map does; `None` stands for `kMapEmpty`. */
    method Find(id: nat) returns (r: Lookup)
      requires Valid() && Near(table[..]) && id != EMPTY_KEY
      ensures r == if id in contents then Hit(contents[id]) else Miss
    {
      var found, slot := Locate(id);
      r := if found then Hit(table[slot].value) else Miss;
    }

    /** Where the key stands, if it is bound. */
    method Locate(id: nat) returns (found: bool, slot: nat)
      requires Valid() && Near(table[..]) && id != EMPTY_KEY
      ensures slot < table.Length
      ensures found == (id in contents)
      ensures found ==> table[slot].key == id
    {
      HashInRange(id, bits);
      slot := HashSlot(id, bits);
      found, slot := Probe(table, slot, id, Home(bits));
    }

    /** Binds `id` to `value`, whether or not it was bound before. */
    method Insert(id: nat, value: nat) returns (ok: bool)
      requires Valid() && HasRoom() && id != EMPTY_KEY
      modifies this, table
      ensures ok && Valid() && contents == old(contents)[id := value]
    {
      HashInRange(id, bits);
      var slot := HashSlot(id, bits);
      var added := Store(table, slot, id, value, Home(bits), contents);
      if added {
        size := size + 1;
      }
      contents := contents[id := value];
      return true;
    }

    /** Removes the binding of `id`, leaving no tombstone, and tells whether there was one. */
    method Erase(id: nat) returns (ok: bool)
      requires Valid() && HasRoom() && id != EMPTY_KEY
      modifies this, table
      ensures Valid() && HasRoom()
      ensures ok == (id in old(contents)) && contents == old(contents) - {id}
    {
      var found, pos := Locate(id);
      if found {
        ShiftBack(table, pos, Home(bits), contents);
        size := size - 1;
        contents := contents - {id};
      }
      return found;
    }
  }

  /** The probe loop shared by lookup and erasure. */
  method Probe(table: array<Entry>, start: nat, id: nat, ghost home: nat -> nat) returns (found: bool, slot: nat)
    requires Table(table[..], home) && Near(table[..])
    requires id != EMPTY_KEY && start == home(id) < table.Length
    ensures slot < table.Length
    ensures found == Present(table[..], id)
    ensures found ==> table[slot].key == id
  {
    ghost var t, n := table[..], table.Length;
    var dist := 0;
    slot := start;
    while true
      invariant dist <= n && dist <= FAR && slot == Fwd(start, dist, n)
      invariant forall i :: 0 <= i < dist ==> t[Fwd(start, i, n)].key != id
      decreases FAR - dist
    {
      var entry := table[slot];
      assert entry == t[slot];
      if entry.key == EMPTY_KEY || dist > entry.dist {
        AbsentAt(t, home, id, dist);
        return false, slot;
      }
      if entry.key == id {
        return true, slot;
      }
      dist := Inc16(dist);
      slot := Fwd(slot, 1, table.Length);
    }
  }

  lemma AbsentAt(t: seq<Entry>, home: nat -> nat, id: nat, dist: nat)
    requires Table(t, home) && id != EMPTY_KEY && home(id) < |t| && dist <= |t|
    requires forall i :: 0 <= i < dist ==> t[Fwd(home(id), i, |t|)].key != id
    requires var e := t[Fwd(home(id), dist, |t|)]; e.key == EMPTY_KEY || dist > e.dist
    ensures !Present(t, id)
  {
    if dist < |t| {
      EarlyExitSound(t, home, id, dist);
    } else {
      forall p | 0 <= p < |t| ensures t[p].key != id {
        assert Fwd(home(id), Gap(home(id), p, |t|), |t|) == p;
      }
    }
  }

  /** The insertion loop: carries an entry forward until its key or an empty slot is met. */
  method Store(table: array<Entry>, start: nat, id: nat, value: nat, ghost home: nat -> nat, ghost m: map<nat, nat>)
    returns (added: bool)
    requires Table(table[..], home) && Roomy(table[..]) && Models(table[..], m)
    requires id != EMPTY_KEY && start == home(id) < table.Length
    modifies table
    ensures Table(table[..], home) && Models(table[..], m[id := value])
    ensures added == (id !in m)
  {
    var x, slot := Entry(id, value, 0), start;
    ghost var steps := 0;
    ghost var e := InsertStarts(table[..], home, m, id, value);
    while table[slot].key != EMPTY_KEY && table[slot].key != id
      invariant Inserting(table[..], home, m, id, value, x, steps, e)
      invariant slot == Fwd(home(id), steps, table.Length)
      decreases e - steps
    {
      x := CarryOn(table, slot, x, id, value, home, m, steps, e);
      slot := Fwd(slot, 1, table.Length);
      steps := steps + 1;
    }
    added := table[slot].key == EMPTY_KEY;
    ghost var t := InsertEnds(table[..], home, m, id, value, x, steps, e);
    if added {
      table[slot] := x;
    } else {
      table[slot] := table[slot].(value := value);
    }
    assert t == table[..];
  }

  /** One round of the insertion loop: the entry nearer its home yields the slot. */
  method CarryOn(table: array<Entry>, slot: nat, x: Entry, ghost id: nat, ghost value: nat,
                 ghost home: nat -> nat, ghost m: map<nat, nat>, ghost steps: nat, ghost e: nat)
    returns (x': Entry)
    requires Inserting(table[..], home, m, id, value, x, steps, e)
    requires slot == Fwd(home(id), steps, table.Length)
    requires table[slot].key != EMPTY_KEY && table[slot].key != id
    modifies table
    ensures Inserting(table[..], home, m, id, value, x', steps + 1, e)
    ensures Fwd(slot, 1, table.Length) == Fwd(home(id), steps + 1, table.Length)
  {
    ghost var t, y := InsertMoves(table[..], home, m, id, value, x, steps, e);
    x' := x;
    if table[slot].dist < x'.dist {
      x', table[slot] := table[slot], x';
    }
    x' := x'.(dist := Inc16(x'.dist));
    assert t == table[..] && x' == y;
  }

  /** The erasure loop: moves entries back one slot until one is at home or the run ends. */
  method ShiftBack(table: array<Entry>, start: nat, ghost home: nat -> nat, ghost m: map<nat, nat>)
    requires Table(table[..], home) && Present(table[..], EMPTY_KEY) && Models(table[..], m)
    requires start < table.Length && table[start].key != EMPTY_KEY
    modifies table
    ensures Table(table[..], home) && Models(table[..], m - {old(table[start].key)})
    ensures Present(table[..], EMPTY_KEY) && (old(Near(table[..])) ==> Near(table[..]))
  {
    var pos, next := start, Fwd(start, 1, table.Length);
    ghost var ahead := HoleOpens(table[..], home, pos, m);
    ghost var m' := m - {table[start].key};
    while table[next].key != EMPTY_KEY && table[next].dist != 0
      invariant Hole(table[..], home, pos, m', ahead) && next == Fwd(pos, 1, table.Length)
      invariant old(Near(table[..])) ==> Near(table[..])
      decreases ahead
    {
      PullBack(table, pos, next, home, m', ahead);
      pos := next;
      next := Fwd(pos, 1, table.Length);
      ahead := ahead - 1;
    }
    HoleCloses(table[..], home, pos, m', ahead);
    ghost var t := table[..][pos := BLANK];
    table[pos] := BLANK;
    assert t == table[..] && table[..][pos].key == EMPTY_KEY;
  }

  /** One round of the erasure loop. */
  method PullBack(table: array<Entry>, pos: nat, next: nat, ghost home: nat -> nat, ghost m: map<nat, nat>, ghost ahead: nat)
    requires Hole(table[..], home, pos, m, ahead) && next == Fwd(pos, 1, table.Length)
    requires table[next].key != EMPTY_KEY && table[next].dist != 0
    modifies table
    ensures ahead > 1 && Hole(table[..], home, next, m, ahead - 1)
    ensures old(Near(table[..])) ==> Near(table[..])
  {
    HoleMoves(table[..], home, pos, m, ahead);
    var moved := table[next].(dist := table[next].dist - 1);
    ghost var t := table[..][pos := moved];
    table[pos] := moved;
    assert t == table[..];
  }

  datatype Lookup = Hit(value: nat) | Miss

  lemma BlankTable(t: seq<Entry>, home: nat -> nat)
    requires |t| > 1 && forall i :: 0 <= i < |t| ==> t[i] == BLANK
    ensures Table(t, home) && Models(t, map[]) && Roomy(t)
  {
    assert t[0].key == EMPTY_KEY;
  }
}
