/**
 Theory of the Robin Hood table behind the order index.

 A table is a sequence of entries read as a ring.  The home slot of a key is given
 by a function value, so that nothing here depends on the hash that is used.
 */
module RobinHood {

  const EMPTY_KEY: nat := 0
  /** `probe_dist` and the probe counters are 16 bits wide. */
  const DIST_LIMIT: nat := 0x1_0000
  /** The largest distance that 16 bits hold. */
  const FAR: nat := 0xFFFF

  datatype Entry = Entry(key: nat, value: nat, dist: nat)

  const BLANK: Entry := Entry(EMPTY_KEY, 0, 0)

  // ----- The ring -----

  /** The slot `j` steps after `s` on a ring of `n` slots. */
  function Fwd(s: nat, j: nat, n: nat): (r: nat)
    requires s < n && j <= n
    ensures r < n
  {
    if s + j < n then s + j else s + j - n
  }

  /** The slot `j` steps before `s` on a ring of `n` slots. */
  function Back(s: nat, j: nat, n: nat): (r: nat)
    requires s < n && j <= n
    ensures r < n
  {
    if j <= s then s - j else s + n - j
  }

  /** The number of forward steps from `a` to `b`. */
  function Gap(a: nat, b: nat, n: nat): (r: nat)
    requires a < n && b < n
    ensures r < n
  {
    if a <= b then b - a else b + n - a
  }

  // ----- The invariant -----

  /** Every recorded distance is the exact cyclic distance from the key's home slot. */
  ghost predicate Exact(t: seq<Entry>, home: nat -> nat) {
    forall i :: 0 <= i < |t| && t[i].key != EMPTY_KEY ==>
      home(t[i].key) < |t| && t[i].dist == Gap(home(t[i].key), i, |t|)
  }

  /** An entry away from home follows an occupied slot whose distance is at most one less. */
  ghost predicate Follows(t: seq<Entry>, i: nat, x: Entry)
    requires i < |t|
  {
    x.key != EMPTY_KEY && x.dist > 0 ==>
      var p := Back(i, 1, |t|);
      t[p].key != EMPTY_KEY && t[p].dist + 1 >= x.dist
  }

  ghost predicate Chained(t: seq<Entry>) {
    forall i {:trigger Follows(t, i, t[i])} :: 0 <= i < |t| ==> Follows(t, i, t[i])
  }

  ghost predicate Unique(t: seq<Entry>) {
    forall i, j :: 0 <= i < |t| && 0 <= j < |t| && t[i].key == t[j].key && t[i].key != EMPTY_KEY ==> i == j
  }

  ghost predicate Table(t: seq<Entry>, home: nat -> nat) {
    |t| > 1 && Exact(t, home) && Chained(t) && Unique(t)
  }

  ghost predicate Present(t: seq<Entry>, k: nat) {
    exists i :: 0 <= i < |t| && t[i].key == k
  }

  /** The table stores exactly the finite map `m`. */
  ghost predicate Models(t: seq<Entry>, m: map<nat, nat>) {
    && (forall i :: 0 <= i < |t| && t[i].key != EMPTY_KEY ==> t[i].key in m && m[t[i].key] == t[i].value)
    && (forall k :: k in m ==> k != EMPTY_KEY && Present(t, k))
  }

  /** The table together with the entry `x` in hand stores exactly `m`. */
  ghost predicate ModelsWith(t: seq<Entry>, x: Entry, m: map<nat, nat>) {
    && (forall i :: 0 <= i < |t| && t[i].key != EMPTY_KEY ==> t[i].key in m && m[t[i].key] == t[i].value)
    && x.key in m && m[x.key] == x.value
    && (forall k :: k in m ==> k != EMPTY_KEY && (k == x.key || Present(t, k)))
  }

  /** Entry `x` may stand at slot `s`: its distance is exact there and it follows its predecessor. */
  ghost predicate Carry(t: seq<Entry>, home: nat -> nat, x: Entry, s: nat)
    requires s < |t|
  {
    && x.key != EMPTY_KEY
    && home(x.key) < |t|
    && x.dist == Gap(home(x.key), s, |t|)
    && Follows(t, s, x)
  }

  /** No stored distance has reached 65535, so a counter that follows one does not wrap. */
  ghost predicate Near(t: seq<Entry>) {
    forall i :: 0 <= i < |t| && t[i].key != EMPTY_KEY ==> t[i].dist < FAR
  }

  /** What an insertion or an erasure asks of the table: an empty slot, and no distance at its limit. */
  ghost predicate Roomy(t: seq<Entry>) {
    Near(t) && Present(t, EMPTY_KEY)
  }

  // ----- Consequences of the invariant -----

  /** Walking back `j` steps from an entry loses at most `j` of its distance. */
  lemma {:induction false} Behind(t: seq<Entry>, home: nat -> nat, p: nat, j: nat)
    requires Table(t, home)
    requires p < |t| && t[p].key != EMPTY_KEY && j <= t[p].dist
    ensures t[p].dist < |t|
    ensures var q := Back(p, j, |t|); t[q].key != EMPTY_KEY && t[q].dist + j >= t[p].dist
  {
    if j > 0 {
      Behind(t, home, p, j - 1);
      var q := Back(p, j - 1, |t|);
      assert Follows(t, q, t[q]);
      assert Back(q, 1, |t|) == Back(p, j, |t|);
    }
  }

  /** Every slot from a key's home up to the key is occupied, by entries at least that far from home. */
  lemma Reach(t: seq<Entry>, home: nat -> nat, p: nat, j: nat)
    requires Table(t, home)
    requires p < |t| && t[p].key != EMPTY_KEY && j <= t[p].dist
    ensures home(t[p].key) < |t| && t[p].dist < |t|
    ensures var q := Fwd(home(t[p].key), j, |t|); t[q].key != EMPTY_KEY && t[q].dist >= j
  {
    Behind(t, home, p, t[p].dist - j);
    assert Back(p, t[p].dist - j, |t|) == Fwd(home(t[p].key), j, |t|);
  }

  /**
   The early exit is sound: a key that was not met on the first `j` slots of its probe
   path is absent once the next slot is empty or holds an entry closer to its home.
   */
  lemma EarlyExitSound(t: seq<Entry>, home: nat -> nat, k: nat, j: nat)
    requires Table(t, home) && k != EMPTY_KEY && home(k) < |t| && j < |t|
    requires forall i :: 0 <= i < j ==> t[Fwd(home(k), i, |t|)].key != k
    requires var e := t[Fwd(home(k), j, |t|)]; e.key == EMPTY_KEY || j > e.dist
    ensures !Present(t, k)
  {
    forall p | 0 <= p < |t| ensures t[p].key != k {
      assert t[p].key == k ==> Fwd(home(k), t[p].dist, |t|) == p;
      if t[p].key == k && j <= t[p].dist {
        Reach(t, home, p, j);
      }
    }
  }

  /** An entry carried past an occupied slot has not gone round the ring when slot `v` is empty. */
  lemma CarryRoom(t: seq<Entry>, home: nat -> nat, x: Entry, s: nat, v: nat)
    requires Table(t, home) && v < |t| && t[v].key == EMPTY_KEY
    requires s < |t| && t[s].key != EMPTY_KEY && Carry(t, home, x, s)
    ensures x.dist + 1 < |t|
  {
    var h := home(x.key);
    var e := Gap(h, v, |t|);
    if e < x.dist {
      var p := Back(s, 1, |t|);
      Behind(t, home, p, x.dist - 1 - e);
      assert false;
    }
  }

  // ----- The steps of an insertion -----

  lemma ChainedAfterStore(t: seq<Entry>, home: nat -> nat, x: Entry, s: nat)
    requires Table(t, home) && s < |t| && Carry(t, home, x, s)
    requires t[s].key == EMPTY_KEY || t[s].dist <= x.dist
    ensures Chained(t[s := x])
  {
    var u := t[s := x];
    forall i | 0 <= i < |u| ensures Follows(u, i, u[i]) {
      assert Follows(t, i, t[i]);
    }
  }

  /** Dropping the carried entry into an empty slot completes the insertion. */
  lemma PlaceKeeps(t: seq<Entry>, home: nat -> nat, x: Entry, s: nat, m: map<nat, nat>)
    requires Table(t, home) && s < |t| && Carry(t, home, x, s)
    requires t[s].key == EMPTY_KEY && !Present(t, x.key) && ModelsWith(t, x, m)
    ensures Table(t[s := x], home) && Models(t[s := x], m)
  {
    ChainedAfterStore(t, home, x, s);
    var u := t[s := x];
    forall k | k in m ensures Present(u, k) {
      if k == x.key {
        assert u[s].key == k;
      } else {
        var i :| 0 <= i < |t| && t[i].key == k;
        assert u[i].key == k;
      }
    }
  }

  /** Trading places with an entry nearer its home keeps the table and carries that entry on. */
  lemma SwapKeeps(t: seq<Entry>, home: nat -> nat, x: Entry, s: nat, m: map<nat, nat>, v: nat)
    requires Table(t, home) && s < |t| && Carry(t, home, x, s) && v < |t| && t[v].key == EMPTY_KEY
    requires t[s].key != EMPTY_KEY && t[s].dist < x.dist && !Present(t, x.key) && ModelsWith(t, x, m)
    ensures var u, y := t[s := x], t[s].(dist := t[s].dist + 1);
            && Table(u, home) && !Present(u, y.key)
            && Carry(u, home, y, Fwd(s, 1, |t|)) && ModelsWith(u, y, m)
  {
    ChainedAfterStore(t, home, x, s);
    assert Follows(t, s, t[s]);
    CarryRoom(t, home, t[s], s, v);
    var u, y := t[s := x], t[s].(dist := t[s].dist + 1);
    assert Back(Fwd(s, 1, |t|), 1, |t|) == s;
    forall k | k in m ensures k == y.key || Present(u, k) {
      if k == x.key {
        assert u[s].key == k;
      } else if k != y.key {
        var i :| 0 <= i < |t| && t[i].key == k;
        assert u[i].key == k;
      }
    }
  }

  /** Walking past an entry at least as far from home keeps carrying the same entry. */
  lemma PassKeeps(t: seq<Entry>, home: nat -> nat, x: Entry, s: nat, v: nat)
    requires Table(t, home) && s < |t| && Carry(t, home, x, s) && v < |t| && t[v].key == EMPTY_KEY
    requires t[s].key != EMPTY_KEY && t[s].dist >= x.dist
    ensures Carry(t, home, x.(dist := x.dist + 1), Fwd(s, 1, |t|))
  {
    CarryRoom(t, home, x, s, v);
    assert Back(Fwd(s, 1, |t|), 1, |t|) == s;
  }

  /** Overwriting a value in place re-binds that key only. */
  lemma UpdateKeeps(t: seq<Entry>, home: nat -> nat, s: nat, v: nat, m: map<nat, nat>)
    requires Table(t, home) && s < |t| && t[s].key != EMPTY_KEY && Models(t, m)
    ensures var u := t[s := t[s].(value := v)]; Table(u, home) && Models(u, m[t[s].key := v])
  {
    var u := t[s := t[s].(value := v)];
    forall i | 0 <= i < |u| ensures Follows(u, i, u[i]) {
      assert Follows(t, i, t[i]);
    }
    forall k | k in m[t[s].key := v] ensures Present(u, k) {
      if k == t[s].key {
        assert u[s].key == k;
      } else {
        var i :| 0 <= i < |t| && t[i].key == k;
        assert u[i].key == k;
      }
    }
  }

  /** No distance on the slots from `steps` to `e` steps after `h` is at its limit. */
  ghost predicate NearAhead(t: seq<Entry>, h: nat, steps: nat, e: nat)
    requires h < |t| && e < |t|
  {
    forall i {:trigger Fwd(h, i, |t|)} :: steps <= i < e && t[Fwd(h, i, |t|)].key != EMPTY_KEY ==> t[Fwd(h, i, |t|)].dist < FAR
  }

  lemma NearAheadKept(t: seq<Entry>, h: nat, steps: nat, e: nat, x: Entry)
    requires h < |t| && steps < e < |t| && NearAhead(t, h, steps, e)
    ensures NearAhead(t[Fwd(h, steps, |t|) := x], h, steps + 1, e)
  {
  }

  /**
   An insertion of `id` under way: `steps` slots of its probe path are behind, the table is
   now `t` and the entry in hand is `x`.  A key that was bound already is still ahead and
   nothing has been swapped; otherwise table and hand together store the map wanted.
   The slot `e` steps from the home of `id` is empty, and no distance before it is at its limit.
   */
  ghost predicate Inserting(t: seq<Entry>, home: nat -> nat, m: map<nat, nat>, id: nat, value: nat,
                            x: Entry, steps: nat, e: nat)
  {
    && Table(t, home)
    && id != EMPTY_KEY && home(id) < |t| && x.dist < DIST_LIMIT
    && steps <= e < |t| && t[Fwd(home(id), e, |t|)].key == EMPTY_KEY
    && NearAhead(t, home(id), steps, e)
    && Carry(t, home, x, Fwd(home(id), steps, |t|))
    && (id in m ==>
          && Models(t, m) && x == Entry(id, value, steps)
          && forall i :: 0 <= i < steps ==> t[Fwd(home(id), i, |t|)].key != id)
    && (id !in m ==>
          && !Present(t, x.key) && ModelsWith(t, x, m[id := value])
          && (x.key == id || exists i :: 0 <= i < steps && t[Fwd(home(id), i, |t|)].key == id))
  }

  lemma InsertStarts(t: seq<Entry>, home: nat -> nat, m: map<nat, nat>, id: nat, value: nat) returns (e: nat)
    requires Table(t, home) && Roomy(t) && Models(t, m) && id != EMPTY_KEY && home(id) < |t|
    ensures Inserting(t, home, m, id, value, Entry(id, value, 0), 0, e)
  {
    var v :| 0 <= v < |t| && t[v].key == EMPTY_KEY;
    e := Gap(home(id), v, |t|);
    assert Fwd(home(id), e, |t|) == v;
  }

  lemma InsertPlaces(t: seq<Entry>, home: nat -> nat, m: map<nat, nat>, id: nat, value: nat, x: Entry, steps: nat, e: nat)
    requires Inserting(t, home, m, id, value, x, steps, e)
    requires t[Fwd(home(id), steps, |t|)].key == EMPTY_KEY
    ensures id !in m
    ensures var u := t[Fwd(home(id), steps, |t|) := x]; Table(u, home) && Models(u, m[id := value])
  {
    if id in m {
      EarlyExitSound(t, home, id, steps);
    }
    PlaceKeeps(t, home, x, Fwd(home(id), steps, |t|), m[id := value]);
  }

  lemma InsertHits(t: seq<Entry>, home: nat -> nat, m: map<nat, nat>, id: nat, value: nat, x: Entry, steps: nat, e: nat)
    requires Inserting(t, home, m, id, value, x, steps, e)
    requires t[Fwd(home(id), steps, |t|)].key == id
    ensures id in m
    ensures var s := Fwd(home(id), steps, |t|);
            var u := t[s := t[s].(value := value)]; Table(u, home) && Models(u, m[id := value])
  {
    assert x.key == id;
    assert Present(t, id);
    UpdateKeeps(t, home, Fwd(home(id), steps, |t|), value, m);
  }

  /** The insertion loop ends on the key itself exactly when it was bound; the last store completes the binding. */
  lemma InsertEnds(t: seq<Entry>, home: nat -> nat, m: map<nat, nat>, id: nat, value: nat, x: Entry, steps: nat, e: nat)
    returns (u: seq<Entry>)
    requires Inserting(t, home, m, id, value, x, steps, e)
    requires var y := t[Fwd(home(id), steps, |t|)]; y.key == EMPTY_KEY || y.key == id
    ensures var s := Fwd(home(id), steps, |t|);
            && (t[s].key == EMPTY_KEY <==> id !in m)
            && u == t[s := if t[s].key == EMPTY_KEY then x else t[s].(value := value)]
    ensures Table(u, home) && Models(u, m[id := value])
  {
    var s := Fwd(home(id), steps, |t|);
    if t[s].key == EMPTY_KEY {
      InsertPlaces(t, home, m, id, value, x, steps, e);
      u := t[s := x];
    } else {
      InsertHits(t, home, m, id, value, x, steps, e);
      u := t[s := t[s].(value := value)];
    }
  }

  lemma InsertSwaps(t: seq<Entry>, home: nat -> nat, m: map<nat, nat>, id: nat, value: nat, x: Entry, steps: nat, e: nat)
    requires Inserting(t, home, m, id, value, x, steps, e)
    requires var y := t[Fwd(home(id), steps, |t|)]; y.key != EMPTY_KEY && y.key != id && y.dist < x.dist
    ensures var s := Fwd(home(id), steps, |t|);
            Inserting(t[s := x], home, m, id, value, t[s].(dist := t[s].dist + 1), steps + 1, e)
  {
    if id in m {
      EarlyExitSound(t, home, id, steps);
    }
    var s := Fwd(home(id), steps, |t|);
    NearAheadKept(t, home(id), steps, e, x);
    SwapKeeps(t, home, x, s, m[id := value], Fwd(home(id), e, |t|));
    assert Fwd(s, 1, |t|) == Fwd(home(id), steps + 1, |t|);
    var i :| 0 <= i <= steps && (if i == steps then x.key == id else t[Fwd(home(id), i, |t|)].key == id);
    assert t[s := x][Fwd(home(id), i, |t|)].key == id;
  }

  lemma InsertPasses(t: seq<Entry>, home: nat -> nat, m: map<nat, nat>, id: nat, value: nat, x: Entry, steps: nat, e: nat)
    requires Inserting(t, home, m, id, value, x, steps, e)
    requires var y := t[Fwd(home(id), steps, |t|)]; y.key != EMPTY_KEY && y.key != id && y.dist >= x.dist
    ensures Inserting(t, home, m, id, value, x.(dist := x.dist + 1), steps + 1, e)
  {
    PassKeeps(t, home, x, Fwd(home(id), steps, |t|), Fwd(home(id), e, |t|));
    assert Fwd(Fwd(home(id), steps, |t|), 1, |t|) == Fwd(home(id), steps + 1, |t|);
  }

  /** One round of the insertion loop over an occupied slot that holds another key. */
  lemma InsertMoves(t: seq<Entry>, home: nat -> nat, m: map<nat, nat>, id: nat, value: nat, x: Entry, steps: nat, e: nat)
    returns (t': seq<Entry>, x': Entry)
    requires Inserting(t, home, m, id, value, x, steps, e)
    requires var y := t[Fwd(home(id), steps, |t|)]; y.key != EMPTY_KEY && y.key != id
    ensures var s := Fwd(home(id), steps, |t|);
            && Fwd(s, 1, |t|) == Fwd(home(id), steps + 1, |t|)
            && t' == (if t[s].dist < x.dist then t[s := x] else t)
            && x' == (if t[s].dist < x.dist then t[s].(dist := t[s].dist + 1) else x.(dist := x.dist + 1))
    ensures Inserting(t', home, m, id, value, x', steps + 1, e)
  {
    var s := Fwd(home(id), steps, |t|);
    if t[s].dist < x.dist {
      InsertSwaps(t, home, m, id, value, x, steps, e);
      t', x' := t[s := x], t[s].(dist := t[s].dist + 1);
    } else {
      InsertPasses(t, home, m, id, value, x, steps, e);
      t', x' := t, x.(dist := x.dist + 1);
    }
  }

  // ----- The steps of an erasure -----

  /**
   The table while a hole travels forward.  Slot `pos` still holds a stale entry, which
   the links respect; without that slot the table stores `m`.  The slot `ahead` steps
   further is empty.
   */
  ghost predicate Hole(t: seq<Entry>, home: nat -> nat, pos: nat, m: map<nat, nat>, ahead: nat) {
    && |t| > 1 && pos < |t| && t[pos].key != EMPTY_KEY
    && 0 < ahead < |t| && t[Fwd(pos, ahead, |t|)].key == EMPTY_KEY
    && Exact(t, home) && Chained(t)
    && Unique(t[pos := BLANK]) && Models(t[pos := BLANK], m)
  }

  lemma HoleOpens(t: seq<Entry>, home: nat -> nat, pos: nat, m: map<nat, nat>) returns (ahead: nat)
    requires Table(t, home) && Present(t, EMPTY_KEY) && Models(t, m) && pos < |t| && t[pos].key != EMPTY_KEY
    ensures Hole(t, home, pos, m - {t[pos].key}, ahead)
  {
    var v :| 0 <= v < |t| && t[v].key == EMPTY_KEY;
    ahead := Gap(pos, v, |t|);
    assert Fwd(pos, ahead, |t|) == v;
    var u := t[pos := BLANK];
    forall k | k in m - {t[pos].key} ensures Present(u, k) {
      var i :| 0 <= i < |t| && t[i].key == k;
      assert u[i].key == k;
    }
  }

  lemma HoleMovesLinks(t: seq<Entry>, home: nat -> nat, pos: nat)
    requires |t| > 1 && pos < |t| && t[pos].key != EMPTY_KEY && Exact(t, home) && Chained(t)
    requires var e := t[Fwd(pos, 1, |t|)]; e.key != EMPTY_KEY && e.dist > 0
    ensures var next := Fwd(pos, 1, |t|);
            var u := t[pos := t[next].(dist := t[next].dist - 1)];
            Exact(u, home) && Chained(u)
  {
    var n, next := |t|, Fwd(pos, 1, |t|);
    var e := t[next];
    var u := t[pos := e.(dist := e.dist - 1)];
    assert Back(next, 1, n) == pos;
    assert Follows(t, next, e);
    forall i | 0 <= i < n ensures Follows(u, i, u[i]) {
      assert Follows(t, i, t[i]);
    }
  }

  /** Moving an entry to a vacant slot changes neither what is stored nor its uniqueness. */
  lemma MoveKeeps(v: seq<Entry>, w: seq<Entry>, from: nat, to: nat, m: map<nat, nat>)
    requires |v| == |w| && from < |v| && to < |v| && from != to
    requires v[to].key == EMPTY_KEY && w[from].key == EMPTY_KEY
    requires w[to].key == v[from].key && w[to].value == v[from].value
    requires forall i :: 0 <= i < |v| && i != from && i != to ==> w[i] == v[i]
    requires Unique(v) && Models(v, m)
    ensures Unique(w) && Models(w, m)
  {
    forall k | k in m ensures Present(w, k) {
      var i :| 0 <= i < |v| && v[i].key == k;
      assert w[if i == from then to else i].key == k;
    }
  }

  lemma HoleMoves(t: seq<Entry>, home: nat -> nat, pos: nat, m: map<nat, nat>, ahead: nat)
    requires Hole(t, home, pos, m, ahead)
    requires var e := t[Fwd(pos, 1, |t|)]; e.key != EMPTY_KEY && e.dist > 0
    ensures var next := Fwd(pos, 1, |t|);
            ahead > 1 && Hole(t[pos := t[next].(dist := t[next].dist - 1)], home, next, m, ahead - 1)
  {
    var next := Fwd(pos, 1, |t|);
    var u := t[pos := t[next].(dist := t[next].dist - 1)];
    HoleMovesLinks(t, home, pos);
    MoveKeeps(t[pos := BLANK], u[next := BLANK], next, pos, m);
    assert Fwd(next, ahead - 1, |t|) == Fwd(pos, ahead, |t|);
  }

  lemma HoleCloses(t: seq<Entry>, home: nat -> nat, pos: nat, m: map<nat, nat>, ahead: nat)
    requires Hole(t, home, pos, m, ahead)
    requires var e := t[Fwd(pos, 1, |t|)]; e.key == EMPTY_KEY || e.dist == 0
    ensures var u := t[pos := BLANK]; Table(u, home) && Models(u, m)
  {
    var u := t[pos := BLANK];
    forall i | 0 <= i < |u| ensures Follows(u, i, u[i]) {
      assert Follows(t, i, t[i]);
      assert i != pos && Back(i, 1, |t|) == pos ==> i == Fwd(pos, 1, |t|);
    }
  }

  // ----- Room -----

  lemma {:induction false} RunOfKeys(t: seq<Entry>, m: map<nat, nat>, s: nat, j: nat) returns (ks: set<nat>)
    requires Unique(t) && Models(t, m) && s < |t| && j <= |t|
    requires forall i :: 0 <= i < j ==> t[Fwd(s, i, |t|)].key != EMPTY_KEY
    ensures |ks| == j && ks <= m.Keys
    ensures forall k :: k in ks ==> exists i :: 0 <= i < j && t[Fwd(s, i, |t|)].key == k
  {
    if j == 0 {
      ks := {};
    } else {
      ks := RunOfKeys(t, m, s, j - 1);
      var k := t[Fwd(s, j - 1, |t|)].key;
      assert k !in ks;
      ks := ks + {k};
    }
  }

  /** A run of occupied slots is no longer than the map. */
  lemma RunBound(t: seq<Entry>, m: map<nat, nat>, s: nat, j: nat)
    requires Unique(t) && Models(t, m) && s < |t| && j <= |t|
    requires forall i :: 0 <= i < j ==> t[Fwd(s, i, |t|)].key != EMPTY_KEY
    ensures j <= |m|
  {
    var ks := RunOfKeys(t, m, s, j);
    assert m.Keys == ks + (m.Keys - ks);
  }

  /** An entry is no farther from home than there are other keys. */
  lemma DistanceBelowKeys(t: seq<Entry>, home: nat -> nat, m: map<nat, nat>, p: nat)
    requires Table(t, home) && Models(t, m) && p < |t| && t[p].key != EMPTY_KEY
    ensures t[p].dist < |m|
  {
    var h, d := home(t[p].key), t[p].dist;
    forall i | 0 <= i < d + 1 ensures t[Fwd(h, i, |t|)].key != EMPTY_KEY {
      Reach(t, home, p, i);
    }
    RunBound(t, m, h, d + 1);
  }

  /** A table that holds fewer keys than it has slots, and fewer than 65536, is roomy. */
  lemma FewKeysRoomy(t: seq<Entry>, home: nat -> nat, m: map<nat, nat>)
    requires Table(t, home) && Models(t, m) && |m| < |t| && |m| < DIST_LIMIT
    ensures Roomy(t)
  {
    forall p | 0 <= p < |t| && t[p].key != EMPTY_KEY ensures t[p].dist < FAR {
      DistanceBelowKeys(t, home, m, p);
    }
    var i := SomeSlotEmpty(t, m);
  }

  /** A table that holds fewer keys than it has slots has an empty slot. */
  lemma SomeSlotEmpty(t: seq<Entry>, m: map<nat, nat>) returns (i: nat)
    requires Unique(t) && Models(t, m) && |m| < |t|
    ensures i < |t| && t[i].key == EMPTY_KEY
  {
    if j: nat :| j < |t| && t[j].key == EMPTY_KEY {
      i := j;
    } else {
      RunBound(t, m, 0, |m| + 1);
      assert false;
    }
  }
}
