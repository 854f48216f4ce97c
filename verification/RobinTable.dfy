/** The slots of a Robin Hood table, seen as a sequence: where a key belongs, the ordering invariant that
    every swap and every shift keeps, and what follows from it for the probe loops. The table's length is
    called `n` throughout; slot numbers wrap around at `n`. */
module RobinTable {

  /** The one-byte `distance` field of a node. */
  type Distance = d: nat | d < 256

  /** The largest distance the insertion assertion lets through. */
  const MAX_DISTANCE: nat := 254

  datatype Node<V> = Node(key: nat, value: V, distance: Distance)

  /** The slot a key belongs in: the remainder of the key by the table size, written by repeated subtraction
      (`Bits.MaskIsRemainder` shows that masking with the size less one computes it). */
  function Home(key: nat, n: nat): (h: nat)
    requires n > 0
    ensures h < n
  {
    if key < n then key else Home(key - n, n)
  }

  lemma {:induction false} HomeIsRemainder(key: nat, n: nat, q: nat, r: nat)
    requires r < n && key == q * n + r
    ensures Home(key, n) == r
    decreases q
  {
    if q > 0 {
      assert q * n == (q - 1) * n + n;
      assert (q - 1) * n >= 0;
      HomeIsRemainder(key - n, n, q - 1, r);
    }
  }

  function Next(i: nat, n: nat): nat
    requires i < n
  {
    if i + 1 == n then 0 else i + 1
  }

  /** The slot `m` places before slot `i`. */
  function Back(i: nat, m: nat, n: nat): nat
    requires i < n && m <= n
  {
    if m <= i then i - m else i + n - m
  }

  /** The slot `m` places after slot `i`. */
  function Ahead(i: nat, m: nat, n: nat): nat
    requires i < n && m <= n
  {
    if i + m < n then i + m else i + m - n
  }

  /** How many forward steps lead from slot `a` to slot `b`. */
  function Steps(a: nat, b: nat, n: nat): nat
    requires a < n && b < n
  {
    if a <= b then b - a else b + n - a
  }

  predicate Occupied<V>(t: seq<Node<V>>, empty: nat, i: nat)
    requires i < |t|
  {
    t[i].key != empty
  }

  /** Slot `i` is free, or holds its key's true displacement and stands behind a neighbour that is at most
      one step closer to its own home. */
  ghost predicate PlacedAt<V>(t: seq<Node<V>>, empty: nat, i: nat)
    requires i < |t|
  {
    Occupied(t, empty, i) ==>
      && t[i].distance == Steps(Home(t[i].key, |t|), i, |t|) <= MAX_DISTANCE
      && (t[i].distance > 0 ==>
            var p := Back(i, 1, |t|);
            Occupied(t, empty, p) && t[p].distance + 1 >= t[i].distance)
  }

  /** The Robin Hood invariant, with no distance above what insertion allows. */
  ghost predicate Placed<V>(t: seq<Node<V>>, empty: nat) {
    forall i: nat {:trigger PlacedAt(t, empty, i)} :: i < |t| ==> PlacedAt(t, empty, i)
  }

  /** `slots` says where each key is. Slot `hole` is left out of account; no slot is when `hole == n`. */
  ghost predicate Indexed<V>(t: seq<Node<V>>, empty: nat, slots: map<nat, nat>, hole: nat) {
    && (forall k :: k in slots ==> slots[k] < |t| && slots[k] != hole && t[slots[k]].key == k && k != empty)
    && (forall i: nat {:trigger Occupied(t, empty, i)} :: i < |t| && i != hole && Occupied(t, empty, i) ==>
          t[i].key in slots && slots[t[i].key] == i)
  }

  ghost function ContentsOf<V>(t: seq<Node<V>>, slots: map<nat, nat>): map<nat, V>
    requires forall k :: k in slots ==> slots[k] < |t|
  {
    map k | k in slots :: t[slots[k]].value
  }

  // ---------------------------------------------------------------------------------------------
  // Looking behind an entry, and when a search may stop
  // ---------------------------------------------------------------------------------------------

  /** Behind an entry displaced by `d`, each of the `d` slots back to its home is taken, and distances fall
      by at most one per step. */
  lemma {:induction false} RunBehind<V>(t: seq<Node<V>>, empty: nat, i: nat, m: nat)
    requires Placed(t, empty) && i < |t| && Occupied(t, empty, i)
    requires m <= t[i].distance && m < |t|
    ensures Occupied(t, empty, Back(i, m, |t|)) && t[Back(i, m, |t|)].distance + m >= t[i].distance
  {
    if m > 0 {
      RunBehind(t, empty, i, m - 1);
      assert PlacedAt(t, empty, Back(i, m - 1, |t|));
    }
  }

  lemma DistanceBelowSize<V>(t: seq<Node<V>>, empty: nat, i: nat)
    requires Placed(t, empty) && i < |t| && Occupied(t, empty, i)
    ensures t[i].distance < |t| && Back(i, t[i].distance, |t|) == Home(t[i].key, |t|)
  {
    assert PlacedAt(t, empty, i);
  }

  /** A stored key that lies `dist` or more steps from its home has not been passed by a probe that took
      `dist` steps: either the probe stands on it, or it stands on a taken slot that is not poorer. So a probe
      that meets a free slot, or an entry closer to home than itself, knows that its key is absent. */
  lemma ProbeIsComplete<V>(t: seq<Node<V>>, empty: nat, slots: map<nat, nat>, hole: nat, key: nat, pos: nat)
    requires Placed(t, empty) && Indexed(t, empty, slots, hole) && pos < |t|
    requires key in slots && t[slots[key]].distance >= Steps(Home(key, |t|), pos, |t|)
    ensures Occupied(t, empty, pos)
    ensures t[pos].distance >= Steps(Home(key, |t|), pos, |t|)
    ensures t[pos].key != key ==> t[slots[key]].distance > Steps(Home(key, |t|), pos, |t|)
  {
    var j := slots[key];
    DistanceBelowSize(t, empty, j);
    RunBehind(t, empty, j, t[j].distance - Steps(Home(key, |t|), pos, |t|));
  }

  // ---------------------------------------------------------------------------------------------
  // What the writes of insertion and deletion keep
  // ---------------------------------------------------------------------------------------------

  /** The entry a probe carries may be put down in slot `pos`. */
  ghost predicate Carried<V>(t: seq<Node<V>>, empty: nat, key: nat, pos: nat, dist: nat) {
    && pos < |t| && key != empty && dist <= MAX_DISTANCE && dist == Steps(Home(key, |t|), pos, |t|)
    && (dist > 0 ==> Occupied(t, empty, Back(pos, 1, |t|)) && t[Back(pos, 1, |t|)].distance + 1 >= dist)
  }

  /** Putting the carried entry into a free slot, or over an entry closer to its home, keeps the invariant. */
  lemma PutKeepsPlaced<V>(t: seq<Node<V>>, empty: nat, key: nat, value: V, pos: nat, dist: nat)
    requires Placed(t, empty) && Carried(t, empty, key, pos, dist)
    requires Occupied(t, empty, pos) ==> t[pos].distance < dist
    ensures Placed(t[pos := Node(key, value, dist)], empty)
  {
    var u := t[pos := Node(key, value, dist)];
    forall i: nat | i < |u|
      ensures PlacedAt(u, empty, i)
    {
      assert PlacedAt(t, empty, i);
    }
  }

  /** The index once slot `pos` is left out of account. */
  function Without<V>(t: seq<Node<V>>, empty: nat, slots: map<nat, nat>, pos: nat): map<nat, nat>
    requires pos < |t|
  {
    if Occupied(t, empty, pos) then slots - {t[pos].key} else slots
  }

  lemma LiftKeepsIndex<V>(t: seq<Node<V>>, empty: nat, slots: map<nat, nat>, pos: nat)
    requires Indexed(t, empty, slots, |t|) && pos < |t|
    ensures Indexed(t, empty, Without(t, empty, slots, pos), pos)
    ensures |Without(t, empty, slots, pos)| == if Occupied(t, empty, pos) then |slots| - 1 else |slots|
  {
    if Occupied(t, empty, pos) {
      assert slots.Keys == Without(t, empty, slots, pos).Keys + {t[pos].key};
    }
  }

  lemma FillKeepsIndex<V>(t: seq<Node<V>>, empty: nat, slots: map<nat, nat>, node: Node<V>, pos: nat)
    requires pos < |t| && Indexed(t, empty, slots, pos) && node.key != empty && node.key !in slots
    ensures Indexed(t[pos := node], empty, slots[node.key := pos], |t|)
    ensures |slots[node.key := pos]| == |slots| + 1
  {
    var u, after := t[pos := node], slots[node.key := pos];
    assert after.Keys == slots.Keys + {node.key};
    forall i: nat | i < |u| && Occupied(u, empty, i)
      ensures u[i].key in after && after[u[i].key] == i
    {
      assert i != pos ==> Occupied(t, empty, i);
    }
  }

  /** Writing `node` into slot `pos` drops the key that was there from the index and adds the new one. */
  function Reslot<V>(t: seq<Node<V>>, empty: nat, slots: map<nat, nat>, key: nat, pos: nat): map<nat, nat>
    requires pos < |t|
  {
    Without(t, empty, slots, pos)[key := pos]
  }

  lemma PutKeepsIndex<V>(t: seq<Node<V>>, empty: nat, slots: map<nat, nat>, node: Node<V>, pos: nat)
    requires Indexed(t, empty, slots, |t|) && pos < |t| && node.key != empty && node.key !in slots
    ensures Indexed(t[pos := node], empty, Reslot(t, empty, slots, node.key, pos), |t|)
    ensures |Reslot(t, empty, slots, node.key, pos)| == if Occupied(t, empty, pos) then |slots| else |slots| + 1
  {
    LiftKeepsIndex(t, empty, slots, pos);
    FillKeepsIndex(t, empty, Without(t, empty, slots, pos), node, pos);
  }

  /** What the table and the carried entry hold together is the same before and after a swap. */
  lemma SwapKeepsContents<V>(t: seq<Node<V>>, empty: nat, slots: map<nat, nat>, node: Node<V>, pos: nat)
    requires Indexed(t, empty, slots, |t|) && pos < |t| && node.key != empty && node.key !in slots
    requires Occupied(t, empty, pos)
    ensures forall k :: k in Reslot(t, empty, slots, node.key, pos) ==> Reslot(t, empty, slots, node.key, pos)[k] < |t|
    ensures ContentsOf(t[pos := node], Reslot(t, empty, slots, node.key, pos))[t[pos].key := t[pos].value]
         == ContentsOf(t, slots)[node.key := node.value]
  {
    PutKeepsIndex(t, empty, slots, node, pos);
  }

  /** Overwriting the value of an entry changes nothing else. */
  lemma ValueKeepsPlaced<V>(t: seq<Node<V>>, empty: nat, slots: map<nat, nat>, pos: nat, value: V)
    requires Placed(t, empty) && Indexed(t, empty, slots, |t|) && pos < |t| && Occupied(t, empty, pos)
    ensures Placed(t[pos := t[pos].(value := value)], empty)
    ensures Indexed(t[pos := t[pos].(value := value)], empty, slots, |t|)
    ensures ContentsOf(t[pos := t[pos].(value := value)], slots) == ContentsOf(t, slots)[t[pos].key := value]
  {
    var u := t[pos := t[pos].(value := value)];
    forall i: nat | i < |u|
      ensures PlacedAt(u, empty, i) && (Occupied(u, empty, i) ==> u[i].key in slots && slots[u[i].key] == i)
    {
      assert PlacedAt(t, empty, i) && (Occupied(t, empty, i) ==> slots[t[i].key] == i);
    }
  }

  /** Backward shift: the entry in the next slot, if it is away from home, may move one slot back. */
  lemma ShiftKeepsPlaced<V>(t: seq<Node<V>>, empty: nat, pos: nat)
    requires Placed(t, empty) && pos < |t| && Occupied(t, empty, pos)
    requires Occupied(t, empty, Next(pos, |t|)) && t[Next(pos, |t|)].distance > 0
    ensures Placed(t[pos := t[Next(pos, |t|)].(distance := t[Next(pos, |t|)].distance - 1)], empty)
  {
    var next := Next(pos, |t|);
    var u := t[pos := t[next].(distance := t[next].distance - 1)];
    assert PlacedAt(t, empty, pos) && PlacedAt(t, empty, next);
    forall i: nat | i < |u|
      ensures PlacedAt(u, empty, i)
    {
      assert PlacedAt(t, empty, i);
    }
  }

  /** Freeing a slot keeps the invariant when the slot after it is free or holds an entry at home. */
  lemma FreeKeepsPlaced<V>(t: seq<Node<V>>, empty: nat, pos: nat)
    requires Placed(t, empty) && pos < |t|
    requires Occupied(t, empty, Next(pos, |t|)) ==> t[Next(pos, |t|)].distance == 0
    ensures Placed(t[pos := t[pos].(key := empty, distance := 0)], empty)
  {
    var u := t[pos := t[pos].(key := empty, distance := 0)];
    forall i: nat | i < |u|
      ensures PlacedAt(u, empty, i)
    {
      assert PlacedAt(t, empty, i);
    }
  }

  // ---------------------------------------------------------------------------------------------
  // The probe loop shared by lookup and deletion
  // ---------------------------------------------------------------------------------------------

  /** A probe for `key` has taken `dist` steps from home and has not passed the key. */
  ghost predicate Probing<V>(t: seq<Node<V>>, slots: map<nat, nat>, key: nat, pos: nat, dist: nat) {
    && pos < |t| && dist == Steps(Home(key, |t|), pos, |t|)
    && (key in slots ==> slots[key] < |t| && t[slots[key]].distance >= dist)
  }

  /** The early exit is complete: a free slot, or an entry closer to home, means the key is nowhere. */
  lemma ProbeStops<V>(t: seq<Node<V>>, empty: nat, slots: map<nat, nat>, key: nat, pos: nat, dist: nat)
    requires Placed(t, empty) && Indexed(t, empty, slots, |t|) && Probing(t, slots, key, pos, dist)
    requires !Occupied(t, empty, pos) || t[pos].distance < dist
    ensures key !in slots
  {
    if key in slots {
      ProbeIsComplete(t, empty, slots, |t|, key, pos);
    }
  }

  /** An occupied slot has fewer slots behind it, back to its home, than there are back to a free slot. */
  lemma DistanceBelowFree<V>(t: seq<Node<V>>, empty: nat, pos: nat, free: nat)
    requires Placed(t, empty) && pos < |t| && free < |t|
    requires Occupied(t, empty, pos) && !Occupied(t, empty, free)
    ensures t[pos].distance < Steps(free, pos, |t|)
  {
    if t[pos].distance >= Steps(free, pos, |t|) {
      RunBehind(t, empty, pos, Steps(free, pos, |t|));
    }
  }

  lemma ProbeGoesOn<V>(t: seq<Node<V>>, empty: nat, slots: map<nat, nat>, key: nat, pos: nat, dist: nat, free: nat)
    requires Placed(t, empty) && Indexed(t, empty, slots, |t|) && Probing(t, slots, key, pos, dist)
    requires Occupied(t, empty, pos) && t[pos].key != key && t[pos].distance >= dist
    requires free < |t| && !Occupied(t, empty, free)
    ensures Probing(t, slots, key, Next(pos, |t|), dist + 1) && dist + 1 < 256
    ensures Steps(Next(pos, |t|), free, |t|) < Steps(pos, free, |t|)
  {
    DistanceBelowFree(t, empty, pos, free);
    assert PlacedAt(t, empty, pos);
    if key in slots {
      ProbeIsComplete(t, empty, slots, |t|, key, pos);
    }
  }

  // ---------------------------------------------------------------------------------------------
  // The insertion loop
  // ---------------------------------------------------------------------------------------------

  /** The insertion loop's state: a sound table, and a carried entry at slot `pos` that together with the
      table makes up the `wanted` map. */
  ghost predicate Inserting<V>(t: seq<Node<V>>, empty: nat, slots: map<nat, nat>, node: Node<V>, pos: nat,
                               wanted: map<nat, V>)
  {
    && Placed(t, empty) && Indexed(t, empty, slots, |t|) && Carried(t, empty, node.key, pos, node.distance)
    && Probing(t, slots, node.key, pos, node.distance)
    && ContentsOf(t, slots)[node.key := node.value] == wanted
  }

  /** The table is sound and holds exactly the `wanted` map. */
  ghost predicate Holds<V>(t: seq<Node<V>>, empty: nat, slots: map<nat, nat>, wanted: map<nat, V>) {
    Placed(t, empty) && Indexed(t, empty, slots, |t|) && ContentsOf(t, slots) == wanted
  }

  lemma InsertInFree<V>(t: seq<Node<V>>, empty: nat, slots: map<nat, nat>, node: Node<V>, pos: nat,
                        wanted: map<nat, V>)
    requires Inserting(t, empty, slots, node, pos, wanted) && !Occupied(t, empty, pos)
    ensures Holds(t[pos := node], empty, slots[node.key := pos], wanted)
    ensures |slots[node.key := pos]| == |slots| + 1
  {
    ProbeStops(t, empty, slots, node.key, pos, node.distance);
    PutKeepsPlaced(t, empty, node.key, node.value, pos, node.distance);
    PutKeepsIndex(t, empty, slots, node, pos);
  }

  /** The key is met before any swap, so its value is overwritten in place. */
  lemma InsertOver<V>(t: seq<Node<V>>, empty: nat, slots: map<nat, nat>, node: Node<V>, pos: nat,
                      wanted: map<nat, V>)
    requires Inserting(t, empty, slots, node, pos, wanted) && t[pos].key == node.key
    ensures Holds(t[pos := t[pos].(value := node.value)], empty, slots, wanted)
  {
    assert Occupied(t, empty, pos);
    ValueKeepsPlaced(t, empty, slots, pos, node.value);
  }

  /** Swapping with an entry closer to its home. */
  lemma InsertSwaps<V>(t: seq<Node<V>>, empty: nat, slots: map<nat, nat>, node: Node<V>, pos: nat,
                       wanted: map<nat, V>)
    requires Inserting(t, empty, slots, node, pos, wanted)
    requires Occupied(t, empty, pos) && t[pos].distance < node.distance
    ensures Inserting(t[pos := node], empty, Reslot(t, empty, slots, node.key, pos), t[pos], pos, wanted)
    ensures t[pos].key !in Reslot(t, empty, slots, node.key, pos)
    ensures |Reslot(t, empty, slots, node.key, pos)| == |slots|
  {
    ProbeStops(t, empty, slots, node.key, pos, node.distance);
    PutKeepsPlaced(t, empty, node.key, node.value, pos, node.distance);
    PutKeepsIndex(t, empty, slots, node, pos);
    SwapKeepsContents(t, empty, slots, node, pos);
    assert PlacedAt(t, empty, pos);
  }

  lemma InsertGoesOn<V>(t: seq<Node<V>>, empty: nat, slots: map<nat, nat>, node: Node<V>, pos: nat,
                        wanted: map<nat, V>, free: nat)
    requires Inserting(t, empty, slots, node, pos, wanted)
    requires Occupied(t, empty, pos) && t[pos].distance >= node.distance && node.distance < MAX_DISTANCE
    requires t[pos].key != node.key
    requires free < |t| && !Occupied(t, empty, free)
    ensures Inserting(t, empty, slots, node.(distance := node.distance + 1), Next(pos, |t|), wanted)
    ensures Steps(Next(pos, |t|), free, |t|) < Steps(pos, free, |t|)
  {
    ProbeGoesOn(t, empty, slots, node.key, pos, node.distance, free);
  }

  // ---------------------------------------------------------------------------------------------
  // The deletion loop
  // ---------------------------------------------------------------------------------------------

  /** The backward-shift loop's state: a table that is sound even with the stale entry still in slot `hole`,
      and that holds exactly the `wanted` map when that slot is left out of account. */
  ghost predicate Erasing<V>(t: seq<Node<V>>, empty: nat, slots: map<nat, nat>, hole: nat, wanted: map<nat, V>) {
    && Placed(t, empty) && hole < |t| && Occupied(t, empty, hole)
    && Indexed(t, empty, slots, hole) && ContentsOf(t, slots) == wanted
  }

  lemma EraseStarts<V>(t: seq<Node<V>>, empty: nat, slots: map<nat, nat>, pos: nat)
    requires Placed(t, empty) && Indexed(t, empty, slots, |t|) && pos < |t| && Occupied(t, empty, pos)
    ensures Erasing(t, empty, slots - {t[pos].key}, pos, ContentsOf(t, slots) - {t[pos].key})
    ensures |slots - {t[pos].key}| == |slots| - 1 && t[pos].key in slots
  {
    LiftKeepsIndex(t, empty, slots, pos);
  }

  function Shifted<V>(t: seq<Node<V>>, pos: nat): seq<Node<V>>
    requires pos < |t| && t[Next(pos, |t|)].distance > 0
  {
    t[pos := t[Next(pos, |t|)].(distance := t[Next(pos, |t|)].distance - 1)]
  }

  lemma EraseShifts<V>(t: seq<Node<V>>, empty: nat, slots: map<nat, nat>, pos: nat, wanted: map<nat, V>, free: nat)
    requires Erasing(t, empty, slots, pos, wanted)
    requires Occupied(t, empty, Next(pos, |t|)) && t[Next(pos, |t|)].distance > 0
    requires free < |t| && !Occupied(t, empty, free)
    ensures Erasing(Shifted(t, pos), empty, slots[t[Next(pos, |t|)].key := pos], Next(pos, |t|), wanted)
    ensures |slots[t[Next(pos, |t|)].key := pos]| == |slots|
    ensures Steps(Next(pos, |t|), free, |t|) < Steps(pos, free, |t|)
  {
    var u, next := Shifted(t, pos), Next(pos, |t|);
    var after := slots[t[next].key := pos];
    ShiftKeepsPlaced(t, empty, pos);
    assert after.Keys == slots.Keys;
    forall i: nat | i < |u| && i != next && Occupied(u, empty, i)
      ensures u[i].key in after && after[u[i].key] == i
    {
      assert i != pos ==> Occupied(t, empty, i);
    }
  }

  lemma EraseEnds<V>(t: seq<Node<V>>, empty: nat, slots: map<nat, nat>, pos: nat, wanted: map<nat, V>)
    requires Erasing(t, empty, slots, pos, wanted)
    requires Occupied(t, empty, Next(pos, |t|)) ==> t[Next(pos, |t|)].distance == 0
    ensures Holds(t[pos := t[pos].(key := empty, distance := 0)], empty, slots, wanted)
  {
    var u := t[pos := t[pos].(key := empty, distance := 0)];
    FreeKeepsPlaced(t, empty, pos);
    forall i: nat | i < |u| && Occupied(u, empty, i)
      ensures u[i].key in slots && slots[u[i].key] == i
    {
      assert Occupied(t, empty, i);
    }
  }

  // ---------------------------------------------------------------------------------------------
  // Counting
  // ---------------------------------------------------------------------------------------------

  lemma {:induction false} DistinctCount(ks: seq<nat>, s: set<nat>)
    requires forall i :: 0 <= i < |ks| ==> ks[i] in s
    requires forall i, j :: 0 <= i < j < |ks| ==> ks[i] != ks[j]
    ensures |s| >= |ks|
  {
    if ks != [] {
      DistinctCount(ks[1..], s - {ks[0]});
    }
  }

  lemma {:induction false} InjectionBound(s: set<nat>, f: map<nat, nat>, bound: nat)
    requires forall k :: k in s ==> k in f && f[k] < bound
    requires forall k, l :: k in s && l in s && f[k] == f[l] ==> k == l
    ensures |s| <= bound
  {
    if k :| k in s && f[k] == bound - 1 {
      InjectionBound(s - {k}, f, bound - 1);
    } else if s != {} {
      InjectionBound(s, f, bound - 1);
    }
  }

  /** With fewer keys than slots, some slot is free. */
  lemma FreeSlotExists<V>(t: seq<Node<V>>, empty: nat, slots: map<nat, nat>) returns (e: nat)
    requires Indexed(t, empty, slots, |t|) && |slots| < |t|
    ensures e < |t| && !Occupied(t, empty, e)
  {
    assert |slots.Keys| == |slots|;
    e := 0;
    if i :| 0 <= i < |t| && !Occupied(t, empty, i) {
      e := i;
    } else {
      var ks := seq(|t|, i requires 0 <= i < |t| => t[i].key);
      forall i: nat | i < |ks|
        ensures ks[i] in slots && slots[ks[i]] == i
      {
        assert Occupied(t, empty, i);
      }
      DistinctCount(ks, slots.Keys);
      assert false;
    }
  }

  /** No entry lies further from home than there are other entries. */
  lemma DistanceBelowCount<V>(t: seq<Node<V>>, empty: nat, slots: map<nat, nat>, i: nat)
    requires Placed(t, empty) && Indexed(t, empty, slots, |t|) && i < |t| && Occupied(t, empty, i)
    ensures t[i].distance < |slots|
  {
    var d := t[i].distance;
    DistanceBelowSize(t, empty, i);
    var ks := seq(d + 1, m requires 0 <= m <= d => t[Back(i, m, |t|)].key);
    forall m: nat | m <= d
      ensures ks[m] in slots && slots[ks[m]] == Back(i, m, |t|)
    {
      RunBehind(t, empty, i, m);
    }
    assert forall m, k :: 0 <= m < k <= d ==> Back(i, m, |t|) != Back(i, k, |t|);
    forall m, k | 0 <= m < k <= d
      ensures ks[m] != ks[k]
    {
      assert slots[ks[m]] != slots[ks[k]];
    }
    DistinctCount(ks, slots.Keys);
    assert |slots.Keys| == |slots|;
  }
}
