/** The probe loops of the Robin Hood map as functions of the table, and what they achieve on a sound table.
    A loop ends at the latest at the free slot `free`; its result does not depend on which free slot is named. */
module RobinProbe {
  import opened Basics
  import opened RobinTable
  import opened RobinOverflow

  // ---------------------------------------------------------------------------------------------
  // Lookup
  // ---------------------------------------------------------------------------------------------

  /** The slot at which a probe for `key` finds it, if it does. */
  function Look<V>(t: seq<Node<V>>, empty: nat, key: nat, pos: nat, dist: nat, free: nat): (r: Option<nat>)
    requires pos < |t| && free < |t| && !Occupied(t, empty, free)
    ensures r.Some? ==> r.value < |t| && Occupied(t, empty, r.value) && t[r.value].key == key
    decreases Steps(pos, free, |t|)
  {
    if !Occupied(t, empty, pos) then None
    else if t[pos].key == key then Some(pos)
    else if t[pos].distance < dist then None
    else Look(t, empty, key, Next(pos, |t|), (dist + 1) % 256, free)
  }

  /** Lookup finds exactly the keys that are stored. */
  lemma {:induction false} LookFinds<V>(t: seq<Node<V>>, empty: nat, slots: map<nat, nat>, key: nat, pos: nat,
                                        dist: nat, free: nat)
    requires Placed(t, empty) && Indexed(t, empty, slots, |t|) && Probing(t, slots, key, pos, dist)
    requires free < |t| && !Occupied(t, empty, free)
    ensures Look(t, empty, key, pos, dist, free) == if key in slots then Some(slots[key]) else None
    decreases Steps(pos, free, |t|)
  {
    if !Occupied(t, empty, pos) || t[pos].distance < dist {
      ProbeStops(t, empty, slots, key, pos, dist);
    } else if t[pos].key != key {
      ProbeGoesOn(t, empty, slots, key, pos, dist, free);
      LookFinds(t, empty, slots, key, Next(pos, |t|), dist + 1, free);
    }
  }

  // ---------------------------------------------------------------------------------------------
  // Insertion
  // ---------------------------------------------------------------------------------------------

  /** The assertion on the step counter failed, or the entry was stored: in a slot that was free, or over an
      older value of the same key. */
  datatype Insertion<V> = AssertionFailed | Stored(table: seq<Node<V>>, isNew: bool)

  /** The table after the carried entry has met slot `pos`: it takes the slot if it is further from home. */
  function Settled<V>(t: seq<Node<V>>, node: Node<V>, pos: nat): seq<Node<V>>
    requires pos < |t|
  {
    if t[pos].distance < node.distance then t[pos := node] else t
  }

  /** The entry that is carried on from slot `pos`. */
  function CarriedOn<V>(t: seq<Node<V>>, node: Node<V>, pos: nat): Node<V>
    requires pos < |t|
  {
    if t[pos].distance < node.distance then t[pos] else node
  }

  /** Insertion with displacement, carrying `node` at slot `pos`. */
  function Place<V>(t: seq<Node<V>>, empty: nat, node: Node<V>, pos: nat, free: nat): Insertion<V>
    requires pos < |t| && free < |t| && !Occupied(t, empty, free)
    decreases Steps(pos, free, |t|)
  {
    if !Occupied(t, empty, pos) then
      Stored(t[pos := node], true)
    else if t[pos].key == node.key then
      Stored(t[pos := t[pos].(value := node.value)], false)
    else
      var carried := CarriedOn(t, node, pos);
      if carried.distance >= MAX_DISTANCE then AssertionFailed
      else Place(Settled(t, node, pos), empty, carried.(distance := carried.distance + 1), Next(pos, |t|), free)
  }

  lemma InsertMovesOn<V>(t: seq<Node<V>>, empty: nat, slots: map<nat, nat>, node: Node<V>, pos: nat,
                         wanted: map<nat, V>, free: nat)
    returns (index: map<nat, nat>)
    requires Inserting(t, empty, slots, node, pos, wanted)
    requires Occupied(t, empty, pos) && t[pos].key != node.key
    requires free < |t| && !Occupied(t, empty, free)
    requires CarriedOn(t, node, pos).distance < MAX_DISTANCE
    ensures var c := CarriedOn(t, node, pos);
            Inserting(Settled(t, node, pos), empty, index, c.(distance := c.distance + 1), Next(pos, |t|), wanted)
    ensures |index| == |slots| && !Occupied(Settled(t, node, pos), empty, free)
    ensures Steps(Next(pos, |t|), free, |t|) < Steps(pos, free, |t|)
  {
    index := slots;
    if t[pos].distance < node.distance {
      InsertSwaps(t, empty, slots, node, pos, wanted);
      index := Reslot(t, empty, slots, node.key, pos);
    }
    InsertGoesOn(Settled(t, node, pos), empty, index, CarriedOn(t, node, pos), pos, wanted, free);
  }

  lemma PlaceEnds<V>(t: seq<Node<V>>, empty: nat, slots: map<nat, nat>, node: Node<V>, pos: nat,
                     wanted: map<nat, V>, free: nat)
    returns (after: map<nat, nat>)
    requires Inserting(t, empty, slots, node, pos, wanted)
    requires !Occupied(t, empty, pos) || t[pos].key == node.key
    requires free < |t| && !Occupied(t, empty, free)
    ensures var r := Place(t, empty, node, pos, free);
            r.Stored? && Holds(r.table, empty, after, wanted) && |r.table| == |t|
            && |after| == if r.isNew then |slots| + 1 else |slots|
  {
    if !Occupied(t, empty, pos) {
      after := slots[node.key := pos];
      InsertInFree(t, empty, slots, node, pos, wanted);
    } else {
      after := slots;
      InsertOver(t, empty, slots, node, pos, wanted);
    }
  }

  /** Insertion that stores its entry stores the wanted map. */
  lemma {:induction false} PlaceStores<V>(t: seq<Node<V>>, empty: nat, slots: map<nat, nat>, node: Node<V>,
                                          pos: nat, wanted: map<nat, V>, free: nat)
    returns (after: map<nat, nat>)
    requires Inserting(t, empty, slots, node, pos, wanted)
    requires free < |t| && !Occupied(t, empty, free)
    requires Place(t, empty, node, pos, free).Stored?
    ensures var r := Place(t, empty, node, pos, free);
            Holds(r.table, empty, after, wanted) && |r.table| == |t|
            && |after| == if r.isNew then |slots| + 1 else |slots|
    decreases Steps(pos, free, |t|)
  {
    if !Occupied(t, empty, pos) || t[pos].key == node.key {
      after := PlaceEnds(t, empty, slots, node, pos, wanted, free);
    } else {
      var c := CarriedOn(t, node, pos);
      var index := InsertMovesOn(t, empty, slots, node, pos, wanted, free);
      after := PlaceStores(Settled(t, node, pos), empty, index, c.(distance := c.distance + 1), Next(pos, |t|),
                           wanted, free);
    }
  }

  /** Insertion that fails was asked for an overfull key set. */
  lemma {:induction false} PlaceFails<V>(t: seq<Node<V>>, empty: nat, slots: map<nat, nat>, node: Node<V>,
                                         pos: nat, wanted: map<nat, V>, free: nat)
    requires Inserting(t, empty, slots, node, pos, wanted) && |slots| < |t|
    requires free < |t| && !Occupied(t, empty, free)
    requires Place(t, empty, node, pos, free).AssertionFailed?
    ensures Overfull(wanted.Keys, |t|)
    decreases Steps(pos, free, |t|)
  {
    var c := CarriedOn(t, node, pos);
    if c.distance >= MAX_DISTANCE {
      InsertOverflows(t, empty, slots, node, pos, wanted);
    } else {
      var index := InsertMovesOn(t, empty, slots, node, pos, wanted, free);
      PlaceFails(Settled(t, node, pos), empty, index, c.(distance := c.distance + 1), Next(pos, |t|), wanted, free);
    }
  }

  /** Insertion of a key into a sound table stores the wanted map whenever the map's keys fit, and fails exactly
      when they do not. Only the key that marks free slots cannot be inserted: it is stored nowhere, and yet is
      counted as new. */
  lemma PlaceStoresIff<V>(t: seq<Node<V>>, empty: nat, slots: map<nat, nat>, key: nat, value: V, free: nat)
    returns (after: map<nat, nat>)
    requires Placed(t, empty) && Indexed(t, empty, slots, |t|) && |slots| < |t| - 1
    requires free < |t| && !Occupied(t, empty, free)
    ensures var r := Place(t, empty, Node(key, value, 0), Home(key, |t|), free);
            key == empty && r.Stored? ==> r.isNew && StoredKeys(r.table, empty) == slots.Keys
    ensures var wanted := ContentsOf(t, slots)[key := value];
            var r := Place(t, empty, Node(key, value, 0), Home(key, |t|), free);
            key != empty ==>
              && (r.AssertionFailed? <==> Overfull(wanted.Keys, |t|))
              && (r.Stored? ==> Holds(r.table, empty, after, wanted) && |r.table| == |t|
                                && |after| == if r.isNew then |slots| + 1 else |slots|)
  {
    after := map[];
    var wanted := ContentsOf(t, slots)[key := value];
    var node, home := Node(key, value, 0), Home(key, |t|);
    var r := Place(t, empty, node, home, free);
    if key == empty {
      IndexedKeys(t, empty, slots);
      PlaceKeepsKeys(t, empty, node, home, free);
    } else if r.Stored? {
      after := PlaceStores(t, empty, slots, node, home, wanted, free);
      HoldsFits(r.table, empty, after, wanted);
    } else {
      PlaceFails(t, empty, slots, node, home, wanted, free);
    }
  }

  /** The keys that stand in some slot. */
  ghost function StoredKeys<V>(t: seq<Node<V>>, empty: nat): set<nat> {
    set i | 0 <= i < |t| && Occupied(t, empty, i) :: t[i].key
  }

  ghost predicate NoKeyTwice<V>(t: seq<Node<V>>, empty: nat) {
    forall i: nat, j: nat {:trigger Occupied(t, empty, i), Occupied(t, empty, j)} ::
      i < j < |t| && Occupied(t, empty, i) && Occupied(t, empty, j) ==> t[i].key != t[j].key
  }

  lemma IndexedKeys<V>(t: seq<Node<V>>, empty: nat, slots: map<nat, nat>)
    requires Indexed(t, empty, slots, |t|)
    ensures StoredKeys(t, empty) == slots.Keys && NoKeyTwice(t, empty)
  {
    forall k | k in slots
      ensures k in StoredKeys(t, empty)
    {
      assert Occupied(t, empty, slots[k]);
    }
  }

  lemma KeysAfterWrite<V>(t: seq<Node<V>>, empty: nat, node: Node<V>, pos: nat)
    requires NoKeyTwice(t, empty) && pos < |t| && node.key !in StoredKeys(t, empty)
    ensures NoKeyTwice(t[pos := node], empty)
    ensures StoredKeys(t[pos := node], empty) == StoredKeys(t, empty) - {t[pos].key} + ({node.key} - {empty})
  {
    var u := t[pos := node];
    forall i: nat | i < |t| && i != pos
      ensures Occupied(u, empty, i) <==> Occupied(t, empty, i)
      ensures Occupied(t, empty, i) && Occupied(t, empty, pos) ==> t[i].key != t[pos].key
      ensures Occupied(t, empty, i) ==> t[i].key in StoredKeys(t, empty)
    {
    }
    assert Occupied(u, empty, pos) <==> node.key != empty;
    forall k | k in StoredKeys(t, empty) && k != t[pos].key
      ensures k in StoredKeys(u, empty)
    {
      var i :| 0 <= i < |t| && Occupied(t, empty, i) && t[i].key == k;
      assert Occupied(u, empty, i);
    }
  }

  /** Whatever the distances are, an insertion that ends keeps every stored key, and adds the carried one unless
      that is the mark of free slots. */
  lemma {:induction false} PlaceKeepsKeys<V>(t: seq<Node<V>>, empty: nat, node: Node<V>, pos: nat, free: nat)
    requires NoKeyTwice(t, empty) && node.key !in StoredKeys(t, empty)
    requires pos < |t| && free < |t| && !Occupied(t, empty, free)
    ensures var r := Place(t, empty, node, pos, free);
            r.Stored? ==> r.isNew && StoredKeys(r.table, empty) == StoredKeys(t, empty) + ({node.key} - {empty})
    decreases Steps(pos, free, |t|)
  {
    KeysAfterWrite(t, empty, node, pos);
    var c := CarriedOn(t, node, pos);
    if Occupied(t, empty, pos) && t[pos].key != node.key && c.distance < MAX_DISTANCE {
      PlaceKeepsKeys(Settled(t, node, pos), empty, c.(distance := c.distance + 1), Next(pos, |t|), free);
    }
  }

  // ---------------------------------------------------------------------------------------------
  // Deletion
  // ---------------------------------------------------------------------------------------------

  /** Closing the gap at slot `pos` by shifting back the entries behind it. */
  function CloseGap<V>(t: seq<Node<V>>, empty: nat, pos: nat, free: nat): seq<Node<V>>
    requires pos < |t| && free < |t| && Occupied(t, empty, pos) && !Occupied(t, empty, free)
    decreases Steps(pos, free, |t|)
  {
    var next := Next(pos, |t|);
    if Occupied(t, empty, next) && t[next].distance > 0 then
      CloseGap(Shifted(t, pos), empty, next, free)
    else
      t[pos := t[pos].(key := empty, distance := 0)]
  }

  lemma {:induction false} CloseGapErases<V>(t: seq<Node<V>>, empty: nat, slots: map<nat, nat>, pos: nat,
                                             wanted: map<nat, V>, free: nat)
    returns (after: map<nat, nat>)
    requires Erasing(t, empty, slots, pos, wanted)
    requires free < |t| && !Occupied(t, empty, free)
    ensures Holds(CloseGap(t, empty, pos, free), empty, after, wanted)
    ensures |CloseGap(t, empty, pos, free)| == |t| && |after| == |slots|
    decreases Steps(pos, free, |t|)
  {
    var next := Next(pos, |t|);
    if Occupied(t, empty, next) && t[next].distance > 0 {
      EraseShifts(t, empty, slots, pos, wanted, free);
      after := CloseGapErases(Shifted(t, pos), empty, slots[t[next].key := pos], next, wanted, free);
    } else {
      after := slots;
      EraseEnds(t, empty, slots, pos, wanted);
    }
  }

  /** Deletion removes exactly the requested key, whether or not it is there. */
  function Removed<V>(t: seq<Node<V>>, empty: nat, key: nat, free: nat): seq<Node<V>>
    requires free < |t| && !Occupied(t, empty, free)
  {
    match Look(t, empty, key, Home(key, |t|), 0, free)
    case None => t
    case Some(pos) => CloseGap(t, empty, pos, free)
  }

  lemma RemovedErases<V>(t: seq<Node<V>>, empty: nat, slots: map<nat, nat>, key: nat, free: nat)
    returns (after: map<nat, nat>)
    requires Placed(t, empty) && Indexed(t, empty, slots, |t|)
    requires free < |t| && !Occupied(t, empty, free)
    ensures Holds(Removed(t, empty, key, free), empty, after, ContentsOf(t, slots) - {key})
    ensures |Removed(t, empty, key, free)| == |t|
    ensures |after| == if key in slots then |slots| - 1 else |slots|
  {
    after := slots;
    LookFinds(t, empty, slots, key, Home(key, |t|), 0, free);
    if key in slots {
      EraseStarts(t, empty, slots, slots[key]);
      after := CloseGapErases(t, empty, slots - {key}, slots[key], ContentsOf(t, slots) - {key}, free);
    }
  }
}
