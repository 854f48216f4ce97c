/** What becomes of a table when the key that marks free slots is inserted. It is stored like any other key, and
    from then on its slot counts as free: a hole in the run, at which the lookup of a displaced key stops. */
module RobinMark {
  import opened Basics
  import opened RobinTable
  import opened RobinOverflow
  import opened RobinProbe

  // ---------------------------------------------------------------------------------------------
  // The result is the sound table with the mark as a key like any other, seen with its slot free
  // ---------------------------------------------------------------------------------------------

  /** A table whose free slots are marked by `other`, with `empty` as the mark instead. */
  function Remarked<V>(u: seq<Node<V>>, other: nat, empty: nat): (t: seq<Node<V>>)
    ensures |t| == |u|
  {
    seq(|u|, i requires 0 <= i < |u| => if u[i].key == other then u[i].(key := empty) else u[i])
  }

  /** Insertion does not depend on which key is the mark, as long as no slot ahead holds the new mark. */
  lemma {:induction false} PlaceRemarked<V>(u: seq<Node<V>>, other: nat, empty: nat, node: Node<V>, pos: nat, free: nat)
    requires pos < |u| && free < |u| && !Occupied(u, other, free) && other != empty && node.key != other
    requires forall m: nat {:trigger Ahead(pos, m, |u|)} :: m <= Steps(pos, free, |u|) ==>
               u[Ahead(pos, m, |u|)].key != empty
    ensures Place(Remarked(u, other, empty), empty, node, pos, free)
         == match Place(u, other, node, pos, free)
            case AssertionFailed => AssertionFailed
            case Stored(after, isNew) => Stored(Remarked(after, other, empty), isNew)
    decreases Steps(pos, free, |u|)
  {
    var n := |u|;
    assert Ahead(pos, 0, n) == pos;
    var t := Remarked(u, other, empty);
    if !Occupied(u, other, pos) {
      assert Remarked(u[pos := node], other, empty) == t[pos := node];
    } else if u[pos].key == node.key {
      var over := u[pos].(value := node.value);
      assert Remarked(u[pos := over], other, empty) == t[pos := over];
    } else {
      var c := CarriedOn(u, node, pos);
      var v := Settled(u, node, pos);
      assert Remarked(v, other, empty) == Settled(t, node, pos);
      if c.distance < MAX_DISTANCE {
        forall m: nat | m <= Steps(Next(pos, n), free, n)
          ensures v[Ahead(Next(pos, n), m, n)].key != empty
        {
          assert Ahead(Next(pos, n), m, n) == Ahead(pos, m + 1, n);
        }
        PlaceRemarked(v, other, empty, c.(distance := c.distance + 1), Next(pos, n), free);
      }
    }
  }

  lemma {:induction false} FreshKey(s: set<nat>) returns (bound: nat)
    ensures forall k :: k in s ==> k < bound
  {
    bound := 0;
    if s != {} {
      var k :| k in s;
      var rest := FreshKey(s - {k});
      bound := if k < rest then rest else k + 1;
      assert forall l :: l in s ==> l == k || l in s - {k};
    }
  }

  /** Inserting the mark is stopped exactly when the keys with the mark are overfull. Otherwise the table is the
      sound table `u` of the wanted map, whose free slots are marked by `other`, with the mark put back. */
  lemma MarkIsPlaced<V>(t: seq<Node<V>>, empty: nat, slots: map<nat, nat>, value: V, free: nat)
    returns (u: seq<Node<V>>, other: nat, after: map<nat, nat>)
    requires Placed(t, empty) && Indexed(t, empty, slots, |t|) && |slots| < |t| - 1
    requires free < |t| && !Occupied(t, empty, free)
    ensures var r := Place(t, empty, Node(empty, value, 0), Home(empty, |t|), free);
            && (r.AssertionFailed? <==> Overfull(slots.Keys + {empty}, |t|))
            && (r.Stored? ==> r.table == Remarked(u, other, empty)
                              && Holds(u, other, after, ContentsOf(t, slots)[empty := value]))
  {
    other := FreshKey(slots.Keys + {empty});
    var s := Remarked(t, empty, other);
    RemarkedIsSound(t, empty, other, slots);
    var node, home := Node(empty, value, 0), Home(empty, |t|);
    var r := Place(s, other, node, home, free);
    assert Place(t, empty, node, home, free)
        == match r case AssertionFailed => AssertionFailed
                   case Stored(u, isNew) => Stored(Remarked(u, other, empty), isNew) by {
      PlaceRemarked(s, other, empty, node, home, free);
    }
    assert (ContentsOf(s, slots)[empty := value]).Keys == slots.Keys + {empty};
    after := PlaceStoresIff(s, other, slots, empty, value, free);
    u := if r.Stored? then r.table else s;
  }

  lemma RemarkedIsSound<V>(t: seq<Node<V>>, empty: nat, other: nat, slots: map<nat, nat>)
    requires Placed(t, empty) && Indexed(t, empty, slots, |t|) && forall k :: k in slots ==> k < other
    requires empty < other
    ensures var s := Remarked(t, empty, other);
            && Placed(s, other) && Indexed(s, other, slots, |s|) && ContentsOf(s, slots) == ContentsOf(t, slots)
            && (forall i: nat :: i < |s| ==> s[i].key != empty && (Occupied(s, other, i) <==> Occupied(t, empty, i)))
            && Remarked(s, other, empty) == t
  {
    var s := Remarked(t, empty, other);
    forall i: nat | i < |s|
      ensures t[i].key != other && s[i].key != empty && (Occupied(s, other, i) <==> Occupied(t, empty, i))
    {
      assert Occupied(t, empty, i) ==> t[i].key in slots;
    }
    forall i: nat | i < |s|
      ensures PlacedAt(s, other, i)
    {
      assert PlacedAt(t, empty, i);
    }
  }

  // ---------------------------------------------------------------------------------------------
  // What lookups answer
  // ---------------------------------------------------------------------------------------------

  lemma {:induction false} LookSame<V>(t: seq<Node<V>>, empty: nat, key: nat, pos: nat, dist: nat, e: nat, f: nat)
    requires pos < |t| && e < |t| && f < |t| && !Occupied(t, empty, e) && !Occupied(t, empty, f)
    ensures Look(t, empty, key, pos, dist, e) == Look(t, empty, key, pos, dist, f)
    decreases Steps(pos, e, |t|)
  {
    if Occupied(t, empty, pos) && t[pos].key != key && t[pos].distance >= dist {
      LookSame(t, empty, key, Next(pos, |t|), (dist + 1) % 256, e, f);
    }
  }

  /** What a lookup in any table with a free slot answers, sound or not. */
  ghost function Sought<V>(t: seq<Node<V>>, empty: nat, key: nat): Option<V>
    requires HasFree(t, empty)
  {
    var free: nat :| free < |t| && !Occupied(t, empty, free);
    match Look(t, empty, key, Home(key, |t|), 0, free)
    case None => None
    case Some(i) => Some(t[i].value)
  }

  ghost predicate HasFree<V>(t: seq<Node<V>>, empty: nat) {
    exists i: nat :: i < |t| && !Occupied(t, empty, i)
  }

  lemma SoughtIsLook<V>(t: seq<Node<V>>, empty: nat, key: nat, free: nat)
    requires free < |t| && !Occupied(t, empty, free)
    ensures var r := Look(t, empty, key, Home(key, |t|), 0, free);
            Sought(t, empty, key) == if r.Some? then Some(t[r.value].value) else None
  {
    forall e: nat | e < |t| && !Occupied(t, empty, e)
      ensures Look(t, empty, key, Home(key, |t|), 0, e) == Look(t, empty, key, Home(key, |t|), 0, free)
    {
      LookSame(t, empty, key, Home(key, |t|), 0, e, free);
    }
  }

  /** In a sound table a lookup answers as the map does. */
  lemma SoughtIsContents<V>(t: seq<Node<V>>, empty: nat, slots: map<nat, nat>, key: nat)
    requires Placed(t, empty) && Indexed(t, empty, slots, |t|) && HasFree(t, empty)
    ensures Sought(t, empty, key) == if key in slots then Some(ContentsOf(t, slots)[key]) else None
  {
    var free: nat :| free < |t| && !Occupied(t, empty, free);
    SoughtIsLook(t, empty, key, free);
    LookFinds(t, empty, slots, key, Home(key, |t|), 0, free);
  }

  /** After the mark was inserted, a lookup answers as before or finds nothing. */
  ghost predicate NeverWrong<V>(t: seq<Node<V>>, empty: nat, m: map<nat, V>)
    requires HasFree(t, empty)
  {
    forall k :: Sought(t, empty, k).Some? ==> k in m && Sought(t, empty, k).value == m[k]
  }

  lemma MarkIsNeverWrong<V>(u: seq<Node<V>>, other: nat, empty: nat, after: map<nat, nat>, m: map<nat, V>, value: V)
    requires Holds(u, other, after, m[empty := value]) && empty !in m
    ensures HasFree(Remarked(u, other, empty), empty) && NeverWrong(Remarked(u, other, empty), empty, m)
  {
    var t := Remarked(u, other, empty);
    assert empty in ContentsOf(u, after);
    assert !Occupied(t, empty, after[empty]);
    forall k | Sought(t, empty, k).Some?
      ensures k in m && Sought(t, empty, k).value == m[k]
    {
      SoughtIsLook(t, empty, k, after[empty]);
      var i := Look(t, empty, k, Home(k, |t|), 0, after[empty]).value;
      assert Occupied(u, other, i);
      assert ContentsOf(u, after)[k] == u[i].value;
    }
  }

  // ---------------------------------------------------------------------------------------------
  // When every lookup survives
  // ---------------------------------------------------------------------------------------------

  /** A probe from slot `pos`, which has taken `dist` steps, meets `j` entries and is further from home than none
      of them. */
  ghost predicate Yielding<V>(t: seq<Node<V>>, empty: nat, pos: nat, dist: nat, j: nat) {
    && pos < |t| && j < |t|
    && forall i: nat {:trigger Ahead(pos, i, |t|)} :: i < j ==>
         Occupied(t, empty, Ahead(pos, i, |t|)) && t[Ahead(pos, i, |t|)].distance >= dist + i
  }

  /** A probe from slot `home` reaches a free slot without displacing an entry. */
  ghost predicate Unopposed<V>(t: seq<Node<V>>, empty: nat, home: nat)
    requires home < |t|
  {
    exists j: nat :: Yielding(t, empty, home, 0, j) && !Occupied(t, empty, Ahead(home, j, |t|))
  }

  /** How far a probe comes before it meets a free slot or an entry to displace. */
  lemma {:induction false} YieldsUpTo<V>(t: seq<Node<V>>, empty: nat, home: nat, j: nat, free: nat) returns (m: nat)
    requires free < |t| && !Occupied(t, empty, free) && Yielding(t, empty, home, 0, j)
    requires j <= Steps(home, free, |t|)
    ensures Yielding(t, empty, home, 0, m) && m <= Steps(home, free, |t|)
    ensures !Occupied(t, empty, Ahead(home, m, |t|)) || t[Ahead(home, m, |t|)].distance < m
    decreases Steps(home, free, |t|) - j
  {
    m := j;
    if Occupied(t, empty, Ahead(home, j, |t|)) && t[Ahead(home, j, |t|)].distance >= j {
      assert Ahead(home, Steps(home, free, |t|), |t|) == free;
      m := YieldsUpTo(t, empty, home, j + 1, free);
    }
  }

  /** The mark comes to lie in the free slot at the end of the probe, and nothing else changes. */
  lemma {:induction false} YieldingPlaces<V>(t: seq<Node<V>>, empty: nat, node: Node<V>, pos: nat, j: nat, free: nat)
    requires free < |t| && !Occupied(t, empty, free) && node.key == empty
    requires Yielding(t, empty, pos, node.distance, j) && !Occupied(t, empty, Ahead(pos, j, |t|))
    requires Place(t, empty, node, pos, free).Stored?
    ensures node.distance + j <= MAX_DISTANCE || j == 0
    ensures Place(t, empty, node, pos, free).table
         == t[Ahead(pos, j, |t|) := node.(distance := node.distance + j)]
    decreases j
  {
    var n := |t|;
    assert Ahead(pos, 0, n) == pos;
    if j > 0 {
      forall i: nat | i <= j - 1
        ensures Ahead(Next(pos, n), i, n) == Ahead(pos, i + 1, n)
      {
      }
      YieldingPlaces(t, empty, node.(distance := node.distance + 1), Next(pos, n), j - 1, free);
    }
  }

  /** The probe of insertion leaves the slots behind it alone. */
  lemma {:induction false} PlaceLeavesBehind<V>(t: seq<Node<V>>, empty: nat, node: Node<V>, pos: nat, free: nat, i: nat)
    requires pos < |t| && free < |t| && !Occupied(t, empty, free) && i < |t|
    requires Steps(pos, i, |t|) > Steps(pos, free, |t|) && Place(t, empty, node, pos, free).Stored?
    ensures |Place(t, empty, node, pos, free).table| == |t| && Place(t, empty, node, pos, free).table[i] == t[i]
    decreases Steps(pos, free, |t|)
  {
    if Occupied(t, empty, pos) && t[pos].key != node.key {
      var c := CarriedOn(t, node, pos);
      PlaceLeavesBehind(Settled(t, node, pos), empty, c.(distance := c.distance + 1), Next(pos, |t|), free, i);
    }
  }

  /** A lookup ends at the first free slot. */
  lemma {:induction false} LookStops<V>(t: seq<Node<V>>, empty: nat, key: nat, pos: nat, dist: nat, j: nat, free: nat)
    requires pos < |t| && free < |t| && !Occupied(t, empty, free)
    requires j < |t| && !Occupied(t, empty, Ahead(pos, j, |t|))
    requires forall i: nat {:trigger Ahead(pos, i, |t|)} :: i < j ==> t[Ahead(pos, i, |t|)].key != key
    ensures Look(t, empty, key, pos, dist, free) == None
    decreases j
  {
    var n := |t|;
    assert Ahead(pos, 0, n) == pos;
    if j > 0 {
      forall i: nat | i <= j - 1
        ensures Ahead(Next(pos, n), i, n) == Ahead(pos, i + 1, n)
      {
      }
      if Occupied(t, empty, pos) && t[pos].distance >= dist {
        LookStops(t, empty, key, Next(pos, n), (dist + 1) % 256, j - 1, free);
      }
    }
  }

  /** An entry that the mark displaces is lost: lookups of its key stop at the mark. */
  lemma OpposingKeyIsLost<V>(t: seq<Node<V>>, empty: nat, slots: map<nat, nat>, value: V, m: nat, free: nat)
    requires Placed(t, empty) && Indexed(t, empty, slots, |t|) && free < |t| && !Occupied(t, empty, free)
    requires Yielding(t, empty, Home(empty, |t|), 0, m) && m <= Steps(Home(empty, |t|), free, |t|)
    requires var p := Ahead(Home(empty, |t|), m, |t|); Occupied(t, empty, p) && t[p].distance < m
    requires Place(t, empty, Node(empty, value, 0), Home(empty, |t|), free).Stored?
    ensures var r := Place(t, empty, Node(empty, value, 0), Home(empty, |t|), free);
            && HasFree(r.table, empty)
            && Sought(r.table, empty, t[Ahead(Home(empty, |t|), m, |t|)].key) == None
  {
    var n, home := |t|, Home(empty, |t|);
    var p := Ahead(home, m, n);
    var after := Place(t, empty, Node(empty, value, 0), home, free).table;
    OpposedPlaces(t, empty, Node(empty, value, 0), home, m, free);
    DisplacedIsLost(t, after, empty, slots, home, m);
    SoughtIsLook(after, empty, t[p].key, p);
  }

  lemma DisplacedIsLost<V>(t: seq<Node<V>>, after: seq<Node<V>>, empty: nat, slots: map<nat, nat>, home: nat, m: nat)
    requires Placed(t, empty) && Indexed(t, empty, slots, |t|) && Yielding(t, empty, home, 0, m) && |after| == |t|
    requires var p := Ahead(home, m, |t|); Occupied(t, empty, p) && t[p].distance < m && !Occupied(after, empty, p)
    requires forall i: nat {:trigger Ahead(home, i, |t|)} :: i < m ==>
               after[Ahead(home, i, |t|)] == t[Ahead(home, i, |t|)]
    ensures var p := Ahead(home, m, |t|);
            Look(after, empty, t[p].key, Home(t[p].key, |t|), 0, p) == None
  {
    var n := |t|;
    var p := Ahead(home, m, n);
    var lost, d := t[p].key, t[p].distance;
    DistanceBelowSize(t, empty, p);
    assert Home(lost, n) == Ahead(home, m - d, n);
    forall i: nat | i < d
      ensures after[Ahead(Home(lost, n), i, n)].key != lost
    {
      AheadTwice(home, m - d, i, n);
      assert Occupied(t, empty, Ahead(home, m - d + i, n));
    }
    AheadTwice(home, m - d, d, n);
    LookStops(after, empty, lost, Home(lost, n), 0, d, p);
  }

  /** The mark takes the slot of the first entry that it displaces; the slots before stay as they were. */
  lemma {:induction false} OpposedPlaces<V>(t: seq<Node<V>>, empty: nat, node: Node<V>, pos: nat, m: nat, free: nat)
    requires free < |t| && !Occupied(t, empty, free) && node.key == empty
    requires Yielding(t, empty, pos, node.distance, m) && m <= Steps(pos, free, |t|)
    requires var p := Ahead(pos, m, |t|); Occupied(t, empty, p) && t[p].distance < node.distance + m
    requires Place(t, empty, node, pos, free).Stored?
    ensures var after := Place(t, empty, node, pos, free).table;
            && |after| == |t| && !Occupied(after, empty, Ahead(pos, m, |t|))
            && forall i: nat {:trigger Ahead(pos, i, |t|)} :: i < m ==>
                 after[Ahead(pos, i, |t|)] == t[Ahead(pos, i, |t|)]
    decreases m
  {
    var n, next := |t|, Next(pos, |t|);
    var c, u := CarriedOn(t, node, pos), Settled(t, node, pos);
    assert Ahead(pos, 0, n) == pos;
    assert Occupied(t, empty, pos) && c.distance < MAX_DISTANCE;
    var carried := c.(distance := c.distance + 1);
    PlaceLeavesBehind(u, empty, carried, next, free, pos);
    if m > 0 {
      forall i: nat | i <= m - 1
        ensures Ahead(next, i, n) == Ahead(pos, i + 1, n)
      {
      }
      OpposedPlaces(t, empty, carried, next, m - 1, free);
      forall i: nat | i < m
        ensures Place(t, empty, node, pos, free).table[Ahead(pos, i, n)] == t[Ahead(pos, i, n)]
      {
        if i > 0 {
          assert Ahead(next, i - 1, n) == Ahead(pos, i, n);
        }
      }
    }
  }

  /** Every stored key is still found exactly when the mark displaced no entry. */
  lemma KeysAreFoundIff<V>(t: seq<Node<V>>, empty: nat, slots: map<nat, nat>, value: V, free: nat)
    requires Placed(t, empty) && Indexed(t, empty, slots, |t|) && free < |t| && !Occupied(t, empty, free)
    requires Place(t, empty, Node(empty, value, 0), Home(empty, |t|), free).Stored?
    ensures var after := Place(t, empty, Node(empty, value, 0), Home(empty, |t|), free).table;
            && HasFree(after, empty)
            && ((forall k :: k in slots ==> Sought(after, empty, k).Some?) <==> Unopposed(t, empty, Home(empty, |t|)))
  {
    var home, node := Home(empty, |t|), Node(empty, value, 0);
    var m := YieldsUpTo(t, empty, home, 0, free);
    var p := Ahead(home, m, |t|);
    if Occupied(t, empty, p) {
      OpposingKeyIsLost(t, empty, slots, value, m, free);
      assert t[p].key in slots;
      assert !Unopposed(t, empty, home) by {
        OpposedIsNotUnopposed(t, empty, home, m);
      }
    } else {
      YieldingPlaces(t, empty, node, home, m, free);
      MarkInFreeSlot(t, empty, slots, node.(distance := m), p);
    }
  }

  lemma OpposedIsNotUnopposed<V>(t: seq<Node<V>>, empty: nat, home: nat, m: nat)
    requires Yielding(t, empty, home, 0, m)
    requires Occupied(t, empty, Ahead(home, m, |t|)) && t[Ahead(home, m, |t|)].distance < m
    ensures !Unopposed(t, empty, home)
  {
    if j: nat :| Yielding(t, empty, home, 0, j) && !Occupied(t, empty, Ahead(home, j, |t|)) {
      assert false;
    }
  }

  /** The mark in a free slot changes no lookup. */
  lemma MarkInFreeSlot<V>(t: seq<Node<V>>, empty: nat, slots: map<nat, nat>, node: Node<V>, p: nat)
    requires Placed(t, empty) && Indexed(t, empty, slots, |t|) && p < |t| && !Occupied(t, empty, p)
    requires node.key == empty
    ensures HasFree(t[p := node], empty) && forall k :: k in slots ==> Sought(t[p := node], empty, k).Some?
  {
    var u := t[p := node];
    forall i: nat | i < |u|
      ensures PlacedAt(u, empty, i)
      ensures Occupied(u, empty, i) <==> Occupied(t, empty, i)
    {
      assert PlacedAt(t, empty, i);
    }
    assert !Occupied(u, empty, p);
    forall k | k in slots
      ensures Sought(u, empty, k).Some?
    {
      SoughtIsContents(u, empty, slots, k);
    }
  }

  // ---------------------------------------------------------------------------------------------
  // When the mark displaces no entry, in terms of the keys alone
  // ---------------------------------------------------------------------------------------------

  /** The `j` slots behind `home` are the homes of no key, and no arc of `len` slots that ends at `home` is the
      home of `len + j` keys or more. */
  ghost predicate Gap(keys: set<nat>, n: nat, home: nat, j: nat)
    requires home < n
  {
    && HomesIn(keys, n, Next(home, n), j) == {}
    && forall a: nat :: a < n ==> |HomesIn(keys, n, a, Steps(a, home, n) + 1)| <= Steps(a, home, n) + j
  }

  /** A probe from `home` displaces no entry, in whatever order the keys arrived. */
  ghost predicate Harmless(keys: set<nat>, n: nat, home: nat)
    requires home < n
  {
    exists j: nat :: j < n && Gap(keys, n, home, j)
  }

  /** Keys on each side: in a table of 8 slots marked by 15, inserting the mark loses one of the keys 0, 7 and 23,
      and neither of the keys 7 and 23 if they are alone. */
  lemma MarkCanLoseAKey()
    ensures Home(15, 8) == 7 && !Harmless({0, 7, 23}, 8, 7) && Harmless({7, 23}, 8, 7)
  {
    assert Home(23, 8) == 7 && Home(7, 8) == 7 && Home(0, 8) == 0;
    assert HomesIn({0, 7, 23}, 8, 7, 1) == {7, 23};
    forall j: nat | j < 8
      ensures !Gap({0, 7, 23}, 8, 7, j)
    {
      if j == 0 {
        assert |HomesIn({0, 7, 23}, 8, 7, Steps(7, 7, 8) + 1)| == 2;
      } else {
        assert 0 in HomesIn({0, 7, 23}, 8, Next(7, 8), j);
      }
    }
    assert HomesIn({7, 23}, 8, Next(7, 8), 2) == {};
    forall a: nat | a < 8
      ensures |HomesIn({7, 23}, 8, a, Steps(a, 7, 8) + 1)| <= Steps(a, 7, 8) + 2
    {
      SubsetSize(HomesIn({7, 23}, 8, a, Steps(a, 7, 8) + 1), {7, 23});
    }
    assert Gap({7, 23}, 8, 7, 2);
  }

  lemma UnopposedIff<V>(t: seq<Node<V>>, empty: nat, slots: map<nat, nat>, home: nat)
    requires Placed(t, empty) && Indexed(t, empty, slots, |t|) && |slots| < |t| && home < |t|
    ensures Unopposed(t, empty, home) <==> Harmless(slots.Keys, |t|, home)
  {
    if j: nat :| Yielding(t, empty, home, 0, j) && !Occupied(t, empty, Ahead(home, j, |t|)) {
      NoHomeBehind(t, empty, slots, home, j);
      forall a: nat | a < |t|
        ensures |HomesIn(slots.Keys, |t|, a, Steps(a, home, |t|) + 1)| <= Steps(a, home, |t|) + j
      {
        ArcHasRoom(t, empty, slots, home, j, a);
      }
      assert Gap(slots.Keys, |t|, home, j);
    }
    if j: nat :| j < |t| && Gap(slots.Keys, |t|, home, j) {
      var free := FreeSlotExists(t, empty, slots);
      var m := YieldsUpTo(t, empty, home, 0, free);
      if Occupied(t, empty, Ahead(home, m, |t|)) {
        GapIsUnopposed(t, empty, slots, home, j, m, free);
        assert false;
      }
    }
  }

  /** An entry whose home is at most `j` slots behind `home` would be displaced. */
  lemma NoHomeBehind<V>(t: seq<Node<V>>, empty: nat, slots: map<nat, nat>, home: nat, j: nat)
    requires Placed(t, empty) && Indexed(t, empty, slots, |t|) && home < |t|
    requires Yielding(t, empty, home, 0, j) && !Occupied(t, empty, Ahead(home, j, |t|))
    ensures HomesIn(slots.Keys, |t|, Next(home, |t|), j) == {}
  {
    var n := |t|;
    forall k | k in slots
      ensures Steps(Next(home, n), Home(k, n), n) >= j
    {
      var i := Steps(Next(home, n), Home(k, n), n) + 1;
      if i <= j {
        assert Ahead(home, i, n) == Home(k, n);
        var d := StaysBefore(t, empty, slots, k, Ahead(home, j, n));
        assert Steps(Home(k, n), Ahead(home, j, n), n) == j - i;
        AheadTwice(home, i, d, n);
        assert false;
      }
    }
  }

  /** A key sits between its home and the next free slot. */
  lemma StaysBefore<V>(t: seq<Node<V>>, empty: nat, slots: map<nat, nat>, key: nat, free: nat) returns (d: nat)
    requires Placed(t, empty) && Indexed(t, empty, slots, |t|) && key in slots
    requires free < |t| && !Occupied(t, empty, free)
    ensures d < Steps(Home(key, |t|), free, |t|) && t[slots[key]].distance == d
    ensures slots[key] == Ahead(Home(key, |t|), d, |t|)
  {
    var i := slots[key];
    assert Occupied(t, empty, i);
    d := t[i].distance;
    DistanceBelowSize(t, empty, i);
    var gap := Steps(Home(key, |t|), free, |t|);
    if d >= gap {
      RunBehind(t, empty, i, d - gap);
      assert false;
    }
  }

  /** The keys with homes on an arc ending at `home` sit between its start and the free slot. */
  lemma ArcHasRoom<V>(t: seq<Node<V>>, empty: nat, slots: map<nat, nat>, home: nat, j: nat, a: nat)
    requires Placed(t, empty) && Indexed(t, empty, slots, |t|) && |slots| < |t| && home < |t| && a < |t|
    requires j < |t| && !Occupied(t, empty, Ahead(home, j, |t|))
    ensures |HomesIn(slots.Keys, |t|, a, Steps(a, home, |t|) + 1)| <= Steps(a, home, |t|) + j
  {
    var n := |t|;
    var s, bound := HomesIn(slots.Keys, n, a, Steps(a, home, n) + 1), Steps(a, home, n) + j;
    if bound >= n {
      SubsetSize(s, slots.Keys);
      assert |slots.Keys| == |slots|;
    } else {
      var f := map k | k in s :: Steps(a, slots[k], n);
      forall k | k in s
        ensures f[k] < bound
      {
        var d := StaysBefore(t, empty, slots, k, Ahead(home, j, n));
        StepsAdd(a, Home(k, n), home, j, d, n);
      }
      forall k, l | k in s && l in s && f[k] == f[l]
        ensures k == l
      {
        assert slots[k] == slots[l];
      }
      InjectionBound(s, f, bound);
    }
  }

  lemma StepsAdd(a: nat, x: nat, home: nat, j: nat, d: nat, n: nat)
    requires a < n && x < n && home < n && Steps(a, x, n) <= Steps(a, home, n) && Steps(a, home, n) + j < n
    requires d < Steps(x, Ahead(home, j, n), n)
    ensures Steps(a, Ahead(x, d, n), n) < Steps(a, home, n) + j
  {
  }

  /** A gap leaves no entry to displace: it would have its home behind the gap, so that all slots up to the end
      of the gap would be taken, by too many keys from before. */
  lemma GapIsUnopposed<V>(t: seq<Node<V>>, empty: nat, slots: map<nat, nat>, home: nat, j: nat, m: nat, free: nat)
    requires Placed(t, empty) && Indexed(t, empty, slots, |t|) && home < |t| && j < |t|
    requires free < |t| && !Occupied(t, empty, free) && m <= Steps(home, free, |t|)
    requires Yielding(t, empty, home, 0, m) && Occupied(t, empty, Ahead(home, m, |t|))
    requires t[Ahead(home, m, |t|)].distance < m
    ensures !Gap(slots.Keys, |t|, home, j)
  {
    var n := |t|;
    var p := Ahead(home, m, n);
    var d := t[p].distance;
    DistanceBelowSize(t, empty, p);
    if j < m - d {
      GapIsCrowded(t, empty, slots, home, j, m, free);
    } else {
      assert Home(t[p].key, n) == Ahead(home, m - d, n);
      assert t[p].key in HomesIn(slots.Keys, n, Next(home, n), j);
    }
  }

  lemma GapIsCrowded<V>(t: seq<Node<V>>, empty: nat, slots: map<nat, nat>, home: nat, j: nat, m: nat, free: nat)
    requires Placed(t, empty) && Indexed(t, empty, slots, |t|) && home < |t| && j < m
    requires free < |t| && !Occupied(t, empty, free) && m <= Steps(home, free, |t|)
    requires Yielding(t, empty, home, 0, m)
    ensures exists a: nat :: a < |t| && |HomesIn(slots.Keys, |t|, a, Steps(a, home, |t|) + 1)| > Steps(a, home, |t|) + j
  {
    var n := |t|;
    var h := Steps(free, home, n);
    assert h + j < n;
    forall x: nat | h <= x <= h + j
      ensures Occupied(t, empty, Ahead(free, x, n)) && t[Ahead(free, x, n)].distance >= x - h
    {
      assert Ahead(free, x, n) == Ahead(home, x - h, n);
    }
    var s := RunStart(t, empty, free, h + j);
    if s > h {
      assert false;
    }
    var a := Ahead(free, s, n);
    StepsFromAhead(free, s, home, n);
    var stored := HomesIn(slots.Keys, n, a, h - s + 1);
    forall i: nat | i <= h + j - s
      ensures Occupied(t, empty, Ahead(a, i, n)) && t[Ahead(a, i, n)].key in stored
    {
      AheadTwice(free, s, i, n);
      HomeInRun(t, empty, free, s, h, s + i);
    }
    SlotsCount(t, empty, slots, a, h + j - s + 1, stored);
  }

  /** The home of an entry, counted from a free slot. */
  lemma HomeInRun<V>(t: seq<Node<V>>, empty: nat, free: nat, s: nat, h: nat, x: nat)
    requires Placed(t, empty) && free < |t| && s <= h && s <= x < |t| && Occupied(t, empty, Ahead(free, x, |t|))
    requires t[Ahead(free, x, |t|)].distance <= x - s
    requires x >= h ==> t[Ahead(free, x, |t|)].distance >= x - h
    ensures Steps(Ahead(free, s, |t|), Home(t[Ahead(free, x, |t|)].key, |t|), |t|) <= h - s
  {
    var i := Ahead(free, x, |t|);
    DistanceBelowSize(t, empty, i);
    assert Home(t[i].key, |t|) == Ahead(free, x - t[i].distance, |t|);
    StepsFromAhead(free, s, Home(t[i].key, |t|), |t|);
  }

  // ---------------------------------------------------------------------------------------------
  // All together
  // ---------------------------------------------------------------------------------------------

  /** Inserting the mark into a sound table is stopped exactly when the keys with it are overfull. Otherwise it
      counts as new and keeps the stored keys in their places or moves them on. A lookup then answers as before
      or finds nothing, and the latter happens to no stored key exactly when the insertion was harmless. */
  lemma MarkInsertedIff<V>(t: seq<Node<V>>, empty: nat, slots: map<nat, nat>, value: V, free: nat)
    requires Placed(t, empty) && Indexed(t, empty, slots, |t|) && |slots| < |t| - 1
    requires free < |t| && !Occupied(t, empty, free)
    ensures var r := Place(t, empty, Node(empty, value, 0), Home(empty, |t|), free);
            && (r.AssertionFailed? <==> Overfull(slots.Keys + {empty}, |t|))
            && (r.Stored? ==> r.isNew && LeftByMark(r.table, empty, ContentsOf(t, slots)))
  {
    var u, other, after := MarkIsPlaced(t, empty, slots, value, free);
    var r := Place(t, empty, Node(empty, value, 0), Home(empty, |t|), free);
    if r.Stored? {
      assert r.isNew && StoredKeys(r.table, empty) == slots.Keys by {
        var _ := PlaceStoresIff(t, empty, slots, empty, value, free);
      }
      MarkIsNeverWrong(u, other, empty, after, ContentsOf(t, slots), value);
      MarkIsHarmlessIff(t, empty, slots, value, free);
    }
  }

  lemma MarkIsHarmlessIff<V>(t: seq<Node<V>>, empty: nat, slots: map<nat, nat>, value: V, free: nat)
    requires Placed(t, empty) && Indexed(t, empty, slots, |t|) && |slots| < |t|
    requires free < |t| && !Occupied(t, empty, free)
    requires Place(t, empty, Node(empty, value, 0), Home(empty, |t|), free).Stored?
    ensures var after := Place(t, empty, Node(empty, value, 0), Home(empty, |t|), free).table;
            && |after| == |t| && HasFree(after, empty)
            && ((forall k :: k in ContentsOf(t, slots) ==> Sought(after, empty, k).Some?)
                <==> Harmless(ContentsOf(t, slots).Keys, |t|, Home(empty, |t|)))
  {
    KeysAreFoundIff(t, empty, slots, value, free);
    UnopposedIff(t, empty, slots, Home(empty, |t|));
    PlaceKeepsLength(t, empty, Node(empty, value, 0), Home(empty, |t|), free);
    assert ContentsOf(t, slots).Keys == slots.Keys;
  }

  lemma {:induction false} PlaceKeepsLength<V>(t: seq<Node<V>>, empty: nat, node: Node<V>, pos: nat, free: nat)
    requires pos < |t| && free < |t| && !Occupied(t, empty, free) && Place(t, empty, node, pos, free).Stored?
    ensures |Place(t, empty, node, pos, free).table| == |t|
    decreases Steps(pos, free, |t|)
  {
    if Occupied(t, empty, pos) && t[pos].key != node.key {
      var c := CarriedOn(t, node, pos);
      PlaceKeepsLength(Settled(t, node, pos), empty, c.(distance := c.distance + 1), Next(pos, |t|), free);
    }
  }

  /** The table is one that inserting the mark into a table of the map `m` leaves behind. */
  ghost predicate LeftByMark<V>(t: seq<Node<V>>, empty: nat, m: map<nat, V>) {
    && HasFree(t, empty) && StoredKeys(t, empty) == m.Keys && NeverWrong(t, empty, m)
    && ((forall k :: k in m ==> Sought(t, empty, k).Some?) <==> Harmless(m.Keys, |t|, Home(empty, |t|)))
  }
}
