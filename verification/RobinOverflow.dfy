/** Exactly which key sets a table of a given size cannot hold with one-byte distances. The answer does not
    depend on the order in which the keys arrived. */
module RobinOverflow {
  import opened Basics
  import opened RobinTable

  /** The keys whose home is one of the `len` slots starting at slot `a`. */
  function HomesIn(keys: set<nat>, n: nat, a: nat, len: nat): set<nat>
    requires a < n
  {
    set k | k in keys && Steps(a, Home(k, n), n) < len
  }

  /** Some arc of `len` slots is the home of at least `len + 255` keys. */
  ghost predicate Overfull(keys: set<nat>, n: nat)
    requires n > 0
  {
    exists a: nat, len: nat :: a < n && |HomesIn(keys, n, a, len)| > len + MAX_DISTANCE
  }

  lemma OverfullIsMonotone(keys: set<nat>, more: set<nat>, n: nat)
    requires n > 0 && keys <= more && Overfull(keys, n)
    ensures Overfull(more, n)
  {
    var a: nat, len: nat :| a < n && |HomesIn(keys, n, a, len)| > len + MAX_DISTANCE;
    SubsetSize(HomesIn(keys, n, a, len), HomesIn(more, n, a, len));
  }

  /** No set of at most 255 keys is overfull, whatever the keys are. */
  lemma FewKeysFit(keys: set<nat>, n: nat)
    requires n > 0 && |keys| <= MAX_DISTANCE + 1
    ensures !Overfull(keys, n)
  {
    forall a: nat, len: nat | a < n
      ensures |HomesIn(keys, n, a, len)| <= len + MAX_DISTANCE
    {
      assert len == 0 ==> HomesIn(keys, n, a, len) == {};
      SubsetSize(HomesIn(keys, n, a, len), keys);
    }
  }

  /** More than 255 keys with one and the same home are overfull. */
  lemma SameHomeOverflows(keys: set<nat>, n: nat, home: nat)
    requires home < n && |keys| > MAX_DISTANCE + 1
    requires forall k :: k in keys ==> Home(k, n) == home
    ensures Overfull(keys, n)
  {
    assert keys == HomesIn(keys, n, home, 1);
  }

  function MultiplesOf512(m: nat): set<nat> {
    set i: nat | i < m :: 512 * i
  }

  lemma {:induction false} MultiplesCount(m: nat)
    ensures |MultiplesOf512(m)| == m
  {
    if m > 0 {
      MultiplesCount(m - 1);
      assert MultiplesOf512(m) == MultiplesOf512(m - 1) + {512 * (m - 1)};
    }
  }

  lemma {:induction false} MultipleIsAtHomeZero(i: nat)
    ensures Home(512 * i, 512) == 0
  {
    if i > 0 {
      MultipleIsAtHomeZero(i - 1);
    }
  }

  /** A concrete failing input: the first 256 multiples of 512 are too many for a table of 512 slots, whose
      load limit would admit 358 keys. The first 255 of them fit. */
  lemma MultiplesOverflow()
    ensures Overfull(MultiplesOf512(256), 512)
    ensures !Overfull(MultiplesOf512(255), 512)
  {
    MultiplesCount(256);
    MultiplesCount(255);
    forall k | k in MultiplesOf512(256)
      ensures Home(k, 512) == 0
    {
      var i: nat :| i < 256 && k == 512 * i;
      MultipleIsAtHomeZero(i);
    }
    SameHomeOverflows(MultiplesOf512(256), 512, 0);
    FewKeysFit(MultiplesOf512(255), 512);
  }

  /** A table in which every distance fits holds no overfull key set: its keys sit in distinct slots, each
      within 254 steps of home. */
  lemma PlacedFits<V>(t: seq<Node<V>>, empty: nat, slots: map<nat, nat>)
    requires Placed(t, empty) && Indexed(t, empty, slots, |t|) && |slots| < |t|
    ensures !Overfull(slots.Keys, |t|)
  {
    var n := |t|;
    forall a: nat, len: nat | a < n
      ensures |HomesIn(slots.Keys, n, a, len)| <= len + MAX_DISTANCE
    {
      var s := HomesIn(slots.Keys, n, a, len);
      if len + MAX_DISTANCE >= n {
        SubsetSize(s, slots.Keys);
        assert |slots.Keys| == |slots|;
      } else {
        var f := map k | k in s :: Steps(a, slots[k], n);
        forall k | k in s
          ensures f[k] < len + MAX_DISTANCE
        {
          assert PlacedAt(t, empty, slots[k]);
        }
        forall k, l | k in s && l in s && f[k] == f[l]
          ensures k == l
        {
          assert slots[k] == slots[l];
        }
        InjectionBound(s, f, len + MAX_DISTANCE);
      }
    }
  }

  /** The slot at which the unbroken run through slot `x` starts: an entry at home, after which no entry of
      the run has a home before it. Positions are counted from a free slot `e`. */
  lemma {:induction false} RunStart<V>(t: seq<Node<V>>, empty: nat, e: nat, x: nat) returns (s: nat)
    requires Placed(t, empty) && e < |t| && !Occupied(t, empty, e)
    requires x < |t| && Occupied(t, empty, Ahead(e, x, |t|))
    ensures s <= x && Occupied(t, empty, Ahead(e, s, |t|)) && t[Ahead(e, s, |t|)].distance == 0
    ensures forall j: nat {:trigger Ahead(e, j, |t|)} :: s <= j <= x ==>
              Occupied(t, empty, Ahead(e, j, |t|)) && t[Ahead(e, j, |t|)].distance <= j - s
    decreases x
  {
    var i := Ahead(e, x, |t|);
    assert PlacedAt(t, empty, i);
    if t[i].distance == 0 {
      s := x;
    } else {
      assert x > 0;
      assert Back(i, 1, |t|) == Ahead(e, x - 1, |t|);
      s := RunStart(t, empty, e, x - 1);
    }
  }

  /** When a carried key would reach distance 255, the keys of the table and the carried key are overfull. */
  lemma OverflowIsOverfull<V>(t: seq<Node<V>>, empty: nat, slots: map<nat, nat>, key: nat, pos: nat)
    requires Placed(t, empty) && Indexed(t, empty, slots, |t|) && |slots| < |t|
    requires key !in slots && pos < |t| && Steps(Home(key, |t|), pos, |t|) == MAX_DISTANCE
    requires Occupied(t, empty, pos) && t[pos].distance >= MAX_DISTANCE
    ensures Overfull(slots.Keys + {key}, |t|)
  {
    var n := |t|;
    var e := FreeSlotExists(t, empty, slots);
    var q, h := Steps(e, pos, n), Steps(e, Home(key, n), n);
    assert Ahead(e, q, n) == pos;
    assert h + MAX_DISTANCE == q by {
      DistanceBelowSize(t, empty, pos);
      if q < MAX_DISTANCE {
        RunBehind(t, empty, pos, q);
      }
    }
    var s := RunStart(t, empty, e, q);
    ArcIsCrowded(t, empty, slots, e, s, q);
    CrowdedIsOverfull(slots.Keys, key, n, e, s, q);
  }

  lemma CrowdedIsOverfull(keys: set<nat>, key: nat, n: nat, e: nat, s: nat, q: nat)
    requires key !in keys && e < n && s + MAX_DISTANCE <= q < n && Steps(e, Home(key, n), n) + MAX_DISTANCE == q
    requires |HomesIn(keys, n, Ahead(e, s, n), q - MAX_DISTANCE - s + 1)| >= q - s + 1
    ensures Overfull(keys + {key}, n)
  {
    StepsFromAhead(e, s, Home(key, n), n);
    var a, len := Ahead(e, s, n), q - MAX_DISTANCE - s + 1;
    assert HomesIn(keys + {key}, n, a, len) == HomesIn(keys, n, a, len) + {key};
  }

  /** The run from slot `s` to slot `q`, where an entry is 254 steps or more from home: all its entries have
      their homes at least 254 slots before `q`. */
  lemma ArcIsCrowded<V>(t: seq<Node<V>>, empty: nat, slots: map<nat, nat>, e: nat, s: nat, q: nat)
    requires Placed(t, empty) && Indexed(t, empty, slots, |t|) && e < |t| && !Occupied(t, empty, e)
    requires s + MAX_DISTANCE <= q < |t|
    requires Occupied(t, empty, Ahead(e, q, |t|)) && t[Ahead(e, q, |t|)].distance >= MAX_DISTANCE
    requires forall j: nat {:trigger Ahead(e, j, |t|)} :: s <= j <= q ==>
               Occupied(t, empty, Ahead(e, j, |t|)) && t[Ahead(e, j, |t|)].distance <= j - s
    ensures |HomesIn(slots.Keys, |t|, Ahead(e, s, |t|), q - MAX_DISTANCE - s + 1)| >= q - s + 1
  {
    var n := |t|;
    var a := Ahead(e, s, n);
    var stored := HomesIn(slots.Keys, n, a, q - MAX_DISTANCE - s + 1);
    forall j: nat | j <= q - s
      ensures Occupied(t, empty, Ahead(a, j, n)) && t[Ahead(a, j, n)].key in stored
    {
      AheadTwice(e, s, j, n);
      HomeInArc(t, empty, slots, e, s, q, s + j);
    }
    SlotsCount(t, empty, slots, a, q - s + 1, stored);
  }

  lemma AheadTwice(e: nat, s: nat, j: nat, n: nat)
    requires e < n && s + j < n
    ensures Ahead(Ahead(e, s, n), j, n) == Ahead(e, s + j, n)
  {
  }

  lemma StepsFromAhead(e: nat, s: nat, x: nat, n: nat)
    requires e < n && x < n && s <= Steps(e, x, n)
    ensures Steps(Ahead(e, s, n), x, n) == Steps(e, x, n) - s
  {
  }

  /** As many different keys as there are taken slots in a row. */
  lemma SlotsCount<V>(t: seq<Node<V>>, empty: nat, slots: map<nat, nat>, a: nat, m: nat, keys: set<nat>)
    requires Indexed(t, empty, slots, |t|) && a < |t| && m <= |t|
    requires forall j: nat {:trigger Ahead(a, j, |t|)} :: j < m ==>
               Occupied(t, empty, Ahead(a, j, |t|)) && t[Ahead(a, j, |t|)].key in keys
    ensures |keys| >= m
  {
    var ks := seq(m, j requires 0 <= j < m => t[Ahead(a, j, |t|)].key);
    forall j: nat | j < m
      ensures ks[j] in keys && ks[j] in slots && slots[ks[j]] == Ahead(a, j, |t|)
    {
      assert Occupied(t, empty, Ahead(a, j, |t|));
    }
    forall i, j | 0 <= i < j < m
      ensures ks[i] != ks[j]
    {
      assert Ahead(a, i, |t|) != Ahead(a, j, |t|);
    }
    DistinctCount(ks, keys);
  }

  lemma HomeInArc<V>(t: seq<Node<V>>, empty: nat, slots: map<nat, nat>, e: nat, s: nat, q: nat, j: nat)
    requires Placed(t, empty) && Indexed(t, empty, slots, |t|) && e < |t| && !Occupied(t, empty, e)
    requires s + MAX_DISTANCE <= q < |t| && s <= j <= q
    requires Occupied(t, empty, Ahead(e, q, |t|)) && t[Ahead(e, q, |t|)].distance >= MAX_DISTANCE
    requires Occupied(t, empty, Ahead(e, j, |t|)) && t[Ahead(e, j, |t|)].distance <= j - s
    ensures t[Ahead(e, j, |t|)].key in HomesIn(slots.Keys, |t|, Ahead(e, s, |t|), q - MAX_DISTANCE - s + 1)
  {
    var i := Ahead(e, j, |t|);
    assert t[i].distance + q >= MAX_DISTANCE + j by {
      if q - j <= MAX_DISTANCE {
        RunBehind(t, empty, Ahead(e, q, |t|), q - j);
        assert Back(Ahead(e, q, |t|), q - j, |t|) == i;
      }
    }
    DistanceBelowSize(t, empty, i);
    assert Home(t[i].key, |t|) == Ahead(e, j - t[i].distance, |t|);
  }

  /** A sound table's contents fit its size. */
  lemma HoldsFits<V>(t: seq<Node<V>>, empty: nat, slots: map<nat, nat>, wanted: map<nat, V>)
    requires Holds(t, empty, slots, wanted) && |slots| < |t|
    ensures !Overfull(wanted.Keys, |t|)
  {
    PlacedFits(t, empty, slots);
    assert wanted.Keys == slots.Keys;
  }

  /** An insertion that must carry its entry beyond distance 254 was asked for an overfull key set. */
  lemma InsertOverflows<V>(t: seq<Node<V>>, empty: nat, slots: map<nat, nat>, node: Node<V>, pos: nat,
                           wanted: map<nat, V>)
    requires Inserting(t, empty, slots, node, pos, wanted) && |slots| < |t|
    requires Occupied(t, empty, pos) && t[pos].key != node.key
    requires node.distance == MAX_DISTANCE <= t[pos].distance
    ensures Overfull(wanted.Keys, |t|)
  {
    if node.key in slots {
      assert PlacedAt(t, empty, slots[node.key]);
      ProbeIsComplete(t, empty, slots, |t|, node.key, pos);
      assert false;
    }
    OverflowIsOverfull(t, empty, slots, node.key, pos);
    assert wanted.Keys == slots.Keys + {node.key};
  }
}
