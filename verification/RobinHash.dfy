/** The Robin Hood map: open addressing on a table whose size is a power of two. */
module RobinHash {
  import opened Basics
  import opened Bits
  import opened RobinTable
  import opened RobinOverflow
  import opened RobinProbe
  import opened RobinMark

  /** The load test: would `count` entries be more than seven tenths of `size` slots? */
  predicate TooFull(count: nat, size: nat) {
    10 * count > 7 * size
  }

  /** The size of the table that an insertion works on. */
  function SizeForInsert(count: nat, size: nat): nat {
    if TooFull(count + 1, size) then 2 * size else size
  }

  /** The first of the sizes `size`, 2 * `size`, 4 * `size`, ... that reaches `capacity`. */
  function RoundUp(capacity: nat, size: nat): (s: nat)
    requires size > 0
    ensures s >= capacity && s >= size
    ensures s == size || s / 2 < capacity
    decreases capacity - size
  {
    if size >= capacity then size else RoundUp(capacity, 2 * size)
  }

  /** What a rehash has moved once it has passed the first `i` slots of the old table. */
  ghost function Moved<V>(t: seq<Node<V>>, slots: map<nat, nat>, i: nat): map<nat, V>
    requires forall k :: k in slots ==> slots[k] < |t|
  {
    map k | k in slots && slots[k] < i :: t[slots[k]].value
  }

  lemma MovedPastFree<V>(t: seq<Node<V>>, empty: nat, slots: map<nat, nat>, i: nat)
    requires Indexed(t, empty, slots, |t|) && i < |t| && !Occupied(t, empty, i)
    ensures Moved(t, slots, i + 1) == Moved(t, slots, i)
  {
  }

  lemma MovedPastEntry<V>(t: seq<Node<V>>, empty: nat, slots: map<nat, nat>, i: nat)
    requires Indexed(t, empty, slots, |t|) && i < |t| && Occupied(t, empty, i)
    ensures Moved(t, slots, i + 1) == Moved(t, slots, i)[t[i].key := t[i].value]
    ensures |Moved(t, slots, i).Keys| < |slots.Keys| && Moved(t, slots, i).Keys + {t[i].key} <= slots.Keys
  {
    assert slots[t[i].key] == i;
    assert Moved(t, slots, i + 1).Keys == Moved(t, slots, i).Keys + {t[i].key};
    MovedIsSmaller(Moved(t, slots, i).Keys, t[i].key, slots.Keys);
  }

  lemma MovedIsSmaller(part: set<nat>, key: nat, whole: set<nat>)
    requires key !in part && part + {key} <= whole
    ensures |part| < |whole|
  {
    SubsetSize(part + {key}, whole);
  }

  lemma MovedAll<V>(t: seq<Node<V>>, empty: nat, slots: map<nat, nat>)
    requires Indexed(t, empty, slots, |t|)
    ensures Moved(t, slots, |t|) == ContentsOf(t, slots) && ContentsOf(t, slots).Keys == slots.Keys
  {
  }

  class RobinMap<V> {
    const emptyKey: nat  // the key value that marks a free slot
    const blank: V       // the value of a default-constructed V
    var table: array<Node<V>>
    var mask: nat
    var count: nat
    ghost var slots: map<nat, nat>  // where each key is
    ghost var exponent: nat

    /** The table has 2^exponent slots, and the mask is one less. */
    ghost predicate Shaped()
      reads this
    {
      table.Length == Pow2(exponent) && mask == table.Length - 1
    }

    ghost predicate Valid()
      reads this, table
    {
      && Shaped() && count == |slots| && !TooFull(count, table.Length)
      && Placed(table[..], emptyKey) && Indexed(table[..], emptyKey, slots, table.Length)
    }

    /** The mathematical map that the table stands for. */
    ghost function Contents(): map<nat, V>
      reads this, table
      requires Valid()
    {
      ContentsOf(table[..], slots)
    }

    constructor (initialCapacity: nat, emptyKey: nat, blank: V)
      ensures Valid() && fresh(table) && Contents() == map[]
      ensures this.emptyKey == emptyKey
      ensures table.Length == RoundUp(initialCapacity, 1)
      ensures table.Length >= initialCapacity && (table.Length == 1 || table.Length < 2 * initialCapacity)
    {
      var cap := 1;
      ghost var e := 0;
      while cap < initialCapacity
        invariant cap == Pow2(e)
        invariant RoundUp(initialCapacity, cap) == RoundUp(initialCapacity, 1)
        decreases initialCapacity - cap
      {
        cap := 2 * cap;
        e := e + 1;
      }
      this.emptyKey, this.blank := emptyKey, blank;
      table := new Node<V>[cap](_ => Node(emptyKey, blank, 0));
      mask, count := cap - 1, 0;
      slots, exponent := map[], e;
    }

    method Size() returns (n: nat)
      requires Valid()
      ensures n == |Contents()|
    {
      assert Contents().Keys == slots.Keys;
      n := count;
    }

    /** Masking with the size less one gives the home slot. */
    method Slot(x: nat) returns (pos: nat)
      requires Shaped()
      ensures pos == Home(x, table.Length)
    {
      ghost var q := MaskIsRemainder(x, exponent);
      pos := And(x, mask);
      HomeIsRemainder(x, table.Length, q, pos);
    }

    /** Masking also wraps a slot number around. */
    method After(pos: nat) returns (next: nat)
      requires Shaped() && pos < table.Length
      ensures next == Next(pos, table.Length)
    {
      HomeIsRemainder(pos + 1, table.Length, if pos + 1 == table.Length then 1 else 0, Next(pos, table.Length));
      next := Slot(pos + 1);
    }

    /** Looks `key` up, in a sound map or in any table with a free slot. */
    method Find(key: nat) returns (r: Option<V>)
      requires Valid() || (Shaped() && HasFree(table[..], emptyKey))
      ensures Valid() ==> r == if key in Contents() then Some(Contents()[key]) else None
      ensures HasFree(table[..], emptyKey) && r == Sought(table[..], emptyKey, key)
    {
      ghost var t := table[..];
      ghost var free := FindEnds(key);
      var pos: nat := Slot(key);
      var dist: Distance := 0;
      while table[pos].key != emptyKey
        invariant pos < |t|
        invariant Look(t, emptyKey, key, pos, dist, free) == Look(t, emptyKey, key, Home(key, |t|), 0, free)
        decreases Steps(pos, free, |t|)
      {
        if table[pos].key == key {
          return Some(table[pos].value);
        }
        if table[pos].distance < dist {
          return None;
        }
        pos := After(pos);
        dist := (dist + 1) % 256;
      }
      return None;
    }

    lemma FindEnds(key: nat) returns (free: nat)
      requires Valid() || (Shaped() && HasFree(table[..], emptyKey))
      ensures free < table.Length && !Occupied(table[..], emptyKey, free)
      ensures var r := Look(table[..], emptyKey, key, Home(key, table.Length), 0, free);
              && Sought(table[..], emptyKey, key) == (if r.Some? then Some(table[r.value].value) else None)
              && (Valid() ==> r == if key in slots then Some(slots[key]) else None)
    {
      var t := table[..];
      if Valid() {
        free := FreeSlotExists(t, emptyKey, slots);
        LookFinds(t, emptyKey, slots, key, Home(key, |t|), 0, free);
      } else {
        free :| free < |t| && !Occupied(t, emptyKey, free);
      }
      SoughtIsLook(t, emptyKey, key, free);
    }

    /** The probe loop of insertion does what `Place` says. */
    method ProbeInsert(key0: nat, value0: V, ghost free: nat) returns (ok: bool)
      requires Shaped() && free < table.Length && !Occupied(table[..], emptyKey, free)
      modifies this`count, table
      ensures var r := old(Place(table[..], emptyKey, Node(key0, value0, 0), Home(key0, table.Length), free));
              && ok == r.Stored?
              && (ok ==> table[..] == r.table && count == old(count) + if r.isNew then 1 else 0)
    {
      var key, value := key0, value0;
      var pos: nat := Slot(key);
      var dist: Distance := 0;
      while true
        invariant pos < table.Length && dist <= MAX_DISTANCE && count == old(count)
        invariant !Occupied(table[..], emptyKey, free)
        invariant Place(table[..], emptyKey, Node(key, value, dist), pos, free)
               == old(Place(table[..], emptyKey, Node(key0, value0, 0), Home(key0, table.Length), free))
        decreases Steps(pos, free, table.Length)
      {
        ghost var t := table[..];
        ghost var node := Node(key, value, dist);
        if table[pos].key == emptyKey {
          table[pos] := Node(key, value, dist);
          count := count + 1;
          assert table[..] == t[pos := node];
          return true;
        }
        if table[pos].key == key {
          table[pos] := table[pos].(value := value);
          assert table[..] == t[pos := t[pos].(value := value)];
          return true;
        }
        if table[pos].distance < dist {
          var displaced := table[pos];
          table[pos] := Node(key, value, dist);
          key, value, dist := displaced.key, displaced.value, displaced.distance;
        }
        assert table[..] == Settled(t, node, pos) && Node(key, value, dist) == CarriedOn(t, node, pos);
        pos := After(pos);
        dist := (dist + 1) % 256;
        if !(dist < 255) {
          return false;
        }
      }
    }

    /** An insertion of the key that marks free slots has raised the count beyond the stored keys, which are
        still those of `m`, and may have put some of them out of reach. */
    ghost predicate Miscounted(m: map<nat, V>)
      reads this, table
    {
      !Valid() && Shaped() && count == |m| + 1 && LeftByMark(table[..], emptyKey, m)
    }

    /** Inserts or overwrites. The answer is false when the assertion on the step counter stops the program;
        nothing is promised about the table then. That happens exactly when the resulting key set is
        overfull for the table it goes into. An insertion that ends leaves a sound map exactly when its key is
        not the one that marks free slots; after that one, `LeftByMark` says what lookups still find. */
    method Insert(key: nat, value: V) returns (ok: bool)
      requires Valid()
      modifies this, table
      ensures ok ==> (Valid() <==> key != emptyKey)
      ensures ok && key != emptyKey ==> Contents() == old(Contents())[key := value]
      ensures ok && key == emptyKey ==> Miscounted(old(Contents()))
      ensures ok ==> table.Length == old(SizeForInsert(count, table.Length))
      ensures ok ==> table.Length == old(table.Length) * if 10 * (old(count) + 1) > 7 * old(table.Length) then 2 else 1
      ensures ok <==> !Overfull(old(Contents()).Keys + {key}, old(SizeForInsert(count, table.Length)))
      ensures table == old(table) || fresh(table)
      decreases if TooFull(count + 1, table.Length) then 2 else 0, 0
    {
      ghost var before, size := Contents(), SizeForInsert(count, table.Length);
      if TooFull(count + 1, table.Length) {
        ok := Resize(2 * table.Length);
        if !ok {
          OverfullIsMonotone(before.Keys, before.Keys + {key}, size);
          return;
        }
      }
      ok := InsertWithRoom(key, value);
    }

    method InsertWithRoom(key: nat, value: V) returns (ok: bool)
      requires Valid() && !TooFull(count + 1, table.Length)
      modifies this`count, this`slots, table
      ensures ok && key != emptyKey ==> Valid() && Contents() == old(Contents())[key := value]
      ensures ok && key == emptyKey ==> Miscounted(old(Contents()))
      ensures ok <==> !Overfull(old(Contents()).Keys + {key}, table.Length)
    {
      ghost var free := FreeSlotExists(table[..], emptyKey, slots);
      ghost var after := InsertionEnds(key, value, free);
      ok := ProbeInsert(key, value, free);
      slots := after;
    }

    lemma InsertionEnds(key: nat, value: V, free: nat) returns (after: map<nat, nat>)
      requires Valid() && !TooFull(count + 1, table.Length)
      requires free < table.Length && !Occupied(table[..], emptyKey, free)
      ensures var r := Place(table[..], emptyKey, Node(key, value, 0), Home(key, table.Length), free);
              && (r.AssertionFailed? <==> Overfull(Contents().Keys + {key}, table.Length))
              && (r.Stored? && key == emptyKey ==>
                    r.isNew && LeftByMark(r.table, emptyKey, Contents()) && |after| == count == |Contents()|)
              && (r.Stored? && key != emptyKey ==>
                    && Holds(r.table, emptyKey, after, Contents()[key := value]) && |r.table| == table.Length
                    && |after| == count + if r.isNew then 1 else 0)
    {
      var t := table[..];
      CountIsSize();
      assert Contents()[key := value].Keys == Contents().Keys + {key};
      if key == emptyKey {
        after := slots;
        MarkInsertedIff(t, emptyKey, slots, value, free);
      } else {
        after := PlaceStoresIff(t, emptyKey, slots, key, value, free);
      }
    }

    method StartAfresh(newSize: nat)
      requires Shaped() && newSize == 2 * table.Length
      modifies this
      ensures Valid() && Contents() == map[]
      ensures fresh(table) && table.Length == newSize
    {
      table := new Node<V>[newSize](_ => Node(emptyKey, blank, 0));
      mask, count, slots, exponent := newSize - 1, 0, map[], exponent + 1;
    }

    /** Moves every entry to a fresh table of twice the size. */
    method Resize(newSize: nat) returns (ok: bool)
      requires Valid() && newSize == 2 * table.Length
      modifies this
      ensures ok ==> Valid() && Contents() == old(Contents()) && table.Length == newSize
      ensures ok ==> !TooFull(count + 1, table.Length)
      ensures ok <==> !Overfull(old(Contents()).Keys, newSize)
      ensures fresh(table)
      decreases 1, 2
    {
      var oldTable := table;
      ghost var index := slots;
      CountIsSize();
      StartAfresh(newSize);
      ok := MoveEntries(oldTable, index);
      if ok {
        CountIsSize();
      }
    }

    /** The loop of a rehash. The load stays below the limit all along, so no insertion made here can ask for
        another rehash; this is why the recursion ends. */
    method MoveEntries(from: array<Node<V>>, ghost index: map<nat, nat>) returns (ok: bool)
      requires Valid() && Contents() == map[] && from != table
      requires Indexed(from[..], emptyKey, index, from.Length) && !TooFull(|index|, table.Length)
      modifies this, table
      ensures ok ==> Valid() && Contents() == ContentsOf(old(from[..]), index) && table.Length == old(table.Length)
      ensures ok <==> !Overfull(index.Keys, old(table.Length))
      ensures table == old(table) || fresh(table)
      decreases 1, 1
    {
      ghost var t := from[..];
      ok := true;
      for i := 0 to from.Length
        invariant Valid() && table.Length == old(table.Length) && (table == old(table) || fresh(table))
        invariant from[..] == t && Contents() == Moved(t, index, i)
      {
        if from[i].key == emptyKey {
          MovedPastFree(t, emptyKey, index, i);
        } else {
          ok := MoveEntry(from, index, i);
          if !ok {
            return;
          }
        }
      }
      MovedAll(t, emptyKey, index);
      HoldsFits(table[..], emptyKey, slots, Contents());
    }

    /** Moves one entry of the old table. */
    method MoveEntry(from: array<Node<V>>, ghost index: map<nat, nat>, i: nat) returns (ok: bool)
      requires Valid() && from != table && i < from.Length && Occupied(from[..], emptyKey, i)
      requires Indexed(from[..], emptyKey, index, from.Length) && !TooFull(|index|, table.Length)
      requires Contents() == Moved(from[..], index, i)
      modifies this, table
      ensures ok ==> Valid() && Contents() == Moved(old(from[..]), index, i + 1) && table.Length == old(table.Length)
      ensures !ok ==> Overfull(index.Keys, old(table.Length))
      ensures table == old(table) || fresh(table)
      decreases 1, 0
    {
      MovedPastEntry(from[..], emptyKey, index, i);
      CountIsSize();
      ghost var moved := Contents().Keys + {from[i].key};
      ok := Insert(from[i].key, from[i].value);
      if !ok {
        OverfullIsMonotone(moved, index.Keys, old(table.Length));
      }
    }

    /** Removes `key` if it is there, shifting the run behind it back by one slot. */
    method Erase(key: nat)
      requires Valid()
      modifies this`count, this`slots, table
      ensures Valid() && Contents() == old(Contents()) - {key}
    {
      ghost var t := table[..];
      ghost var free := FreeSlotExists(t, emptyKey, slots);
      LookFinds(t, emptyKey, slots, key, Home(key, |t|), 0, free);
      ghost var after := RemovedErases(t, emptyKey, slots, key, free);
      ProbeErase(key, free);
      slots := after;
    }

    /** The two loops of deletion do what `Removed` says. */
    method ProbeErase(key: nat, ghost free: nat)
      requires Shaped() && free < table.Length && !Occupied(table[..], emptyKey, free)
      requires Look(table[..], emptyKey, key, Home(key, table.Length), 0, free).Some? ==> count > 0
      modifies this`count, table
      ensures table[..] == old(Removed(table[..], emptyKey, key, free))
      ensures var found := old(Look(table[..], emptyKey, key, Home(key, table.Length), 0, free));
              count == old(count) - if found.Some? then 1 else 0
    {
      ghost var t := table[..];
      var pos: nat := Slot(key);
      var dist: Distance := 0;
      while table[pos].key != emptyKey
        invariant pos < |t| && t == table[..] && count == old(count)
        invariant Look(t, emptyKey, key, pos, dist, free) == Look(t, emptyKey, key, Home(key, |t|), 0, free)
        decreases Steps(pos, free, |t|)
      {
        if table[pos].key == key {
          ShiftBack(pos, free);
          count := count - 1;
          return;
        }
        if table[pos].distance < dist {
          return;
        }
        pos := After(pos);
        dist := (dist + 1) % 256;
      }
    }

    /** The inner loop of deletion. It ends at the first slot that is free or holds an entry at home. */
    method ShiftBack(hole: nat, ghost free: nat)
      requires Shaped() && hole < table.Length && Occupied(table[..], emptyKey, hole)
      requires free < table.Length && !Occupied(table[..], emptyKey, free)
      modifies table
      ensures table[..] == old(CloseGap(table[..], emptyKey, hole, free))
    {
      var pos: nat := hole;
      var next: nat := After(pos);
      while table[next].key != emptyKey && table[next].distance > 0
        invariant pos < table.Length && next == Next(pos, table.Length)
        invariant Occupied(table[..], emptyKey, pos) && !Occupied(table[..], emptyKey, free)
        invariant CloseGap(table[..], emptyKey, pos, free) == old(CloseGap(table[..], emptyKey, hole, free))
        decreases Steps(pos, free, table.Length)
      {
        ghost var t := table[..];
        table[pos] := table[next];
        table[pos] := table[pos].(distance := table[pos].distance - 1);
        assert table[..] == Shifted(t, pos);
        pos := next;
        next := After(next);
      }
      ghost var t := table[..];
      table[pos] := table[pos].(key := emptyKey);
      table[pos] := table[pos].(distance := 0);
      assert table[..] == t[pos := t[pos].(key := emptyKey, distance := 0)];
    }

    method Clear()
      requires Valid()
      modifies this`count, this`slots, table
      ensures Valid() && Contents() == map[]
    {
      for i := 0 to table.Length
        invariant forall j :: 0 <= j < i ==> table[j].key == emptyKey
      {
        table[i] := table[i].(key := emptyKey, distance := 0);
      }
      count, slots := 0, map[];
    }

    lemma CountIsSize()
      requires Valid()
      ensures count == |Contents()| && Contents().Keys == slots.Keys
    {
      assert Contents().Keys == slots.Keys;
    }
  }
}
