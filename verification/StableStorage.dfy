/** Dense storage under stable ids: removal moves the last item into the gap, ids keep finding their items. */
module StableStorage {
  import opened Basics

  /** How many different values a 64-bit id has. The id counter wraps around there. */
  const ID_COUNT: nat := 0x1_0000_0000_0000_0000

  /** The id that the library sets apart as invalid: all bits set. */
  const INVALID_ID: nat := 0xFFFF_FFFF_FFFF_FFFF

  /** The last element has taken place `i`, and all others have kept theirs. */
  ghost predicate SwapRemoved(before: seq<nat>, after: seq<nat>, i: nat) {
    && i < |before| == |after| + 1
    && forall j :: 0 <= j < |after| ==> after[j] == before[if j == i then |after| else j]
  }

  class Storage<T> {
    var nextId: nat
    var items: seq<T>
    var indexToId: seq<nat>
    var idToIndex: map<nat, nat>
    ghost var adds: nat  // how many items have been added so far

    /** The two tables are inverse to each other, and until the counter wraps every live id is older than the
        next one. */
    ghost predicate Valid()
      reads this
    {
      && nextId == adds % ID_COUNT && |items| == |indexToId|
      && (forall i :: 0 <= i < |indexToId| ==> indexToId[i] in idToIndex && idToIndex[indexToId[i]] == i)
      && (forall id :: id in idToIndex ==> idToIndex[id] < |indexToId| && indexToId[idToIndex[id]] == id)
      && (adds <= ID_COUNT ==> forall id :: id in idToIndex ==> id < adds)
    }

    ghost function Contents(): map<nat, T>
      reads this
      requires Valid()
    {
      map id | id in idToIndex :: items[idToIndex[id]]
    }

    constructor ()
      ensures Valid() && Contents() == map[] && adds == 0
    {
      nextId, items, indexToId, idToIndex, adds := 0, [], [], map[], 0;
    }

    /** Stores `value` under the next id. The tables stay inverse exactly when that id is not live already,
        which is certain for the first 2^64 additions. */
    method Add(value: T) returns (id: nat)
      requires Valid()
      modifies this
      ensures id == old(adds) % ID_COUNT && adds == old(adds) + 1
      ensures Valid() <==> id !in old(Contents())
      ensures Valid() ==> Contents() == old(Contents())[id := value]
      ensures old(adds) < ID_COUNT ==> Valid()
      ensures indexToId == old(indexToId) + [id] && items == old(items) + [value]
    {
      id := nextId;
      nextId := (nextId + 1) % ID_COUNT;
      items := items + [value];
      var index := |items| - 1;
      idToIndex := idToIndex[id := index];
      indexToId := indexToId + [id];
      adds := adds + 1;
      if id in old(Contents()) {
        assert old(indexToId[idToIndex[id]]) == id;
        assert indexToId[old(idToIndex[id])] == id;
      }
    }

    /** Forgets `id`, if it is live; every other id keeps its value. The last item takes the freed index, and all
        others keep theirs. */
    method Remove(id: nat)
      requires Valid()
      modifies this`items, this`indexToId, this`idToIndex
      ensures Valid() && Contents() == old(Contents()) - {id}
      ensures id in old(idToIndex) ==> SwapRemoved(old(indexToId), indexToId, old(idToIndex[id]))
      ensures id !in old(idToIndex) ==> indexToId == old(indexToId)
    {
      if id !in idToIndex {
        return;
      }
      var index := idToIndex[id];
      var last := |items| - 1;
      if index != last {
        items := items[index := items[last]];
        var movedId := indexToId[last];
        idToIndex := idToIndex[movedId := index];
        indexToId := indexToId[index := movedId];
      }
      items := items[..|items| - 1];
      indexToId := indexToId[..|indexToId| - 1];
      idToIndex := idToIndex - {id};
    }

    method Get(id: nat) returns (r: Option<T>)
      requires Valid()
      ensures r == if id in Contents() then Some(Contents()[id]) else None
    {
      if id in idToIndex {
        r := Some(items[idToIndex[id]]);
      } else {
        r := None;
      }
    }

    method RawAt(index: nat) returns (value: T)
      requires Valid() && index < |items|
      ensures indexToId[index] in Contents() && value == Contents()[indexToId[index]]
    {
      value := items[index];
    }

    method IdAt(index: nat) returns (id: nat)
      requires Valid() && index < |items|
      ensures id in Contents() && id == indexToId[index]
    {
      id := indexToId[index];
    }

    method Size() returns (n: nat)
      requires Valid()
      ensures n == |Contents()|
    {
      InverseTablesHaveOneSize(indexToId, idToIndex);
      assert Contents().Keys == idToIndex.Keys;
      n := |items|;
    }

    /** Walking the indices visits every live id once, with its value. */
    method Walk() returns (ids: seq<nat>, values: seq<T>)
      requires Valid()
      ensures |ids| == |values| == |Contents()|
      ensures forall i :: 0 <= i < |ids| ==> ids[i] in Contents() && values[i] == Contents()[ids[i]]
      ensures forall i, j :: 0 <= i < j < |ids| ==> ids[i] != ids[j]
      ensures forall id :: id in Contents() ==> id in ids
    {
      ids, values := [], [];
      var n := Size();
      InverseTablesHaveOneSize(indexToId, idToIndex);
      assert Contents().Keys == idToIndex.Keys;
      for i := 0 to n
        invariant |values| == i && ids == indexToId[..i]
        invariant forall j :: 0 <= j < i ==> values[j] == Contents()[ids[j]]
      {
        var id := IdAt(i);
        var value := RawAt(i);
        ids, values := ids + [id], values + [value];
      }
      forall id | id in Contents()
        ensures id in ids
      {
        assert ids[idToIndex[id]] == id;
      }
    }
  }

  lemma {:induction false} InverseTablesHaveOneSize(ids: seq<nat>, index: map<nat, nat>)
    requires forall i :: 0 <= i < |ids| ==> ids[i] in index && index[ids[i]] == i
    requires forall id :: id in index ==> index[id] < |ids| && ids[index[id]] == id
    ensures |index| == |ids|
  {
    if ids != [] {
      var last := |ids| - 1;
      var smaller := index - {ids[last]};
      InverseTablesHaveOneSize(ids[..last], smaller);
      assert index.Keys == smaller.Keys + {ids[last]};
    }
  }

  // ---------------------------------------------------------------------------------------------
  // Whole runs
  // ---------------------------------------------------------------------------------------------

  datatype Op<T> = Add(value: T) | Remove(id: nat)

  /** A plain id-to-value map with a count of additions. The ids wrap around at 2^64. */
  datatype Plain<T> = Plain(adds: nat, live: map<nat, T>)

  function Apply<T>(op: Op<T>, p: Plain<T>): Plain<T> {
    match op
    case Add(value) => Plain(p.adds + 1, p.live[p.adds % ID_COUNT := value])
    case Remove(id) => p.(live := p.live - {id})
  }

  function After<T>(ops: seq<Op<T>>, p: Plain<T>): Plain<T> {
    if ops == [] then p else Apply(ops[|ops| - 1], After(ops[..|ops| - 1], p))
  }

  /** The operation does not issue an id that is live. */
  predicate Clean<T>(op: Op<T>, p: Plain<T>) {
    op.Add? ==> p.adds % ID_COUNT !in p.live
  }

  /** No operation of the run does. */
  predicate RunClean<T>(ops: seq<Op<T>>, p: Plain<T>) {
    ops == [] || (RunClean(ops[..|ops| - 1], p) && Clean(ops[|ops| - 1], After(ops[..|ops| - 1], p)))
  }

  lemma {:induction false} AddsGrow<T>(ops: seq<Op<T>>, i: nat, p: Plain<T>)
    requires i <= |ops|
    ensures p.adds <= After(ops[..i], p).adds <= After(ops, p).adds
  {
    if i < |ops| {
      AddsGrow(ops[..|ops| - 1], i, p);
      assert ops[..|ops| - 1][..i] == ops[..i];
    } else {
      assert ops[..i] == ops;
      if i > 0 {
        AddsGrow(ops[..i - 1], i - 1, p);
        assert ops[..i - 1][..i - 1] == ops[..i - 1];
      }
    }
  }

  /** The id of an earlier addition, once it is not live, does not become live again before 2^64 additions
      later. */
  lemma {:induction false} RemovedStaysRemoved<T>(ops: seq<Op<T>>, p: Plain<T>, addition: nat)
    requires addition < p.adds && addition % ID_COUNT !in p.live && After(ops, p).adds <= addition + ID_COUNT
    ensures addition % ID_COUNT !in After(ops, p).live
  {
    if ops != [] {
      var before := ops[..|ops| - 1];
      AddsGrow(before, 0, p);
      RemovedStaysRemoved(before, p, addition);
      var now := After(before, p).adds;
      if ops[|ops| - 1].Add? && now % ID_COUNT == addition % ID_COUNT {
        ResidueGap(now, addition);
        assert false;
      }
    }
  }

  lemma ResidueGap(later: nat, earlier: nat)
    requires later % ID_COUNT == earlier % ID_COUNT && later > earlier
    ensures later >= earlier + ID_COUNT
  {
  }

  /** The additions issue an id for the second time exactly when 2^64 items were added before. */
  lemma IdIsReissuedIff(adds: nat)
    ensures (exists earlier: nat :: earlier < adds && earlier % ID_COUNT == adds % ID_COUNT)
       <==> adds >= 0x1_0000_0000_0000_0000
  {
    if adds >= ID_COUNT {
      assert (adds - ID_COUNT) % ID_COUNT == adds % ID_COUNT;
    }
  }

  /** The id that is meant to be invalid is issued like any other, by the 2^64-th addition. */
  lemma InvalidIdIsIssuedIff(adds: nat)
    ensures (exists earlier: nat :: earlier < adds && earlier % ID_COUNT == INVALID_ID)
       <==> adds >= 0x1_0000_0000_0000_0000
  {
    assert INVALID_ID % ID_COUNT == INVALID_ID;
  }

  /** Live ids were issued by additions of the run. */
  lemma {:induction false} LiveIdsWereIssued<T>(ops: seq<Op<T>>)
    requires After(ops, Plain(0, map[])).adds <= ID_COUNT
    ensures forall id :: id in After(ops, Plain(0, map[])).live ==> id < After(ops, Plain(0, map[])).adds
  {
    if ops != [] {
      LiveIdsWereIssued(ops[..|ops| - 1]);
    }
  }

  /** The first 2^64 additions never issue a live id. */
  lemma {:induction false} ShortRunIsClean<T>(ops: seq<Op<T>>)
    requires After(ops, Plain(0, map[])).adds <= ID_COUNT
    ensures RunClean(ops, Plain(0, map[]))
  {
    if ops != [] {
      ShortRunIsClean(ops[..|ops| - 1]);
      LiveIdsWereIssued(ops[..|ops| - 1]);
    }
  }

  lemma {:induction false} PrefixIsClean<T>(ops: seq<Op<T>>, p: Plain<T>, i: nat)
    requires RunClean(ops, p) && i <= |ops|
    ensures RunClean(ops[..i], p)
  {
    if i < |ops| {
      PrefixIsClean(ops[..|ops| - 1], p, i);
      assert ops[..|ops| - 1][..i] == ops[..i];
    } else {
      assert ops[..i] == ops;
    }
  }

  lemma AfterOneMore<T>(ops: seq<Op<T>>, i: nat, p: Plain<T>)
    requires i < |ops|
    ensures After(ops[..i + 1], p) == Apply(ops[i], After(ops[..i], p))
    ensures RunClean(ops[..i + 1], p) <==> RunClean(ops[..i], p) && Clean(ops[i], After(ops[..i], p))
    ensures FirstIds(After(ops[..i + 1], p).adds)
         == FirstIds(After(ops[..i], p).adds) + if ops[i].Add? then [After(ops[..i], p).adds % ID_COUNT] else []
  {
    assert ops[..i + 1][..i] == ops[..i];
  }

  /** The ids 0, 1, 2, ..., wrapped. */
  function FirstIds(n: nat): seq<nat> {
    seq(n, k requires 0 <= k => k % ID_COUNT)
  }

  /** One operation acts as on the plain map, and an addition issues its wrapped count as the id. The tables stay
      inverse exactly when that id is not live. */
  method Perform<T>(s: Storage<T>, op: Op<T>, ghost p: Plain<T>) returns (issued: seq<nat>, clean: bool)
    requires s.Valid() && p == Plain(s.adds, s.Contents())
    modifies s
    ensures clean == Clean(op, p) == s.Valid()
    ensures clean ==> Plain(s.adds, s.Contents()) == Apply(op, p)
    ensures issued == if op.Add? then [p.adds % ID_COUNT] else []
  {
    clean := op.Remove? || s.nextId !in s.idToIndex;
    match op
    case Add(value) =>
      var id := s.Add(value);
      issued := [id];
    case Remove(id) =>
      s.Remove(id);
      issued := [];
  }

  /** Every run refines the plain map as long as no addition issues an id that is live: the storage then holds
      the plain map's contents, and the ids issued are 0, 1, 2, ... in order, wrapped. The model of the run ends
      with the first addition that does, after which the tables are not inverse. */
  method Replay<T>(ops: seq<Op<T>>) returns (s: Storage<T>, performed: nat, ids: seq<nat>)
    ensures fresh(s) && performed <= |ops|
    ensures s.Valid() <==> RunClean(ops, Plain(0, map[]))
    ensures s.Valid() ==> performed == |ops| && s.Contents() == After(ops, Plain(0, map[])).live
    ensures !s.Valid() ==> performed > 0 && RunClean(ops[..performed - 1], Plain(0, map[]))
                           && !RunClean(ops[..performed], Plain(0, map[]))
    ensures ids == FirstIds(After(ops[..performed], Plain(0, map[])).adds)
  {
    ghost var start := Plain(0, map[]);
    s := new Storage();
    performed, ids := 0, [];
    while performed < |ops|
      invariant performed <= |ops| && fresh(s) && s.Valid() && RunClean(ops[..performed], start)
      invariant Plain(s.adds, s.Contents()) == After(ops[..performed], start)
      invariant ids == FirstIds(s.adds)
    {
      AfterOneMore(ops, performed, start);
      var issued, clean := Perform(s, ops[performed], After(ops[..performed], start));
      performed, ids := performed + 1, ids + issued;
      if !clean {
        if RunClean(ops, start) {
          PrefixIsClean(ops, start, performed);
          assert false;
        }
        return;
      }
    }
    assert ops[..|ops|] == ops;
  }
}
