/** Whole runs of map operations against a mathematical map. */
module RobinRun {
  import opened Basics
  import opened RobinTable
  import opened RobinOverflow
  import opened RobinHash

  datatype Op<V> = Insert(key: nat, value: V) | Find(key: nat) | Erase(key: nat) | Clear

  function Apply<V>(op: Op<V>, m: map<nat, V>): map<nat, V> {
    match op
    case Insert(k, v) => m[k := v]
    case Find(_) => m
    case Erase(k) => m - {k}
    case Clear => map[]
  }

  /** What a mathematical map answers to an operation: one value for a lookup, nothing otherwise. */
  function Answer<V>(op: Op<V>, m: map<nat, V>): seq<Option<V>> {
    match op
    case Find(k) => [if k in m then Some(m[k]) else None]
    case _ => []
  }

  /** The map after a run. */
  function MapAfter<V>(ops: seq<Op<V>>): map<nat, V> {
    if ops == [] then map[] else Apply(ops[|ops| - 1], MapAfter(ops[..|ops| - 1]))
  }

  /** What a mathematical map answers to a run. */
  function Answers<V>(ops: seq<Op<V>>): seq<Option<V>> {
    if ops == [] then []
    else Answers(ops[..|ops| - 1]) + Answer(ops[|ops| - 1], MapAfter(ops[..|ops| - 1]))
  }

  /** All keys that a run ever inserts. */
  ghost function KeysOf<V>(ops: seq<Op<V>>): set<nat> {
    set op | op in ops && op.Insert? :: op.key
  }

  lemma {:induction false} StoredKeysWereInserted<V>(ops: seq<Op<V>>)
    ensures MapAfter(ops).Keys <= KeysOf(ops)
  {
    if ops != [] {
      var before, last := ops[..|ops| - 1], ops[|ops| - 1];
      StoredKeysWereInserted(before);
      assert KeysOf(before) <= KeysOf(ops);
      assert last in ops;
    }
  }

  /** The table size after an operation on a map of `count` entries in `size` slots. */
  function SizeAfter<V>(op: Op<V>, count: nat, size: nat): nat {
    if op.Insert? then SizeForInsert(count, size) else size
  }

  /** The operation does not make the key set overfull for the table. */
  ghost predicate Fits<V>(op: Op<V>, m: map<nat, V>, size: nat)
    requires size > 0
  {
    op.Insert? ==> !Overfull(m.Keys + {op.key}, SizeForInsert(|m|, size))
  }

  /** The table size after a run on a map made for `capacity` entries. */
  function TableSize<V>(capacity: nat, ops: seq<Op<V>>): (size: nat)
    ensures size > 0
  {
    if ops == [] then RoundUp(capacity, 1)
    else SizeAfter(ops[|ops| - 1], |MapAfter(ops[..|ops| - 1])|, TableSize(capacity, ops[..|ops| - 1]))
  }

  /** No operation of the run makes the key set overfull for the table of the moment. */
  ghost predicate RunFits<V>(capacity: nat, ops: seq<Op<V>>) {
    ops == [] ||
    var before := ops[..|ops| - 1];
    RunFits(capacity, before) && Fits(ops[|ops| - 1], MapAfter(before), TableSize(capacity, before))
  }

  /** A run with at most 255 different keys always fits. */
  lemma {:induction false} FewKeysRunFits<V>(capacity: nat, ops: seq<Op<V>>)
    requires |KeysOf(ops)| <= MAX_DISTANCE + 1
    ensures RunFits(capacity, ops)
  {
    if ops != [] {
      var before, last := ops[..|ops| - 1], ops[|ops| - 1];
      assert last in ops && KeysOf(before) <= KeysOf(ops);
      SubsetSize(KeysOf(before), KeysOf(ops));
      FewKeysRunFits(capacity, before);
      if last.Insert? {
        StoredKeysWereInserted(before);
        SubsetSize(MapAfter(before).Keys + {last.key}, KeysOf(ops));
        FewKeysFit(MapAfter(before).Keys + {last.key}, SizeForInsert(|MapAfter(before)|, TableSize(capacity, before)));
      }
    }
  }

  /** The operation does not insert the key that marks free slots. */
  predicate Admissible<V>(op: Op<V>, emptyKey: nat) {
    op.Insert? ==> op.key != emptyKey
  }

  ghost predicate AllAdmissible<V>(ops: seq<Op<V>>, emptyKey: nat) {
    forall op :: op in ops ==> Admissible(op, emptyKey)
  }

  /** No operation of the run inserts the key that marks free slots, and none is stopped. */
  ghost predicate Completes<V>(capacity: nat, emptyKey: nat, ops: seq<Op<V>>) {
    ops == [] ||
    var before, last := ops[..|ops| - 1], ops[|ops| - 1];
    && Completes(capacity, emptyKey, before) && Admissible(last, emptyKey)
    && Fits(last, MapAfter(before), TableSize(capacity, before))
  }

  lemma {:induction false} CompletesIff<V>(capacity: nat, emptyKey: nat, ops: seq<Op<V>>)
    ensures Completes(capacity, emptyKey, ops)
       <==> RunFits(capacity, ops) && AllAdmissible(ops, emptyKey)
  {
    if ops != [] {
      var before, last := ops[..|ops| - 1], ops[|ops| - 1];
      CompletesIff(capacity, emptyKey, before);
      AllAdmissibleSnoc(before, last, emptyKey);
      assert ops == before + [last];
    }
  }

  lemma AllAdmissibleSnoc<V>(ops: seq<Op<V>>, last: Op<V>, emptyKey: nat)
    ensures AllAdmissible(ops + [last], emptyKey) <==> AllAdmissible(ops, emptyKey) && Admissible(last, emptyKey)
  {
    assert last in ops + [last];
  }

  lemma {:induction false} PrefixCompletes<V>(capacity: nat, emptyKey: nat, ops: seq<Op<V>>, i: nat)
    requires Completes(capacity, emptyKey, ops) && i <= |ops|
    ensures Completes(capacity, emptyKey, ops[..i])
  {
    if i < |ops| {
      PrefixCompletes(capacity, emptyKey, ops[..|ops| - 1], i);
      assert ops[..|ops| - 1][..i] == ops[..i];
    } else {
      assert ops[..i] == ops;
    }
  }

  /** One operation behaves as on a mathematical map, unless the distance assertion stops it, or it has inserted
      the key that marks free slots. */
  method Perform<V>(m: RobinMap<V>, op: Op<V>) returns (ok: bool, answer: seq<Option<V>>)
    requires m.Valid()
    modifies m, m.table
    ensures ok <==> old(Fits(op, m.Contents(), m.table.Length))
    ensures ok && Admissible(op, m.emptyKey) ==> m.Valid() && m.Contents() == Apply(op, old(m.Contents()))
    ensures ok && !Admissible(op, m.emptyKey) ==> m.Miscounted(old(m.Contents()))
    ensures ok ==> m.table.Length == old(SizeAfter(op, |m.Contents()|, m.table.Length))
    ensures ok ==> answer == old(Answer(op, m.Contents()))
    ensures m.table == old(m.table) || fresh(m.table)
  {
    m.CountIsSize();
    ok, answer := true, [];
    match op
    case Insert(k, v) =>
      ok := m.Insert(k, v);
    case Find(k) =>
      var r := m.Find(k);
      answer := [r];
    case Erase(k) =>
      m.Erase(k);
    case Clear =>
      m.Clear();
  }

  /** The map is in the state that the first `i` operations of the run lead to. */
  ghost predicate Reached<V>(m: RobinMap<V>, capacity: nat, ops: seq<Op<V>>, i: nat)
    reads m, m.table
    requires i <= |ops|
  {
    && m.Valid() && m.Contents() == MapAfter(ops[..i]) && m.table.Length == TableSize(capacity, ops[..i])
    && Completes(capacity, m.emptyKey, ops[..i])
  }

  /** The next operation of a run. */
  method PerformNext<V>(m: RobinMap<V>, capacity: nat, ops: seq<Op<V>>, i: nat)
    returns (ok: bool, answer: seq<Option<V>>)
    requires i < |ops| && Reached(m, capacity, ops, i)
    modifies m, m.table
    ensures ok <==> Fits(ops[i], MapAfter(ops[..i]), TableSize(capacity, ops[..i]))
    ensures ok && Admissible(ops[i], m.emptyKey) ==>
              Reached(m, capacity, ops, i + 1) && Answers(ops[..i + 1]) == Answers(ops[..i]) + answer
    ensures m.table == old(m.table) || fresh(m.table)
  {
    var upTo := ops[..i + 1];
    assert upTo[..|upTo| - 1] == ops[..i];
    ok, answer := Perform(m, ops[i]);
  }

  lemma RunGoesNoFurther<V>(capacity: nat, emptyKey: nat, ops: seq<Op<V>>, i: nat)
    requires i < |ops|
    requires Admissible(ops[i], emptyKey) ==> !Fits(ops[i], MapAfter(ops[..i]), TableSize(capacity, ops[..i]))
    ensures !Completes(capacity, emptyKey, ops)
  {
    var upTo := ops[..i + 1];
    assert upTo[..|upTo| - 1] == ops[..i];
    if Completes(capacity, emptyKey, ops) {
      PrefixCompletes(capacity, emptyKey, ops, i + 1);
      assert false;
    }
  }

  /** A run of operations on a fresh map answers as a mathematical map does, up to the first operation that the
      distance assertion stops, which it does exactly when that operation does not fit, or that inserts the key
      that marks free slots. The program goes on after the latter; the model of the run ends there, as the map
      is then out of step. A run is completed when there is no such operation, and then counts as a
      mathematical map does. */
  method Replay<V>(capacity: nat, emptyKey: nat, blank: V, ops: seq<Op<V>>)
    returns (performed: nat, stopped: bool, answers: seq<Option<V>>, size: nat)
    ensures performed <= |ops| && answers == Answers(ops[..performed])
    ensures performed == |ops| <==> RunFits(capacity, ops) && AllAdmissible(ops, emptyKey)
    ensures performed < |ops| ==>
              var m, slots := MapAfter(ops[..performed]), TableSize(capacity, ops[..performed]);
              && (stopped <==> !Fits(ops[performed], m, slots))
              && (stopped || !Admissible(ops[performed], emptyKey))
    ensures performed == |ops| ==> !stopped && size == |MapAfter(ops)|
  {
    CompletesIff(capacity, emptyKey, ops);
    var m := new RobinMap(capacity, emptyKey, blank);
    performed, stopped, answers, size := 0, false, [], 0;
    while performed < |ops|
      invariant performed <= |ops| && !stopped && fresh(m) && fresh(m.table) && m.emptyKey == emptyKey
      invariant Reached(m, capacity, ops, performed) && answers == Answers(ops[..performed])
    {
      var ok, answer := PerformNext(m, capacity, ops, performed);
      if !ok || !Admissible(ops[performed], emptyKey) {
        RunGoesNoFurther(capacity, emptyKey, ops, performed);
        stopped := !ok;
        return;
      }
      performed, answers := performed + 1, answers + answer;
    }
    assert ops[..|ops|] == ops;
    size := m.Size();
  }

  // ---------------------------------------------------------------------------------------------
  // A run that fails
  // ---------------------------------------------------------------------------------------------

  /** Inserting the first `m` multiples of 512. */
  function MultiplesRun<V>(v: V, m: nat): (ops: seq<Op<V>>)
    ensures |ops| == m
  {
    seq(m, i requires 0 <= i < m => Insert(512 * i, v))
  }

  lemma {:induction false} MultiplesRunKeys<V>(v: V, m: nat)
    ensures MapAfter(MultiplesRun(v, m)).Keys == MultiplesOf512(m)
  {
    if m > 0 {
      MultiplesRunKeys(v, m - 1);
      MultiplesRunStep(v, m - 1);
      assert MultiplesOf512(m) == MultiplesOf512(m - 1) + {512 * (m - 1)};
    }
  }

  lemma MultiplesRunStep<V>(v: V, m: nat)
    ensures MultiplesRun(v, m + 1) == MultiplesRun(v, m) + [Insert(512 * m, v)]
  {
  }

  lemma {:induction false} MultiplesRunSize<V>(v: V, m: nat)
    requires m <= 256
    ensures TableSize(512, MultiplesRun(v, m)) == 512
  {
    if m > 0 {
      MultiplesRunSize(v, m - 1);
      MultiplesRunStep(v, m - 1);
      MultiplesRunKeys(v, m - 1);
      MultiplesCount(m - 1);
      var before := MapAfter(MultiplesRun(v, m - 1));
      assert |before| == |before.Keys|;
    }
  }

  /** On a map made for 512 entries, inserting the first 255 multiples of 512 fits, and the 256th is stopped,
      although the load limit admits 358 entries. */
  lemma MultiplesRunIsStopped<V>(v: V)
    ensures RunFits(512, MultiplesRun(v, 255)) && !RunFits(512, MultiplesRun(v, 256))
    ensures !TooFull(358, 512) && TooFull(359, 512)
  {
    FewMultiplesFit(v);
    MultiplesRunStep(v, 255);
    MultiplesRunKeys(v, 255);
    MultiplesRunSize(v, 255);
    MultiplesCount(255);
    var before := MapAfter(MultiplesRun(v, 255));
    assert |before| == |before.Keys|;
    MultiplesOverflow();
    assert MultiplesOf512(256) == MultiplesOf512(255) + {512 * 255};
  }

  lemma FewMultiplesFit<V>(v: V)
    ensures RunFits(512, MultiplesRun(v, 255))
  {
    var ops := MultiplesRun(v, 255);
    forall op | op in ops && op.Insert?
      ensures op.key in MultiplesOf512(255)
    {
      var i :| 0 <= i < 255 && ops[i] == op;
    }
    MultiplesCount(255);
    SubsetSize(KeysOf(ops), MultiplesOf512(255));
    FewKeysRunFits(512, ops);
  }
}
