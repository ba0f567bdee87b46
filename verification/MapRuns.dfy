/** The finite map that the operations of `utils/src/hdf_map.c` stand for, and what a run of them costs. */
module MapRuns {
  import opened Base
  import opened HashTable

  type Bindings = map<Key, Value>

  function SetCode(m: Bindings, key: Key, value: Value, nodeOk: bool): int {
    if Refused(key, value) then HDF_ERR_INVALID_PARAM
    else if key in m then if |m[key]| != |value| then HDF_ERR_INVALID_OBJECT else HDF_SUCCESS
    else if nodeOk then HDF_SUCCESS else HDF_ERR_INVALID_OBJECT
  }

  function Set(m: Bindings, key: Key, value: Value, nodeOk: bool): Bindings {
    if SetCode(m, key, value, nodeOk) == HDF_SUCCESS then m[key := value] else m
  }

  predicate Refused(key: Key, value: Value) {
    |value| == 0 || |value| > HDF_MAP_KEY_MAX_SIZE || |key| > HDF_MAP_VALUE_MAX_SIZE
  }

  function EraseCode(m: Bindings, key: Key): int {
    if m == map[] then HDF_ERR_INVALID_PARAM else if key in m then HDF_SUCCESS else HDF_FAILURE
  }

  lemma EraseMeans(m: Bindings, key: Key)
    ensures |m| == 0 ==> EraseCode(m, key) == HDF_ERR_INVALID_PARAM && m - {key} == m
    ensures |m| > 0 && key !in m ==> EraseCode(m, key) == HDF_FAILURE && m - {key} == m
    ensures key in m ==> EraseCode(m, key) == HDF_SUCCESS && |m| > 0
  {
  }

  // Runs of operations on the finite map.

  /** An operation, with what the allocator answers to it. */
  datatype Op = OpSet(key: Key, value: Value, tableOk: bool, nodeOk: bool)
            | OpGet(key: Key) | OpErase(key: Key) | OpDelete

  datatype Answer = Code(code: int) | Got(found: bool, value: Value) | Deleted

  function Next(m: Bindings, op: Op): Bindings {
    match op
    case OpSet(key, value, _, nodeOk) => Set(m, key, value, nodeOk)
    case OpGet(_) => m
    case OpErase(key) => m - {key}
    case OpDelete => map[]
  }

  function AnswerTo(m: Bindings, op: Op): Answer {
    match op
    case OpSet(key, value, _, nodeOk) => Code(SetCode(m, key, value, nodeOk))
    case OpGet(key) => if key in m then Got(true, m[key]) else Got(false, [])
    case OpErase(key) => Code(EraseCode(m, key))
    case OpDelete => Deleted
  }

  // What a run costs: the size of the table, the nodes that resizes relink, and the keys that are inserted.

  datatype Account = Account(contents: Bindings, bucketSize: nat, relinked: nat, inserted: nat)

  const EMPTY := Account(map[], 0, 0, 0)

  predicate NewKey(m: Bindings, key: Key, value: Value) {
    !Refused(key, value) && key !in m
  }

  /** The operation asks for a larger table. */
  predicate Asks(a: Account, op: Op) {
    op.OpSet? && NewKey(a.contents, op.key, op.value) && |a.contents| >= a.bucketSize
  }

  /** It asks and gets it; a table of size 0 cannot be allocated. */
  predicate Grows(a: Account, op: Op) {
    Asks(a, op) && op.tableOk && NextSize(a.bucketSize) > 0
  }

  /** The operation inserts a key that was not there. */
  predicate Inserts(a: Account, op: Op) {
    op.OpSet? && NewKey(a.contents, op.key, op.value) && op.nodeOk
  }

  /** An operation that inserts the first key gets the table that it asks for. */
  predicate Supplied(a: Account, op: Op) {
    Inserts(a, op) && a.bucketSize == 0 ==> op.tableOk
  }

  function Booked(a: Account, op: Op): Account {
    Account(
      Next(a.contents, op),
      if op.OpDelete? then 0 else if Grows(a, op) then NextSize(a.bucketSize) else a.bucketSize,
      if Grows(a, op) then a.relinked + |a.contents| else a.relinked,
      if Inserts(a, op) then a.inserted + 1 else a.inserted)
  }

  /** The table after `MapSet` has asked for a larger one, if it is full. */
  function Enlarged(a: Account, tableOk: bool): Account {
    if |a.contents| >= a.bucketSize && tableOk && NextSize(a.bucketSize) > 0
    then a.(bucketSize := NextSize(a.bucketSize), relinked := a.relinked + |a.contents|)
    else a
  }

  /** A `MapSet` that found the account `a` returned `ret` and left `b`. */
  predicate IsSet(a: Account, b: Account, op: Op, ret: int)
    requires op.OpSet?
  {
    ret == SetCode(a.contents, op.key, op.value, op.nodeOk) && b == Booked(a, op)
  }

  lemma KnownIsSet(a: Account, op: Op)
    requires op.OpSet? && !Refused(op.key, op.value) && op.key in a.contents
    ensures |a.contents[op.key]| == |op.value| ==>
      IsSet(a, a.(contents := a.contents[op.key := op.value]), op, HDF_SUCCESS)
    ensures |a.contents[op.key]| != |op.value| ==> IsSet(a, a, op, HDF_ERR_INVALID_OBJECT)
  {
  }

  lemma NewIsSet(a: Account, op: Op)
    requires op.OpSet? && NewKey(a.contents, op.key, op.value)
    ensures var g := Enlarged(a, op.tableOk);
      && (op.nodeOk ==>
          IsSet(a, g.(contents := a.contents[op.key := op.value], inserted := a.inserted + 1), op, HDF_SUCCESS))
      && (!op.nodeOk ==> IsSet(a, g, op, HDF_ERR_INVALID_OBJECT))
  {
  }

  lemma RefusedIsSet(a: Account, op: Op)
    requires op.OpSet? && Refused(op.key, op.value)
    ensures IsSet(a, a, op, HDF_ERR_INVALID_PARAM)
  {
  }

  /** A set in numbers: refused sizes, a value of another size, a full table that grows to 8 buckets or fourfold, up to
      2^31 of them, and a node that cannot be allocated. */
  lemma SetInNumbers(a: Account, op: Op)
    requires op.OpSet? && (a.bucketSize == 0 || (TableSize(a.bucketSize) && a.bucketSize < WORD))
    ensures
      var m, key, value := a.contents, op.key, op.value;
      var refused := |value| == 0 || |value| > 1000 || |key| > 1000;
      var grows := !refused && key !in m && |m| >= a.bucketSize && op.tableOk && a.bucketSize != 0x8000_0000;
      && SetCode(m, key, value, op.nodeOk) ==
           (if refused then -3 else if key in m then (if |m[key]| != |value| then -4 else 0)
            else if op.nodeOk then 0 else -4)
      && Booked(a, op) == Account(
           if refused || (key in m && |m[key]| != |value|) || (key !in m && !op.nodeOk) then m else m[key := value],
           if grows then (if a.bucketSize == 0 then 8 else 4 * a.bucketSize) else a.bucketSize,
           if grows then a.relinked + |m| else a.relinked,
           if !refused && key !in m && op.nodeOk then a.inserted + 1 else a.inserted)
  {
    NextIsTableSize(a.bucketSize);
    hide NextSize, TableSize;
  }

  lemma OthersBooked(a: Account, op: Op)
    ensures op.OpGet? ==> Booked(a, op) == a
    ensures op.OpErase? ==> Booked(a, op) == a.(contents := a.contents - {op.key})
    ensures op.OpDelete? ==> Booked(a, op) == a.(contents := map[], bucketSize := 0)
  {
  }

  /** The account after the first `n` operations. */
  function Books(a: Account, ops: seq<Op>, n: nat): Account
    requires n <= |ops|
  {
    if n == 0 then a else Booked(Books(a, ops, n - 1), ops[n - 1])
  }

  // What the numbers in the account mean for the run.

  /** The operations among the first `n` that insert a key. */
  function Insertions(a: Account, ops: seq<Op>, n: nat): set<nat>
    requires n <= |ops|
  {
    set i | 0 <= i < n && Inserts(Books(a, ops, i), ops[i])
  }

  /** The nodes in the table, summed over the operations among the first `n` that grow it. */
  function NodesAtGrowths(a: Account, ops: seq<Op>, n: nat): nat
    requires n <= |ops|
  {
    if n == 0 then 0
    else
      NodesAtGrowths(a, ops, n - 1) +
      if Grows(Books(a, ops, n - 1), ops[n - 1]) then |Books(a, ops, n - 1).contents| else 0
  }

  lemma OneMoreInsertion(a: Account, ops: seq<Op>, n: nat)
    requires 0 < n <= |ops|
    ensures |Insertions(a, ops, n)| ==
      |Insertions(a, ops, n - 1)| + if Inserts(Books(a, ops, n - 1), ops[n - 1]) then 1 else 0
  {
    hide Inserts, Books;
    var before := Insertions(a, ops, n - 1);
    assert n - 1 !in before;
    assert Insertions(a, ops, n) == if Inserts(Books(a, ops, n - 1), ops[n - 1]) then before + {n - 1} else before;
  }

  lemma NoInsertions(a: Account, ops: seq<Op>)
    ensures Insertions(a, ops, 0) == {}
  {
  }

  lemma {:induction false} BooksAreRight(a: Account, ops: seq<Op>, n: nat)
    requires n <= |ops|
    ensures Books(a, ops, n).inserted == a.inserted + |Insertions(a, ops, n)|
    ensures Books(a, ops, n).relinked == a.relinked + NodesAtGrowths(a, ops, n)
  {
    hide Inserts, Grows, Next, NextSize, Insertions;
    if n == 0 {
      NoInsertions(a, ops);
    } else {
      BooksAreRight(a, ops, n - 1);
      OneMoreInsertion(a, ops, n);
    }
  }

  /** Every table that the first `n` operations ask for is allocated. */
  ghost predicate AllGranted(a: Account, ops: seq<Op>, n: nat)
    requires n <= |ops|
  {
    forall i {:trigger ops[i]} :: 0 <= i < n && Asks(Books(a, ops, i), ops[i]) ==> Grows(Books(a, ops, i), ops[i])
  }

  /** The books since the table was last empty, when `r` nodes had been relinked and `k` keys inserted: the table is
      no smaller than the number of its nodes, and the insertions pay for its growth. */
  predicate Amortised(a: Account, r: nat, k: nat) {
    && r <= a.relinked && k + |a.contents| <= a.inserted && 3 * r <= 4 * k
    && |a.contents| <= a.bucketSize
    && (a.bucketSize == 0 || (TableSize(a.bucketSize) && a.bucketSize < WORD))
    && (a.bucketSize == 0 ==> a.relinked == r)
    && (a.bucketSize != 0 ==> 3 * (a.relinked - r) + HDF_MIN_MAP_SIZE == a.bucketSize)
    && (a.bucketSize > HDF_MIN_MAP_SIZE ==> a.bucketSize <= 4 * (a.inserted - k))
  }

  lemma OneLess(m: Bindings, key: Key)
    requires key in m
    ensures |m - {key}| == |m| - 1
  {
    assert m == (m - {key})[key := m[key]];
  }

  lemma NextContents(a: Account, op: Op)
    ensures |Next(a.contents, op)| ==
      if Inserts(a, op) then |a.contents| + 1
      else if op.OpErase? && op.key in a.contents then |a.contents| - 1
      else if op.OpDelete? then 0
      else |a.contents|
  {
    if op.OpErase? {
      if op.key in a.contents {
        OneLess(a.contents, op.key);
      } else {
        assert a.contents - {op.key} == a.contents;
      }
    }
  }

  /** A growth keeps the bound and makes room. */
  lemma GrowthIsPaidFor(a: Account, r: nat, k: nat)
    requires Amortised(a, r, k) && |a.contents| >= a.bucketSize && NextSize(a.bucketSize) > 0
    ensures var b := a.(bucketSize := NextSize(a.bucketSize), relinked := a.relinked + |a.contents|);
            Amortised(b, r, k) && |b.contents| < b.bucketSize
  {
    NextIsTableSize(a.bucketSize);
    hide TableSize, NextSize;
  }

  lemma PaidInFull(a: Account, r: nat, k: nat)
    requires Amortised(a, r, k)
    ensures 3 * a.relinked <= 4 * a.inserted
  {
    hide TableSize;
    if a.bucketSize > 0 && a.bucketSize <= HDF_MIN_MAP_SIZE {
      assert a.relinked == r || 3 * (a.relinked - r) + HDF_MIN_MAP_SIZE <= HDF_MIN_MAP_SIZE;
    }
  }

  lemma StepStaysAmortised(a: Account, op: Op, r: nat, k: nat) returns (r': nat, k': nat)
    requires Amortised(a, r, k) && (Asks(a, op) ==> Grows(a, op))
    ensures Amortised(Booked(a, op), r', k')
  {
    NextContents(a, op);
    r', k' := r, k;
    if op.OpDelete? {
      PaidInFull(a, r, k);
      r', k' := a.relinked, a.inserted;
    } else if Grows(a, op) {
      GrowthIsPaidFor(a, r, k);
    }
    hide Next, NextSize, TableSize;
  }

  lemma {:induction false} RunStaysAmortised(ops: seq<Op>, n: nat) returns (r: nat, k: nat)
    requires n <= |ops| && AllGranted(EMPTY, ops, n)
    ensures Amortised(Books(EMPTY, ops, n), r, k)
  {
    if n == 0 {
      r, k := 0, 0;
    } else {
      r, k := RunStaysAmortised(ops, n - 1);
      hide Amortised, Asks, Grows, Booked;
      assert Asks(Books(EMPTY, ops, n - 1), ops[n - 1]) ==> Grows(Books(EMPTY, ops, n - 1), ops[n - 1]);
      r, k := StepStaysAmortised(Books(EMPTY, ops, n - 1), ops[n - 1], r, k);
    }
  }

  /** Over any run from an empty map in which every table that is asked for is allocated: after every operation
      there are no more nodes than buckets, and three times the nodes relinked by all resizes are at most four times
      the keys inserted. */
  lemma AmortisedGrowth(ops: seq<Op>, n: nat)
    requires n <= |ops| && AllGranted(EMPTY, ops, n)
    ensures |Books(EMPTY, ops, n).contents| <= Books(EMPTY, ops, n).bucketSize
    ensures 3 * NodesAtGrowths(EMPTY, ops, n) <= 4 * |Insertions(EMPTY, ops, n)|
  {
    var r, k := RunStaysAmortised(ops, n);
    BooksAreRight(EMPTY, ops, n);
    PaidInFull(Books(EMPTY, ops, n), r, k);
  }
}
