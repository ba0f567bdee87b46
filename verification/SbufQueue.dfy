/** Runs of typed writes and reads on one serialization buffer: it is a first-in first-out queue of items. */
module SbufQueue {
  import opened SbufFormat
  import opened Sbuf
  import opened SbufMemory

  datatype Kind = NumberOf(width: nat) | BufferKind | TextKind

  function KindOf(x: Item): Kind {
    match x
    case Number(width, _) => NumberOf(width)
    case Buffer(_) => BufferKind
    case Text(_) => TextKind
  }

  predicate Known(kind: Kind) {
    kind.NumberOf? ==> kind.width in {1, 2, 4, 8}
  }

  /** A write, with what the allocator answers to it, or a read. */
  datatype Op = Put(x: Item, ok: bool, okBytes: bool) | Get(kind: Kind)

  /** Whether a write succeeded; what a read returned: an item, nothing, or bytes that lie outside the memory. */
  datatype Answer = Wrote(done: bool) | Got(x: Item) | Nothing | Stray

  method PutItem(sbuf: HdfSBufRaw, x: Item, ok: bool, okBytes: bool) returns (written: bool)
    requires sbuf.Valid() && sbuf.data != null && Fits(x)
    modifies sbuf`data, sbuf`capacity, sbuf`writePos, sbuf.data
    ensures sbuf.Valid() && (old(sbuf.Bounded()) ==> sbuf.Bounded())
    ensures sbuf.data != null && (sbuf.data == old(sbuf.data) || fresh(sbuf.data))
    ensures (written, MemoryOf(sbuf)) == PutOutcome(old(MemoryOf(sbuf)), x, ok, okBytes)
    ensures !written ==> sbuf.Written() == old(sbuf.Written())
    ensures written ==> ItemAppended(old(sbuf.Written()), sbuf.Written(), x)
  {
    hide Room, NewCapacity, BufferFits, BufferCapacity, Align, Appended, BufferAppended, ItemAppended, ToBytes, Power;
    ghost var w := sbuf.Written();
    match x
    case Number(width, value) =>
      written := sbuf.WriteNumber(width, value, ok);
      if written {
        NumberIsAppended(w, sbuf.Written(), width, value);
      }
    case Buffer(bytes) =>
      written := sbuf.WriteBuffer(At(bytes), ok, okBytes);
      if written {
        SpaceTaken(w, sbuf.Written(), At(bytes));
        BufferIsAppended(w, sbuf.Written(), bytes);
      }
    case Text(chars) =>
      assert StringSource(false, chars) == At(chars + [0]);
      written := sbuf.WriteString(false, chars, ok, okBytes);
      if written {
        SpaceTaken(w, sbuf.Written(), At(chars + [0]));
        TextIsAppended(w, sbuf.Written(), chars);
      }
  }

  lemma NumberIsAppended(before: Bytes, now: Bytes, width: nat, value: nat)
    requires Fits(Number(width, value)) && Appended(before, now, ToBytes(value, width))
    ensures ItemAppended(before, now, Number(width, value)) && |now| == |before| + Align(width)
  {
  }

  lemma BufferIsAppended(before: Bytes, now: Bytes, bytes: Bytes)
    requires Fits(Buffer(bytes)) && BufferAppended(before, now, At(bytes))
    ensures ItemAppended(before, now, Buffer(bytes))
  {
    hide Appended, ToBytes;
  }

  lemma TextIsAppended(before: Bytes, now: Bytes, chars: Bytes)
    requires Fits(Text(chars)) && BufferAppended(before, now, At(chars + [0]))
    ensures ItemAppended(before, now, Text(chars))
  {
    hide Appended, ToBytes;
  }

  // What a read finds in the unread bytes `u`, and what it leaves unread.

  function ReadingNumber(u: Bytes, width: nat): (Answer, Bytes)
    requires width in {1, 2, 4, 8}
  {
    if Align(width) <= |u| then (Got(Number(width, FromBytes(u[..width]))), u[Align(width)..]) else (Nothing, u)
  }

  function ReadingBuffer(u: Bytes): (Answer, Bytes) {
    if !BufferThere(u) then (Nothing, u)
    else
      var n := LengthAt(u);
      if n < 0 then (Stray, u[4 + Align(AsSize(n))..])
      else (Got(Buffer(u[4..4 + n])), u[4 + Align(n)..])
  }

  function ReadingText(u: Bytes): (Answer, Bytes) {
    if StringThere(u) then
      var n := LengthAt(u);
      (Got(Text(u[4..4 + n - 1])), u[4 + Align(n)..])
    else if |u| >= 4 && LengthAt(u) <= 0 then (Nothing, u[4..])
    else (Nothing, u)
  }

  function Reading(u: Bytes, kind: Kind): (Answer, Bytes)
    requires Known(kind)
  {
    match kind
    case NumberOf(width) => ReadingNumber(u, width)
    case BufferKind => ReadingBuffer(u)
    case TextKind => ReadingText(u)
  }

  /** What is put in comes out: a read that matches the first item returns that item and leaves the others. */
  lemma ReadingTheFront(u: Bytes, items: seq<Item>, kind: Kind)
    requires Queued(u, items) && Known(kind)
    ensures items == [] ==> Reading(u, kind) == (Nothing, u)
    ensures items != [] && KindOf(items[0]) == kind ==>
      Reading(u, kind).0 == Got(items[0]) && Queued(Reading(u, kind).1, items[1..])
  {
    if items == [] {
      EmptyQueue(u, kind);
    } else if KindOf(items[0]) == kind {
      QueueFront(u, items);
      ItemInFront(u, items[0], kind);
    }
  }

  lemma ItemInFront(u: Bytes, x: Item, kind: Kind)
    requires Fits(x) && KindOf(x) == kind && InFront(u, x)
    ensures Known(kind) && Reading(u, kind) == (Got(x), u[Extent(x)..])
  {
    hide ReadingNumber, ReadingBuffer, ReadingText, Align, ToBytes, Power, InFront, Extent, Chunks;
    match x
    case Number(width, value) => NumberInFront(u, width, value);
    case Buffer(bytes) => BufferInFront(u, bytes);
    case Text(chars) => TextInFront(u, chars);
  }

  lemma EmptyQueue(u: Bytes, kind: Kind)
    requires Queued(u, []) && Known(kind)
    ensures Reading(u, kind) == (Nothing, u)
  {
  }

  lemma NumberInFront(u: Bytes, width: nat, value: nat)
    requires Fits(Number(width, value)) && InFront(u, Number(width, value))
    ensures ReadingNumber(u, width) == (Got(Number(width, value)), u[Extent(Number(width, value))..])
  {
    hide Power, ToBytes, FromBytes, Align;
    NumberComesBack(value, width);
  }

  lemma LengthInFront(u: Bytes, n: nat)
    requires n < UINT32 / 2 && |u| >= 4 && u[..4] == ToBytes(n, 4)
    ensures LengthAt(u) == n
  {
    LengthComesBack(n);
  }

  lemma BufferMeans(u: Bytes, n: nat)
    requires |u| >= 4 && LengthAt(u) == n < UINT32 / 2 && (n > 0 ==> 4 + Align(n) <= |u|)
    ensures 4 + n <= 4 + Align(n) <= |u| && ReadingBuffer(u) == (Got(Buffer(u[4..4 + n])), u[4 + Align(n)..])
  {
    assert n <= Align(n) && Align(0) == 0;
    hide Align, LengthAt;
    assert BufferThere(u);
  }

  lemma TextMeans(u: Bytes, n: nat)
    requires |u| >= 4 && LengthAt(u) == n && 0 < n <= INT16_MAX && 4 + Align(n) <= |u|
    ensures 4 + n <= |u| && ReadingText(u) == (Got(Text(u[4..4 + n - 1])), u[4 + Align(n)..])
  {
    hide Align, LengthAt;
    assert StringThere(u);
  }

  lemma BufferInFront(u: Bytes, bytes: Bytes)
    requires Fits(Buffer(bytes)) && InFront(u, Buffer(bytes))
    ensures ReadingBuffer(u) == (Got(Buffer(bytes)), u[Extent(Buffer(bytes))..])
  {
    assert Align(4) == 4 && Align(0) == 0;
    hide Align, ToBytes, FromBytes, LengthAt, ReadingBuffer, Signed;
    LengthInFront(u, |bytes|);
    BufferMeans(u, |bytes|);
    assert u[4..4 + |bytes|] == bytes;
  }

  lemma TextInFront(u: Bytes, chars: Bytes)
    requires Fits(Text(chars)) && InFront(u, Text(chars))
    ensures ReadingText(u) == (Got(Text(chars)), u[Extent(Text(chars))..])
  {
    assert Align(4) == 4;
    hide Align, ToBytes, FromBytes, LengthAt, ReadingText, Signed;
    LengthInFront(u, |chars| + 1);
    TextMeans(u, |chars| + 1);
    assert u[4..4 + |chars|] == u[4..4 + |chars| + 1][..|chars|];
  }

  // Reads from memory.

  method GetNumber(sbuf: HdfSBufRaw, width: nat) returns (answer: Answer)
    requires sbuf.Valid() && sbuf.data != null && width in {1, 2, 4, 8}
    modifies sbuf`readPos
    ensures sbuf.Valid() && (answer, sbuf.Unread()) == ReadingNumber(old(sbuf.Unread()), width)
  {
    ghost var u := sbuf.Unread();
    var done, value := sbuf.ReadNumber(width);
    hide Align, FromBytes;
    if done {
      ghost var c: Chunk :| |c| == width && Taken(u, sbuf.Unread(), c) && value == FromBytes(c);
      assert c == u[..width];
      answer := Got(Number(width, value));
    } else {
      answer := Nothing;
    }
  }

  /** The bytes that `ReadBuffer` points to; a negative length can lead outside the memory. */
  method GetBuffer(sbuf: HdfSBufRaw) returns (answer: Answer)
    requires sbuf.Valid() && sbuf.data != null
    modifies sbuf`readPos
    ensures sbuf.Valid() && (answer, sbuf.Unread()) == ReadingBuffer(old(sbuf.Unread()))
  {
    ghost var u := sbuf.Unread();
    assert Align(0) == 0;
    hide Align, LengthAt;
    var done, place, size := sbuf.ReadBuffer();
    if !done {
      answer := Nothing;
    } else if place.Nowhere? {
      answer := Got(Buffer([]));
      BufferMeans(u, 0);
      assert sbuf.Unread() == u[4..] && u[4..4] == [];
    } else if size >= UINT32 / 2 {
      answer := Stray;
      assert sbuf.Unread() == u[4 + Align(AsSize(LengthAt(u)))..];
    } else {
      answer := Got(Buffer(sbuf.data[place.offset..place.offset + size]));
      BufferMeans(u, size);
      assert sbuf.Unread() == u[4 + Align(size)..];
      assert sbuf.data[place.offset..place.offset + size] == u[4..4 + size];
    }
  }

  method GetText(sbuf: HdfSBufRaw) returns (answer: Answer)
    requires sbuf.Valid() && sbuf.data != null
    modifies sbuf`readPos, sbuf.data
    ensures sbuf.Valid() && (answer, sbuf.Unread()) == ReadingText(old(sbuf.Unread()))
  {
    ghost var u, was, start := sbuf.Unread(), sbuf.Written(), sbuf.readPos;
    hide Align, LengthAt;
    var place, size := sbuf.ReadString();
    ghost var now := sbuf.Written();
    if place.Nowhere? {
      answer := Nothing;
      assert sbuf.Unread() == if |u| >= 4 && LengthAt(u) <= 0 then u[4..] else u;
    } else {
      TextMeans(u, size);
      var text := sbuf.data[place.offset..place.offset + size - 1];
      assert text == now[start + 4..start + 4 + size - 1];
      TextRead(was, now, u, start, size);
      assert sbuf.Unread() == now[start + 4 + Align(size)..];
      hide *;
      answer := Got(Text(text));
    }
  }

  lemma TextRead(was: Bytes, now: Bytes, u: Bytes, start: nat, size: nat)
    requires start <= |was| && u == was[start..] && 0 < size < UINT32 && 4 + size <= 4 + Align(size) <= |u|
    requires now == was[start + 4 + size - 1 := 0]
    ensures now[start + 4..start + 4 + size - 1] == u[4..4 + size - 1]
    ensures now[start + 4 + Align(size)..] == u[4 + Align(size)..]
  {
    hide Align;
  }

  method GetItem(sbuf: HdfSBufRaw, kind: Kind) returns (answer: Answer)
    requires sbuf.Valid() && sbuf.data != null && Known(kind)
    modifies sbuf`readPos, sbuf.data
    ensures sbuf.Valid()
    ensures (answer, sbuf.Unread()) == Reading(old(sbuf.Unread()), kind)
  {
    match kind
    case NumberOf(width) => answer := GetNumber(sbuf, width);
    case BufferKind => answer := GetBuffer(sbuf);
    case TextKind => answer := GetText(sbuf);
  }

  // Runs.

  function AfterOp(q: seq<Item>, op: Op, answer: Answer): seq<Item> {
    match op
    case Put(x, _, _) => if answer == Wrote(true) then q + [x] else q
    case Get(_) => if q == [] then q else q[1..]
  }

  /** The items in the buffer after the first `n` operations, given which writes succeeded. */
  function QueueAfter(items: seq<Item>, ops: seq<Op>, answers: seq<Answer>, n: nat): seq<Item>
    requires n <= |ops| && n <= |answers|
  {
    if n == 0 then items
    else AfterOp(QueueAfter(items, ops, answers, n - 1), ops[n - 1], answers[n - 1])
  }

  lemma {:induction false} QueueAfterPrefix(items: seq<Item>, ops: seq<Op>, answers: seq<Answer>, answer: Answer,
                                             n: nat)
    requires n <= |ops| && n <= |answers|
    ensures QueueAfter(items, ops, answers + [answer], n) == QueueAfter(items, ops, answers, n)
  {
    if n > 0 {
      QueueAfterPrefix(items, ops, answers, answer, n - 1);
    }
  }

  /** A read asks for the kind of the first item, if there is one. */
  predicate Matches(q: seq<Item>, op: Op) {
    op.Get? && q != [] ==> KindOf(q[0]) == op.kind
  }

  ghost predicate AllMatch(items: seq<Item>, ops: seq<Op>, answers: seq<Answer>, n: nat)
    requires n <= |ops| && n <= |answers|
  {
    forall i {:trigger ops[i]} :: 0 <= i < n ==> Matches(QueueAfter(items, ops, answers, i), ops[i])
  }

  /** What an operation answers when the queue is `q`: a read returns the first item. */
  predicate Right(q: seq<Item>, op: Op, answer: Answer) {
    match op
    case Put(_, _, _) => answer.Wrote?
    case Get(_) => answer == if q == [] then Nothing else Got(q[0])
  }

  predicate Legal(op: Op) {
    match op
    case Put(x, _, _) => Fits(x)
    case Get(kind) => Known(kind)
  }

  /** The memory after an operation: a read leaves it as it is. */
  function NextMemory(m: Memory, op: Op): (after: Memory)
    requires IsMemory(m) && m.Memory? && Legal(op)
    ensures IsMemory(after) && after.Memory?
  {
    match op
    case Put(x, ok, okBytes) => PutOutcome(m, x, ok, okBytes).1
    case Get(_) => m
  }

  predicate AllLegal(ops: seq<Op>) {
    forall i {:trigger ops[i]} :: 0 <= i < |ops| ==> Legal(ops[i])
  }

  function MemoryAfterOps(m: Memory, ops: seq<Op>, n: nat): (after: Memory)
    requires n <= |ops| && IsMemory(m) && m.Memory? && AllLegal(ops)
    ensures IsMemory(after) && after.Memory?
  {
    if n == 0 then m else NextMemory(MemoryAfterOps(m, ops, n - 1), ops[n - 1])
  }

  /** Every write of a run was answered as the memory before it and the allocator had it. */
  ghost predicate WritesAnswered(m: Memory, ops: seq<Op>, answers: seq<Answer>)
    requires |answers| <= |ops| && IsMemory(m) && m.Memory? && AllLegal(ops)
  {
    forall i {:trigger answers[i]} :: 0 <= i < |answers| && ops[i].Put? ==>
      answers[i] == Wrote(PutOutcome(MemoryAfterOps(m, ops, i), ops[i].x, ops[i].ok, ops[i].okBytes).0)
  }

  lemma Multiple(n: nat, k: nat)
    requires k % 4 == 0
    ensures (n + k) % 4 == n % 4
    ensures k <= n ==> (n - k) % 4 == n % 4
  {
  }

  lemma SpaceIsAligned(source: Source)
    requires source.At? ==> |source.bytes| < UINT32
    ensures Space(source) % 4 == 0
  {
    if source.At? {
      AlignIsMultiple(|source.bytes|);
      hide Align;
    }
  }

  lemma BufferIsAligned(m: Memory, source: Source, ok: bool, okBytes: bool)
    requires IsMemory(m) && m.Memory? && (source.At? ==> |source.bytes| < UINT32)
    ensures BufferOutcome(m, source, ok, okBytes).1.writePos % 4 == m.writePos % 4
  {
    SpaceIsAligned(source);
    Multiple(m.writePos, Space(source));
    hide Space, BufferFits, BufferCapacity;
  }

  lemma OutcomeIsAligned(m: Memory, x: Item, ok: bool, okBytes: bool)
    requires IsMemory(m) && m.Memory? && Fits(x)
    ensures PutOutcome(m, x, ok, okBytes).1.writePos % 4 == m.writePos % 4
  {
    match x
    case Number(width, _) =>
      AlignIsMultiple(width);
      Multiple(m.writePos, Align(width));
      hide Align, Room, NewCapacity;
    case Buffer(bytes) =>
      BufferIsAligned(m, At(bytes), ok, okBytes);
      hide BufferOutcome;
    case Text(chars) =>
      BufferIsAligned(m, At(chars + [0]), ok, okBytes);
      hide BufferOutcome;
  }

  /** An operation keeps both positions at multiples of four. */
  lemma StepIsAligned(m: Memory, op: Op, readPos: nat, u: Bytes, readPos': nat, v: Bytes)
    requires IsMemory(m) && m.Memory? && Legal(op) && readPos + |u| == m.writePos
    requires op.Put? ==> readPos' == readPos
    requires op.Get? ==> v == Reading(u, op.kind).1
    requires readPos' + |v| == NextMemory(m, op).writePos
    ensures m.writePos % 4 == readPos % 4 == 0 ==> NextMemory(m, op).writePos % 4 == readPos' % 4 == 0
  {
    match op
    case Put(x, ok, okBytes) =>
      OutcomeIsAligned(m, x, ok, okBytes);
      hide PutOutcome, Reading, Fits;
    case Get(kind) =>
      ReadingIsAligned(u, kind);
      Multiple(readPos, |u| - |v|);
      hide Reading, PutOutcome;
  }

  lemma ReadingIsAligned(u: Bytes, kind: Kind)
    requires Known(kind)
    ensures var rest := Reading(u, kind).1; |rest| <= |u| && (|u| - |rest|) % 4 == 0
  {
    assert Align(0) == 0;
    match kind
    case NumberOf(width) =>
      AlignIsMultiple(width);
      hide Align, FromBytes;
    case BufferKind =>
      LengthIsAligned(u);
      hide Align, LengthAt, AsSize;
    case TextKind =>
      LengthIsAligned(u);
      hide Align, LengthAt, AsSize;
  }

  lemma LengthIsAligned(u: Bytes)
    ensures |u| >= 4 ==> (4 + Align(AsSize(LengthAt(u)))) % 4 == 0
    ensures |u| >= 4 && LengthAt(u) >= 0 ==> AsSize(LengthAt(u)) == LengthAt(u)
  {
    if |u| >= 4 {
      AlignIsMultiple(AsSize(LengthAt(u)));
      Multiple(4, Align(AsSize(LengthAt(u))));
      hide Align;
    }
  }

  lemma OneMoreAnswered(m: Memory, ops: seq<Op>, answers: seq<Answer>, answer: Answer)
    requires |answers| < |ops| && IsMemory(m) && m.Memory? && AllLegal(ops) && WritesAnswered(m, ops, answers)
    requires var op := ops[|answers|];
      op.Put? ==> answer == Wrote(PutOutcome(MemoryAfterOps(m, ops, |answers|), op.x, op.ok, op.okBytes).0)
    ensures WritesAnswered(m, ops, answers + [answer]) && Legal(ops[|answers|])
    ensures MemoryAfterOps(m, ops, |answers| + 1) == NextMemory(MemoryAfterOps(m, ops, |answers|), ops[|answers|])
  {
    hide PutOutcome;
  }

  method Perform(sbuf: HdfSBufRaw, op: Op, ghost q: seq<Item>) returns (answer: Answer)
    requires sbuf.Valid() && sbuf.data != null && Legal(op)
    modifies sbuf, sbuf.data
    ensures sbuf.Valid() && sbuf.data != null && (sbuf.data == old(sbuf.data) || fresh(sbuf.data))
    ensures old(sbuf.Bounded()) ==> sbuf.Bounded()
    ensures Queued(old(sbuf.Unread()), q) && Matches(q, op) ==>
      Right(q, op, answer) && Queued(sbuf.Unread(), AfterOp(q, op, answer))
    ensures op.Put? ==> answer == Wrote(PutOutcome(old(MemoryOf(sbuf)), op.x, op.ok, op.okBytes).0)
    ensures op.Get? ==> (answer, sbuf.Unread()) == Reading(old(sbuf.Unread()), op.kind)
    ensures MemoryOf(sbuf) == NextMemory(old(MemoryOf(sbuf)), op)
    ensures op.Put? ==> sbuf.readPos == old(sbuf.readPos)
  {
    ghost var before, w, start := sbuf.Unread(), sbuf.Written(), sbuf.readPos;
    match op
    case Put(x, ok, okBytes) =>
      var done := PutItem(sbuf, x, ok, okBytes);
      answer := Wrote(done);
      if done && Queued(before, q) {
        ItemAppendedBehind(w, sbuf.Written(), x, start);
        QueueGrows(before, q, sbuf.Unread(), x);
      }
    case Get(kind) =>
      answer := GetItem(sbuf, kind);
      if Queued(before, q) {
        ReadingTheFront(before, q, kind);
      }
  }

  /** A run on a buffer that holds `items`. Every write succeeds exactly when there is room for it after the writes
      before. As long as reads ask for what is first in the queue, they return it, and nothing else is in the buffer
      than what was written and not yet read. */
  method PerformAll(sbuf: HdfSBufRaw, ops: seq<Op>, ghost items: seq<Item>) returns (answers: seq<Answer>)
    requires sbuf.Valid() && sbuf.data != null && Queued(sbuf.Unread(), items) && AllLegal(ops)
    modifies sbuf, sbuf.data
    ensures sbuf.Valid() && sbuf.data != null && (old(sbuf.Bounded()) ==> sbuf.Bounded()) && |answers| == |ops|
    ensures WritesAnswered(old(MemoryOf(sbuf)), ops, answers)
    ensures MemoryOf(sbuf) == MemoryAfterOps(old(MemoryOf(sbuf)), ops, |ops|)
    ensures old(sbuf.writePos) % 4 == old(sbuf.readPos) % 4 == 0 ==> sbuf.writePos % 4 == sbuf.readPos % 4 == 0
    ensures AllMatch(items, ops, answers, |ops|) ==> AllRight(sbuf.Unread(), items, ops, answers)
  {
    hide *;
    answers := [];
    ghost var m := MemoryOf(sbuf);
    RunBegins(m, sbuf.Unread(), items, ops);
    while |answers| < |ops|
      invariant |answers| <= |ops| && sbuf.Valid() && sbuf.data != null && (old(sbuf.Bounded()) ==> sbuf.Bounded())
      invariant sbuf.data == old(sbuf.data) || fresh(sbuf.data)
      invariant old(sbuf.writePos) % 4 == old(sbuf.readPos) % 4 == 0 ==> sbuf.writePos % 4 == sbuf.readPos % 4 == 0
      invariant AllMatch(items, ops, answers, |answers|) ==> AllRight(sbuf.Unread(), items, ops, answers)
      invariant MemoryOf(sbuf) == MemoryAfterOps(m, ops, |answers|) && WritesAnswered(m, ops, answers)
      decreases |ops| - |answers|
    {
      ghost var q := QueueAfter(items, ops, answers, |answers|);
      ghost var u, was, start := sbuf.Unread(), MemoryOf(sbuf), sbuf.readPos;
      Positions(sbuf);
      LegalAt(ops, |answers|);
      var answer := Perform(sbuf, ops[|answers|], q);
      Positions(sbuf);
      StepIsAligned(was, ops[|answers|], start, u, sbuf.readPos, sbuf.Unread());
      OneMoreAnswered(m, ops, answers, answer);
      OneMoreRight(u, sbuf.Unread(), items, ops, answers, answer);
      answers := answers + [answer];
    }
  }

  lemma Positions(sbuf: HdfSBufRaw)
    requires sbuf.Valid()
    ensures sbuf.readPos + |sbuf.Unread()| == sbuf.writePos == MemoryOf(sbuf).writePos
  {
  }

  lemma RunBegins(m: Memory, u: Bytes, items: seq<Item>, ops: seq<Op>)
    requires IsMemory(m) && m.Memory? && AllLegal(ops) && Queued(u, items)
    ensures MemoryAfterOps(m, ops, 0) == m && WritesAnswered(m, ops, []) && AllRight(u, items, ops, [])
  {
    hide Queued;
  }

  lemma LegalAt(ops: seq<Op>, i: nat)
    requires AllLegal(ops) && i < |ops|
    ensures Legal(ops[i])
  {
  }

  /** The first `|answers|` operations were answered as a queue would, and `u` holds what is left. */
  ghost predicate AllRight(u: Bytes, items: seq<Item>, ops: seq<Op>, answers: seq<Answer>)
    requires |answers| <= |ops|
  {
    && Queued(u, QueueAfter(items, ops, answers, |answers|))
    && forall i {:trigger answers[i]} :: 0 <= i < |answers| ==>
           Right(QueueAfter(items, ops, answers, i), ops[i], answers[i])
  }

  lemma LessMatches(items: seq<Item>, ops: seq<Op>, answers: seq<Answer>, answer: Answer)
    requires |answers| < |ops| && AllMatch(items, ops, answers + [answer], |answers| + 1)
    ensures AllMatch(items, ops, answers, |answers|)
    ensures Matches(QueueAfter(items, ops, answers, |answers|), ops[|answers|])
  {
    hide Matches, AfterOp;
    var now := answers + [answer];
    forall i {:trigger ops[i]} | 0 <= i <= |answers| ensures Matches(QueueAfter(items, ops, answers, i), ops[i]) {
      QueueAfterPrefix(items, ops, answers, answer, i);
      assert Matches(QueueAfter(items, ops, now, i), ops[i]);
    }
  }

  lemma OneMoreRight(u: Bytes, v: Bytes, items: seq<Item>, ops: seq<Op>, answers: seq<Answer>, answer: Answer)
    requires |answers| < |ops|
    requires AllMatch(items, ops, answers, |answers|) ==> AllRight(u, items, ops, answers)
    requires
      var q, op := QueueAfter(items, ops, answers, |answers|), ops[|answers|];
      Queued(u, q) && Matches(q, op) ==> Right(q, op, answer) && Queued(v, AfterOp(q, op, answer))
    ensures AllMatch(items, ops, answers + [answer], |answers| + 1) ==> AllRight(v, items, ops, answers + [answer])
  {
    hide Queued, Matches, Right, AfterOp, AllMatch;
    var now := answers + [answer];
    if AllMatch(items, ops, now, |answers| + 1) {
      LessMatches(items, ops, answers, answer);
      QueueAfterPrefix(items, ops, answers, answer, |answers|);
      forall i {:trigger now[i]} | 0 <= i < |now| ensures Right(QueueAfter(items, ops, now, i), ops[i], now[i]) {
        QueueAfterPrefix(items, ops, answers, answer, i);
        assert i < |answers| ==> now[i] == answers[i];
      }
    }
  }
}
