/** Frames of input events, as values: their form in memory, and which of them a run of pushes sends. */
module EventFrames {
  import opened SbufFormat
  import opened Sbuf
  import opened SbufMemory
  import opened SbufQueue
  import opened SbufLayout

  const EV_SYN := 0
  const SYN_REPORT := 0
  const SYN_MT_REPORT := 2
  const UINT16 := 0x1_0000
  const PACKAGE_SIZE := 24

  /** `EventPackage`; `value` is the pattern of its bits. */
  datatype EventPackage = EventPackage(kind: nat, code: nat, value: nat, time: nat)

  predicate IsPackage(p: EventPackage) {
    p.kind < UINT32 && p.code < UINT32 && p.value < UINT32 && p.time < SIZE
  }

  /** A package in memory, with four bytes of zeros before the aligned time. */
  function ToMemory(p: EventPackage): (b: Bytes)
    ensures |b| == PACKAGE_SIZE
  {
    ToBytes(p.kind, 4) + ToBytes(p.code, 4) + ToBytes(p.value, 4) + [0, 0, 0, 0] + ToBytes(p.time, 8)
  }

  function FromMemory(b: Bytes): EventPackage
    requires |b| == PACKAGE_SIZE
  {
    EventPackage(FromBytes(b[..4]), FromBytes(b[4..8]), FromBytes(b[8..12]), FromBytes(b[16..24]))
  }

  lemma Powers()
    ensures Power(0x100, 4) == UINT32 && Power(0x100, 8) == SIZE
  {
    assert Power(0x100, 2) == 0x100 * Power(0x100, 1) == 0x1_0000;
    assert Power(0x100, 4) == 0x100 * Power(0x100, 3) == 0x1_0000 * Power(0x100, 2);
    assert Power(0x100, 6) == 0x100 * Power(0x100, 5) == 0x1_0000 * Power(0x100, 4);
    assert Power(0x100, 8) == 0x100 * Power(0x100, 7) == 0x1_0000 * Power(0x100, 6);
  }

  lemma PackageComesBack(p: EventPackage)
    requires IsPackage(p)
    ensures FromMemory(ToMemory(p)) == p
  {
    Powers();
    hide Power, FromBytes, ToBytes;
    NumberComesBack(p.kind, 4);
    NumberComesBack(p.code, 4);
    NumberComesBack(p.value, 4);
    NumberComesBack(p.time, 8);
    var b := ToMemory(p);
    assert b[..4] == ToBytes(p.kind, 4) && b[4..8] == ToBytes(p.code, 4);
    assert b[8..12] == ToBytes(p.value, 4) && b[16..24] == ToBytes(p.time, 8);
  }

  /** The fields stand where the compiler puts them: three words, a gap, and an aligned time, lowest byte first. */
  lemma PackageLayout(p: EventPackage)
    requires IsPackage(p)
    ensures var b := ToMemory(p);
      && |b| == 24 && Word(b, 0) == p.kind && Word(b, 4) == p.code && Word(b, 8) == p.value && Word(b, 12) == 0
      && Word(b, 16) + 0x1_0000_0000 * Word(b, 20) == p.time
  {
    Powers();
    var b := ToMemory(p);
    assert b[0..] == b && b[4..][..4] == ToBytes(p.code, 4) && b[8..][..4] == ToBytes(p.value, 4);
    assert b[..4] == ToBytes(p.kind, 4) && b[16..][..8] == ToBytes(p.time, 8);
    assert b[12] == b[13] == b[14] == b[15] == 0;
    hide ToMemory, ToBytes, Power, FromBytes;
    NumberFirst(b, p.kind, 4);
    NumberFirst(b[4..], p.code, 4);
    NumberFirst(b[8..], p.value, 4);
    NumberFirst(b[16..], p.time, 8);
  }

  function Items(frame: seq<EventPackage>): (items: seq<Item>)
    ensures |items| == |frame|
    ensures forall i {:trigger items[i]} :: 0 <= i < |frame| ==> items[i] == Buffer(ToMemory(frame[i]))
  {
    seq(|frame|, i requires 0 <= i < |frame| => Buffer(ToMemory(frame[i])))
  }

  /** The memory holds the packages of `frame` and the empty buffer that ends a frame. */
  ghost predicate HoldsFrame(memory: Bytes, frame: seq<EventPackage>) {
    HoldsRest(memory, frame, 0)
  }

  /** What is in the memory after `k` packages have been read. */
  ghost predicate HoldsRest(memory: Bytes, frame: seq<EventPackage>, k: nat)
    requires k <= |frame|
  {
    Queued(memory, (Items(frame) + [Buffer([])])[k..])
  }

  predicate ArePackages(frame: seq<EventPackage>) {
    forall i {:trigger frame[i]} :: 0 <= i < |frame| ==> IsPackage(frame[i])
  }

  // The receiver reads buffers until one that is no package.

  predicate PackageAt(u: Bytes) {
    var answer := ReadingBuffer(u).0;
    answer.Got? && answer.x.Buffer? && |answer.x.bytes| == PACKAGE_SIZE
  }

  lemma PackageIsTaken(u: Bytes)
    ensures |ReadingBuffer(u).1| <= |u|
    ensures PackageAt(u) ==> |ReadingBuffer(u).1| < |u|
  {
  }

  /** The packages that a receiver gets, and what it leaves in the memory. */
  function Receive(u: Bytes): (seq<EventPackage>, Bytes)
    decreases |u|
  {
    if PackageAt(u) then
      PackageIsTaken(u);
      var (packages, rest) := Receive(ReadingBuffer(u).1);
      ([FromMemory(ReadingBuffer(u).0.x.bytes)] + packages, rest)
    else ([], ReadingBuffer(u).1)
  }

  lemma NextOfFrame(u: Bytes, frame: seq<EventPackage>, k: nat)
    requires k <= |frame| && HoldsRest(u, frame, k)
    ensures k < |frame| ==>
      ReadingBuffer(u).0 == Got(Buffer(ToMemory(frame[k]))) && HoldsRest(ReadingBuffer(u).1, frame, k + 1)
    ensures k == |frame| ==> ReadingBuffer(u).0 == Got(Buffer([])) && ReadingBuffer(u).1 == []
  {
    var all := Items(frame) + [Buffer([])];
    assert k == |frame| ==> all[k..][1..] == [];
    hide ReadingBuffer, ToMemory;
    ReadingTheFront(u, all[k..], BufferKind);
    assert all[k..][1..] == all[k + 1..];
  }

  lemma {:induction false} RestIsReceived(u: Bytes, frame: seq<EventPackage>, k: nat)
    requires k <= |frame| && HoldsRest(u, frame, k) && ArePackages(frame)
    ensures Receive(u) == (frame[k..], [])
    decreases |frame| - k
  {
    hide HoldsRest, ReadingBuffer, ToMemory, FromMemory, IsPackage;
    NextOfFrame(u, frame, k);
    if k < |frame| {
      PackageComesBack(frame[k]);
      RestIsReceived(ReadingBuffer(u).1, frame, k + 1);
      assert frame[k..] == [frame[k]] + frame[k + 1..];
    } else {
      assert frame[k..] == [];
    }
  }

  /** A frame in memory comes out as it was put in, and nothing is left. */
  lemma FrameIsReceived(memory: Bytes, frame: seq<EventPackage>)
    requires HoldsFrame(memory, frame) && ArePackages(frame)
    ensures Receive(memory) == (frame, [])
  {
    RestIsReceived(memory, frame, 0);
    assert frame[0..] == frame;
  }

  // The sender.

  /** A push, with whether the package and, at the end of a frame, the terminator could be written. */
  datatype Push = Push(p: EventPackage, wrote: bool, ended: bool)

  /** What an input device has been given since the last complete frame, whether a write has failed since then, and
      the frames that it has sent. */
  datatype View = View(frame: seq<EventPackage>, failed: bool, sent: seq<seq<EventPackage>>)

  predicate EndsFrame(p: EventPackage) {
    p.kind == EV_SYN && p.code == SYN_REPORT
  }

  /** Only a synchronisation with the code of a report ends a frame, and one with the code 2 of a report of a contact,
      as any other, does not. */
  lemma ReportEndsFrame(p: EventPackage)
    ensures EndsFrame(p) <==> p.kind == 0 && p.code == 0
    ensures p.kind == 0 && p.code == SYN_MT_REPORT ==> !EndsFrame(p)
  {
  }

  /** The view after a push. A frame is sent if no write failed, if it has fewer than `pkgNum` packages, and if there
      is someone to send it to. Whatever happened, the next frame starts clean. */
  function Next(v: View, x: Push, pkgNum: nat, hasDev: bool): View {
    var frame, failed := v.frame + [x.p], v.failed || !x.wrote;
    if !EndsFrame(x.p) then View(frame, failed, v.sent)
    else View([], false, if !failed && x.ended && |frame| < pkgNum && hasDev then v.sent + [frame] else v.sent)
  }

  lemma TooManyOrNot(frame: seq<EventPackage>, p: EventPackage, pkgCount: nat, pkgNum: nat)
    requires pkgNum < UINT16 && (|frame| < pkgNum || frame == [])
    requires pkgCount == |frame|
    ensures (pkgCount + 1) % UINT16 == |frame + [p]| && ((pkgCount + 1) % UINT16 >= pkgNum <==> |frame + [p]| >= pkgNum)
  {
  }

  lemma OnePackageMore(u: Bytes, now: Bytes, frame: seq<EventPackage>, p: EventPackage)
    requires Queued(u, Items(frame)) && BufferAppended(u, now, At(ToMemory(p)))
    ensures Queued(now, Items(frame + [p]))
  {
    assert Items(frame + [p]) == Items(frame) + [Buffer(ToMemory(p))];
    assert ItemAppended(u, now, Buffer(ToMemory(p)));
    hide Queued;
    QueueGrows(u, Items(frame), now, Buffer(ToMemory(p)));
  }

  lemma EndOfFrame(u: Bytes, now: Bytes, frame: seq<EventPackage>)
    requires Queued(u, Items(frame)) && BufferAppended(u, now, Null)
    ensures HoldsFrame(now, frame)
  {
    var all := Items(frame) + [Buffer([])];
    assert all[0..] == all;
    hide Queued;
    QueueGrows(u, Items(frame), now, Buffer([]));
  }

  lemma EmptyFrame(u: Bytes)
    ensures u == [] ==> Queued(u, Items([]))
  {
  }

  // The memory of the sender's buffer, and what the writes of a run of pushes come to.

  /** `HdfSbufFlush`. */
  function Emptied(m: Memory): Memory {
    if m.NoBuffer? then m else m.(writePos := 0)
  }

  /** The outcome of one buffer: a failed write empties the buffer. */
  function BufferWrite(m: Memory, source: Source, ok: bool, okBytes: bool): (r: (bool, Memory))
    requires IsMemory(m) && (source.At? ==> |source.bytes| < UINT32)
    ensures IsMemory(r.1) && (r.1.Memory? <==> m.Memory?)
  {
    if m.NoBuffer? then (false, m)
    else
      var (written, after) := BufferOutcome(m, source, ok, okBytes);
      (written, if written then after else Emptied(after))
  }

  /** Whether memory can be allocated for the length and the bytes of a package, and for the terminator. */
  datatype Grants = Grants(length: bool, bytes: bool, terminator: bool)

  /** One push, and the memory after it. */
  function Pushed(m: Memory, p: EventPackage, g: Grants): (r: (Push, Memory))
    requires IsMemory(m)
    ensures IsMemory(r.1) && (r.1.Memory? <==> m.Memory?) && r.0.p == p
  {
    var (wrote, m1) := BufferWrite(m, At(ToMemory(p)), g.length, g.bytes);
    if !EndsFrame(p) then (Push(p, wrote, true), m1)
    else
      var (ended, m2) := BufferWrite(m1, Null, g.terminator, true);
      (Push(p, wrote, ended), Emptied(m2))
  }

  function MemoryAfter(m: Memory, packages: seq<EventPackage>, grants: seq<Grants>): (after: Memory)
    requires IsMemory(m) && |grants| == |packages|
    ensures IsMemory(after)
  {
    if packages == [] then m
    else
      var n := |packages| - 1;
      Pushed(MemoryAfter(m, packages[..n], grants[..n]), packages[n], grants[n]).1
  }

  /** The pushes of a run, each with the outcome that the memory and the allocations give it. */
  function Pushes(m: Memory, packages: seq<EventPackage>, grants: seq<Grants>): (pushes: seq<Push>)
    requires IsMemory(m) && |grants| == |packages|
    ensures |pushes| == |packages|
  {
    if packages == [] then []
    else
      var n := |packages| - 1;
      Pushes(m, packages[..n], grants[..n]) +
      [Pushed(MemoryAfter(m, packages[..n], grants[..n]), packages[n], grants[n]).0]
  }

  lemma NoPushes(m: Memory)
    requires IsMemory(m)
    ensures Pushes(m, [], []) == [] && MemoryAfter(m, [], []) == m
  {
  }

  lemma OnePush(m: Memory, packages: seq<EventPackage>, grants: seq<Grants>, n: nat)
    requires IsMemory(m) && |grants| == |packages| && n < |packages|
    ensures var r := Pushed(MemoryAfter(m, packages[..n], grants[..n]), packages[n], grants[n]);
      && Pushes(m, packages[..n + 1], grants[..n + 1]) == Pushes(m, packages[..n], grants[..n]) + [r.0]
      && MemoryAfter(m, packages[..n + 1], grants[..n + 1]) == r.1
  {
    assert packages[..n + 1][..n] == packages[..n] && grants[..n + 1][..n] == grants[..n];
  }

  lemma {:induction false} PushesAreThePackages(m: Memory, packages: seq<EventPackage>, grants: seq<Grants>)
    requires IsMemory(m) && |grants| == |packages|
    ensures Packages(Pushes(m, packages, grants)) == packages
  {
    hide Pushed, MemoryAfter, IsMemory;
    if packages != [] {
      var n := |packages| - 1;
      PushesAreThePackages(m, packages[..n], grants[..n]);
      assert Pushes(m, packages, grants)[..n] == Pushes(m, packages[..n], grants[..n]);
      forall i | 0 <= i < |packages| ensures Packages(Pushes(m, packages, grants))[i] == packages[i] {
        if i < n {
          assert Packages(Pushes(m, packages[..n], grants[..n]))[i] == packages[..n][i];
        }
      }
    }
  }

  // Runs: the frames sent are those pieces of what was pushed that end with a report and went well.

  function ViewAfter(pushes: seq<Push>, pkgNum: nat, hasDev: bool): View {
    if pushes == [] then View([], false, [])
    else
      var last := pushes[|pushes| - 1];
      Next(ViewAfter(pushes[..|pushes| - 1], pkgNum, hasDev), last, pkgNum, hasDev)
  }

  lemma FirstView(pkgNum: nat, hasDev: bool)
    ensures ViewAfter([], pkgNum, hasDev) == View([], false, [])
  {
  }

  lemma NextView(pushes: seq<Push>, x: Push, pkgNum: nat, hasDev: bool)
    ensures ViewAfter(pushes + [x], pkgNum, hasDev) ==
      Next(ViewAfter(pushes, pkgNum, hasDev), x, pkgNum, hasDev)
  {
    assert (pushes + [x])[..|pushes|] == pushes;
  }

  /** What was pushed since the last report. */
  function Partial(pushes: seq<Push>): seq<Push> {
    if pushes == [] || EndsFrame(pushes[|pushes| - 1].p) then []
    else Partial(pushes[..|pushes| - 1]) + [pushes[|pushes| - 1]]
  }

  /** The pieces that end with a report. */
  function Complete(pushes: seq<Push>): seq<seq<Push>> {
    if pushes == [] then []
    else
      var before, last := pushes[..|pushes| - 1], pushes[|pushes| - 1];
      if EndsFrame(last.p) then Complete(before) + [Partial(before) + [last]] else Complete(before)
  }

  function Joined(pieces: seq<seq<Push>>): seq<Push> {
    if pieces == [] then [] else Joined(pieces[..|pieces| - 1]) + pieces[|pieces| - 1]
  }

  /** Every package is in exactly one piece, in the order of the pushes. */
  lemma {:induction false} PiecesMakeTheRun(pushes: seq<Push>)
    ensures Joined(Complete(pushes)) + Partial(pushes) == pushes
  {
    if pushes != [] {
      var before, last := pushes[..|pushes| - 1], pushes[|pushes| - 1];
      PiecesMakeTheRun(before);
      assert pushes == before + [last];
      if EndsFrame(last.p) {
        var all := Complete(pushes);
        assert all[..|all| - 1] == Complete(before);
        assert Joined(all) == Joined(Complete(before)) + (Partial(before) + [last]);
      }
    }
  }

  function Packages(piece: seq<Push>): (frame: seq<EventPackage>)
    ensures |frame| == |piece|
  {
    seq(|piece|, i requires 0 <= i < |piece| => piece[i].p)
  }

  predicate EndsWithReport(piece: seq<Push>) {
    piece != [] && forall j :: 0 <= j < |piece| ==> (EndsFrame(piece[j].p) <==> j == |piece| - 1)
  }

  lemma {:induction false} PiecesEnd(pushes: seq<Push>)
    ensures forall i :: 0 <= i < |Complete(pushes)| ==> EndsWithReport(Complete(pushes)[i])
    ensures forall j :: 0 <= j < |Partial(pushes)| ==> !EndsFrame(Partial(pushes)[j].p)
  {
    if pushes != [] {
      PiecesEnd(pushes[..|pushes| - 1]);
    }
  }

  /** Every piece ends with a report, and there is none before in it; since the last one there has been none. */
  lemma PiecesEndWithReports(pushes: seq<Push>, i: nat)
    ensures i < |Complete(pushes)| ==>
      var piece := Complete(pushes)[i];
      && piece != []
      && forall j :: 0 <= j < |piece| ==> (j == |piece| - 1 <==> piece[j].p.kind == 0 && piece[j].p.code == 0)
    ensures var piece := Partial(pushes);
      forall j :: 0 <= j < |piece| ==> !(piece[j].p.kind == 0 && piece[j].p.code == 0)
  {
    PiecesEnd(pushes);
    hide Complete, Partial;
  }

  /** A piece is sent if all its packages and its terminator could be written, if it is short enough, and if there
      is someone to send it to. */
  predicate Went(piece: seq<Push>, pkgNum: nat, hasDev: bool) {
    && hasDev && 0 < |piece| < pkgNum && piece[|piece| - 1].ended
    && forall i :: 0 <= i < |piece| ==> piece[i].wrote
  }

  function SentPieces(pieces: seq<seq<Push>>, pkgNum: nat, hasDev: bool): seq<seq<EventPackage>> {
    if pieces == [] then []
    else
      var sent, last := SentPieces(pieces[..|pieces| - 1], pkgNum, hasDev), pieces[|pieces| - 1];
      if Went(last, pkgNum, hasDev) then sent + [Packages(last)] else sent
  }

  lemma {:induction false} ViewIsPieces(pushes: seq<Push>, pkgNum: nat, hasDev: bool)
    ensures var v := ViewAfter(pushes, pkgNum, hasDev);
      && v.frame == Packages(Partial(pushes))
      && (v.failed <==> exists i :: 0 <= i < |Partial(pushes)| && !Partial(pushes)[i].wrote)
      && v.sent == SentPieces(Complete(pushes), pkgNum, hasDev)
  {
    if pushes != [] {
      var before, last := pushes[..|pushes| - 1], pushes[|pushes| - 1];
      ViewIsPieces(before, pkgNum, hasDev);
      var piece := Partial(before) + [last];
      assert Packages(piece) == Packages(Partial(before)) + [last.p];
      assert (forall i :: 0 <= i < |piece| ==> piece[i].wrote) <==> (
        last.wrote && forall i :: 0 <= i < |Partial(before)| ==> Partial(before)[i].wrote) by {
        assert forall i :: 0 <= i < |Partial(before)| ==> piece[i] == Partial(before)[i];
        assert piece[|piece| - 1] == last;
      }
      if EndsFrame(last.p) {
        var all := Complete(pushes);
        assert all[..|all| - 1] == Complete(before) && all[|all| - 1] == piece;
      } else {
        assert Partial(pushes) == piece;
      }
    }
  }

  predicate AllPackages(frames: seq<seq<EventPackage>>) {
    forall i {:trigger frames[i]} :: 0 <= i < |frames| ==> ArePackages(frames[i])
  }

  /** The packages of a run are those of its pieces. */
  lemma {:induction false} PiecesArePackages(pushes: seq<Push>, pkgNum: nat, hasDev: bool)
    requires ArePackages(Packages(pushes))
    ensures ArePackages(Packages(Partial(pushes)))
    ensures AllPackages(SentPieces(Complete(pushes), pkgNum, hasDev))
  {
    if pushes != [] {
      var before, last := pushes[..|pushes| - 1], pushes[|pushes| - 1];
      assert Packages(pushes) == Packages(before) + [last.p];
      assert Packages(pushes)[..|before|] == Packages(before) && Packages(pushes)[|before|] == last.p;
      hide IsPackage;
      PiecesArePackages(before, pkgNum, hasDev);
      var piece := Partial(before) + [last];
      assert Packages(piece) == Packages(Partial(before)) + [last.p];
      assert ArePackages(Packages(piece));
      if EndsFrame(last.p) {
        var all := Complete(pushes);
        assert all[..|all| - 1] == Complete(before) && all[|all| - 1] == piece;
        assert Packages(Partial(pushes)) == [];
        var sent := SentPieces(Complete(before), pkgNum, hasDev);
        var frames := SentPieces(all, pkgNum, hasDev);
        assert frames == if Went(piece, pkgNum, hasDev) then sent + [Packages(piece)] else sent;
      }
    }
  }

  // While allocations succeed, exactly the frames that are too long for the device or for its buffer are lost.

  const ENTRY_SIZE := 4 + PACKAGE_SIZE

  /** How large the memory of this capacity can become, one default step after the other. */
  function Limit(isBind: bool, capacity: nat): (limit: nat)
    requires capacity < SIZE / 2
    ensures capacity <= limit
    decreases if capacity < HDF_SBUF_MAX_SIZE then HDF_SBUF_MAX_SIZE - capacity else 0
  {
    var g := GrowTo(isBind, capacity, HDF_SBUF_GROW_SIZE_DEFAULT, true);
    DefaultStep(isBind, capacity);
    if g.To? then Limit(isBind, g.newSize) else capacity
  }

  lemma DefaultStep(isBind: bool, capacity: nat)
    requires capacity < SIZE / 2
    ensures var g := GrowTo(isBind, capacity, HDF_SBUF_GROW_SIZE_DEFAULT, true);
      g.To? ==> capacity + HDF_SBUF_GROW_SIZE_DEFAULT <= g.newSize <= HDF_SBUF_MAX_SIZE
  {
    if capacity <= HDF_SBUF_MAX_SIZE {
      NoWrap(capacity + HDF_SBUF_GROW_SIZE_DEFAULT);
    }
  }

  /** Memory of its own of up to 512 KB stops growing less than one step below that. */
  lemma {:induction false} OwnedLimit(capacity: nat)
    requires capacity <= HDF_SBUF_MAX_SIZE
    ensures HDF_SBUF_MAX_SIZE < Limit(false, capacity) + HDF_SBUF_GROW_SIZE_DEFAULT + HDF_SBUF_ALIGN
    ensures Limit(false, capacity) <= HDF_SBUF_MAX_SIZE
    decreases HDF_SBUF_MAX_SIZE - capacity
  {
    var g := GrowTo(false, capacity, HDF_SBUF_GROW_SIZE_DEFAULT, true);
    DefaultStep(false, capacity);
    NoWrap(capacity + HDF_SBUF_GROW_SIZE_DEFAULT);
    if g.To? {
      OwnedLimit(g.newSize);
    }
  }

  /** In whole words, it stops at the last step that stays within 512 KB. */
  lemma {:induction false} LimitInSteps(capacity: nat)
    requires capacity <= 0x8_0000 && capacity % 4 == 0
    ensures Limit(false, capacity) == capacity + (0x8_0000 - capacity) / 256 * 256
    decreases 0x8_0000 - capacity
  {
    LimitByStep(capacity);
    OneStepLess(0x8_0000 - capacity);
    hide Limit;
    if capacity + 256 <= 0x8_0000 {
      LimitInSteps(capacity + 256);
    }
  }

  lemma LimitByStep(capacity: nat)
    requires capacity <= 0x8_0000 && capacity % 4 == 0
    ensures Limit(false, capacity) == if capacity + 256 <= 0x8_0000 then Limit(false, capacity + 256) else capacity
  {
    GrowToMeans(false, capacity, HDF_SBUF_GROW_SIZE_DEFAULT, true);
    assert (capacity + 256 + 3) / 4 * 4 == capacity + 256;
    hide GrowTo;
  }

  lemma OneStepLess(n: nat)
    ensures n >= 256 ==> (n - 256) / 256 * 256 + 256 == n / 256 * 256
    ensures n < 256 ==> n / 256 * 256 == 0
  {
  }

  lemma BoundLimit(capacity: nat)
    requires capacity < SIZE / 2
    ensures Limit(true, capacity) == capacity
  {
  }

  lemma SmallWrite(isBind: bool, capacity: nat, writePos: nat, size: nat)
    requires writePos <= capacity < SIZE / 2 && size in {4, PACKAGE_SIZE}
    ensures Align(size) == size
    ensures Room(isBind, capacity, writePos, size, true).To? <==> writePos + size <= Limit(isBind, capacity)
    ensures Limit(isBind, NewCapacity(isBind, capacity, writePos, size, true)) == Limit(isBind, capacity)
  {
    assert Align(4) == 4 && Align(PACKAGE_SIZE) == PACKAGE_SIZE;
    hide Align;
    assert GrowSize(size) == HDF_SBUF_GROW_SIZE_DEFAULT;
    DefaultStep(isBind, capacity);
    hide GrowTo;
  }

  function LimitOf(m: Memory): nat
    requires IsMemory(m)
  {
    if m.NoBuffer? then 0 else Limit(m.isBind, m.capacity)
  }

  lemma PackageWrite(m: Memory, source: Source)
    requires IsMemory(m) && m.Memory? && (source.At? ==> |source.bytes| == PACKAGE_SIZE)
    ensures var (written, after) := BufferWrite(m, source, true, true);
      var size := if source.At? then ENTRY_SIZE else 4;
      && after.Memory? && LimitOf(after) == LimitOf(m)
      && (written <==> m.writePos + size <= LimitOf(m))
      && (written ==> after.writePos == m.writePos + size)
  {
    SmallWrite(m.isBind, m.capacity, m.writePos, 4);
    RoomFits(m.isBind, m.capacity, m.writePos, 4, true);
    BufferRoom(m.isBind, m.capacity, m.writePos, source, true, true);
    hide Align, Room, NewCapacity, BufferFits, BufferCapacity, Limit;
    var c := NewCapacity(m.isBind, m.capacity, m.writePos, 4, true);
    if Room(m.isBind, m.capacity, m.writePos, 4, true).To? && source.At? {
      SmallWrite(m.isBind, c, m.writePos + 4, PACKAGE_SIZE);
    }
  }

  predicate AllWrote(piece: seq<Push>) {
    forall i :: 0 <= i < |piece| ==> piece[i].wrote
  }

  /** A frame of `n` packages is short enough for the device, and fits with its end into `limit` bytes. */
  predicate Kept(n: nat, pkgNum: nat, limit: nat) {
    n < pkgNum && ENTRY_SIZE * n + 4 <= limit
  }

  predicate OnlyLongOnesLost(pieces: seq<seq<Push>>, pkgNum: nat, limit: nat) {
    forall i :: 0 <= i < |pieces| ==>
      (Went(pieces[i], pkgNum, true) <==> Kept(|pieces[i]|, pkgNum, limit))
  }

  /** As long as everything has been written, the memory holds what was pushed since the last report. */
  ghost predicate Filled(m: Memory, piece: seq<Push>, limit: nat)
    requires IsMemory(m)
  {
    && m.Memory? && LimitOf(m) == limit && (AllWrote(piece) <==> ENTRY_SIZE * |piece| <= limit)
    && (AllWrote(piece) ==> m.writePos == ENTRY_SIZE * |piece|)
  }

  /** While allocations succeed, the device sends exactly the frames that have fewer packages than its limit and fit,
      with their end, into what its buffer can become. */
  lemma OnlyLongFramesAreLost(m: Memory, packages: seq<EventPackage>, grants: seq<Grants>, pkgNum: nat)
    requires IsMemory(m) && m.Memory? && m.writePos == 0 && |grants| == |packages|
    requires forall i :: 0 <= i < |grants| ==> grants[i] == Grants(true, true, true)
    ensures var pieces := Complete(Pushes(m, packages, grants));
      forall i :: 0 <= i < |pieces| ==>
        (Went(pieces[i], pkgNum, true) <==> |pieces[i]| < pkgNum && 28 * |pieces[i]| + 4 <= Limit(m.isBind, m.capacity))
  {
    hide Limit, Complete, Pushes, Went;
    LongFramesAreLost(m, packages, grants, pkgNum);
  }

  lemma {:induction false} LongFramesAreLost(m: Memory, packages: seq<EventPackage>, grants: seq<Grants>,
                                                  pkgNum: nat)
    requires IsMemory(m) && m.Memory? && m.writePos == 0 && |grants| == |packages|
    requires forall i :: 0 <= i < |grants| ==> grants[i] == Grants(true, true, true)
    ensures var pushes, after := Pushes(m, packages, grants), MemoryAfter(m, packages, grants);
      OnlyLongOnesLost(Complete(pushes), pkgNum, LimitOf(m)) && Filled(after, Partial(pushes), LimitOf(m))
  {
    hide Limit;
    if packages != [] {
      var n := |packages| - 1;
      LongFramesAreLost(m, packages[..n], grants[..n], pkgNum);
      OnePush(m, packages, grants, n);
      assert packages[..n + 1] == packages && grants[..n + 1] == grants;
      var before := Pushes(m, packages[..n], grants[..n]);
      OneMoreSent(before, MemoryAfter(m, packages[..n], grants[..n]), packages[n], pkgNum, LimitOf(m));
    }
  }

  lemma PushFills(m: Memory, piece: seq<Push>, p: EventPackage, pkgNum: nat, limit: nat)
    requires IsMemory(m) && Filled(m, piece, limit)
    ensures var (x, after) := Pushed(m, p, Grants(true, true, true));
      if EndsFrame(p)
      then Filled(after, [], limit) && (Went(piece + [x], pkgNum, true) <==> Kept(|piece| + 1, pkgNum, limit))
      else Filled(after, piece + [x], limit)
  {
    hide BufferWrite, ToMemory, Limit;
    var (x, after) := Pushed(m, p, Grants(true, true, true));
    PackageWrite(m, At(ToMemory(p)));
    PackageWrite(BufferWrite(m, At(ToMemory(p)), true, true).1, Null);
    OneMoreWrote(piece, x);
    assert (piece + [x])[|piece|] == x;
    assert Went(piece + [x], pkgNum, true) <==> |piece| + 1 < pkgNum && x.ended && AllWrote(piece + [x]);
    hide AllWrote, Went, IsMemory;
  }

  lemma OneMoreSent(before: seq<Push>, m: Memory, p: EventPackage, pkgNum: nat, limit: nat)
    requires IsMemory(m) && OnlyLongOnesLost(Complete(before), pkgNum, limit) && Filled(m, Partial(before), limit)
    ensures var (x, after) := Pushed(m, p, Grants(true, true, true));
      var pushes := before + [x];
      OnlyLongOnesLost(Complete(pushes), pkgNum, limit) && Filled(after, Partial(pushes), limit)
  {
    hide Filled, Pushed, Went;
    var x := Pushed(m, p, Grants(true, true, true)).0;
    assert (before + [x])[..|before|] == before;
    PushFills(m, Partial(before), p, pkgNum, limit);
  }

  lemma OneMoreWrote(piece: seq<Push>, x: Push)
    ensures AllWrote(piece + [x]) <==> AllWrote(piece) && x.wrote
    ensures AllWrote([])
  {
    assert (piece + [x])[|piece|] == x;
    assert forall i :: 0 <= i < |piece| ==> (piece + [x])[i] == piece[i];
  }
}
