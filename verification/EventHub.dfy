/** The assembly of input events into frames (`model/input/driver/event_hub.c`) over a serialization buffer. */
module EventHub {
  import opened SbufFormat
  import opened Sbuf
  import opened SbufMemory
  import opened SbufQueue
  import opened EventFrames

  /** A receiver: buffers are read until one that is no package. */
  method ReadFrame(sbuf: HdfSBufRaw) returns (packages: seq<EventPackage>)
    requires sbuf.Valid() && sbuf.data != null
    modifies sbuf`readPos
    ensures sbuf.Valid() && (packages, sbuf.Unread()) == Receive(old(sbuf.Unread()))
  {
    packages := [];
    var more := true;
    ghost var u := sbuf.Unread();
    assert packages + Receive(u).0 == Receive(u).0;
    assert Receiving(u, packages, u, true);
    hide ReadingBuffer, FromMemory, Receiving, Receive;
    while more
      invariant sbuf.Valid() && Receiving(u, packages, sbuf.Unread(), more)
      decreases |sbuf.Unread()|, more
    {
      ReceivingOne(u, packages, sbuf.Unread());
      var answer := GetBuffer(sbuf);
      more := answer.Got? && answer.x.Buffer? && |answer.x.bytes| == PACKAGE_SIZE;
      if more {
        packages := packages + [FromMemory(answer.x.bytes)];
      }
    }
    ReceivingEnds(u, packages, sbuf.Unread());
  }

  /** `packages` have been read, and `now` is left; there are more to come, or the last read found none. */
  ghost predicate Receiving(u: Bytes, packages: seq<EventPackage>, now: Bytes, more: bool) {
    if more then Receive(u) == (packages + Receive(now).0, Receive(now).1) else Receive(u) == (packages, now)
  }

  lemma ReceivingOne(u: Bytes, packages: seq<EventPackage>, now: Bytes)
    requires Receiving(u, packages, now, true)
    ensures var (answer, rest) := ReadingBuffer(now);
      if PackageAt(now)
      then Receiving(u, packages + [FromMemory(answer.x.bytes)], rest, true) && |rest| < |now|
      else Receiving(u, packages, rest, false) && |rest| <= |now|
  {
    hide ReadingBuffer, FromMemory;
    PackageIsTaken(now);
    if PackageAt(now) {
      var p := FromMemory(ReadingBuffer(now).0.x.bytes);
      var more := Receive(ReadingBuffer(now).1).0;
      assert packages + ([p] + more) == packages + [p] + more;
    } else {
      assert packages + [] == packages;
    }
  }

  lemma ReceivingEnds(u: Bytes, packages: seq<EventPackage>, now: Bytes)
    requires Receiving(u, packages, now, false)
    ensures Receive(u) == (packages, now)
  {
  }

  /** `InputDevice`, as far as events are concerned; `sent` notes the memory of the buffers that were sent. */
  class InputDevice {
    const hasDev: bool
    const pkgNum: nat
    const pkgBuf: HdfSBufRaw?
    var pkgCount: nat
    var errFrameFlag: bool
    var sent: seq<Bytes>

    ghost predicate Ready()
      reads this, pkgBuf
    {
      pkgNum < UINT16 && (pkgBuf != null ==> pkgBuf.Valid() && pkgBuf.data != null && pkgBuf.readPos == 0)
    }

    /** The buffer and the counter tell `v.frame`, unless the flag says that something went wrong. */
    ghost predicate Frames(v: View)
      requires Ready()
      reads this, pkgBuf, if pkgBuf == null then null else pkgBuf.data
    {
      && (errFrameFlag <==> v.failed || (v.frame != [] && |v.frame| >= pkgNum))
      && (!errFrameFlag ==> (
        && pkgCount == |v.frame|
        && (pkgBuf == null ==> v.frame == [])
        && (pkgBuf != null ==> Queued(pkgBuf.Unread(), Items(v.frame)))))
    }

    ghost predicate Sent(v: View)
      reads this`sent
    {
      |sent| == |v.sent| && forall i {:trigger sent[i]} :: 0 <= i < |sent| ==> HoldsFrame(sent[i], v.sent[i])
    }

    constructor (pkgNum: nat, hasDev: bool, pkgBuf: HdfSBufRaw?)
      requires pkgNum < UINT16
      requires pkgBuf != null ==> pkgBuf.Valid() && pkgBuf.data != null && pkgBuf.readPos == pkgBuf.writePos == 0
      ensures Ready() && Frames(View([], false, [])) && Sent(View([], false, []))
      ensures this.pkgNum == pkgNum && this.hasDev == hasDev && this.pkgBuf == pkgBuf
    {
      this.pkgNum, this.hasDev, this.pkgBuf := pkgNum, hasDev, pkgBuf;
      pkgCount, errFrameFlag, sent := 0, false, [];
    }

    /** What decides the outcome of the next write. */
    ghost function BufferState(): (m: Memory)
      requires Ready()
      reads this, pkgBuf
      ensures IsMemory(m)
    {
      if pkgBuf == null then NoBuffer else MemoryOf(pkgBuf)
    }

    /** `HdfSbufWriteBuffer` and, if it fails, `HdfSbufFlush`. */
    method WriteOrFlush(source: Source, ok: bool, okBytes: bool) returns (written: bool)
      requires Ready() && (source.At? ==> |source.bytes| < UINT32)
      modifies this`errFrameFlag, pkgBuf, if pkgBuf == null then null else pkgBuf.data
      ensures Ready() && errFrameFlag == (old(errFrameFlag) || !written)
      ensures (written, BufferState()) == BufferWrite(old(BufferState()), source, ok, okBytes)
      ensures pkgBuf == null ==> !written
      ensures pkgBuf != null && !written ==> pkgBuf.writePos == 0
      ensures pkgBuf != null && written ==> BufferAppended(old(pkgBuf.Unread()), pkgBuf.Unread(), source)
      ensures pkgBuf != null ==> pkgBuf.data == old(pkgBuf.data) || fresh(pkgBuf.data)
    {
      hide Appended, BufferAppended, BufferFits, BufferCapacity, Space;
      written := false;
      if pkgBuf != null {
        ghost var w := pkgBuf.Written();
        assert pkgBuf.Unread() == w;
        written := pkgBuf.WriteBuffer(source, ok, okBytes);
        if written {
          assert pkgBuf.Unread() == pkgBuf.Written();
          SpaceTaken(w, pkgBuf.Written(), source);
        }
      }
      if !written {
        if pkgBuf != null {
          pkgBuf.Flush();
        }
        errFrameFlag := true;
      }
    }

    /** The package is written and counted. */
    method AddPackage(p: EventPackage, ok: bool, okBytes: bool, ghost v: View) returns (ghost wrote: bool)
      requires Ready() && Frames(v)
      modifies this`errFrameFlag, this`pkgCount, pkgBuf, if pkgBuf == null then null else pkgBuf.data
      ensures Ready() && Frames(View(v.frame + [p], v.failed || !wrote, v.sent))
      ensures (wrote, BufferState()) == BufferWrite(old(BufferState()), At(ToMemory(p)), ok, okBytes)
      ensures pkgCount == (old(pkgCount) + 1) % 0x1_0000
      ensures errFrameFlag == (old(errFrameFlag) || !wrote || pkgCount >= pkgNum)
      ensures pkgBuf == null ==> !wrote
      ensures pkgBuf != null ==> pkgBuf.data == old(pkgBuf.data) || fresh(pkgBuf.data)
    {
      hide Queued, BufferAppended, Items, ToMemory, BufferWrite;
      ghost var u := if pkgBuf == null then [] else pkgBuf.Unread();
      if !errFrameFlag {
        TooManyOrNot(v.frame, p, pkgCount, pkgNum);
      }
      var written := WriteOrFlush(At(ToMemory(p)), ok, okBytes);
      wrote := written;
      if wrote && Queued(u, Items(v.frame)) {
        OnePackageMore(u, pkgBuf.Unread(), v.frame, p);
      }
      pkgCount := (pkgCount + 1) % UINT16;
      if pkgCount >= pkgNum {
        errFrameFlag := true;
      }
    }

    /** `SendFramePackages`. */
    method SendFramePackages()
      requires Ready()
      modifies this`sent
      ensures sent == if hasDev && pkgBuf != null then old(sent) + [pkgBuf.Unread()] else old(sent)
    {
      if !hasDev || pkgBuf == null {
        return;
      }
      sent := sent + [pkgBuf.data[pkgBuf.readPos..pkgBuf.writePos]];
      assert pkgBuf.Unread() == pkgBuf.data[pkgBuf.readPos..pkgBuf.writePos];
    }

    /** The end of a frame: the terminator is written, the frame sent or dropped, and the state cleared. */
    method EndFrame(ok: bool, ghost v: View) returns (ghost ended: bool)
      requires Ready() && Frames(v) && Sent(v) && v.frame != []
      modifies this, pkgBuf, if pkgBuf == null then null else pkgBuf.data
      ensures Ready()
      ensures ghost var w := View([], false,
                if !v.failed && ended && |v.frame| < pkgNum && hasDev then v.sent + [v.frame] else v.sent);
              Frames(w) && Sent(w)
      ensures ghost var r := BufferWrite(old(BufferState()), Null, ok, true);
              ended == r.0 && BufferState() == Emptied(r.1)
      ensures pkgCount == 0 && !errFrameFlag && (pkgBuf != null ==> pkgBuf.writePos == 0)
      ensures |sent| == |old(sent)| + (if hasDev && !old(errFrameFlag) && ended then 1 else 0)
      ensures sent[..|old(sent)|] == old(sent)
      ensures pkgBuf != null ==> pkgBuf.data == old(pkgBuf.data) || fresh(pkgBuf.data)
    {
      hide Queued, BufferAppended, Items, HoldsFrame, BufferWrite;
      ghost var u := if pkgBuf == null then [] else pkgBuf.Unread();
      var written := WriteOrFlush(Null, ok, true);
      ended := written;
      if !errFrameFlag {
        EndOfFrame(u, pkgBuf.Unread(), v.frame);
        SendFramePackages();
      }
      pkgCount := 0;
      if pkgBuf != null {
        pkgBuf.Flush();
        EmptyFrame(pkgBuf.Unread());
      }
      errFrameFlag := false;
    }

    /** `PushOnePackage`. */
    method PushOnePackage(p: EventPackage, g: Grants, ghost v: View)
      requires Ready() && Frames(v) && Sent(v)
      modifies this, pkgBuf, if pkgBuf == null then null else pkgBuf.data
      ensures Ready()
      ensures ghost var (x, m) := Pushed(old(BufferState()), p, g);
        ghost var w := Next(v, x, pkgNum, hasDev);
        BufferState() == m && Frames(w) && Sent(w)
      ensures p.kind == 0 && p.code == 0 ==>
        && pkgCount == 0 && !errFrameFlag && (pkgBuf != null ==> pkgBuf.writePos == 0)
        && (var x := Pushed(old(BufferState()), p, g).0;
            var goes := hasDev && !old(errFrameFlag) && x.wrote && x.ended && (old(pkgCount) + 1) % 0x1_0000 < pkgNum;
            |sent| == |old(sent)| + (if goes then 1 else 0) && sent[..|old(sent)|] == old(sent))
      ensures p.kind != 0 || p.code != 0 ==>
        && pkgCount == (old(pkgCount) + 1) % 0x1_0000 && sent == old(sent)
        && (pkgBuf == null || old(errFrameFlag) || pkgCount >= pkgNum ==> errFrameFlag)
      ensures pkgBuf != null ==> pkgBuf.data == old(pkgBuf.data) || fresh(pkgBuf.data)
    {
      hide Queued, Items, HoldsFrame, Frames, Sent, BufferWrite, ToMemory;
      ghost var wrote := AddPackage(p, g.length, g.bytes, v);
      SentIs(v, View(v.frame + [p], v.failed || !wrote, v.sent));
      if p.kind == EV_SYN && p.code == SYN_REPORT {
        ghost var ended := EndFrame(g.terminator, View(v.frame + [p], v.failed || !wrote, v.sent));
      }
    }

    /** A run of pushes on a new device. */
    method PushAll(packages: seq<EventPackage>, grants: seq<Grants>)
      requires Ready() && Frames(View([], false, [])) && Sent(View([], false, []))
      requires |grants| == |packages|
      modifies this, pkgBuf, if pkgBuf == null then null else pkgBuf.data
      ensures Ready()
      ensures ghost var frames := SentPieces(Complete(Pushes(old(BufferState()), packages, grants)), pkgNum, hasDev);
        && |sent| == |frames|
        && (forall i {:trigger sent[i]} :: 0 <= i < |sent| ==> HoldsFrame(sent[i], frames[i]))
        && (ArePackages(packages) ==>
            forall i {:trigger sent[i]} :: 0 <= i < |sent| ==> Receive(sent[i]) == (frames[i], []))
    {
      hide *;
      ghost var m := BufferState();
      ghost var pushes := Pushes(m, packages, grants);
      var n := 0;
      FirstView(pkgNum, hasDev);
      NoPushes(m);
      assert packages[..0] == [] && grants[..0] == [];
      while n < |packages|
        invariant n <= |packages|
        invariant Ready() && BufferState() == MemoryAfter(m, packages[..n], grants[..n])
        invariant ghost var v := ViewAfter(Pushes(m, packages[..n], grants[..n]), pkgNum, hasDev); Frames(v) && Sent(v)
        invariant pkgBuf != null ==> pkgBuf.data == old(pkgBuf.data) || fresh(pkgBuf.data)
      {
        ghost var before := Pushes(m, packages[..n], grants[..n]);
        PushOnePackage(packages[n], grants[n], ViewAfter(before, pkgNum, hasDev));
        OnePush(m, packages, grants, n);
        NextView(before, Pushed(MemoryAfter(m, packages[..n], grants[..n]), packages[n], grants[n]).0, pkgNum, hasDev);
        n := n + 1;
      }
      assert packages[..n] == packages && grants[..n] == grants;
      ViewIsPieces(pushes, pkgNum, hasDev);
      SentFrames(ViewAfter(pushes, pkgNum, hasDev));
      PushesAreThePackages(m, packages, grants);
      if ArePackages(packages) {
        SentAreReceived(pushes);
      }
    }

    lemma SentAreReceived(pushes: seq<Push>)
      requires ArePackages(Packages(pushes))
      requires var frames := SentPieces(Complete(pushes), pkgNum, hasDev);
        |sent| == |frames| && forall i {:trigger sent[i]} :: 0 <= i < |sent| ==> HoldsFrame(sent[i], frames[i])
      ensures var frames := SentPieces(Complete(pushes), pkgNum, hasDev);
        forall i {:trigger sent[i]} :: 0 <= i < |sent| ==> Receive(sent[i]) == (frames[i], [])
    {
      hide HoldsFrame, ArePackages, Receive, SentPieces, Complete, Packages;
      var frames := SentPieces(Complete(pushes), pkgNum, hasDev);
      PiecesArePackages(pushes, pkgNum, hasDev);
      forall i {:trigger sent[i]} | 0 <= i < |sent| ensures Receive(sent[i]) == (frames[i], []) {
        FrameIsReceived(sent[i], frames[i]);
      }
    }

    lemma SentIs(v: View, w: View)
      requires Sent(v) && v.sent == w.sent
      ensures Sent(w)
    {
    }

    lemma SentFrames(v: View)
      requires Sent(v)
      ensures |sent| == |v.sent| && forall i {:trigger sent[i]} :: 0 <= i < |sent| ==> HoldsFrame(sent[i], v.sent[i])
    {
    }
  }
}
