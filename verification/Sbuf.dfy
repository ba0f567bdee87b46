/** The serialization buffer of `utils/src/hdf_sbuf_impl_raw.c`: a growing array with a write and a read position. */
module Sbuf {
  import opened SbufFormat

  /** The size of the array after `SbufRawImplGrow`, or nothing when it refuses: the sizes are cut to 32 bits. */
  datatype Growth = Refused | To(newSize: nat)

  function GrowTo(isBind: bool, capacity: nat, growSize: nat, ok: bool): (g: Growth)
    requires growSize < UINT32 && capacity + growSize < SIZE
    ensures g.To? ==> capacity <= g.newSize <= HDF_SBUF_MAX_SIZE && !isBind && g.newSize > 0
  {
    var newSize := Align(capacity + growSize) % UINT32;
    if isBind || newSize < capacity || newSize > HDF_SBUF_MAX_SIZE || newSize == 0 || !ok then Refused else To(newSize)
  }

  /** What `SbufRawImplWrite` asks for when a chunk does not fit. */
  function GrowSize(size: nat): nat
    requires size < UINT32
  {
    (if Align(size) > HDF_SBUF_GROW_SIZE_DEFAULT then Align(size) + HDF_SBUF_GROW_SIZE_DEFAULT
     else HDF_SBUF_GROW_SIZE_DEFAULT) % UINT32
  }

  /** The capacity that `SbufRawImplWrite` of `size` bytes ends with when it succeeds, or nothing when it fails. */
  function Room(isBind: bool, capacity: nat, writePos: nat, size: nat, ok: bool): (g: Growth)
    requires writePos <= capacity < SIZE / 2 && 0 < size < UINT32
  {
    if Align(size) <= capacity - writePos then To(capacity)
    else
      var g := GrowTo(isBind, capacity, GrowSize(size), ok);
      if g.To? && size > g.newSize - writePos then Refused else g
  }

  /** The capacity after `SbufRawImplWrite` of `size` bytes, whether it succeeds or not. */
  function NewCapacity(isBind: bool, capacity: nat, writePos: nat, size: nat, ok: bool): (c: nat)
    requires writePos <= capacity < SIZE / 2 && 0 < size < UINT32
    ensures capacity <= c < SIZE / 2
  {
    if Align(size) <= capacity - writePos then capacity
    else
      var g := GrowTo(isBind, capacity, GrowSize(size), ok);
      if g.To? then g.newSize else capacity
  }

  lemma NoWrap(n: nat)
    requires n + 3 < UINT32
    ensures Align(n) % UINT32 == Align(n) && n <= Align(n)
  {
  }

  /** What passes the checks fits, although the sizes are cut. */
  lemma RoomFits(isBind: bool, capacity: nat, writePos: nat, size: nat, ok: bool)
    requires writePos <= capacity < SIZE / 2 && 0 < size < UINT32
    ensures var g := Room(isBind, capacity, writePos, size, ok);
            g.To? ==> (
              && capacity <= g.newSize && writePos + Align(size) <= g.newSize
              && g.newSize == NewCapacity(isBind, capacity, writePos, size, ok)
              && (g.newSize == capacity || (g.newSize <= HDF_SBUF_MAX_SIZE && !isBind)))
  {
    if Align(size) > capacity - writePos && size + capacity <= 2 * HDF_SBUF_MAX_SIZE {
      var a := Align(size);
      assert a <= size + 3;
      hide Align;
      assert GrowSize(size) == if a > HDF_SBUF_GROW_SIZE_DEFAULT then a + HDF_SBUF_GROW_SIZE_DEFAULT
                               else HDF_SBUF_GROW_SIZE_DEFAULT;
      NoWrap(capacity + GrowSize(size));
    }
  }

  /** A write succeeds when the bytes and their padding fit behind what was written, or when owned memory may grow
      by them and by the default step. */
  lemma RoomWhenAllowed(isBind: bool, capacity: nat, writePos: nat, size: nat, ok: bool)
    requires writePos <= capacity < SIZE / 2 && 0 < size < UINT32
    requires
      || Align(size) <= capacity - writePos
      || (!isBind && ok && Align(capacity + Align(size) + HDF_SBUF_GROW_SIZE_DEFAULT) <= HDF_SBUF_MAX_SIZE)
    ensures Room(isBind, capacity, writePos, size, ok).To?
  {
    if Align(size) > capacity - writePos {
      var a := Align(size);
      assert size <= a <= size + 3 && capacity + a + HDF_SBUF_GROW_SIZE_DEFAULT <= HDF_SBUF_MAX_SIZE;
      hide Align;
      assert GrowSize(size) == if a > HDF_SBUF_GROW_SIZE_DEFAULT then a + HDF_SBUF_GROW_SIZE_DEFAULT
                               else HDF_SBUF_GROW_SIZE_DEFAULT;
      NoWrap(capacity + GrowSize(size));
      AlignGrows(capacity + GrowSize(size), capacity + a + HDF_SBUF_GROW_SIZE_DEFAULT);
    }
  }

  lemma AlignGrows(m: nat, n: nat)
    requires m <= n && n + 3 < UINT32
    ensures Align(m) <= Align(n)
  {
  }

  /** The address that `SbufRawImplWriteBuffer` gets, with the bytes there. */
  datatype Source = Null | At(bytes: Bytes)

  predicate BufferFits(isBind: bool, capacity: nat, writePos: nat, source: Source, okLength: bool, okBytes: bool)
    requires writePos <= capacity < SIZE / 2 && (source.At? ==> |source.bytes| < UINT32)
  {
    var g := Room(isBind, capacity, writePos, 4, okLength);
    RoomFits(isBind, capacity, writePos, 4, okLength);
    g.To? && (source.At? && source.bytes != [] ==> Room(isBind, g.newSize, writePos + 4, |source.bytes|, okBytes).To?)
  }

  /** The capacity after `SbufRawImplWriteBuffer`, whether it succeeds or not. */
  function BufferCapacity(isBind: bool, capacity: nat, writePos: nat, source: Source,
                          okLength: bool, okBytes: bool): nat
    requires writePos <= capacity < SIZE / 2 && (source.At? ==> |source.bytes| < UINT32)
  {
    var g := Room(isBind, capacity, writePos, 4, okLength);
    var c := NewCapacity(isBind, capacity, writePos, 4, okLength);
    RoomFits(isBind, capacity, writePos, 4, okLength);
    if g.To? && source.At? && source.bytes != [] then NewCapacity(isBind, c, writePos + 4, |source.bytes|, okBytes)
    else c
  }

  predicate BufferAppended(before: Bytes, now: Bytes, source: Source)
    requires source.At? ==> |source.bytes| < UINT32
  {
    if source.Null? || source.bytes == [] then Appended(before, now, ToBytes(0, 4))
    else
      && |before| + 4 <= |now| && Appended(before, now[..|before| + 4], ToBytes(|source.bytes|, 4))
      && Appended(now[..|before| + 4], now, source.bytes)
  }

  /** What `SbufRawImplWriteString` hands on: the characters and the NUL. */
  function StringSource(isNull: bool, value: Bytes): (source: Source)
    ensures source.At? ==> |source.bytes| < UINT32
  {
    if isNull then Null else At((value + [0])[..(|value| + 1) % UINT32])
  }

  /** An address inside the memory of a buffer. */
  datatype Place = Nowhere | From(offset: nat)

  /** The length that comes first in the unread bytes. */
  function LengthAt(unread: Bytes): (n: int)
    requires |unread| >= 4
    ensures -UINT32 / 2 <= n < UINT32 / 2
  {
    FourBytes(unread[..4]);
    Signed(FromBytes(unread[..4]))
  }

  /** `SbufRawImplReadBuffer` finds a length and as many bytes. */
  predicate BufferThere(unread: Bytes) {
    |unread| >= 4 && (LengthAt(unread) == 0 || Align(AsSize(LengthAt(unread))) <= |unread| - 4)
  }

  /** `SbufRawImplReadString` finds the length of a string and as many bytes. */
  predicate StringThere(unread: Bytes) {
    && |unread| >= 4 && 0 < LengthAt(unread) <= INT16_MAX
    && Align(LengthAt(unread)) <= |unread| - 4
  }

  lemma BufferWritten(before: Bytes, middle: Bytes, now: Bytes, source: Source)
    requires source.At? ==> |source.bytes| < UINT32
    ensures Appended(before, middle, ToBytes(0, 4)) && (source.Null? || source.bytes == []) && now == middle ==>
      BufferAppended(before, now, source)
    ensures
      (source.At? && source.bytes != [] && Appended(before, middle, ToBytes(|source.bytes|, 4)) &&
       Appended(middle, now, source.bytes)) ==> BufferAppended(before, now, source)
  {
    assert Align(4) == 4;
    if source.At? && source.bytes != [] && Appended(before, middle, ToBytes(|source.bytes|, 4))
      && Appended(middle, now, source.bytes) {
      assert now[..|before| + 4] == middle;
    }
  }

  lemma BufferRoom(isBind: bool, capacity: nat, writePos: nat, source: Source, okLength: bool, okBytes: bool)
    requires writePos <= capacity < SIZE / 2 && (source.At? ==> |source.bytes| < UINT32)
    ensures var g := Room(isBind, capacity, writePos, 4, okLength);
      var c := NewCapacity(isBind, capacity, writePos, 4, okLength);
      var fits := BufferFits(isBind, capacity, writePos, source, okLength, okBytes);
      var after := BufferCapacity(isBind, capacity, writePos, source, okLength, okBytes);
      && Align(4) == 4
      && (g.Refused? ==> !fits && after == c)
      && (g.To? && (source.Null? || source.bytes == []) ==> fits && after == c)
      && (g.To? && source.At? && source.bytes != [] ==> (
        && writePos + 4 <= c
        && (fits <==> Room(isBind, c, writePos + 4, |source.bytes|, okBytes).To?)
        && after == NewCapacity(isBind, c, writePos + 4, |source.bytes|, okBytes)))
  {
    RoomFits(isBind, capacity, writePos, 4, okLength);
    hide Room, NewCapacity;
  }

  /** `struct HdfSBufRaw`. */
  class HdfSBufRaw {
    var writePos: nat
    var readPos: nat
    var capacity: nat
    var data: array?<Byte>
    var isBind: bool

    ghost predicate Valid()
      reads this
    {
      && readPos <= writePos <= capacity < SIZE / 2
      && (data == null ==> capacity == 0)
      && (data != null ==> data.Length == capacity)
    }

    /** The bytes written so far. */
    ghost function Written(): (w: Bytes)
      requires Valid()
      reads this, data
      ensures |w| == writePos
    {
      if data == null then [] else data[..writePos]
    }

    /** The bytes written and not yet read. */
    ghost function Unread(): Bytes
      requires Valid()
      reads this, data
    {
      Written()[readPos..]
    }

    /** Owned memory stays within 512 KB. */
    ghost predicate Bounded()
      reads this
    {
      !isBind ==> capacity <= HDF_SBUF_MAX_SIZE
    }

    /** `SbufRawImplNewInstance`, when both allocations succeed. */
    constructor (capacity: nat)
      requires capacity <= HDF_SBUF_MAX_SIZE
      ensures Valid() && Bounded() && fresh(data) && data != null && !isBind
      ensures this.capacity == capacity && readPos == writePos == 0 && Unread() == []
    {
      this.capacity := capacity;
      data := new Byte[capacity](_ => 0);
      writePos, readPos, isBind := 0, 0, false;
    }

    /** `SbufBindRaw`, of memory that belongs to the caller. */
    constructor Bind(base: array<Byte>)
      requires 0 < base.Length < SIZE / 2
      ensures Valid() && Bounded() && data == base && isBind && Unread() == base[..]
    {
      data, capacity, writePos, readPos, isBind := base, base.Length, base.Length, 0, true;
    }

    /** `SbufRawImplGrow`. */
    method Grow(growSize: nat, ok: bool) returns (grown: bool)
      requires Valid() && growSize < UINT32
      modifies this`data, this`capacity
      ensures Valid() && Written() == old(Written()) && (old(Bounded()) ==> Bounded())
      ensures var g := GrowTo(isBind, old(capacity), growSize, ok);
              grown == g.To? && capacity == if grown then g.newSize else old(capacity)
      ensures data == old(data) || fresh(data)
      ensures grown ==> data != null
      ensures old(data) != null ==> data != null
    {
      if isBind {
        return false;
      }
      var newSize := Align(capacity + growSize) % UINT32;
      if newSize < capacity || newSize > HDF_SBUF_MAX_SIZE || newSize == 0 || !ok {
        return false;
      }
      var newData := new Byte[newSize](_ => 0);
      if data != null {
        forall i | 0 <= i < writePos { newData[i] := data[i]; }
      }
      data := newData;
      capacity := newSize;
      return true;
    }

    /** The part of `SbufRawImplWrite` before the copy: room is made, if that is needed and possible. */
    method MakeRoom(size: nat, ok: bool) returns (enough: bool)
      requires Valid() && 0 < size < UINT32 && data != null
      modifies this`data, this`capacity
      ensures Valid() && Written() == old(Written()) && (old(Bounded()) ==> Bounded())
      ensures data != null && (data == old(data) || fresh(data))
      ensures enough == Room(isBind, old(capacity), writePos, size, ok).To?
      ensures enough ==> writePos + Align(size) <= capacity
      ensures capacity == NewCapacity(isBind, old(capacity), writePos, size, ok)
    {
      RoomFits(isBind, capacity, writePos, size, ok);
      var alignSize := Align(size);
      if alignSize < size {
        return false;
      }
      hide Align, Written;
      var writeableSize := capacity - writePos;
      if alignSize > writeableSize {
        var growSize := if alignSize > HDF_SBUF_GROW_SIZE_DEFAULT then alignSize + HDF_SBUF_GROW_SIZE_DEFAULT
                        else HDF_SBUF_GROW_SIZE_DEFAULT;
        assert growSize % UINT32 == GrowSize(size);
        hide GrowTo, GrowSize;
        var grown := Grow(growSize % UINT32, ok);
        if !grown {
          return false;
        }
        writeableSize := capacity - writePos;
      }
      enough := size <= writeableSize;
    }

    /** The copy, and the step past the padding. */
    method Store(src: Bytes)
      requires Valid() && data != null && 0 < |src| < UINT32 && writePos + Align(|src|) <= capacity
      modifies this`writePos, data
      ensures Valid() && Appended(old(Written()), Written(), src) && writePos == old(writePos) + Align(|src|)
    {
      ghost var was := Written();
      var n := Align(|src|);
      assert n >= |src|;
      hide Align;
      forall k | writePos <= k < writePos + |src| { data[k] := src[k - writePos]; }
      writePos := writePos + n;
      assert Written()[..|was|] == was;
      ghost var copied := Written()[|was|..|was| + |src|];
      assert forall k :: 0 <= k < |src| ==> copied[k] == data[|was| + k] == src[k];
      assert copied == src;
    }

    /** `SbufRawImplWrite` of bytes at a valid address; `ok` says whether memory can be allocated. */
    method Write(src: Bytes, ok: bool) returns (written: bool)
      requires Valid() && |src| < UINT32
      modifies this`data, this`capacity, this`writePos, data
      ensures Valid() && (old(Bounded()) ==> Bounded()) && (data == old(data) || fresh(data))
      ensures written <==>
        old(data) != null && (src == [] || Room(isBind, old(capacity), old(writePos), |src|, ok).To?)
      ensures !written || src == [] ==> Written() == old(Written()) && writePos == old(writePos)
      ensures written && src != [] ==>
        Appended(old(Written()), Written(), src) && writePos == old(writePos) + (|src| + 3) / 4 * 4
      ensures capacity ==
        if old(data) == null || src == [] then old(capacity)
        else NewCapacity(isBind, old(capacity), old(writePos), |src|, ok)
      ensures data == null <==> old(data) == null
    {
      if data == null {
        return false;
      }
      if |src| == 0 {
        return true;
      }
      AlignIsMultiple(|src|);
      hide Align, Appended, Room, NewCapacity, Written, Bounded;
      written := MakeRoom(|src|, ok);
      if written {
        Store(src);
      }
    }

    /** `SbufRawImplRead`. */
    method Read(readSize: nat) returns (done: bool, dest: Bytes)
      requires Valid() && readSize < UINT32
      modifies this`readPos
      ensures Valid() && Written() == old(Written())
      ensures done <==> data != null && (readSize == 0 || (readSize + 3) / 4 * 4 <= |old(Unread())|)
      ensures !done || readSize == 0 ==> readPos == old(readPos)
      ensures done && readSize > 0 ==>
        && |dest| == readSize && dest == old(Unread())[..readSize] && Taken(old(Unread()), Unread(), dest)
      ensures !done || readSize == 0 ==> dest == []
      ensures done && readSize > 0 ==> readPos == old(readPos) + (readSize + 3) / 4 * 4
    {
      dest := [];
      if data == null {
        return false, [];
      }
      if readSize == 0 {
        return true, [];
      }
      AlignIsMultiple(readSize);
      var alignSize := Align(readSize);
      if alignSize > writePos - readPos {
        return false, [];
      }
      dest := data[readPos..readPos + readSize];
      ghost var unread := Unread();
      readPos := readPos + alignSize;
      hide Align;
      assert unread[..readSize] == dest;
      assert Unread() == unread[alignSize..];
      done := true;
    }

    // The typed reads and writes of numbers: `width` is 1, 2, 4 or 8, and `value` the pattern of its bits.

    method WriteNumber(width: nat, value: nat, ok: bool) returns (written: bool)
      requires Valid() && width in {1, 2, 4, 8}
      modifies this`data, this`capacity, this`writePos, data
      ensures Valid() && (old(Bounded()) ==> Bounded()) && (data == old(data) || fresh(data))
      ensures written <==> old(data) != null && Room(isBind, old(capacity), old(writePos), width, ok).To?
      ensures !written ==> Written() == old(Written())
      ensures written ==>
        Appended(old(Written()), Written(), ToBytes(value, width)) && writePos == old(writePos) + Align(width)
      ensures capacity ==
        if old(data) == null then old(capacity) else NewCapacity(isBind, old(capacity), old(writePos), width, ok)
      ensures data == null <==> old(data) == null
    {
      written := Write(ToBytes(value, width), ok);
    }

    method ReadNumber(width: nat) returns (done: bool, value: nat)
      requires Valid() && width in {1, 2, 4, 8}
      modifies this`readPos
      ensures Valid() && Written() == old(Written())
      ensures done <==> data != null && Align(width) <= |old(Unread())|
      ensures !done ==> readPos == old(readPos)
      ensures done ==> exists c: Chunk :: |c| == width && Taken(old(Unread()), Unread(), c) && value == FromBytes(c)
      ensures done ==> readPos == old(readPos) + Align(width)
    {
      var dest;
      done, dest := Read(width);
      value := FromBytes(dest);
    }

    /** `SbufRawImplWriteRollback`, of a size that was just written. */
    method WriteRollback(size: nat) returns (done: bool)
      requires Valid() && size < UINT32
      modifies this`writePos
      ensures done <==> Align(size) <= old(writePos)
      ensures writePos == if done then old(writePos) - Align(size) else old(writePos)
    {
      var alignSize := Align(size);
      if writePos < alignSize {
        return false;
      }
      writePos := writePos - alignSize;
      return true;
    }

    /** `SbufRawImplReadRollback`. */
    method ReadRollback(size: nat) returns (done: bool)
      requires Valid() && size < UINT32
      modifies this`readPos
      ensures Valid() && (done <==> Align(size) <= old(readPos))
      ensures readPos == if done then old(readPos) - Align(size) else old(readPos)
    {
      var alignSize := Align(size);
      if readPos < alignSize {
        return false;
      }
      readPos := readPos - alignSize;
      return true;
    }

    // Buffers and strings: a length and then the bytes.

    /** The bytes of a buffer whose length `length` has just been written; a failure takes the length back. */
    method WriteBytes(bytes: Bytes, ok: bool, ghost before: Bytes, ghost length: Chunk) returns (written: bool)
      requires Valid() && |bytes| < UINT32 && data != null && |length| == 4
      requires Appended(before, Written(), length) && readPos <= |before|
      modifies this`data, this`capacity, this`writePos, data
      ensures Valid() && (old(Bounded()) ==> Bounded()) && (data == old(data) || fresh(data)) && data != null
      ensures written <==> bytes == [] || Room(isBind, old(capacity), old(writePos), |bytes|, ok).To?
      ensures !written ==> Written() == before
      ensures written && bytes == [] ==> Written() == old(Written())
      ensures written && bytes != [] ==> Appended(old(Written()), Written(), bytes)
      ensures capacity ==
        if bytes == [] then old(capacity) else NewCapacity(isBind, old(capacity), old(writePos), |bytes|, ok)
    {
      written := Write(bytes, ok);
      if !written {
        var undone := WriteRollback(4);
        assert Written() == old(Written())[..|before|];
      }
    }

    /** `SbufRawImplWriteBuffer` of a null pointer or of `writeSize` bytes; the flags say whether memory can be
        allocated for the length and for the bytes. */
    method WriteBuffer(source: Source, okLength: bool, okBytes: bool) returns (written: bool)
      requires Valid() && (source.At? ==> |source.bytes| < UINT32)
      modifies this`data, this`capacity, this`writePos, data
      ensures Valid() && (old(Bounded()) ==> Bounded()) && (data == old(data) || fresh(data))
      ensures data == null <==> old(data) == null
      ensures written <==>
        old(data) != null && BufferFits(isBind, old(capacity), old(writePos), source, okLength, okBytes)
      ensures !written ==> Written() == old(Written())
      ensures written ==> BufferAppended(old(Written()), Written(), source)
      ensures capacity ==
        if old(data) == null then old(capacity)
        else BufferCapacity(isBind, old(capacity), old(writePos), source, okLength, okBytes)
    {
      BufferRoom(isBind, capacity, writePos, source, okLength, okBytes);
      var size := if source.Null? then 0 else |source.bytes|;
      ghost var before, length: Chunk := Written(), ToBytes(size, 4);
      hide *;
      written := WriteNumber(4, size, okLength);
      ghost var middle := Written();
      if written && source.At? {
        written := WriteBytes(source.bytes, okBytes, before, length);
      }
      BufferWritten(before, middle, Written(), source);
    }

    /** `SbufRawImplWriteString`; a null pointer is `None`. The length with the NUL is cut to 32 bits. */
    method WriteString(isNull: bool, value: Bytes, okLength: bool, okBytes: bool) returns (written: bool)
      requires Valid() && 0 !in value
      modifies this`data, this`capacity, this`writePos, data
      ensures Valid() && (old(Bounded()) ==> Bounded()) && (data == old(data) || fresh(data))
      ensures data == null <==> old(data) == null
      ensures !written ==> Written() == old(Written())
      ensures written ==> BufferAppended(old(Written()), Written(), StringSource(isNull, value))
      ensures written <==>
        old(data) != null &&
        BufferFits(isBind, old(capacity), old(writePos), StringSource(isNull, value), okLength, okBytes)
      ensures capacity ==
        if old(data) == null then old(capacity)
        else BufferCapacity(isBind, old(capacity), old(writePos), StringSource(isNull, value), okLength, okBytes)
    {
      written := WriteBuffer(StringSource(isNull, value), okLength, okBytes);
    }

    /** `SbufRawImplReadBuffer`: where in the memory the buffer starts, or a null pointer, and its size. */
    method ReadBuffer() returns (done: bool, place: Place, readSize: nat)
      requires Valid()
      modifies this`readPos
      ensures Valid() && Written() == old(Written())
      ensures done <==> data != null && BufferThere(old(Unread()))
      ensures !done ==> readPos == old(readPos)
      ensures done ==>
        var n := LengthAt(old(Unread()));
        && (n == 0 ==> place == Nowhere && readSize == 0 && readPos == old(readPos) + 4)
        && (n != 0 ==> place == From(old(readPos) + 4) && readSize == (if n < 0 then n + 0x1_0000_0000 else n)
                       && readPos == old(readPos) + 4 + Align(AsSize(n)))
    {
      place, readSize := Nowhere, 0;
      if data == null {
        return false, Nowhere, 0;
      }
      var buffSize;
      done, buffSize := ReadLength();
      if !done {
        return;
      }
      if buffSize == 0 {
        return;
      }
      var alignSize := Align(AsSize(buffSize));
      if alignSize > writePos - readPos {
        var undone := ReadRollback(4);
        return false, Nowhere, 0;
      }
      place, readSize := From(readPos), AsUint32(buffSize);
      readPos := readPos + alignSize;
    }

    /** `SbufRawImplReadString`: where the string starts and its length with the NUL, which is written once more. A
        length that is not positive is consumed, although no string is returned. */
    method ReadString() returns (place: Place, strLen: nat)
      requires Valid()
      modifies this`readPos, data
      ensures Valid()
      ensures place.From? <==> data != null && StringThere(old(Unread()))
      ensures place.Nowhere? ==> Written() == old(Written())
      ensures place.Nowhere? ==>
        var consumed := data != null && |old(Unread())| >= 4 && LengthAt(old(Unread())) <= 0;
        readPos == if consumed then old(readPos) + 4 else old(readPos)
      ensures place.From? ==>
        && place.offset == old(readPos) + 4 && strLen == LengthAt(old(Unread()))
        && readPos == old(readPos) + 4 + Align(strLen) && place.offset + strLen <= |old(Written())|
        && Written() == old(Written())[place.offset + strLen - 1 := 0]
    {
      place, strLen := Nowhere, 0;
      if data == null {
        return;
      }
      var done, length := ReadLength();
      if !done || length <= 0 {
        return;
      }
      strLen := length;
      var alignSize := Align(strLen);
      if strLen > INT16_MAX || alignSize > writePos - readPos {
        var undone := ReadRollback(4);
        return Nowhere, 0;
      }
      place := From(readPos);
      readPos := readPos + alignSize;
      EndString(place.offset + strLen - 1);
    }

    /** The NUL that `SbufRawImplReadString` writes. */
    method EndString(k: nat)
      requires Valid() && data != null && k < writePos
      modifies data
      ensures Written() == old(Written())[k := 0]
    {
      data[k] := 0;
    }

    /** `SbufRawImplReadInt32` of a length. */
    method ReadLength() returns (done: bool, n: int)
      requires Valid() && data != null
      modifies this`readPos
      ensures Valid() && Written() == old(Written())
      ensures done <==> |old(Unread())| >= 4
      ensures done ==> n == LengthAt(old(Unread())) && readPos == old(readPos) + 4
      ensures !done ==> readPos == old(readPos)
    {
      var value;
      done, value := ReadNumber(4);
      n := Signed(value);
    }

    /** `SbufRawImplSetDataSize`. */
    method SetDataSize(size: nat)
      requires Valid()
      modifies this`readPos, this`writePos
      ensures Valid() && readPos == (if size <= capacity then 0 else old(readPos))
      ensures writePos == if size <= capacity then size else old(writePos)
      ensures size <= old(writePos) ==> Written() == old(Written())[..size]
    {
      if size <= capacity {
        readPos := 0;
        writePos := size;
      }
    }

    /** `SbufRawImplFlush`. */
    method Flush()
      requires Valid()
      modifies this`readPos, this`writePos
      ensures Valid() && readPos == writePos == 0 && Written() == []
    {
      readPos := 0;
      writePos := 0;
    }

    /** `SbufRawImplCopy`, null when memory cannot be allocated or an owned limit is exceeded. */
    method Copy(ok: bool) returns (copy: HdfSBufRaw?)
      requires Valid()
      ensures copy != null <==> data != null && capacity <= HDF_SBUF_MAX_SIZE && ok
      ensures copy != null ==> (
        && fresh(copy) && copy.Valid() && copy.Bounded() && copy.data != null && fresh(copy.data) && !copy.isBind
        && copy.readPos == 0 && copy.Written() == Written() && copy.capacity == capacity)
    {
      if data == null || capacity > HDF_SBUF_MAX_SIZE || !ok {
        return null;
      }
      copy := new HdfSBufRaw(capacity);
      copy.writePos := writePos;
      forall i | 0 <= i < capacity { copy.data[i] := data[i]; }
      assert copy.data[..] == data[..];
    }

    /** `SbufRawImplMove`, null when memory cannot be allocated or the memory is not owned. */
    method Move(ok: bool) returns (moved: HdfSBufRaw?)
      requires Valid()
      modifies this
      ensures Valid() && isBind == old(isBind)
      ensures moved != null <==> !old(isBind) && ok
      ensures moved == null ==> Written() == old(Written()) && readPos == old(readPos) && capacity == old(capacity)
      ensures moved != null ==> (
        && fresh(moved) && moved.Valid() && !moved.isBind && moved.readPos == 0 && moved.capacity == old(capacity)
        && moved.data == old(data) && moved.Written() == old(Written())
        && data == null && Written() == [])
    {
      if isBind || !ok {
        return null;
      }
      moved := new HdfSBufRaw(0);
      moved.capacity := capacity;
      moved.writePos := writePos;
      moved.data := data;
      data := null;
      capacity := 0;
      readPos, writePos := 0, 0;
    }

    /** `SbufRawImplTransDataOwnership`: memory that was bound is owned from now on, whatever its size. */
    method TransDataOwnership()
      requires Valid()
      modifies this`isBind
      ensures Valid() && Written() == old(Written()) && !isBind
      ensures Bounded() <==> capacity <= HDF_SBUF_MAX_SIZE
    {
      isBind := false;
    }
  }
}
