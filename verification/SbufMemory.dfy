/** Which writes to a serialization buffer succeed: that depends on its capacity, on how much has been written, on who
    owns the memory, and on the allocator, and not on what has been read. */
module SbufMemory {
  import opened SbufFormat
  import opened Sbuf

  datatype Memory = NoBuffer | Memory(isBind: bool, capacity: nat, writePos: nat)

  predicate IsMemory(m: Memory) {
    m.Memory? ==> m.writePos <= m.capacity < SIZE / 2
  }

  ghost function MemoryOf(sbuf: HdfSBufRaw): (m: Memory)
    requires sbuf.Valid()
    reads sbuf
    ensures IsMemory(m) && m.Memory?
  {
    Memory(sbuf.isBind, sbuf.capacity, sbuf.writePos)
  }

  /** How far a buffer of this source moves the write position. */
  function Space(source: Source): nat
    requires source.At? ==> |source.bytes| < UINT32
  {
    if source.Null? || source.bytes == [] then 4 else 4 + Align(|source.bytes|)
  }

  lemma BufferStays(m: Memory, source: Source, ok: bool, okBytes: bool)
    requires IsMemory(m) && m.Memory? && (source.At? ==> |source.bytes| < UINT32)
    ensures var c := BufferCapacity(m.isBind, m.capacity, m.writePos, source, ok, okBytes);
      && m.capacity <= c < SIZE / 2
      && (BufferFits(m.isBind, m.capacity, m.writePos, source, ok, okBytes) ==> m.writePos + Space(source) <= c)
  {
    BufferRoom(m.isBind, m.capacity, m.writePos, source, ok, okBytes);
    RoomFits(m.isBind, m.capacity, m.writePos, 4, ok);
    hide BufferCapacity, BufferFits, Room, NewCapacity, Align;
    var c := NewCapacity(m.isBind, m.capacity, m.writePos, 4, ok);
    if Room(m.isBind, m.capacity, m.writePos, 4, ok).To? && source.At? && source.bytes != [] {
      RoomFits(m.isBind, c, m.writePos + 4, |source.bytes|, okBytes);
    }
  }

  lemma SpaceTaken(before: Bytes, now: Bytes, source: Source)
    requires (source.At? ==> |source.bytes| < UINT32) && BufferAppended(before, now, source)
    ensures |now| == |before| + Space(source)
  {
  }

  /** Whether a buffer can be written, and the memory after the attempt, which may have grown even if it failed. */
  function BufferOutcome(m: Memory, source: Source, ok: bool, okBytes: bool): (r: (bool, Memory))
    requires IsMemory(m) && m.Memory? && (source.At? ==> |source.bytes| < UINT32)
    ensures IsMemory(r.1) && r.1.Memory?
  {
    var fits := BufferFits(m.isBind, m.capacity, m.writePos, source, ok, okBytes);
    var c := BufferCapacity(m.isBind, m.capacity, m.writePos, source, ok, okBytes);
    BufferStays(m, source, ok, okBytes);
    (fits, Memory(m.isBind, c, if fits then m.writePos + Space(source) else m.writePos))
  }

  function NumberOutcome(m: Memory, width: nat, ok: bool): (r: (bool, Memory))
    requires IsMemory(m) && m.Memory? && 0 < width < UINT32
    ensures IsMemory(r.1) && r.1.Memory?
  {
    var fits := Room(m.isBind, m.capacity, m.writePos, width, ok).To?;
    var c := NewCapacity(m.isBind, m.capacity, m.writePos, width, ok);
    RoomFits(m.isBind, m.capacity, m.writePos, width, ok);
    (fits, Memory(m.isBind, c, if fits then m.writePos + Align(width) else m.writePos))
  }

  function PutOutcome(m: Memory, x: Item, ok: bool, okBytes: bool): (r: (bool, Memory))
    requires IsMemory(m) && m.Memory? && Fits(x)
    ensures IsMemory(r.1) && r.1.Memory?
  {
    match x
    case Number(width, _) => NumberOutcome(m, width, ok)
    case Buffer(bytes) => BufferOutcome(m, At(bytes), ok, okBytes)
    case Text(chars) => BufferOutcome(m, At(chars + [0]), ok, okBytes)
  }
}
