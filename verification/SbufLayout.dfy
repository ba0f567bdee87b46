/** Where the bytes of a serialization buffer (`utils/src/hdf_sbuf_impl_raw.c`) stand: every typed write starts at a
    multiple of four, and so does every typed read; and how large the memory becomes. */
module SbufLayout {
  import opened SbufFormat
  import opened Sbuf
  import opened SbufMemory
  import opened SbufQueue

  // The bytes of a number, lowest first.

  lemma TwoBytes(s: Bytes)
    ensures |s| == 1 ==> FromBytes(s) == s[0]
    ensures |s| == 2 ==> FromBytes(s) == s[0] as int + 0x100 * s[1] as int
    ensures |s| >= 2 ==> FromBytes(s) == s[0] as int + 0x100 * s[1] as int + 0x1_0000 * FromBytes(s[2..])
  {
    if |s| >= 2 {
      assert s[1..][1..] == s[2..] && FromBytes(s) == s[0] as int + 0x100 * FromBytes(s[1..]);
      assert FromBytes(s[1..]) == s[1] as int + 0x100 * FromBytes(s[2..]);
    }
    assert |s| == 1 ==> s[1..] == [];
    assert |s| == 2 ==> s[2..] == [];
  }

  /** The four bytes from `p` on, lowest first. */
  function Word(memory: Bytes, p: nat): nat
    requires p + 4 <= |memory|
  {
    memory[p] as nat + 0x100 * memory[p + 1] as nat +
    0x1_0000 * memory[p + 2] as nat + 0x100_0000 * memory[p + 3] as nat
  }

  lemma WordFirst(s: Bytes)
    requires |s| >= 4
    ensures FromBytes(s) == Word(s, 0) + UINT32 * FromBytes(s[4..])
    ensures |s| == 4 ==> FromBytes(s) == Word(s, 0)
  {
    TwoBytes(s);
    TwoBytes(s[2..]);
    assert s[2..][2..] == s[4..];
    assert |s| == 4 ==> s[4..] == [] && FromBytes([]) == 0;
    hide FromBytes;
  }

  /** The bytes of the number `v` come first in `rest`. */
  lemma NumberFirst(rest: Bytes, v: nat, width: nat)
    requires width <= |rest| && rest[..width] == ToBytes(v, width) && Fits(Number(width, v))
    ensures width == 1 ==> v == rest[0]
    ensures width == 2 ==> v == rest[0] as nat + 0x100 * rest[1] as nat
    ensures width == 4 ==> v == Word(rest, 0)
    ensures width == 8 ==> v == Word(rest, 0) + UINT32 * Word(rest, 4)
  {
    hide FromBytes, ToBytes, Power;
    var s := rest[..width];
    NumberComesBack(v, width);
    TwoBytes(s);
    if width >= 4 {
      WordFirst(s);
    }
    if width == 8 {
      WordFirst(s[4..]);
    }
  }

  // How many words of four bytes an item takes.

  function Words(x: Item): nat {
    match x
    case Number(width, _) => (width + 3) / 4
    case Buffer(bytes) => 1 + (|bytes| + 3) / 4
    case Text(chars) => 1 + (|chars| + 4) / 4
  }

  function AllWords(items: seq<Item>): nat {
    if items == [] then 0 else Words(items[0]) + AllWords(items[1..])
  }

  lemma InWords(n: nat)
    requires n + 3 < SIZE
    ensures Align(n) == 4 * ((n + 3) / 4)
  {
    AlignIsMultiple(n);
    hide Align;
  }

  lemma ExtentInWords(x: Item)
    requires Fits(x)
    ensures Extent(x) == 4 * Words(x)
  {
    var c := Chunks(x);
    InWords(|c[0]|);
    if |c| == 2 {
      InWords(|c[1]|);
    }
    hide Align;
  }

  lemma LengthFits(n: nat)
    requires n < UINT32
    ensures Fits(Number(4, n))
  {
    assert Power(0x100, 4) == 0x100 * Power(0x100, 3) == 0x100 * (0x100 * Power(0x100, 2));
  }

  lemma FrontSlices(memory: Bytes, x: Item)
    requires Fits(x) && InFront(memory, x)
    ensures 4 * Words(x) == Extent(x) <= |memory|
    ensures x.Number? ==> memory[..x.width] == ToBytes(x.value, x.width)
    ensures x.Buffer? ==> memory[..4] == ToBytes(|x.bytes|, 4) && memory[4..4 + |x.bytes|] == x.bytes
    ensures x.Text? ==> memory[..4] == ToBytes(|x.chars| + 1, 4) && memory[4..4 + |x.chars| + 1] == x.chars + [0]
  {
    ExtentInWords(x);
    InWords(4);
    hide Align, ToBytes, Extent, Power;
  }

  /** The bytes of an item that is in front of the memory. */
  lemma FrontBytes(memory: Bytes, x: Item)
    requires Fits(x) && InFront(memory, x)
    ensures 4 * Words(x) == Extent(x) <= |memory|
    ensures x.Number? && x.width == 1 ==> x.value == memory[0]
    ensures x.Number? && x.width == 2 ==> x.value == memory[0] as nat + 0x100 * memory[1] as nat
    ensures x.Number? && x.width == 4 ==> x.value == Word(memory, 0)
    ensures x.Number? && x.width == 8 ==> x.value == Word(memory, 0) + UINT32 * Word(memory, 4)
    ensures x.Buffer? ==> Word(memory, 0) == |x.bytes| && memory[4..4 + |x.bytes|] == x.bytes
    ensures x.Text? ==> Word(memory, 0) == |x.chars| + 1 && memory[4..4 + |x.chars| + 1] == x.chars + [0]
  {
    FrontSlices(memory, x);
    hide InFront, ToBytes, Extent, Word, Power;
    match x
    case Number(width, value) => NumberFirst(memory, value, width);
    case Buffer(bytes) =>
      LengthFits(|bytes|);
      NumberFirst(memory, |bytes|, 4);
    case Text(chars) =>
      LengthFits(|chars| + 1);
      NumberFirst(memory, |chars| + 1, 4);
  }

  lemma {:induction false} ItemBytes(memory: Bytes, items: seq<Item>, i: nat) returns (rest: Bytes)
    requires Queued(memory, items) && i < |items|
    ensures var p := 4 * AllWords(items[..i]);
      p <= |memory| && rest == memory[p..] && Queued(rest, items[i..]) && Fits(items[i]) && InFront(rest, items[i])
  {
    if i == 0 {
      QueueFront(memory, items);
      assert items[0..] == items && items[..0] == [];
      rest := memory;
    } else {
      QueueFront(memory, items);
      hide Queued, InFront, Fits, Extent;
      ExtentInWords(items[0]);
      rest := ItemBytes(memory[Extent(items[0])..], items[1..], i - 1);
      assert items[1..][i - 1..] == items[i..] && items[1..][..i - 1] == items[..i][1..] && items[..i][0] == items[0];
    }
  }

  lemma Behind(memory: Bytes, p: nat, k: nat, n: nat)
    requires p + k + n <= |memory|
    ensures memory[p..][k..k + n] == memory[p + k..p + k + n]
    ensures k + 4 <= |memory| - p ==> Word(memory[p..], k) == Word(memory, p + k)
  {
  }

  lemma TextEnds(memory: Bytes, p: nat, chars: Bytes)
    requires p + |chars| + 1 <= |memory| && memory[p..p + |chars| + 1] == chars + [0]
    ensures memory[p..p + |chars|] == chars && memory[p + |chars|] == 0
  {
    var all := memory[p..p + |chars| + 1];
    assert all[..|chars|] == memory[p..p + |chars|] && all[|chars|] == memory[p + |chars|];
  }

  lemma BytesBehind(memory: Bytes, p: nat, x: Item)
    requires Fits(x) && p <= |memory| && InFront(memory[p..], x)
    ensures p + 4 * Words(x) <= |memory|
    ensures x.Number? && x.width == 1 ==> x.value == memory[p]
    ensures x.Number? && x.width == 2 ==> x.value == memory[p] as nat + 0x100 * memory[p + 1] as nat
    ensures x.Number? && x.width == 4 ==> x.value == Word(memory, p)
    ensures x.Number? && x.width == 8 ==> x.value == Word(memory, p) + UINT32 * Word(memory, p + 4)
    ensures x.Buffer? ==> Word(memory, p) == |x.bytes| && memory[p + 4..p + 4 + |x.bytes|] == x.bytes
    ensures x.Text? ==>
      && Word(memory, p) == |x.chars| + 1
      && memory[p + 4..p + 4 + |x.chars|] == x.chars && memory[p + 4 + |x.chars|] == 0
  {
    FrontBytes(memory[p..], x);
    hide InFront, Extent, Word, Power;
    Behind(memory, p, 0, 4 * Words(x));
    match x
    case Number(width, value) =>
      if width == 8 {
        Behind(memory, p, 4, 4);
      }
    case Buffer(bytes) => Behind(memory, p, 4, |bytes|);
    case Text(chars) =>
      Behind(memory, p, 4, |chars| + 1);
      TextEnds(memory, p + 4, chars);
  }

  /** Every item of the queue starts at four times the number of words before it: a number lowest byte first, a buffer
      behind its length, and a string behind its length with the NUL, and before the NUL. */
  lemma QueueLayout(memory: Bytes, items: seq<Item>, i: nat)
    requires Queued(memory, items) && i < |items|
    ensures var p, x := 4 * AllWords(items[..i]), items[i];
      && p + 4 * Words(x) <= |memory|
      && (x.Number? && x.width == 1 ==> x.value == memory[p])
      && (x.Number? && x.width == 2 ==> x.value == memory[p] as nat + 0x100 * memory[p + 1] as nat)
      && (x.Number? && x.width == 4 ==> x.value == Word(memory, p))
      && (x.Number? && x.width == 8 ==> x.value == Word(memory, p) + UINT32 * Word(memory, p + 4))
      && (x.Buffer? ==> Word(memory, p) == |x.bytes| && memory[p + 4..p + 4 + |x.bytes|] == x.bytes)
      && (x.Text? ==>
            && Word(memory, p) == |x.chars| + 1
            && memory[p + 4..p + 4 + |x.chars|] == x.chars && memory[p + 4 + |x.chars|] == 0)
  {
    var rest := ItemBytes(memory, items, i);
    hide Queued, InFront, AllWords, Extent, Word, Power, Fits;
    BytesBehind(memory, 4 * AllWords(items[..i]), items[i]);
  }

  /** The queue fills the memory. */
  lemma {:induction false} QueueSize(memory: Bytes, items: seq<Item>)
    requires Queued(memory, items)
    ensures |memory| == 4 * AllWords(items)
    decreases |items|
  {
    if items != [] {
      QueueFront(memory, items);
      ExtentInWords(items[0]);
      hide Queued, InFront, Fits, Extent;
      QueueSize(memory[4 * Words(items[0])..], items[1..]);
    }
  }

  // How large the memory becomes.

  lemma GrowSizeMeans(size: nat)
    requires size <= 0x8_0000
    ensures var a := (size + 3) / 4 * 4; GrowSize(size) == if a > 256 then a + 256 else 256
  {
    AlignIsMultiple(size);
    hide Align;
  }

  lemma GrowToMeans(isBind: bool, capacity: nat, growSize: nat, ok: bool)
    requires capacity <= 0x8_0000 && 0 < growSize <= 0x8_0200
    ensures var grown := (capacity + growSize + 3) / 4 * 4;
      GrowTo(isBind, capacity, growSize, ok) == if !isBind && ok && grown <= 0x8_0000 then To(grown) else Refused
  {
    AlignIsMultiple(capacity + growSize);
    NoWrap(capacity + growSize);
    hide Align;
  }

  /** Memory of up to 512 KB: a chunk of `size` bytes goes into what is left, or the memory grows by its size, if that
      is more than 256 bytes, and by 256 bytes, up to 512 KB. */
  lemma RoomMeans(isBind: bool, capacity: nat, writePos: nat, size: nat, ok: bool)
    requires writePos <= capacity <= 0x8_0000 && 0 < size <= 0x8_0000
    ensures
      var a := (size + 3) / 4 * 4;
      var grown := (capacity + (if a > 256 then a + 256 else 256) + 3) / 4 * 4;
      && Room(isBind, capacity, writePos, size, ok) ==
           (if a <= capacity - writePos then To(capacity)
            else if !isBind && ok && grown <= 0x8_0000 then To(grown) else Refused)
      && NewCapacity(isBind, capacity, writePos, size, ok) ==
           if a > capacity - writePos && !isBind && ok && grown <= 0x8_0000 then grown else capacity
  {
    var a := (size + 3) / 4 * 4;
    AlignIsMultiple(size);
    GrowSizeMeans(size);
    GrowToMeans(isBind, capacity, if a > 256 then a + 256 else 256, ok);
    hide Align, GrowSize, GrowTo;
  }

  /** More than 512 KB are never found in such memory. */
  lemma NoRoomForMore(isBind: bool, capacity: nat, writePos: nat, size: nat, ok: bool)
    requires writePos <= capacity <= 0x8_0000 < size < UINT32
    ensures Room(isBind, capacity, writePos, size, ok).Refused?
  {
    AlignIsMultiple(size);
    RoomFits(isBind, capacity, writePos, size, ok);
    hide Align, Room;
  }

  /** Larger memory, which was bound at first, never grows. */
  lemma NoRoomAbove(isBind: bool, capacity: nat, writePos: nat, size: nat, ok: bool)
    requires writePos <= capacity < SIZE / 2 && 0x8_0000 < capacity && 0 < size < UINT32
    ensures NewCapacity(isBind, capacity, writePos, size, ok) == capacity
    ensures Room(isBind, capacity, writePos, size, ok) ==
      if (size + 3) / 4 * 4 <= capacity - writePos then To(capacity) else Refused
  {
    AlignIsMultiple(size);
    hide Align;
  }

  // What one typed write does to the position.

  lemma SpaceInWords(source: Source)
    requires source.At? ==> |source.bytes| < UINT32
    ensures Space(source) == if source.Null? then 4 else 4 + (|source.bytes| + 3) / 4 * 4
  {
    if source.At? {
      AlignIsMultiple(|source.bytes|);
      hide Align;
    }
  }

  /** A write that succeeds moves the position by four times the words of its item, within the memory; one that fails
      leaves it. As long as the item fits into what is left, the write succeeds, and the memory stays as large as it is;
      and in memory that belongs to somebody else it succeeds only then. */
  lemma WriteInWords(m: Memory, x: Item, ok: bool, okBytes: bool)
    requires IsMemory(m) && m.Memory? && Fits(x)
    ensures var (written, after) := PutOutcome(m, x, ok, okBytes);
      && after.isBind == m.isBind && m.capacity <= after.capacity
      && after.writePos == (if written then m.writePos + 4 * Words(x) else m.writePos) <= after.capacity
      && (m.writePos + 4 * Words(x) <= m.capacity ==> written && after.capacity == m.capacity)
      && (m.isBind ==> (written <==> m.writePos + 4 * Words(x) <= m.capacity) && after.capacity == m.capacity)
  {
    match x
    case Number(width, _) =>
      AlignIsMultiple(width);
      RoomFits(m.isBind, m.capacity, m.writePos, width, ok);
      hide Align;
    case Buffer(bytes) => BufferInWords(m, At(bytes), ok, okBytes);
    case Text(chars) => BufferInWords(m, At(chars + [0]), ok, okBytes);
  }

  lemma ChunkInWords(m: Memory, size: nat, ok: bool)
    requires IsMemory(m) && m.Memory? && 0 < size < UINT32
    ensures var a := (size + 3) / 4 * 4;
      && (Room(m.isBind, m.capacity, m.writePos, size, ok).To? <== m.writePos + a <= m.capacity)
      && (m.isBind ==> (Room(m.isBind, m.capacity, m.writePos, size, ok).To? <==> m.writePos + a <= m.capacity))
      && (m.isBind || m.writePos + a <= m.capacity ==>
            NewCapacity(m.isBind, m.capacity, m.writePos, size, ok) == m.capacity)
  {
    AlignIsMultiple(size);
    hide Align;
  }

  lemma BufferInWords(m: Memory, source: Source, ok: bool, okBytes: bool)
    requires IsMemory(m) && m.Memory? && (source.At? ==> |source.bytes| < UINT32)
    ensures var (written, after) := BufferOutcome(m, source, ok, okBytes);
      var size := if source.Null? then 4 else 4 + (|source.bytes| + 3) / 4 * 4;
      && after.isBind == m.isBind && m.capacity <= after.capacity
      && after.writePos == (if written then m.writePos + size else m.writePos) <= after.capacity
      && (m.writePos + size <= m.capacity ==> written && after.capacity == m.capacity)
      && (m.isBind ==> (written <==> m.writePos + size <= m.capacity) && after.capacity == m.capacity)
  {
    SpaceInWords(source);
    BufferStays(m, source, ok, okBytes);
    BufferRoom(m.isBind, m.capacity, m.writePos, source, ok, okBytes);
    ChunkInWords(m, 4, ok);
    hide Align, Room, NewCapacity, BufferFits, BufferCapacity, Space;
    var c := NewCapacity(m.isBind, m.capacity, m.writePos, 4, ok);
    if Room(m.isBind, m.capacity, m.writePos, 4, ok).To? && source.At? && source.bytes != [] {
      ChunkInWords(Memory(m.isBind, c, m.writePos + 4), |source.bytes|, okBytes);
    }
  }

  // What a read finds, whether it matches what was written or not.

  /** The length in front of a buffer or a string is a 32-bit number with a sign. */
  lemma LengthMeans(u: Bytes)
    requires |u| >= 4
    ensures LengthAt(u) == if u[3] < 0x80 then Word(u, 0) else Word(u, 0) - 0x1_0000_0000
  {
    WordFirst(u[..4]);
    hide FromBytes;
  }

  /** A number is read if its bytes are there; a buffer, if its length and its bytes are, which they are for the lengths
      -1 to -3, too; a string, if its length is positive and at most 32767 and its bytes are there. */
  lemma ReadingMeans(u: Bytes, width: nat)
    requires width in {1, 2, 4, 8} && |u| < SIZE / 2
    ensures
      var (answer, rest) := ReadingNumber(u, width);
      if (width + 3) / 4 * 4 <= |u|
      then answer == Got(Number(width, FromBytes(u[..width]))) && rest == u[(width + 3) / 4 * 4..]
      else answer == Nothing && rest == u
    ensures
      var (answer, rest) := ReadingBuffer(u);
      if |u| < 4 || LengthAt(u) < -3 || 4 + (LengthAt(u) + 3) / 4 * 4 > |u| then answer == Nothing && rest == u
      else if LengthAt(u) < 0 then answer == Stray && rest == u[4..]
      else answer == Got(Buffer(u[4..4 + LengthAt(u)])) && rest == u[4 + (LengthAt(u) + 3) / 4 * 4..]
    ensures
      var (answer, rest) := ReadingText(u);
      if |u| < 4 || LengthAt(u) > 32767 || 4 + (LengthAt(u) + 3) / 4 * 4 > |u| then answer == Nothing && rest == u
      else if LengthAt(u) <= 0 then answer == Nothing && rest == u[4..]
      else answer == Got(Text(u[4..3 + LengthAt(u)])) && rest == u[4 + (LengthAt(u) + 3) / 4 * 4..]
  {
    AlignIsMultiple(width);
    if |u| >= 4 {
      AlignIsMultiple(AsSize(LengthAt(u)));
    }
    assert Align(0) == 0;
    hide Align, LengthAt, FromBytes;
  }
}
