/** The contents of a serialization buffer (`utils/src/hdf_sbuf_impl_raw.c`) as a queue of typed items: numbers,
    buffers and strings, each padded to four bytes with whatever the memory held before. */
module SbufFormat {

  type Byte = b: int | 0 <= b < 0x100

  type Bytes = seq<Byte>

  const UINT32 := 0x1_0000_0000
  const SIZE := 0x1_0000_0000_0000_0000
  const INT16_MAX := 32767
  const HDF_SBUF_ALIGN := 4
  const HDF_SBUF_GROW_SIZE_DEFAULT := 256
  const HDF_SBUF_MAX_SIZE := 512 * 1024

  /** `SbufRawImplGetAlignSize`, in which the sum wraps around at 64 bits. */
  function Align(size: nat): (aligned: nat)
    requires size < SIZE
    ensures size + 3 < SIZE ==> size <= aligned <= size + 3
    ensures size + 3 >= SIZE ==> aligned == 0
    ensures size > 0 && size + 3 < SIZE ==> aligned > 0
  {
    (size + HDF_SBUF_ALIGN - 1) % SIZE / HDF_SBUF_ALIGN * HDF_SBUF_ALIGN
  }

  /** The next multiple of four, below the wrap. */
  lemma AlignIsMultiple(size: nat)
    requires size < SIZE
    ensures Align(size) % 4 == 0
    ensures size < 0xFFFF_FFFF_FFFF_FFFD ==> Align(size) == (size + 3) / 4 * 4
  {
  }

  // Numbers in memory, lowest byte first.

  function ToBytes(v: nat, width: nat): (s: Bytes)
    ensures |s| == width
  {
    if width == 0 then [] else [v % 0x100] + ToBytes(v / 0x100, width - 1)
  }

  function FromBytes(s: Bytes): (v: nat) {
    if s == [] then 0 else s[0] + 0x100 * FromBytes(s[1..])
  }

  function Power(base: nat, k: nat): (p: nat)
    ensures base > 0 ==> p > 0
  {
    if k == 0 then 1 else base * Power(base, k - 1)
  }

  lemma {:induction false} NumberComesBack(v: nat, width: nat)
    requires v < Power(0x100, width)
    ensures FromBytes(ToBytes(v, width)) == v
  {
    if width > 0 {
      NumberComesBack(v / 0x100, width - 1);
      var s := ToBytes(v, width);
      assert s[1..] == ToBytes(v / 0x100, width - 1);
    }
  }

  lemma FourBytes(s: Bytes)
    requires |s| == 4
    ensures FromBytes(s) < UINT32
  {
    assert FromBytes(s[1..]) == s[1] + 0x100 * FromBytes(s[2..]);
    assert FromBytes(s[2..]) == s[2] + 0x100 * FromBytes(s[3..]);
    assert s[1..][1..] == s[2..] && s[2..][1..] == s[3..] && FromBytes(s[3..]) == s[3] + 0x100 * FromBytes([]);
  }

  /** A 32-bit pattern read as `int32_t`. */
  function Signed(pattern: nat): int {
    if pattern < UINT32 / 2 then pattern else pattern - UINT32
  }

  /** An `int32_t` converted to `size_t`, and to `uint32_t`. */
  function AsSize(n: int): nat
    requires -UINT32 <= n < UINT32
  {
    if n < 0 then n + SIZE else n
  }

  function AsUint32(n: int): nat
    requires -UINT32 <= n < UINT32
  {
    if n < 0 then n + UINT32 else n
  }

  lemma LengthComesBack(n: nat)
    requires n < UINT32 / 2
    ensures Signed(FromBytes(ToBytes(n, 4))) == n
  {
    assert Power(0x100, 4) == 0x100 * Power(0x100, 3) == 0x100 * (0x100 * Power(0x100, 2));
    NumberComesBack(n, 4);
  }

  // Chunks: what one write puts into the buffer.

  type Chunk = c: Bytes | 0 < |c| < UINT32 witness [0]

  /** `now` is `before` with the chunk `c` and its padding behind it. */
  predicate Appended(before: Bytes, now: Bytes, c: Chunk) {
    && |now| == |before| + Align(|c|) && now[..|before|] == before
    && now[|before|..|before| + |c|] == c
  }

  /** `now` is `before` without the chunk `c` and its padding at the front. */
  predicate Taken(before: Bytes, now: Bytes, c: Chunk) {
    Align(|c|) <= |before| && before[..|c|] == c && now == before[Align(|c|)..]
  }

  predicate Holds(memory: Bytes, chunks: seq<Chunk>)
    decreases |chunks|
  {
    if chunks == [] then memory == []
    else
      && Align(|chunks[0]|) <= |memory| && memory[..|chunks[0]|] == chunks[0]
      && Holds(memory[Align(|chunks[0]|)..], chunks[1..])
  }

  lemma {:induction false} AppendHolds(memory: Bytes, chunks: seq<Chunk>, now: Bytes, c: Chunk)
    requires Holds(memory, chunks) && Appended(memory, now, c)
    ensures Holds(now, chunks + [c])
    decreases |chunks|
  {
    if chunks == [] {
      assert now[Align(|c|)..] == [];
      assert now[..|c|] == now[|memory|..|memory| + |c|];
    } else {
      var n := Align(|chunks[0]|);
      assert memory[n..] == now[n..][..|memory| - n];
      assert now[n..][|memory| - n..|memory| - n + |c|] == now[|memory|..|memory| + |c|];
      AppendHolds(memory[n..], chunks[1..], now[n..], c);
      assert (chunks + [c])[1..] == chunks[1..] + [c];
      assert now[..|chunks[0]|] == now[..|memory|][..|chunks[0]|];
    }
  }

  lemma HoldsFront(memory: Bytes, c: Chunk, chunks: seq<Chunk>)
    requires Holds(memory, [c] + chunks)
    ensures Align(|c|) <= |memory| && memory[..|c|] == c && Holds(memory[Align(|c|)..], chunks)
  {
    assert ([c] + chunks)[1..] == chunks;
  }

  // Items: what one typed write puts into the buffer.

  /** A number of one, two, four or eight bytes, a buffer, or a string without its NUL. A null buffer is written as
      an empty one. */
  datatype Item = Number(width: nat, value: nat) | Buffer(bytes: Bytes) | Text(chars: Bytes)

  predicate Fits(x: Item) {
    match x
    case Number(width, value) => width in {1, 2, 4, 8} && value < Power(0x100, width)
    case Buffer(bytes) => |bytes| < UINT32 / 2
    case Text(chars) => |chars| + 1 <= INT16_MAX && 0 !in chars
  }

  function Chunks(x: Item): seq<Chunk>
    requires Fits(x)
  {
    match x
    case Number(width, value) => [ToBytes(value, width)]
    case Buffer(bytes) => if bytes == [] then [ToBytes(0, 4)] else [ToBytes(|bytes|, 4), bytes]
    case Text(chars) => [ToBytes(|chars| + 1, 4), chars + [0]]
  }

  function AllChunks(items: seq<Item>): seq<Chunk>
    requires forall i :: 0 <= i < |items| ==> Fits(items[i])
  {
    if items == [] then [] else Chunks(items[0]) + AllChunks(items[1..])
  }

  lemma {:induction false} AllChunksAppend(items: seq<Item>, x: Item)
    requires forall i :: 0 <= i < |items| ==> Fits(items[i])
    requires Fits(x)
    ensures AllChunks(items + [x]) == AllChunks(items) + Chunks(x)
  {
    if items == [] {
      assert items + [x] == [x];
      assert AllChunks([x]) == Chunks(x) + AllChunks([]);
    } else {
      AllChunksAppend(items[1..], x);
      assert (items + [x])[1..] == items[1..] + [x];
    }
  }

  /** The memory holds exactly these items, in this order. */
  ghost predicate Queued(memory: Bytes, items: seq<Item>) {
    (forall i :: 0 <= i < |items| ==> Fits(items[i])) && Holds(memory, AllChunks(items))
  }

  /** `now` is `before` with the chunks of one item behind it. */
  predicate ItemAppended(before: Bytes, now: Bytes, x: Item)
    requires Fits(x)
  {
    var c := Chunks(x);
    if |c| == 1 then Appended(before, now, c[0])
    else
      && |before| + 4 <= |now| && Appended(before, now[..|before| + 4], c[0])
      && Appended(now[..|before| + 4], now, c[1])
  }

  lemma QueueGrows(memory: Bytes, items: seq<Item>, now: Bytes, x: Item)
    requires Queued(memory, items) && Fits(x) && ItemAppended(memory, now, x)
    ensures Queued(now, items + [x])
  {
    var c := Chunks(x);
    AllChunksAppend(items, x);
    if |c| == 1 {
      assert c == [c[0]];
      AppendHolds(memory, AllChunks(items), now, c[0]);
    } else {
      AppendHolds(memory, AllChunks(items), now[..|memory| + 4], c[0]);
      AppendHolds(now[..|memory| + 4], AllChunks(items) + [c[0]], now, c[1]);
      assert AllChunks(items) + [c[0]] + [c[1]] == AllChunks(items) + c;
    }
  }

  /** What is behind the part already read changes in the same way as the whole. */
  lemma AppendedBehind(before: Bytes, now: Bytes, c: Chunk, readPos: nat)
    requires Appended(before, now, c) && readPos <= |before|
    ensures Appended(before[readPos..], now[readPos..], c)
  {
    assert now[readPos..][|before| - readPos..|before| - readPos + |c|] == now[|before|..|before| + |c|];
    assert now[readPos..][..|before| - readPos] == now[..|before|][readPos..];
  }

  lemma ItemAppendedBehind(before: Bytes, now: Bytes, x: Item, readPos: nat)
    requires Fits(x) && ItemAppended(before, now, x) && readPos <= |before|
    ensures ItemAppended(before[readPos..], now[readPos..], x)
  {
    var c := Chunks(x);
    if |c| == 1 {
      AppendedBehind(before, now, c[0], readPos);
    } else {
      AppendedBehind(before, now[..|before| + 4], c[0], readPos);
      AppendedBehind(now[..|before| + 4], now, c[1], readPos);
      assert now[..|before| + 4][readPos..] == now[readPos..][..|before| - readPos + 4];
    }
  }

  lemma FrontOfQueue(items: seq<Item>)
    requires items != [] && forall i :: 0 <= i < |items| ==> Fits(items[i])
    ensures var c, rest := Chunks(items[0]), AllChunks(items[1..]);
            AllChunks(items) == if |c| == 1 then [c[0]] + rest else [c[0]] + ([c[1]] + rest)
  {
  }

  lemma SliceBehind(memory: Bytes, n: nat, m: nat)
    requires n + m <= |memory|
    ensures memory[n..][..m] == memory[n..n + m] && memory[n..][m..] == memory[n + m..]
  {
  }

  lemma TwoInFront(memory: Bytes, c: Chunk, d: Chunk, chunks: seq<Chunk>)
    requires Holds(memory, [c] + ([d] + chunks))
    ensures var n, m := Align(|c|), Align(|d|);
      && n + m <= |memory| && n + |d| <= |memory| && memory[..|c|] == c && memory[n..n + |d|] == d
      && Holds(memory[n + m..], chunks)
  {
    hide Align, Holds;
    var n, m := Align(|c|), Align(|d|);
    HoldsFront(memory, c, [d] + chunks);
    HoldsFront(memory[n..], d, chunks);
    SliceBehind(memory, n, m);
    SliceBehind(memory, n, |d|);
  }

  /** How far the chunks of an item reach, padding included. */
  function Extent(x: Item): nat
    requires Fits(x)
  {
    var c := Chunks(x);
    if |c| == 1 then Align(|c[0]|) else Align(|c[0]|) + Align(|c[1]|)
  }

  predicate InFront(memory: Bytes, x: Item)
    requires Fits(x)
  {
    var c := Chunks(x);
    && Extent(x) <= |memory| && memory[..|c[0]|] == c[0]
    && (|c| == 2 ==> memory[Align(|c[0]|)..Align(|c[0]|) + |c[1]|] == c[1])
  }

  lemma ItemAtFront(memory: Bytes, x: Item, rest: seq<Chunk>)
    requires Fits(x)
    requires var c := Chunks(x); Holds(memory, if |c| == 1 then [c[0]] + rest else [c[0]] + ([c[1]] + rest))
    ensures InFront(memory, x) && Holds(memory[Extent(x)..], rest)
  {
    hide Align, Holds, ToBytes, Power;
    var c := Chunks(x);
    if |c| == 1 {
      HoldsFront(memory, c[0], rest);
    } else {
      TwoInFront(memory, c[0], c[1], rest);
    }
  }

  /** The first item is at the front of the memory. */
  lemma QueueFront(memory: Bytes, items: seq<Item>)
    requires Queued(memory, items) && items != []
    ensures Fits(items[0]) && InFront(memory, items[0])
    ensures Queued(memory[Extent(items[0])..], items[1..])
  {
    FrontOfQueue(items);
    hide Extent, InFront, Holds, AllChunks, Chunks, Fits;
    ItemAtFront(memory, items[0], AllChunks(items[1..]));
  }
}
