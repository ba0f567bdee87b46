/** The table of the chained hash map of `utils/src/hdf_map.c`: hashing, buckets, masking, and rehashing in place. */
module HashTable {
  import opened Base

  // Hashing.

  /** A character of a C string that is not the final NUL. */
  type Char = c: int | 1 <= c < 0x100 witness 1

  type Key = seq<Char>

  type Value = seq<int>

  const WORD := 0x1_0000_0000
  const HASH_SEED := 131
  const HDF_MIN_MAP_SIZE := 8
  const HDF_ENLARGE_FACTOR := 2
  const HDF_MAP_KEY_MAX_SIZE := 1000
  const HDF_MAP_VALUE_MAX_SIZE := 1000

  /** The value of a character where `char` is signed, or is not. */
  function CharValue(c: Char, signedChar: bool): int {
    if signedChar && c >= 0x80 then c - 0x100 else c
  }

  function HashFrom(h: nat, key: Key, signedChar: bool): (hash: nat)
    requires h < WORD
    ensures hash < WORD
    decreases |key|
  {
    if key == [] then h else HashFrom((h * HASH_SEED + CharValue(key[0], signedChar)) % WORD, key[1..], signedChar)
  }

  /** `x & y` on unsigned integers. */
  function BitAnd(x: nat, y: nat): (z: nat)
    ensures z <= y
    decreases x
  {
    if x == 0 || y == 0 then 0 else x % 2 * (y % 2) + 2 * BitAnd(x / 2, y / 2)
  }

  function Hash(key: Key, signedChar: bool): nat {
    BitAnd(HashFrom(0, key, signedChar), 0x7FFF_FFFF)
  }

  method MapHash(hashKey: Key, signedChar: bool) returns (hash: nat)
    ensures hash == Hash(hashKey, signedChar)
  {
    var hashValue := 0;
    var i := 0;
    while i < |hashKey|
      invariant i <= |hashKey| && 0 <= hashValue < WORD
      invariant HashFrom(hashValue, hashKey[i..], signedChar) == HashFrom(0, hashKey, signedChar)
    {
      hashValue := (hashValue * HASH_SEED + CharValue(hashKey[i], signedChar)) % WORD;
      assert hashKey[i..][1..] == hashKey[i + 1..];
      i := i + 1;
    }
    hash := BitAnd(hashValue, 0x7FFF_FFFF);
  }

  /** A shift by `HDF_ENLARGE_FACTOR` bits makes a table this many times larger. */
  const GROWTH := 4

  /** The sizes a table takes: 8, 32, 128 and so on. */
  predicate TableSize(size: nat) {
    size == HDF_MIN_MAP_SIZE || (size > HDF_MIN_MAP_SIZE && size % GROWTH == 0 && TableSize(size / GROWTH))
  }

  function Power2(k: nat): (p: nat)
    ensures p > 0
  {
    if k == 0 then 1 else 2 * Power2(k - 1)
  }

  lemma {:induction false} TableSizeIsPower(size: nat) returns (k: nat)
    requires TableSize(size)
    ensures size == Power2(k) && k >= 3
  {
    if size == HDF_MIN_MAP_SIZE {
      k := 3;
    } else {
      k := TableSizeIsPower(size / GROWTH);
      k := k + 2;
      assert Power2(k) == 2 * Power2(k - 1) == 4 * Power2(k - 2);
    }
  }

  /** Masking with one less than a power of two keeps the remainder. */
  lemma {:induction false} MaskIsRemainder(x: nat, k: nat)
    ensures BitAnd(x, Power2(k) - 1) == x % Power2(k)
    decreases k
  {
    if k == 0 {
    } else {
      var p := Power2(k - 1);
      assert Power2(k) == 2 * p;
      hide Power2, BitAnd;
      MaskIsRemainder(x / 2, k - 1);
      HalfOfRemainder(x, p);
      LowBit(x, p);
    }
  }

  lemma LowBit(x: nat, p: nat)
    requires p > 0
    ensures BitAnd(x, 2 * p - 1) == x % 2 + 2 * BitAnd(x / 2, p - 1)
  {
    assert (2 * p - 1) / 2 == p - 1 && (2 * p - 1) % 2 == 1;
  }

  lemma HalfOfRemainder(x: nat, p: nat)
    requires p > 0
    ensures x % (2 * p) == x % 2 + 2 * (x / 2 % p)
  {
    var q, r := x / 2 / p, x / 2 % p;
    assert x == 2 * (x / 2) + x % 2 && x / 2 == q * p + r;
    assert x == q * (2 * p) + (2 * r + x % 2);
    Remainder(x, 2 * p, q, 2 * r + x % 2);
  }

  lemma Remainder(x: nat, m: nat, q: nat, r: nat)
    requires m > 0 && r < m && x == q * m + r
    ensures x % m == r
  {
    var d, e := x / m, x % m;
    assert x == d * m + e;
    assert (d - q) * m == r - e;
    AtLeast(d - q, m);
    AtLeast(q - d, m);
  }

  lemma AtLeast(a: int, m: nat)
    ensures a >= 1 ==> a * m >= m
  {
  }

  // The hash as a polynomial.

  function Power131(n: nat): nat {
    if n == 0 then 1 else 131 * Power131(n - 1)
  }

  /** The characters as the coefficients of a polynomial in 131, the first with the highest power. */
  function Polynomial(key: Key, signedChar: bool): int {
    if key == [] then 0
    else
      (if signedChar && key[0] >= 0x80 then key[0] - 0x100 else key[0]) * Power131(|key| - 1) +
      Polynomial(key[1..], signedChar)
  }

  lemma Wraps(k: int, y: int)
    ensures (k * WORD + y) % WORD == y % WORD
  {
  }

  lemma WrapsBefore(x: int, p: int, y: int)
    ensures (x % WORD * p + y) % WORD == (x * p + y) % WORD
  {
    var q, r := x / WORD, x % WORD;
    assert x * p == q * p * WORD + r * p by {
      assert x == q * WORD + r;
      assert (q * WORD + r) * p == q * WORD * p + r * p && q * WORD * p == q * p * WORD;
    }
    Wraps(q * p, r * p + y);
  }

  lemma {:induction false} HashIsHorner(h: nat, key: Key, signedChar: bool)
    requires h < WORD
    ensures HashFrom(h, key, signedChar) == (h * Power131(|key|) + Polynomial(key, signedChar)) % WORD
    decreases |key|
  {
    if key != [] {
      var c, p, rest := CharValue(key[0], signedChar), Power131(|key| - 1), Polynomial(key[1..], signedChar);
      HashIsHorner((h * 131 + c) % WORD, key[1..], signedChar);
      WrapsBefore(h * 131 + c, p, rest);
      Collected(h, c, p, rest);
    }
  }

  lemma Collected(h: int, c: int, p: int, rest: int)
    ensures (h * 131 + c) * p + rest == h * (131 * p) + (c * p + rest)
  {
    assert (h * 131 + c) * p == h * 131 * p + c * p && h * 131 * p == h * (131 * p);
  }

  /** The hash of a key is that polynomial modulo 2^32 with the top bit cleared. */
  lemma HashIsPolynomial(key: Key, signedChar: bool)
    ensures Hash(key, signedChar) == Polynomial(key, signedChar) % 0x1_0000_0000 % 0x8000_0000
  {
    HashIsHorner(0, key, signedChar);
    assert Power2(31) == 0x8000_0000 by {
      assert Power2(8) == 0x100;
      assert Power2(16) == 0x1_0000;
      assert Power2(24) == 0x100_0000;
    }
    hide Power2, BitAnd;
    MaskIsRemainder(HashFrom(0, key, signedChar), 31);
  }

  // Nodes, chains and buckets.

  class MapNode {
    const hash: nat
    const key: Key
    const valueSize: nat
    var value: Value
    var next: MapNode?

    constructor (key: Key, hash: nat, value: Value)
      ensures this.key == key && this.hash == hash && this.value == value && valueSize == |value| && next == null
    {
      this.key, this.hash, this.value, valueSize := key, hash, value, |value|;
      next := null;
    }
  }

  type Chain = seq<MapNode>

  ghost predicate From(head: MapNode?, c: Chain)
    reads c`next
  {
    && (head == if c == [] then null else c[0])
    && forall j {:trigger c[j].next} :: 0 <= j < |c| ==> c[j].next == if j + 1 < |c| then c[j + 1] else null
  }

  lemma {:induction false} ChainIsDistinct(head: MapNode?, c: Chain)
    requires From(head, c)
    ensures Distinct(c)
  {
    forall i, j | 0 <= i < j < |c| ensures c[i] != c[j] {
      NoNodeTwice(head, c, i, j);
    }
  }

  lemma {:induction false} NoNodeTwice(head: MapNode?, c: Chain, i: nat, j: nat)
    requires From(head, c) && i < j < |c|
    ensures c[i] != c[j]
    decreases |c| - j
  {
    assert c[i].next == c[i + 1];
    if j + 1 < |c| {
      assert c[j].next == c[j + 1];
      NoNodeTwice(head, c, i + 1, j + 1);
    }
  }

  ghost function Members(chains: seq<Chain>): set<MapNode> {
    set i, j | 0 <= i < |chains| && 0 <= j < |chains[i]| :: chains[i][j]
  }

  lemma WhereIs(chains: seq<Chain>, n: MapNode) returns (i: nat, j: nat)
    requires n in Members(chains)
    ensures i < |chains| && j < |chains[i]| && chains[i][j] == n
    ensures Placed(chains) ==> BitAnd(n.hash, |chains| - 1) == i
  {
    i, j :| 0 <= i < |chains| && 0 <= j < |chains[i]| && chains[i][j] == n;
  }

  /** Bucket `i` starts chain `i`. */
  ghost predicate Linked(heads: seq<MapNode?>, chains: seq<Chain>)
    reads Members(chains)`next
  {
    |heads| == |chains| && forall i {:trigger chains[i]} :: 0 <= i < |chains| ==> From(heads[i], chains[i])
  }

  /** Every node is in the bucket that its hash selects. */
  ghost predicate Placed(chains: seq<Chain>) {
    forall i, j {:trigger chains[i][j]} :: 0 <= i < |chains| && 0 <= j < |chains[i]| ==>
      BitAnd(chains[i][j].hash, |chains| - 1) == i
  }

  ghost function Total(chains: seq<Chain>): nat {
    if chains == [] then 0 else |chains[0]| + Total(chains[1..])
  }

  lemma {:induction false} TotalUpdate(chains: seq<Chain>, i: nat, c: Chain)
    requires i < |chains|
    ensures Total(chains[i := c]) == Total(chains) - |chains[i]| + |c|
  {
    if i == 0 {
      assert chains[0 := c][1..] == chains[1..];
    } else {
      TotalUpdate(chains[1..], i - 1, c);
      assert chains[i := c][1..] == chains[1..][i - 1 := c];
    }
  }

  /** A node put at the head of the chain of its bucket. */
  lemma Pushed(chains: seq<Chain>, idx: nat, node: MapNode)
    requires idx < |chains| && Placed(chains) && idx == BitAnd(node.hash, |chains| - 1)
    ensures Placed(chains[idx := [node] + chains[idx]])
    ensures Members(chains[idx := [node] + chains[idx]]) == Members(chains) + {node}
    ensures Total(chains[idx := [node] + chains[idx]]) == Total(chains) + 1
  {
    var t := chains[idx := [node] + chains[idx]];
    TotalUpdate(chains, idx, [node] + chains[idx]);
    hide Total;
    forall n | n in Members(chains) ensures n in Members(t) {
      var i, j :| 0 <= i < |chains| && 0 <= j < |chains[i]| && chains[i][j] == n;
      assert t[i][if i == idx then j + 1 else j] == n;
    }
    assert t[idx][0] == node;
  }

  /** `MapAddNode`. */
  method MapAddNode(nodes: array<MapNode?>, node: MapNode, ghost chains: seq<Chain>) returns (ghost t: seq<Chain>)
    requires Linked(nodes[..], chains) && Placed(chains) && |chains| > 0 && node !in Members(chains)
    modifies nodes, node`next
    ensures Linked(nodes[..], t) && Placed(t) && |t| == |chains|
    ensures Members(t) == Members(chains) + {node} && Total(t) == Total(chains) + 1
  {
    var idx := BitAnd(node.hash, nodes.Length - 1);
    assert forall i :: 0 <= i < |chains| ==> From(nodes[i], chains[i]) && node !in chains[i];
    node.next := nodes[idx];
    assert forall i :: 0 <= i < |chains| ==> From(nodes[i], chains[i]);
    nodes[idx] := node;
    t := chains[idx := [node] + chains[idx]];
    assert From(node, t[idx]);
    hide From;
    Pushed(chains, idx, node);
  }

  ghost function Nodes(c: Chain): set<MapNode> {
    set j | 0 <= j < |c| :: c[j]
  }

  /** The node at the front of what is left of chain `c` goes to its new bucket. */
  method MoveNode(nodes: array<MapNode?>, node: MapNode, ghost c: Chain, ghost j: nat, ghost t: seq<Chain>)
    returns (next: MapNode?, ghost u: seq<Chain>)
    requires j < |c| && From(node, c[j..]) && Distinct(c)
    requires Linked(nodes[..], t) && Placed(t) && |t| > 0 && Nodes(c[j..]) !! Members(t)
    modifies nodes, c`next
    ensures From(next, c[j + 1..]) && Linked(nodes[..], u) && Placed(u) && |u| == |t|
    ensures Members(u) == Members(t) + {c[j]} && Total(u) == Total(t) + 1
  {
    assert node == c[j..][0] == c[j];
    assert node.next == if j + 1 < |c| then c[j..][1] else null;
    assert forall i {:trigger c[j + 1..][i]} :: 0 <= i < |c| - j - 1 ==>
      c[j + 1..][i] == c[j..][i + 1] && c[j + 1..][i] != node;
    next := node.next;
    assert From(next, c[j + 1..]);
    assert node in Nodes(c[j..]);
    hide From, Linked, Placed, Members, Nodes, Total;
    u := MapAddNode(nodes, node, t);
  }

  lemma NodesSplit(c: Chain, j: nat)
    requires j < |c| && Distinct(c)
    ensures Nodes(c[j..]) == Nodes(c[j + 1..]) + {c[j]} && c[j] !in Nodes(c[j + 1..])
    ensures Nodes(c[..j + 1]) == Nodes(c[..j]) + {c[j]}
  {
    forall n | n in Nodes(c[j..]) ensures n in Nodes(c[j + 1..]) + {c[j]} {
      var i :| 0 <= i < |c[j..]| && c[j..][i] == n;
      if i > 0 {
        assert c[j + 1..][i - 1] == n;
      }
    }
    forall n | n in Nodes(c[j + 1..]) ensures n in Nodes(c[j..]) {
      var i :| 0 <= i < |c[j + 1..]| && c[j + 1..][i] == n;
      assert c[j..][i + 1] == n;
    }
    assert c[j..][0] == c[j];
    forall n | n in Nodes(c[..j + 1]) ensures n in Nodes(c[..j]) + {c[j]} {
      var i :| 0 <= i < |c[..j + 1]| && c[..j + 1][i] == n;
      if i < j {
        assert c[..j][i] == n;
      }
    }
    forall n | n in Nodes(c[..j]) ensures n in Nodes(c[..j + 1]) {
      var i :| 0 <= i < |c[..j]| && c[..j][i] == n;
      assert c[..j + 1][i] == n;
    }
    assert c[..j + 1][j] == c[j];
  }

  /** The inner loop of `MapResize`: every node of one old chain goes to its new bucket. */
  method MoveChain(nodes: array<MapNode?>, head: MapNode?, ghost c: Chain, ghost t: seq<Chain>)
    returns (ghost u: seq<Chain>, ghost moved: nat)
    requires From(head, c) && Linked(nodes[..], t) && Placed(t) && |t| > 0 && Nodes(c) !! Members(t)
    modifies nodes, c`next
    ensures Linked(nodes[..], u) && Placed(u) && |u| == |t|
    ensures Members(u) == Members(t) + Nodes(c) && Total(u) == Total(t) + |c| && moved == |c|
  {
    ChainIsDistinct(head, c);
    var node := head;
    u, moved := t, 0;
    ghost var j := 0;
    assert c[0..] == c;
    assert node == null ==> c == [];
    assert Nodes(c[..0]) == {};
    hide Linked, Placed, Members, Nodes, Total;
    while node != null
      invariant j <= |c| && From(node, c[j..]) && Nodes(c[j..]) !! Members(u)
      invariant Linked(nodes[..], u) && Placed(u) && |u| == |t|
      invariant Members(u) == Members(t) + Nodes(c[..j]) && Total(u) == Total(t) + j && moved == j
      decreases |c| - j
    {
      var next;
      assert j < |c|;
      NodesSplit(c, j);
      hide From;
      next, u := MoveNode(nodes, node, c, j, u);
      moved := moved + 1;
      node := next;
      j := j + 1;
    }
    assert c[..j] == c;
  }

  lemma TotalSplit(chains: seq<Chain>, i: nat)
    requires i < |chains|
    ensures Total(chains[..i + 1]) == Total(chains[..i]) + |chains[i]|
  {
    if i == 0 {
      assert chains[..1] == [chains[0]] && chains[..0] == [];
      assert Total([chains[0]]) == |chains[0]| + Total([chains[0]][1..]);
    } else {
      TotalSplit(chains[1..], i - 1);
      assert chains[..i + 1][1..] == chains[1..][..i] && chains[..i][1..] == chains[1..][..i - 1];
    }
  }

  lemma MembersSplit(chains: seq<Chain>, i: nat)
    requires i < |chains| && Placed(chains)
    ensures Members(chains[..i + 1]) == Members(chains[..i]) + Nodes(chains[i])
    ensures Nodes(chains[i]) !! Members(chains[..i])
    ensures forall k {:trigger chains[k]} :: i < k < |chains| ==> Nodes(chains[k]) !! Nodes(chains[i])
  {
    var p := chains[..i + 1];
    forall n | n in Members(p) ensures n in Members(chains[..i]) + Nodes(chains[i]) {
      var k, j :| 0 <= k < |p| && 0 <= j < |p[k]| && p[k][j] == n;
      if k < i {
        assert chains[..i][k][j] == n;
      } else {
        assert chains[i][j] == n;
      }
    }
    forall n | n in Members(chains[..i]) ensures n in Members(p) {
      var k, j :| 0 <= k < |chains[..i]| && 0 <= j < |chains[..i][k]| && chains[..i][k][j] == n;
      assert p[k][j] == n && chains[k][j] == n;
      assert BitAnd(n.hash, |chains| - 1) == k;
    }
    forall n | n in Nodes(chains[i]) ensures n in Members(p) && n !in Members(chains[..i]) {
      var j :| 0 <= j < |chains[i]| && chains[i][j] == n;
      assert p[i][j] == n;
      assert BitAnd(n.hash, |chains| - 1) == i;
      forall k, l | 0 <= k < i && 0 <= l < |chains[..i][k]| ensures chains[..i][k][l] != n {
        assert BitAnd(chains[k][l].hash, |chains| - 1) == k;
      }
    }
  }

  ghost predicate Pending(heads: seq<MapNode?>, chains: seq<Chain>, i: nat)
    reads Members(chains)`next
  {
    |heads| == |chains| && forall k {:trigger chains[k]} :: i <= k < |chains| ==> From(heads[k], chains[k])
  }

  /** One old bucket is emptied into the new ones. */
  method MoveBucket(old_: array<MapNode?>, nodes: array<MapNode?>, i: nat, ghost chains: seq<Chain>,
                    ghost t: seq<Chain>)
    returns (ghost u: seq<Chain>, ghost moved: nat)
    requires old_ != nodes && i < |chains| && Pending(old_[..], chains, i) && Placed(chains)
    requires Linked(nodes[..], t) && Placed(t) && |t| > 0 && Members(t) == Members(chains[..i])
    modifies nodes, Members(chains)`next
    ensures Pending(old_[..], chains, i + 1)
    ensures Linked(nodes[..], u) && Placed(u) && |u| == |t|
    ensures Members(u) == Members(chains[..i + 1]) && Total(u) == Total(t) + |chains[i]| && moved == |chains[i]|
  {
    MembersSplit(chains, i);
    ghost var c := chains[i];
    assert From(old_[i], c);
    assert forall k, j {:trigger chains[k][j]} :: i < k < |chains| && 0 <= j < |chains[k]| ==> chains[k][j] !in c by {
      forall k, j | i < k < |chains| && 0 <= j < |chains[k]| ensures chains[k][j] !in c {
        assert chains[k][j] in Nodes(chains[k]);
      }
    }
    assert forall n :: n in c ==> n in Members(chains);
    hide Linked, Placed, Members, Nodes, Total;
    u, moved := MoveChain(nodes, old_[i], c, t);
  }

  /** The loops of `MapResize`; `relinked` counts the nodes that they move. */
  method Rehash(old_: array<MapNode?>, nodes: array<MapNode?>, ghost chains: seq<Chain>)
    returns (ghost t: seq<Chain>, ghost relinked: nat)
    requires old_ != nodes && Linked(old_[..], chains) && Placed(chains)
    requires nodes.Length > 0 && forall i :: 0 <= i < nodes.Length ==> nodes[i] == null
    modifies nodes, Members(chains)`next
    ensures Linked(nodes[..], t) && Placed(t) && |t| == nodes.Length
    ensures Members(t) == Members(chains) && Total(t) == Total(chains) == relinked
  {
    t, relinked := seq(nodes.Length, _ => []), 0;
    EmptyTotal(t);
    var i := 0;
    assert Pending(old_[..], chains, 0);
    assert Members(chains[..0]) == {} && Total(chains[..0]) == 0;
    assert |chains| == old_.Length;
    hide *;
    while i < old_.Length
      invariant i <= |chains| && Pending(old_[..], chains, i) && Placed(chains)
      invariant Linked(nodes[..], t) && Placed(t) && |t| == nodes.Length
      invariant Members(t) == Members(chains[..i]) && Total(t) == Total(chains[..i]) == relinked
    {
      TotalSplit(chains, i);
      ghost var moved;
      t, moved := MoveBucket(old_, nodes, i, chains, t);
      relinked := relinked + moved;
      i := i + 1;
    }
    assert chains[..i] == chains;
  }

  lemma {:induction false} EmptyTotal(t: seq<Chain>)
    requires forall i :: 0 <= i < |t| ==> t[i] == []
    ensures Total(t) == 0 && Members(t) == {}
  {
    if t != [] {
      EmptyTotal(t[1..]);
    }
  }

  // Table sizes.

  lemma {:induction false} SizesGrowFourfold(x: nat, y: nat)
    requires TableSize(x) && TableSize(y) && x < y
    ensures GROWTH * x <= y
  {
    if x > HDF_MIN_MAP_SIZE {
      SizesGrowFourfold(x / GROWTH, y / GROWTH);
    } else {
      AtLeastMinimum(y / GROWTH);
    }
  }

  lemma {:induction false} AtLeastMinimum(x: nat)
    requires TableSize(x)
    ensures x >= HDF_MIN_MAP_SIZE
  {
  }

  const LARGEST_SIZE := 0x8000_0000

  lemma LargestSize()
    ensures TableSize(LARGEST_SIZE)
  {
    assert TableSize(8) && TableSize(0x20) && TableSize(0x80) && TableSize(0x200);
    assert TableSize(0x800) && TableSize(0x2000) && TableSize(0x8000) && TableSize(0x2_0000);
    assert TableSize(0x8_0000) && TableSize(0x20_0000) && TableSize(0x80_0000) && TableSize(0x200_0000);
    assert TableSize(0x800_0000) && TableSize(0x2000_0000);
  }

  /** `x << k` on 32 bits. */
  function ShiftLeft(x: nat, k: nat): nat {
    x * Power2(k) % WORD
  }

  /** What `MapSet` asks for when the table is full; a shift out of the word leaves 0. */
  function NextSize(bucketSize: nat): nat {
    if bucketSize < HDF_MIN_MAP_SIZE then HDF_MIN_MAP_SIZE else ShiftLeft(bucketSize, HDF_ENLARGE_FACTOR)
  }

  lemma ShiftByTwo(x: nat)
    requires x <= LARGEST_SIZE
    ensures GROWTH * x < WORD ==> ShiftLeft(x, HDF_ENLARGE_FACTOR) == GROWTH * x
    ensures x == LARGEST_SIZE ==> ShiftLeft(x, HDF_ENLARGE_FACTOR) == 0
  {
    assert Power2(HDF_ENLARGE_FACTOR) == 2 * Power2(1) == GROWTH;
  }

  lemma NextIsTableSize(size: nat)
    requires size == 0 || (TableSize(size) && size < WORD)
    ensures NextSize(size) == 0 || (TableSize(NextSize(size)) && NextSize(size) < WORD)
    ensures NextSize(size) == 0 <==> size == LARGEST_SIZE
    ensures NextSize(size) > 0 ==> NextSize(size) == if size == 0 then HDF_MIN_MAP_SIZE else GROWTH * size
    ensures size == 0 || size >= HDF_MIN_MAP_SIZE
  {
    if size > 0 {
      hide ShiftLeft;
      LargestSize();
      AtLeastMinimum(size);
      if size < LARGEST_SIZE {
        SizesGrowFourfold(size, LARGEST_SIZE);
      } else if size > LARGEST_SIZE {
        SizesGrowFourfold(LARGEST_SIZE, size);
      }
      ShiftByTwo(size);
    }
  }

  /** The nodes are those that the index knows, and each carries its key, the hash of the key, and the value bound
      to the key, whose size it records. */
  ghost predicate Indexed(members: set<MapNode>, index: map<Key, MapNode>, m: map<Key, Value>, signedChar: bool)
    reads members`value
  {
    && (forall n {:trigger n in members} :: n in members ==> n.key in index && index[n.key] == n)
    && (forall k {:trigger index[k]} :: k in index ==> (
      && index[k] in members && index[k].key == k && index[k].hash == Hash(k, signedChar)
      && k in m && m[k] == index[k].value && |m[k]| == index[k].valueSize))
    && |m| == |index| && forall k {:trigger k in m} :: k in m ==> k in index
  }

  lemma IndexedPlus(members: set<MapNode>, index: map<Key, MapNode>, m: map<Key, Value>, signedChar: bool,
                      node: MapNode)
    requires Indexed(members, index, m, signedChar) && node !in members && node.key !in m
    requires node.hash == Hash(node.key, signedChar) && |node.value| == node.valueSize
    ensures Indexed(members + {node}, index[node.key := node], m[node.key := node.value], signedChar)
  {
    hide Hash;
  }

  lemma IndexedMinus(members: set<MapNode>, index: map<Key, MapNode>, m: map<Key, Value>, signedChar: bool,
                       node: MapNode)
    requires Indexed(members, index, m, signedChar) && node in members
    ensures Indexed(members - {node}, index - {node.key}, m - {node.key}, signedChar)
  {
    hide Hash;
  }

  /** The node of one key holds another value of the same size. */
  lemma IndexedAnew(members: set<MapNode>, index: map<Key, MapNode>, m: map<Key, Value>, signedChar: bool,
                      node: MapNode)
    requires node in members && node.key in m && |node.value| == node.valueSize
    requires forall n {:trigger n in members} :: n in members ==> n.key in index && index[n.key] == n
    requires forall k {:trigger index[k]} :: k in index ==> (
      && index[k] in members && index[k].key == k && index[k].hash == Hash(k, signedChar) && k in m
      && (index[k] != node ==> m[k] == index[k].value && |m[k]| == index[k].valueSize))
    requires |m| == |index| && forall k {:trigger k in m} :: k in m ==> k in index
    ensures Indexed(members, index, m[node.key := node.value], signedChar)
  {
    hide Hash;
  }

  ghost predicate Table(nodes: array?<MapNode?>, bucketSize: nat, chains: seq<Chain>)
    reads nodes, Members(chains)`next
  {
    && |chains| == bucketSize && Placed(chains)
    && (nodes == null ==> bucketSize == 0)
    && (nodes != null ==>
        nodes.Length == bucketSize && TableSize(bucketSize) && bucketSize < WORD && Linked(nodes[..], chains))
  }

  lemma TableParts(nodes: array<MapNode?>, bucketSize: nat, chains: seq<Chain>)
    ensures Table(nodes, bucketSize, chains) <==> (
      && Linked(nodes[..], chains) && Placed(chains)
      && |chains| == nodes.Length == bucketSize < WORD && bucketSize > 0 && TableSize(bucketSize))
  {
    if TableSize(bucketSize) {
      AtLeastMinimum(bucketSize);
    }
  }

  method AddToTable(nodes: array<MapNode?>, bucketSize: nat, node: MapNode, ghost chains: seq<Chain>)
    returns (ghost t: seq<Chain>)
    requires Table(nodes, bucketSize, chains) && node !in Members(chains)
    modifies nodes, node`next
    ensures Table(nodes, bucketSize, t)
    ensures Members(t) == Members(chains) + {node} && Total(t) == Total(chains) + 1
  {
    TableParts(nodes, bucketSize, chains);
    hide *;
    t := MapAddNode(nodes, node, chains);
    TableParts(nodes, bucketSize, t);
  }

  lemma CutFrom(chains: seq<Chain>, idx: nat, j: nat)
    requires idx < |chains| && j < |chains[idx]| && Placed(chains) && Distinct(chains[idx])
    ensures Placed(chains[idx := Without(chains[idx], j)])
    ensures Members(chains[idx := Without(chains[idx], j)]) == Members(chains) - {chains[idx][j]}
    ensures Total(chains[idx := Without(chains[idx], j)]) == Total(chains) - 1
  {
    var c, n := chains[idx], chains[idx][j];
    var d := Without(c, j);
    WithoutAt(c, j);
    var t := chains[idx := d];
    TotalUpdate(chains, idx, d);
    hide Total, Without;
    forall m | m in Members(chains) && m != n ensures m in Members(t) {
      var i, l :| 0 <= i < |chains| && 0 <= l < |chains[i]| && chains[i][l] == m;
      if i == idx {
        assert d[if l < j then l else l - 1] == m;
        assert m in d && t[idx] == d;
      } else {
        assert t[i][l] == m;
      }
    }
    forall m | m in Members(t) ensures m in Members(chains) && m != n {
      var i, l :| 0 <= i < |t| && 0 <= l < |t[i]| && t[i][l] == m;
      if i == idx {
        assert c[if l < j then l else l + 1] == m;
      } else {
        assert chains[i][l] == m;
        assert BitAnd(m.hash, |chains| - 1) == i && BitAnd(chains[idx][j].hash, |chains| - 1) == idx;
      }
    }
  }

  /** `node` stands at position `j` of chain `idx`, and `prev` before it or, at the head, in the same place. */
  ghost predicate InChain(chains: seq<Chain>, idx: nat, j: nat, prev: MapNode, node: MapNode) {
    && idx < |chains| && j < |chains[idx]| && chains[idx][j] == node
    && prev == chains[idx][if j == 0 then 0 else j - 1]
  }

  method CutFromTable(nodes: array<MapNode?>, bucketSize: nat, idx: nat, prev: MapNode, node: MapNode, ghost j: nat,
                      ghost chains: seq<Chain>)
    returns (ghost t: seq<Chain>)
    requires Table(nodes, bucketSize, chains) && InChain(chains, idx, j, prev, node)
    modifies nodes, prev`next
    ensures Table(nodes, bucketSize, t)
    ensures Members(t) == Members(chains) - {node} && Total(t) == Total(chains) - 1
  {
    TableParts(nodes, bucketSize, chains);
    hide *;
    t := Unlink(nodes, idx, prev, node, j, chains);
    TableParts(nodes, bucketSize, t);
  }

  /** The unlinking in `MapErase`. */
  method Unlink(nodes: array<MapNode?>, idx: nat, prev: MapNode, node: MapNode, ghost j: nat, ghost chains: seq<Chain>)
    returns (ghost t: seq<Chain>)
    requires Linked(nodes[..], chains) && Placed(chains) && InChain(chains, idx, j, prev, node)
    modifies nodes, prev`next
    ensures Linked(nodes[..], t) && Placed(t) && |t| == |chains|
    ensures Members(t) == Members(chains) - {node} && Total(t) == Total(chains) - 1
  {
    ghost var c := chains[idx];
    ghost var d := Without(c, j);
    WithoutAt(c, j);
    assert From(nodes[idx], c);
    ChainIsDistinct(nodes[idx], c);
    assert forall i :: 0 <= i < |chains| ==> From(nodes[i], chains[i]);
    forall i | 0 <= i < |chains| && i != idx ensures prev !in chains[i] {
      NotInOther(chains, idx, if j == 0 then 0 else j - 1, i);
    }
    if nodes[idx] == node {
      nodes[idx] := node.next;
      assert j == 0;
    } else {
      prev.next := node.next;
    }
    t := chains[idx := d];
    assert From(nodes[idx], d);
    hide From;
    CutFrom(chains, idx, j);
  }

  lemma NotInOther(chains: seq<Chain>, i: nat, j: nat, k: nat)
    requires Placed(chains) && i < |chains| && j < |chains[i]| && k < |chains| && k != i
    ensures chains[i][j] !in chains[k]
  {
  }

  /** The table that replaces a smaller one, with the same nodes. */
  method NewTable(tmp: array?<MapNode?>, bucketSize: nat, size: nat, ghost chains: seq<Chain>)
    returns (nodes: array<MapNode?>, ghost t: seq<Chain>, ghost relinked: nat)
    requires Table(tmp, bucketSize, chains) && TableSize(size) && size < WORD
    modifies Members(chains)`next
    ensures fresh(nodes) && Table(nodes, size, t)
    ensures Members(t) == Members(chains) && Total(t) == Total(chains) == relinked
  {
    AtLeastMinimum(size);
    nodes := new MapNode?[size](_ => null);
    hide TableSize, Members, Total;
    if tmp != null {
      t, relinked := Rehash(tmp, nodes, chains);
    } else {
      t, relinked := seq(size, _ => []), 0;
      EmptyTotal(t);
      EmptyTotal(chains);
    }
  }

  // Freeing.

  method FreeChain(head: MapNode?, ghost c: Chain) returns (freed: seq<MapNode>)
    requires From(head, c)
    ensures freed == c
  {
    freed := [];
    var node := head;
    while node != null
      invariant |freed| <= |c| && freed == c[..|freed|]
      invariant node == if |freed| < |c| then c[|freed|] else null
      decreases |c| - |freed|
    {
      var next := node.next;
      freed := freed + [node];
      node := next;
    }
  }

  lemma FreedMore(freed: Chain, c: Chain)
    requires Distinct(freed) && Distinct(c) && Nodes(freed) !! Nodes(c)
    ensures Distinct(freed + c) && Nodes(freed + c) == Nodes(freed) + Nodes(c)
  {
    var all := freed + c;
    assert forall i :: 0 <= i < |all| ==> all[i] == if i < |freed| then freed[i] else c[i - |freed|];
    forall n | n in Nodes(freed) + Nodes(c) ensures n in Nodes(all) {
      if n in Nodes(freed) {
        var i :| 0 <= i < |freed| && freed[i] == n;
        assert all[i] == n;
      } else {
        var i :| 0 <= i < |c| && c[i] == n;
        assert all[|freed| + i] == n;
      }
    }
    forall i, j | 0 <= i < j < |all| ensures all[i] != all[j] {
      if i < |freed| <= j {
        assert freed[i] in Nodes(freed) && c[j - |freed|] in Nodes(c);
      }
    }
  }

  /** The loops of `MapDelete`: every node is freed exactly once. */
  method FreeAll(nodes: array<MapNode?>, ghost chains: seq<Chain>) returns (freed: seq<MapNode>)
    requires Linked(nodes[..], chains) && Placed(chains)
    ensures Distinct(freed) && Nodes(freed) == Members(chains) && |freed| == Total(chains)
  {
    freed := [];
    var i := 0;
    assert Members(chains[..0]) == {} && Total(chains[..0]) == 0 && Nodes(freed) == {} && |chains| == nodes.Length;
    hide Linked, Placed, Members, Nodes, Total, From, Distinct;
    assert Distinct(freed) by { NoneTwice(); }
    while i < nodes.Length
      invariant i <= |chains| && Distinct(freed) && Nodes(freed) == Members(chains[..i])
      invariant |freed| == Total(chains[..i])
    {
      HeadOf(nodes[..], chains, i);
      ChainIsDistinct(nodes[i], chains[i]);
      MembersSplit(chains, i);
      TotalSplit(chains, i);
      FreedMore(freed, chains[i]);
      var more := FreeChain(nodes[i], chains[i]);
      freed := freed + more;
      i := i + 1;
    }
    assert chains[..i] == chains;
  }

  lemma NoneTwice()
    ensures Distinct<MapNode>([])
  {
  }

  lemma HeadOf(heads: seq<MapNode?>, chains: seq<Chain>, i: nat)
    requires Linked(heads, chains) && i < |chains|
    ensures |heads| == |chains| && From(heads[i], chains[i])
  {
  }
}
