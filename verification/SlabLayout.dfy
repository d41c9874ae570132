/** How kernel/memory/cache.cc lays a slab out in its block. */
module SlabLayout {
  import opened Arithmetic

  const SLAB_SIZE: nat := PAGE
  const SLAB_HEADER: nat := 40   // sizeof( struct slab )
  const INLINE_CTL: nat := 8     // sizeof( struct bufctl_inline )
  const MAGIC_SIZE: nat := 2     // sizeof( uint16_t )

  datatype Config = Config(objSize: nat, objAlign: nat, allocSize: nat, compact: bool, markers: bool)

  /** The distance from an object to the end of its marker, where an inline control block sits. */
  function CtlOffset(c: Config): nat {
    c.objSize + if c.markers then MAGIC_SIZE else 0
  }

  function RawSize(c: Config): nat {
    c.objSize + (if c.compact then INLINE_CTL else 0) + (if c.markers then MAGIC_SIZE else 0)
  }

  /** The least multiple of a that is at least x. */
  function RoundUp(x: nat, a: nat): (r: nat)
    requires a > 0
    ensures x <= r < x + a
  {
    x + (a - x % a) % a
  }

  function BuffSize(c: Config): nat
    requires c.objAlign > 0
  {
    RoundUp(RawSize(c), c.objAlign)
  }

  /** What a cache made by _cache_init looks like, with room for at least one buffer. */
  predicate GoodConfig(c: Config) {
    && c.objAlign > 0
    && SLAB_SIZE <= c.allocSize
    && c.compact == (c.objSize < c.allocSize / 8)
    && BuffSize(c) <= c.allocSize
    && Buffers(c) > 0
  }

  function Buffers(c: Config): nat
    requires c.objAlign > 0 && SLAB_SIZE <= c.allocSize
    requires c.compact == (c.objSize < c.allocSize / 8)
  {
    (if c.compact then c.allocSize - SLAB_HEADER else c.allocSize) / BuffSize(c)
  }

  /** The i-th buffer of a slab. */
  function Buffer(c: Config, backing: nat, i: nat): nat
    requires c.objAlign > 0
  {
    backing + BuffSize(c) * i
  }

  lemma RoundUpIs(q: nat, a: nat, r: nat)
    requires r < a
    ensures RoundUp(a * q + r, a) == if r == 0 then a * q else a * (q + 1)
  {
    ModUnique(q, a, r);
    if r == 0 { ModUnique(1, a, 0); } else { ModUnique(0, a, a - r); }
    assert a * (q + 1) == a * q + a && a * 1 == a && a * 0 == 0;
  }

  lemma RoundUpAligned(x: nat, a: nat)
    requires a > 0
    ensures RoundUp(x, a) % a == 0
  {
    var q, r := x / a, x % a;
    assert x == a * q + r;
    RoundUpIs(q, a, r);
    ModUnique(q, a, 0);
    ModUnique(q + 1, a, 0);
  }

  /** Adding one at a time, as _slab_alloc does, arrives at the rounded size. */
  lemma RoundUpStep(x: nat, a: nat)
    requires a > 0 && x % a != 0
    ensures RoundUp(x + 1, a) == RoundUp(x, a)
  {
    var q, r := x / a, x % a;
    assert x == a * q + r;
    RoundUpIs(q, a, r);
    if r + 1 < a {
      RoundUpIs(q, a, r + 1);
    } else {
      RoundUpIs(q + 1, a, 0);
      assert a * (q + 1) == a * q + a;
    }
  }

  lemma MultiplesAdd(x: nat, b: nat, i: nat, a: nat)
    requires a > 0 && x % a == 0 && b % a == 0
    ensures (x + b * i) % a == 0
  {
    var p, q := x / a, b / a;
    assert x == a * p && b == a * q;
    Reorder(a, q, i);
    assert a * (p + q * i) == a * p + a * (q * i);
    ModUnique(p + q * i, a, 0);
  }

  lemma Reorder(a: nat, q: nat, i: nat)
    ensures a * q * i == a * (q * i)
  {}

  lemma Quotient(room: nat, b: nat, i: nat)
    requires b > 0 && i < room / b
    ensures b * i + b <= room
  {
    Scale(b, i + 1, room / b);
    assert room == b * (room / b) + room % b;
    assert b * (i + 1) == b * i + b;
  }

  /** A buffer holds its object, then its marker, then its inline control block; buffers stay inside
      the block and clear of an inline header, and are aligned if the block is. */
  lemma BuffersFit(c: Config, backing: nat, i: nat)
    requires GoodConfig(c) && i < Buffers(c)
    ensures CtlOffset(c) + (if c.compact then INLINE_CTL else 0) <= BuffSize(c)
    ensures Buffer(c, backing, i) + BuffSize(c) <=
            backing + (if c.compact then c.allocSize - SLAB_HEADER else c.allocSize)
    ensures backing % c.objAlign == 0 ==> Buffer(c, backing, i) % c.objAlign == 0
  {
    Quotient(if c.compact then c.allocSize - SLAB_HEADER else c.allocSize, BuffSize(c), i);
    if backing % c.objAlign == 0 {
      RoundUpAligned(RawSize(c), c.objAlign);
      MultiplesAdd(backing, BuffSize(c), i, c.objAlign);
    }
  }

  /** A slab has as many buffers as fit: one more would not. */
  lemma NoRoomForMore(c: Config)
    requires GoodConfig(c)
    ensures var room := if c.compact then c.allocSize - SLAB_HEADER else c.allocSize;
            BuffSize(c) * Buffers(c) <= room < BuffSize(c) * (Buffers(c) + 1)
  {
    var room, b := if c.compact then c.allocSize - SLAB_HEADER else c.allocSize, BuffSize(c);
    hide BuffSize;
    Divide(room, b);
    assert b * (Buffers(c) + 1) == b * Buffers(c) + b;
  }

  /** Buffers of one slab do not overlap. */
  lemma BuffersApart(c: Config, backing: nat, i: nat, j: nat)
    requires GoodConfig(c) && i < j
    ensures Buffer(c, backing, i) + BuffSize(c) <= Buffer(c, backing, j)
  {
    Scale(BuffSize(c), i + 1, j);
    assert BuffSize(c) * (i + 1) == BuffSize(c) * i + BuffSize(c);
  }

  /** The configuration _cache_init gives a cache: the block is the least whole number of slab sizes
      that holds one object. */
  function CacheConfig(size: nat, align: nat, checkOverflow: bool): Config {
    var alloc := if size <= SLAB_SIZE then SLAB_SIZE else RoundUp(size, SLAB_SIZE);
    Config(size, if align == 0 then 1 else align, alloc, size < alloc / 8, checkOverflow)
  }

  /** The block is the least whole number of pages that holds one object, and the cache is compact if a block
      holds more than eight. */
  lemma ConfigIs(size: nat, align: nat, checkOverflow: bool)
    ensures var c := CacheConfig(size, align, checkOverflow);
            && c.objSize == size && c.markers == checkOverflow && c.objAlign == (if align == 0 then 1 else align)
            && c.allocSize % PAGE == 0 && size <= c.allocSize
            && PAGE <= c.allocSize && (c.allocSize == PAGE || c.allocSize < size + PAGE)
            && (c.compact <==> 8 * (size + 1) <= c.allocSize)
  {
    RoundUpAligned(size, SLAB_SIZE);
    ModUnique(1, SLAB_SIZE, 0);
    Divide(CacheConfig(size, align, checkOverflow).allocSize, 8);
    hide RoundUp;
  }

  /** A buffer takes the object, 2 bytes for a marker if there are markers, and 8 for a control block if that is
      inline, rounded up to the alignment. */
  lemma BuffSizeIs(c: Config)
    requires c.objAlign > 0
    ensures var raw := c.objSize + (if c.markers then 2 else 0) + (if c.compact then 8 else 0);
            BuffSize(c) % c.objAlign == 0 && raw <= BuffSize(c) < raw + c.objAlign
  {
    RoundUpAligned(RawSize(c), c.objAlign);
    hide RoundUp;
  }

  lemma RoundUpLeast(x: nat, a: nat, k: nat)
    requires k >= 1 && a * (k - 1) < x <= a * k
    ensures RoundUp(x, a) == a * k
  {
    assert a * k == a * (k - 1) + a;
    if x == a * k { RoundUpIs(k, a, 0); } else { RoundUpIs(k - 1, a, x - a * (k - 1)); }
  }

  method InitConfig(size: nat, align: nat, checkOverflow: bool) returns (c: Config)
    ensures c == CacheConfig(size, align, checkOverflow)
  {
    var alloc := SLAB_SIZE;
    ghost var k := 1;
    while alloc < size
      invariant k >= 1 && alloc == SLAB_SIZE * k
      invariant k == 1 || SLAB_SIZE * (k - 1) < size
    {
      alloc := alloc + SLAB_SIZE;
      k := k + 1;
    }
    if size > SLAB_SIZE { RoundUpLeast(size, SLAB_SIZE, k); }
    c := Config(size, if align != 0 then align else 1, alloc, size < alloc / 8, checkOverflow);
  }

  /** The size of a buffer as _slab_alloc finds it, one byte at a time. */
  method FindBuffSize(c: Config) returns (b: nat)
    requires c.objAlign > 0
    ensures b == BuffSize(c)
  {
    b := c.objSize + if c.compact then INLINE_CTL else 0;
    b := b + if c.markers then MAGIC_SIZE else 0;
    while b % c.objAlign != 0
      invariant RoundUp(b, c.objAlign) == BuffSize(c)
      decreases BuffSize(c) - b
    {
      RoundUpStep(b, c.objAlign);
      b := b + 1;
    }
    assert (c.objAlign - 0) % c.objAlign == 0 by { ModUnique(1, c.objAlign, 0); }
  }

  /** A block always has room for a buffer, if the buffer with its marker and control block fits at
      all: a cache made by _cache_init is good exactly when one rounded-up buffer fits its block. */
  lemma GoodIff(size: nat, align: nat, checkOverflow: bool)
    ensures var c := CacheConfig(size, align, checkOverflow);
            GoodConfig(c) <==> BuffSize(c) <= if c.compact then c.allocSize - SLAB_HEADER else c.allocSize
  {
    var c := CacheConfig(size, align, checkOverflow);
    var room := if c.compact then c.allocSize - SLAB_HEADER else c.allocSize;
    assert BuffSize(c) > 0;
    if BuffSize(c) <= room { AtLeastOne(room, BuffSize(c)); } else { Less(room, BuffSize(c)); }
  }

  lemma AtLeastOne(room: nat, b: nat)
    requires 0 < b <= room
    ensures room / b > 0
  {
    assert room == b * (room / b) + room % b;
  }

  lemma Less(room: nat, b: nat)
    requires room < b
    ensures room / b == 0
  {
    ModUnique(0, b, room);
    assert b * 0 == 0;
  }
}
