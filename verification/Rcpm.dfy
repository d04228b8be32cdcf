/** A CP/M directory built from a list of host files, and the way back from sectors to file offsets
    (lib/libdsk/drvrcpm.c): the parameters, the directory entries and the allocation, as functions. */
module Rcpm {
  import opened Bits

  const FSVERSION_CPM3 := 3
  const FSVERSION_ISX := -2
  const NAME_LENGTH := 16

  datatype Params = Params(blockSize: nat, dirBlocks: nat, totalBlocks: nat, secSize: nat, version: int)

  /** rcpmfs_get_exm, plus one. */
  function Fold(p: Params): nat {
    if p.totalBlocks < 256 then p.blockSize / 1024 else p.blockSize / 2048
  }

  function BlocksPerExtent(p: Params): (n: nat)
    ensures n == 16 || n == 8
  {
    if p.totalBlocks < 256 then 16 else 8
  }

  function ExtentSize(p: Params): nat {
    p.blockSize * BlocksPerExtent(p)
  }

  function MaxDirent(p: Params): nat {
    p.dirBlocks * (p.blockSize / 32)
  }

  /** The parameters the driver can work with: block numbers fit their 8 or 16 bits, the extent mask
      plus one is a power of two dividing 32, and sectors hold whole directory entries. */
  predicate Sane(p: Params) {
    && 0 < p.dirBlocks < p.totalBlocks <= 0x1_0000
    && Fold(p) in {1, 2, 4, 8, 16, 32}
    && 0 < p.secSize <= p.blockSize && p.secSize % 32 == 0
  }

  // ---------------------------------------------------------------- directory entries

  /** A directory slot: its 32 bytes, and the host name kept beside it. */
  datatype Slot = Slot(bytes: seq<byte>, name: string)

  /** A host file: user number and 8.3 name as entry bytes 0 to 11, host name, size, and the bytes of
      its time stamps. */
  datatype File = File(head: seq<byte>, name: string, size: nat, stamp: seq<byte>)

  predicate FileOk(f: File) {
    |f.head| == 12 && f.head[0] <= 16 && |f.stamp| == 9
  }

  /** strncpy into a name map entry. */
  function Clip(name: string): string {
    if |name| > NAME_LENGTH then name[..NAME_LENGTH] else name
  }

  /** Byte i of the block pointer area of an extent that owns the blocks first to first + n - 1. */
  function PointerByte(p: Params, first: nat, n: nat, i: nat): byte {
    if BlocksPerExtent(p) == 16 then (if i < n then (first + i) % 256 else 0)
    else if i / 2 < n then (if i % 2 == 0 then (first + i / 2) % 256 else (first + i / 2) / 256 % 256)
    else 0
  }

  function Pointers(p: Params, first: nat, n: nat): (b: seq<byte>)
    ensures |b| == 16
  {
    seq(16, i requires 0 <= i < 16 => PointerByte(p, first, n, i))
  }

  function Smaller(a: nat, b: nat): nat {
    if a < b then a else b
  }

  /** A directory entry for one extent; rest is the part of the file not covered by earlier extents. */
  function MakeEntry(p: Params, f: File, extent: nat, rest: nat, first: nat, n: nat): (e: seq<byte>)
    requires FileOk(f) && Sane(p)
    ensures |e| == 32
  {
    var len := Smaller(rest, ExtentSize(p));
    var ex := (extent * Fold(p)) % 32 + ((len + 127) / 16384) % Fold(p);
    var s1 := if p.version == FSVERSION_ISX then (128 - rest % 128) % 128 else rest % 128;
    ExtentByte(p, extent, (len + 127) / 16384);
    f.head + [ex, s1, (extent * Fold(p)) / 32 % 256, (len + 127) / 128 % 256] + Pointers(p, first, n)
  }

  // ---------------------------------------------------------------- the extent counter

  /** How many extents the five low bits of the counter tell apart. */
  function Spread(m: nat): nat {
    if m == 1 then 32 else if m == 2 then 16 else if m == 4 then 8 else if m == 8 then 4 else if m == 16 then 2 else 1
  }

  lemma SpreadFold(p: Params)
    requires Sane(p)
    ensures var m := Fold(p); m > 0 && Spread(m) > 0 && m * Spread(m) == 32
  {
  }

  lemma Quotient(x: nat, d: nat, q: nat, s: nat)
    requires s < d && x == d * q + s
    ensures x / d == q && x % d == s
  {
    var r := x / d;
    assert x == d * r + x % d;
    assert r > q ==> d * r >= d * (q + 1);
    assert r < q ==> d * q >= d * (r + 1);
  }

  lemma Regroup(m: nat, u: nat, q: nat, s: nat)
    ensures (u * q + s) * m == (m * u) * q + m * s
  {
    assert (u * q) * m == (m * u) * q;
  }

  lemma LessTimes(m: nat, s: nat, u: nat)
    requires m > 0 && s < u
    ensures m * s < m * u
  {
  }

  lemma Scaled(m: nat, k: nat, u: nat)
    requires m > 0 && u > 0
    ensures m * u > 0 && (k * m) % (m * u) == m * (k % u) && (k * m) / (m * u) == k / u
  {
    var q, s := k / u, k % u;
    assert k == u * q + s;
    Regroup(m, u, q, s);
    LessTimes(m, s, u);
    Quotient(k * m, m * u, q, m * s);
  }

  lemma Distribute(u: nat, c: nat, e: nat)
    ensures u * (256 * c + e) == (256 * u) * c + u * e
  {
  }

  lemma Digits(u: nat, c: nat, e: nat, b: nat)
    requires b < u && e < 256
    ensures 256 * u > 0 && (u * (256 * c + e) + b) % (256 * u) == b + u * e
  {
    Distribute(u, c, e);
    assert u * e <= u * 255;
    Quotient((256 * u) * c + (u * e + b), 256 * u, c, u * e + b);
  }

  lemma TwoDigits(k: nat, u: nat, a: nat, b: nat)
    requires b < u && k == u * a + b
    ensures b + u * (a % 256) == k % (256 * u)
  {
    Digits(u, a / 256, a % 256, b);
    assert 256 * (a / 256) + a % 256 == a;
  }

  lemma DivMod(k: nat, u: nat)
    requires u > 0
    ensures k == u * (k / u) + k % u && k % u < u
  {
  }

  /** The low bits of the extent counter and the bits below the mask do not overlap. */
  lemma ExtentByte(p: Params, extent: nat, x: nat)
    requires Sane(p)
    ensures Fold(p) > 0 && 0 <= (extent * Fold(p)) % 32 + x % Fold(p) < 32
    ensures (extent * Fold(p)) % 32 == Fold(p) * (extent % Spread(Fold(p)))
  {
    var m := Fold(p);
    SpreadFold(p);
    hide Fold, Spread;
    var u := Spread(m);
    Scaled(m, extent, u);
    assert m * (extent % u) <= m * (u - 1) == m * u - m;
  }

  /** Pointer nb of an entry, as rcpmfs_lookup reads it. */
  function Ptr(p: Params, e: seq<byte>, nb: nat): (b: nat)
    requires |e| == 32 && nb < BlocksPerExtent(p)
  {
    if BlocksPerExtent(p) == 16 then e[16 + nb]
    else
      var low: int, high: int := e[16 + 2 * nb], e[17 + 2 * nb];
      low + 256 * high
  }

  /** The extent number rcpmfs_psfind2 reads from an entry. */
  function Extent(p: Params, e: seq<byte>): nat
    requires |e| == 32 && Sane(p)
  {
    var ex: int, s2: int := e[12], e[14];
    (ex % 32 + s2 * 32) / Fold(p)
  }

  lemma EntryPointer(p: Params, f: File, extent: nat, rest: nat, first: nat, n: nat, nb: nat)
    requires FileOk(f) && Sane(p) && first + n <= p.totalBlocks && nb < BlocksPerExtent(p)
    ensures Ptr(p, MakeEntry(p, f, extent, rest, first, n), nb) == if nb < n then first + nb else 0
  {
    var e, b := MakeEntry(p, f, extent, rest, first, n), Pointers(p, first, n);
    assert e[16..] == b;
    hide Pointers, MakeEntry;
    PointerBytes(p, first, n, nb);
    assert e[16 + nb] == e[16..][nb];
    if BlocksPerExtent(p) == 8 {
      assert e[16 + 2 * nb] == e[16..][2 * nb] && e[17 + 2 * nb] == e[16..][2 * nb + 1];
    }
  }

  lemma PointerBytes(p: Params, first: nat, n: nat, nb: nat)
    requires first + n <= p.totalBlocks <= 0x1_0000 && nb < BlocksPerExtent(p)
    ensures var b, at := Pointers(p, first, n), if nb < n then first + nb else 0;
      && (BlocksPerExtent(p) == 16 ==> b[nb] == at)
      && (BlocksPerExtent(p) == 8 ==> b[2 * nb] == at % 256 && b[2 * nb + 1] == at / 256)
  {
    hide PointerByte;
    WholePointer(p, first, n, nb);
  }

  lemma WholePointer(p: Params, first: nat, n: nat, nb: nat)
    requires first + n <= p.totalBlocks <= 0x1_0000 && nb < BlocksPerExtent(p)
    ensures var at := if nb < n then first + nb else 0;
      && (BlocksPerExtent(p) == 16 ==> PointerByte(p, first, n, nb) == at)
      && (BlocksPerExtent(p) == 8 ==>
            PointerByte(p, first, n, 2 * nb) == at % 256 && PointerByte(p, first, n, 2 * nb + 1) == at / 256)
  {
    assert (2 * nb) / 2 == nb && (2 * nb + 1) / 2 == nb;
  }

  /** Of the extent number, an entry keeps what thirteen bits of counter can tell. */
  lemma EntryExtent(p: Params, f: File, extent: nat, rest: nat, first: nat, n: nat)
    requires FileOk(f) && Sane(p)
    ensures Spread(Fold(p)) > 0
    ensures Extent(p, MakeEntry(p, f, extent, rest, first, n)) == extent % (256 * Spread(Fold(p)))
  {
    var e := MakeEntry(p, f, extent, rest, first, n);
    var x := (Smaller(rest, ExtentSize(p)) + 127) / 16384;
    var m, u := Fold(p), Spread(Fold(p));
    ExtentByte(p, extent, x);
    assert e[12] == m * (extent % u) + x % m;
    assert e[14] == (extent * m) / 32 % 256;
    SpreadFold(p);
    hide MakeEntry, Fold, Spread;
    Scaled(m, extent, u);
    DivMod(extent, u);
    TwoDigits(extent, u, extent / u, extent % u);
    ReadCounter(m, u, extent % u, extent / u % 256, x % m);
  }

  lemma ReadCounter(m: nat, u: nat, low: nat, high: nat, r: nat)
    requires m > 0 && m * u == 32 && low < u && r < m
    ensures ((m * low + r) % 32 + high * 32) / m == low + u * high
  {
    assert m * low <= m * (u - 1) == m * u - m;
    assert high * 32 == m * (u * high);
    assert (m * low + r) + high * 32 == m * (low + u * high) + r;
    Quotient(m * (low + u * high) + r, m, low + u * high, r);
  }

  /** The extent number of an entry is right exactly while the counter fits its thirteen bits. */
  lemma ExtentReadBack(p: Params, f: File, extent: nat, rest: nat, first: nat, n: nat)
    requires FileOk(f) && Sane(p)
    ensures Extent(p, MakeEntry(p, f, extent, rest, first, n)) == extent <==> extent * Fold(p) < 8192
  {
    EntryExtent(p, f, extent, rest, first, n);
    SpreadFold(p);
    hide MakeEntry, Extent, Fold, Spread;
    var m, u := Fold(p), Spread(Fold(p));
    if extent < 256 * u {
      Quotient(extent, 256 * u, 0, extent);
      assert extent * m <= (256 * u - 1) * m == 256 * (m * u) - m;
    } else {
      assert extent * m >= (256 * u) * m == 256 * (m * u);
    }
  }
}
