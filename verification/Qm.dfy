/** The run-length coding of CopyQM images and its checksum (lib/libdsk/drvqm.c). */
module Qm {
  import opened Bits

  // ---------------------------------------------------------------- words

  /** put_u16 of a signed length. */
  function PutWord(v: int): seq<byte> {
    [v % 256, v / 256 % 256]
  }

  /** get_i16: a signed word, low byte first. */
  function GetWord(low: byte, high: byte): int {
    var v: int := low as int + 256 * high as int;
    if high >= 128 then v - 0x1_0000 else v
  }

  lemma WordReads(v: int)
    requires -0x8000 <= v < 0x8000
    ensures GetWord(PutWord(v)[0], PutWord(v)[1]) == v
  {
  }

  // ---------------------------------------------------------------- the checksum

  /** drv_qm_update_crc. Only 64 entries of the table are ever used. */
  function UpdateCrc(table: seq<bv32>, crc: bv32, b: byte): bv32
    requires |table| == 256
  {
    var i := (((b as bv32) ^ crc) & 0x3F) as int;
    (if i < 256 then table[i] else 0) ^ (crc >> 8)
  }

  /** The checksum after a list of bytes. */
  function Crc(table: seq<bv32>, crc: bv32, x: seq<byte>): bv32
    requires |table| == 256
    decreases |x|
  {
    if x == [] then crc else Crc(table, UpdateCrc(table, crc, x[0]), x[1..])
  }

  lemma {:induction false} CrcConcat(table: seq<bv32>, crc: bv32, x: seq<byte>, y: seq<byte>)
    requires |table| == 256
    ensures Crc(table, crc, x + y) == Crc(table, Crc(table, crc, x), y)
    decreases |x|
  {
    hide UpdateCrc;
    if x == [] {
      assert x + y == y;
    } else {
      assert (x + y)[1..] == x[1..] + y;
      CrcConcat(table, UpdateCrc(table, crc, x[0]), x[1..], y);
    }
  }

  // ---------------------------------------------------------------- saving

  /** The length of the run at the front. */
  function RunLength(s: seq<byte>): (n: nat)
    requires s != []
    ensures 1 <= n <= |s|
  {
    if |s| > 1 && s[1] == s[0] then 1 + RunLength(s[1..]) else 1
  }

  function Literal(x: seq<byte>): seq<byte> {
    if x == [] then [] else PutWord(|x|) + x
  }

  function Run(n: nat, b: byte): seq<byte> {
    PutWord(0 - n) + [b]
  }

  /** drv_qm_dump_compressed with the literal bytes pend not yet written: a run is begun where four
      equal bytes stand, except in the last four bytes of the block. */
  function Dump(pend: seq<byte>, rest: seq<byte>): seq<byte>
    decreases |rest|
  {
    if |rest| <= 4 then Literal(pend + rest)
    else if rest[0] == rest[1] == rest[2] == rest[3] then
      var n := RunLength(rest);
      Literal(pend) + Run(n, rest[0]) + Dump([], rest[n..])
    else Dump(pend + [rest[0]], rest[1..])
  }

  // ---------------------------------------------------------------- loading

  /** Overrun stands for a block that goes beyond the image, where the program writes past its buffer. */
  datatype Loading = Loaded(image: seq<byte>, crc: bv32) | DataErr | Overrun

  /** The loop of drv_qm_load_image: the bytes of the file from here on, the image so far, and the bytes
      still missing. */
  function Load(table: seq<bv32>, f: seq<byte>, image: seq<byte>, room: nat, crc: bv32): Loading
    requires |table| == 256
    decreases |f|, 1
  {
    if room == 0 then Loaded(image, crc)
    else if |f| < 2 then Loaded(image + Repeat(0xF6, room), crc)
    else
      var n := GetWord(f[0], f[1]);
      if n < 0 then
        if |f| < 3 then DataErr else LoadBlock(table, f[3..], image, room, crc, Repeat(f[2], -n))
      else if |f| < 2 + n then DataErr
      else LoadBlock(table, f[2 + n..], image, room, crc, f[2..2 + n])
  }

  /** The bytes of one block. */
  function LoadBlock(table: seq<bv32>, f: seq<byte>, image: seq<byte>, room: nat, crc: bv32, x: seq<byte>): Loading
    requires |table| == 256
    decreases |f|, 2
  {
    if |x| > room then Overrun else Load(table, f, image + x, room - |x|, Crc(table, crc, x))
  }

  // ---------------------------------------------------------------- the round trip

  lemma {:induction false} RunIsRepeat(s: seq<byte>)
    requires s != []
    ensures s[..RunLength(s)] == Repeat(s[0], RunLength(s))
  {
    if |s| > 1 && s[1] == s[0] {
      RunIsRepeat(s[1..]);
      assert s[..RunLength(s)] == [s[0]] + s[1..][..RunLength(s[1..])];
    } else {
      assert Repeat(s[0], 1) == [s[0]] + Repeat(s[0], 0);
    }
  }

  lemma LiteralLoads(table: seq<bv32>, x: seq<byte>, f: seq<byte>, image: seq<byte>, room: nat, crc: bv32)
    requires |table| == 256 && |x| < 0x8000
    ensures Load(table, Literal(x) + f, image, |x| + room, crc) == Load(table, f, image + x, room, Crc(table, crc, x))
  {
    hide Crc, PutWord, GetWord;
    if x == [] {
      assert [] + f == f && image + x == image;
      NoCrc(table, crc);
    } else {
      var g := Literal(x) + f;
      WordReads(|x|);
      WordSize(|x|);
      assert g[0] == PutWord(|x|)[0] && g[1] == PutWord(|x|)[1];
      assert g[2..2 + |x|] == x && g[2 + |x|..] == f;
    }
  }

  lemma NoCrc(table: seq<bv32>, crc: bv32)
    requires |table| == 256
    ensures Crc(table, crc, []) == crc
  {
  }

  lemma WordSize(v: int)
    ensures |PutWord(v)| == 2
  {
  }

  lemma RunLoads(table: seq<bv32>, n: nat, b: byte, f: seq<byte>, image: seq<byte>, room: nat, crc: bv32)
    requires |table| == 256 && 0 < n < 0x8000
    ensures Load(table, Run(n, b) + f, image, n + room, crc) ==
      Load(table, f, image + Repeat(b, n), room, Crc(table, crc, Repeat(b, n)))
  {
    hide Crc, PutWord, GetWord;
    var g := Run(n, b) + f;
    WordReads(0 - n);
    WordSize(0 - n);
    assert g[0] == PutWord(0 - n)[0] && g[1] == PutWord(0 - n)[1] && g[2] == b;
    assert g[3..] == f;
  }

  /** Loading what was dumped for a block gives the block back and goes on behind it, with the checksum
      the saver has there. */
  lemma {:induction false} DumpLoads(table: seq<bv32>, pend: seq<byte>, rest: seq<byte>, f: seq<byte>, image: seq<byte>,
      room: nat, crc: bv32)
    requires |table| == 256 && |pend| + |rest| < 0x8000
    ensures Load(table, Dump(pend, rest) + f, image, |pend| + |rest| + room, crc) ==
      Load(table, f, image + (pend + rest), room, Crc(table, crc, pend + rest))
    decreases |rest|
  {
    hide Crc, Load, Literal, Run, RunLength, Repeat;
    if |rest| <= 4 {
      LiteralLoads(table, pend + rest, f, image, room, crc);
    } else if rest[0] == rest[1] == rest[2] == rest[3] {
      var n := RunLength(rest);
      var d := Dump([], rest[n..]);
      DumpRun(pend, rest, n);
      Assoc(Literal(pend) + Run(n, rest[0]), d, f);
      Assoc(Literal(pend), Run(n, rest[0]), d + f);
      var x := Repeat(rest[0], n);
      DumpLoads(table, [], rest[n..], f, image + pend + x, room, Crc(table, Crc(table, crc, pend), x));
      RunCase(table, pend, rest, n, d + f, image, room, crc);
      Regroup(table, pend, x, rest[n..], image, crc);
      RunIsRepeat(rest);
      assert x + rest[n..] == rest && [] + rest[n..] == rest[n..];
    } else {
      assert pend + [rest[0]] + rest[1..] == pend + rest;
      DumpLoads(table, pend + [rest[0]], rest[1..], f, image, room, crc);
    }
  }

  /** The literal bytes and the run. */
  lemma RunCase(table: seq<bv32>, pend: seq<byte>, rest: seq<byte>, n: nat, f: seq<byte>, image: seq<byte>,
      room: nat, crc: bv32)
    requires |table| == 256 && |pend| + |rest| < 0x8000 && 0 < n <= |rest|
    ensures Load(table, Literal(pend) + (Run(n, rest[0]) + f), image, |pend| + |rest| + room, crc) ==
      Load(table, f, image + pend + Repeat(rest[0], n), |rest[n..]| + room,
        Crc(table, Crc(table, crc, pend), Repeat(rest[0], n)))
  {
    hide Crc, Load, Literal, Run, Repeat;
    LiteralLoads(table, pend, Run(n, rest[0]) + f, image, |rest| + room, crc);
    RunLoads(table, n, rest[0], f, image + pend, |rest[n..]| + room,
        Crc(table, crc, pend));
  }

  lemma Regroup(table: seq<bv32>, a: seq<byte>, b: seq<byte>, c: seq<byte>, image: seq<byte>, crc: bv32)
    requires |table| == 256
    ensures image + a + b + c == image + (a + (b + c))
    ensures Crc(table, Crc(table, Crc(table, crc, a), b), c) == Crc(table, crc, a + (b + c))
  {
    hide Crc;
    CrcConcat(table, crc, a, b + c);
    CrcConcat(table, Crc(table, crc, a), b, c);
    Assoc(image + a, b, c);
    Assoc(image, a, b + c);
  }

  // ---------------------------------------------------------------- whole images

  /** The tracks of an image, dumped one after the other. */
  function DumpTracks(image: seq<byte>, trackSize: nat): seq<byte>
    requires trackSize > 0
    decreases |image|
  {
    if |image| <= trackSize then Dump([], image)
    else Dump([], image[..trackSize]) + DumpTracks(image[trackSize..], trackSize)
  }

  lemma {:induction false} TracksLoad(table: seq<bv32>, tracks: seq<byte>, trackSize: nat, image: seq<byte>, crc: bv32)
    requires |table| == 256 && 0 < trackSize < 0x8000
    ensures Load(table, DumpTracks(tracks, trackSize), image, |tracks|, crc) ==
      Loaded(image + tracks, Crc(table, crc, tracks))
    decreases |tracks|
  {
    hide Crc, Load, Dump;
    if |tracks| <= trackSize {
      assert [] + tracks == tracks && Dump([], tracks) + [] == Dump([], tracks);
      DumpLoads(table, [], tracks, [], image, 0, crc);
      LoadEnds(table, [], image + tracks, Crc(table, crc, tracks));
    } else {
      var x, y := tracks[..trackSize], tracks[trackSize..];
      assert [] + x == x && x + y == tracks;
      DumpLoads(table, [], x, DumpTracks(y, trackSize), image, |y|, crc);
      TracksLoad(table, y, trackSize, image + x, Crc(table, crc, x));
      CrcConcat(table, crc, x, y);
      assert image + x + y == image + tracks;
    }
  }

  lemma LoadEnds(table: seq<bv32>, f: seq<byte>, image: seq<byte>, crc: bv32)
    requires |table| == 256
    ensures Load(table, f, image, 0, crc) == Loaded(image, crc)
  {
  }

  /** The round trip: for any image of tracks of 1 to 32767 bytes, loading what the saver wrote restores
      it byte for byte, and the checksum computed on loading is the saver's. */
  lemma ImageRoundTrip(table: seq<bv32>, image: seq<byte>, trackSize: nat)
    requires |table| == 256 && 0 < trackSize < 0x8000
    ensures Load(table, DumpTracks(image, trackSize), [], |image|, 0) == Loaded(image, Crc(table, 0, image))
  {
    TracksLoad(table, image, trackSize, [], 0);
    assert [] + image == image;
  }

  // ---------------------------------------------------------------- the loops

  /** The loops that feed the checksum. */
  method FeedCrc(table: seq<bv32>, crc0: bv32, x: seq<byte>) returns (crc: bv32)
    requires |table| == 256
    ensures crc == Crc(table, crc0, x)
  {
    hide UpdateCrc;
    crc := crc0;
    var i := 0;
    assert x[0..] == x;
    while i < |x|
      invariant 0 <= i <= |x| && Crc(table, crc, x[i..]) == Crc(table, crc0, x)
    {
      assert x[i..][1..] == x[i + 1..];
      crc := UpdateCrc(table, crc, x[i]);
      i := i + 1;
    }
  }

  /** Finding the true length of a run. */
  method MeasureRun(x: seq<byte>, from: nat) returns (n: nat)
    requires from < |x|
    ensures n == RunLength(x[from..])
  {
    var a := x[from];
    n := 1;
    RunAhead(x, from, 1);
    while from + n < |x| && x[from + n] == a
      invariant 1 <= n <= |x| - from && x[from + n - 1] == a
      invariant RunLength(x[from..]) == n - 1 + RunLength(x[from + n - 1..])
    {
      RunAhead(x, from, n);
      n := n + 1;
    }
    RunAhead(x, from, n);
  }

  lemma RunAhead(x: seq<byte>, from: nat, n: nat)
    requires 0 < n && from + n <= |x|
    ensures RunLength(x[from + n - 1..]) ==
      if from + n < |x| && x[from + n] == x[from + n - 1] then 1 + RunLength(x[from + n..]) else 1
  {
    var s := x[from + n - 1..];
    assert |s| > 1 ==> s[1..] == x[from + n..];
  }

  /** drv_qm_dump_compressed. p is where the bytes not yet written start, and i how many there are. */
  method DumpCompressed(table: seq<bv32>, crc0: bv32, block: seq<byte>) returns (out: seq<byte>, crc: bv32)
    requires |table| == 256
    ensures out == Dump([], block) && crc == Crc(table, crc0, block)
  {
    hide Crc, Literal, Run, RunLength, Dump, PutWord;
    crc := FeedCrc(table, crc0, block);
    out := [];
    var p, i, l, len := 0, 0, 0, |block| - 4;
    assert block[0..0] == [] && block[0..] == block;
    assert out + Dump([], block) == Dump([], block);
    while l < len
      invariant 0 <= p <= l <= |block| && i == l - p && out + Dump(block[p..l], block[l..]) == Dump([], block)
    {
      if block[p + i] == block[p + i + 1] && block[p + i] == block[p + i + 2] && block[p + i] == block[p + i + 3] {
        var n: int := MeasureRun(block, l);
        DumpRunStep(out, block, p, l, n);
        if i != 0 {
          out := out + PutWord(i) + block[p..p + i];
        }
        out := out + PutWord(-n) + [block[l]];
        l := l + n;
        p := l;
        i := 0;
      } else {
        DumpLiteralStep(block, p, l);
        i := i + 1;
        l := l + 1;
      }
    }
    DumpEnds(out, block, p, l);
    if i != 0 || l < |block| {
      i := i + (|block| - l);
      out := out + PutWord(i) + block[p..p + i];
    }
  }

  lemma DumpLiteralStep(block: seq<byte>, p: nat, l: nat)
    requires p <= l && l + 4 < |block| && !(block[l] == block[l + 1] == block[l + 2] == block[l + 3])
    ensures Dump(block[p..l], block[l..]) == Dump(block[p..l + 1], block[l + 1..])
  {
    assert block[p..l] + [block[l]] == block[p..l + 1] && block[l..][1..] == block[l + 1..];
  }

  lemma DumpEnds(out: seq<byte>, block: seq<byte>, p: nat, l: nat)
    requires p <= l <= |block| <= l + 4
    ensures out + Dump(block[p..l], block[l..]) == if p < |block| then out + PutWord(|block| - p) + block[p..] else out
  {
    hide PutWord;
    assert block[p..l] + block[l..] == block[p..];
    Assoc(out, PutWord(|block| - p), block[p..]);
  }

  lemma DumpRunStep(out: seq<byte>, block: seq<byte>, p: nat, l: nat, n: nat)
    requires p <= l && l + 4 < |block| && n == RunLength(block[l..])
    requires block[l] == block[l + 1] == block[l + 2] == block[l + 3]
    ensures l + n <= |block| && block[l + n..l + n] == []
    ensures out + Dump(block[p..l], block[l..]) ==
      (if l > p then out + PutWord(l - p) + block[p..l] else out)
        + PutWord(0 - n) + [block[l]] + Dump([], block[l + n..])
  {
    DumpRun(block[p..l], block[l..], n);
    assert block[l..][n..] == block[l + n..];
    hide RunLength, PutWord, Dump;
    var z := Dump([], block[l + n..]);
    if l > p {
      Flatten(out, PutWord(l - p), block[p..l], PutWord(0 - n), [block[l]], z);
    } else {
      Flatten(out, [], [], PutWord(0 - n), [block[l]], z);
      assert out + [] + [] == out;
    }
  }

  lemma Flatten(out: seq<byte>, a: seq<byte>, b: seq<byte>, c: seq<byte>, d: seq<byte>, z: seq<byte>)
    ensures out + ((a + b) + (c + d) + z) == out + a + b + c + d + z
  {
    Assoc(out, (a + b) + (c + d), z);
    Assoc(out, a + b, c + d);
    Assoc(out, a, b);
    Assoc(out + a + b, c, d);
  }

  lemma DumpRun(pend: seq<byte>, rest: seq<byte>, n: nat)
    requires |rest| > 4 && n == RunLength(rest) && rest[0] == rest[1] == rest[2] == rest[3]
    ensures Dump(pend, rest) == Literal(pend) + Run(n, rest[0]) + Dump([], rest[n..])
  {
  }

  /** drv_qm_load_image; a block that would go beyond the image is reported as Overrun. */
  method LoadImage(table: seq<bv32>, f: seq<byte>, size: nat) returns (r: Loading)
    requires |table| == 256
    ensures r == Load(table, f, [], size, 0)
  {
    hide Crc, GetWord, Repeat;
    var image, crc, at := [], 0, 0;
    assert f[0..] == f;
    while |image| < size
      invariant 0 <= at <= |f| && |image| <= size
      invariant Load(table, f[at..], image, size - |image|, crc) == Load(table, f, [], size, 0)
      decreases |f| - at, size - |image|
    {
      if |f| - at < 2 {
        image := image + Repeat(0xF6, size - |image|);
        return Loaded(image, crc);
      }
      var block, next := ReadBlock(f, at);
      BlockStep(table, f, at, image, size - |image|, crc);
      if block.None? {
        return DataErr;
      }
      at := next;
      if |block.value| > size - |image| {
        return Overrun;
      }
      image := image + block.value;
      crc := FeedCrc(table, crc, block.value);
    }
    r := Loaded(image, crc);
  }

  /** The block at a place of the file, and where the next one is; None if the file ends in it. */
  function BlockAt(f: seq<byte>, at: nat): (r: (Option<seq<byte>>, nat))
    requires at + 2 <= |f|
    ensures r.0.Some? ==> at + 2 <= r.1 <= |f|
  {
    var n := GetWord(f[at], f[at + 1]);
    if n < 0 then (if |f| - at < 3 then (None, 0) else (Some(Repeat(f[at + 2], -n)), at + 3))
    else if |f| - at < 2 + n then (None, 0)
    else (Some(f[at + 2..at + 2 + n]), at + 2 + n)
  }

  lemma BlockStep(table: seq<bv32>, f: seq<byte>, at: nat, image: seq<byte>, room: nat, crc: bv32)
    requires |table| == 256 && at + 2 <= |f| && room > 0
    ensures var (b, next) := BlockAt(f, at);
      Load(table, f[at..], image, room, crc) ==
        if b.None? then DataErr else LoadBlock(table, f[next..], image, room, crc, b.value)
  {
    hide Crc, GetWord, Repeat, LoadBlock;
    var g := f[at..];
    var n := GetWord(f[at], f[at + 1]);
    assert g[0] == f[at] && g[1] == f[at + 1];
    if n < 0 && |g| >= 3 {
      assert g[3..] == f[at + 3..];
    } else if n >= 0 && |g| >= 2 + n {
      assert g[2..2 + n] == f[at + 2..at + 2 + n] && g[2 + n..] == f[at + 2 + n..];
    }
  }

  /** Reading one block. */
  method ReadBlock(f: seq<byte>, at: nat) returns (block: Option<seq<byte>>, next: nat)
    requires at + 2 <= |f|
    ensures (block, next) == BlockAt(f, at)
  {
    hide GetWord, Repeat;
    var length := GetWord(f[at], f[at + 1]);
    if length < 0 {
      if |f| - at < 3 {
        return None, 0;
      }
      return Some(Repeat(f[at + 2], -length)), at + 3;
    }
    if |f| - at < 2 + length {
      return None, 0;
    }
    return Some(f[at + 2..at + 2 + length]), at + 2 + length;
  }

  /** The loops of drv_qm_close over cylinders and heads, on an image of whole tracks. */
  method DumpImage(table: seq<bv32>, image: seq<byte>, cyls: nat, heads: nat, trackSize: nat)
    returns (out: seq<byte>, crc: bv32)
    requires |table| == 256 && trackSize > 0 && |image| == cyls * heads * trackSize && cyls * heads > 0
    ensures out == DumpTracks(image, trackSize) && crc == Crc(table, 0, image)
  {
    hide Crc, Dump;
    out, crc := [], 0;
    var cyl, done := 0, 0;
    assert image[0..] == image && image[..0] == [];
    NoCrc(table, 0);
    while cyl < cyls
      invariant 0 <= cyl <= cyls && done == cyl * heads && Dumped(table, image, trackSize, done, cyls * heads, out, crc)
    {
      var head := 0;
      while head < heads
        invariant 0 <= head <= heads && done == cyl * heads + head
        invariant Dumped(table, image, trackSize, done, cyls * heads, out, crc)
      {
        TracksLeft(cyl, head, cyls, heads, trackSize);
        var offset := (cyl * heads + head) * trackSize;
        var x;
        x, crc := DumpCompressed(table, crc, image[offset..offset + trackSize]);
        DumpedStep(table, image, trackSize, done, cyls * heads, out, x, crc);
        out := out + x;
        head := head + 1;
        done := done + 1;
      }
      NextCylinder(cyl, heads);
      cyl := cyl + 1;
    }
    assert image[..|image|] == image;
  }

  /** After so many tracks: what is written, what is still to be written, and the checksum. */
  ghost predicate Dumped(table: seq<bv32>, image: seq<byte>, trackSize: nat, done: nat, all: nat, out: seq<byte>,
      crc: bv32)
    requires |table| == 256 && trackSize > 0
  {
    && done <= all && |image| == all * trackSize && done * trackSize <= |image|
    && crc == Crc(table, 0, image[..done * trackSize])
    && if done == all then out == DumpTracks(image, trackSize)
       else out + DumpTracks(image[done * trackSize..], trackSize) == DumpTracks(image, trackSize)
  }

  lemma TracksLeft(cyl: nat, head: nat, cyls: nat, heads: nat, trackSize: nat)
    requires cyl < cyls && head < heads
    ensures cyl * heads + head < cyls * heads
    ensures (cyl * heads + head) * trackSize + trackSize <= cyls * heads * trackSize
  {
    assert (cyl + 1) * heads <= cyls * heads;
    assert (cyl * heads + head + 1) * trackSize <= cyls * heads * trackSize;
  }

  lemma NextCylinder(cyl: nat, heads: nat)
    ensures cyl * heads + heads == (cyl + 1) * heads
  {
  }

  lemma DumpedStep(table: seq<bv32>, image: seq<byte>, trackSize: nat, done: nat, all: nat, out: seq<byte>,
      x: seq<byte>, crc: bv32)
    requires |table| == 256 && trackSize > 0 && done < all && done * trackSize + trackSize <= |image|
    requires exists was: bv32 :: Dumped(table, image, trackSize, done, all, out, was) &&
               crc == Crc(table, was, image[done * trackSize..done * trackSize + trackSize])
    requires x == Dump([], image[done * trackSize..done * trackSize + trackSize])
    ensures Dumped(table, image, trackSize, done + 1, all, out + x, crc)
  {
    hide Crc, Dump;
    var a, b := done * trackSize, done * trackSize + trackSize;
    assert (done + 1) * trackSize == b;
    var rest := image[a..];
    assert rest[..trackSize] == image[a..b] && rest[trackSize..] == image[b..];
    CrcConcat(table, 0, image[..a], image[a..b]);
    assert image[..a] + image[a..b] == image[..b];
    LastOrMore(trackSize, done + 1, all);
    if done + 1 == all {
      assert rest == image[a..b];
    } else {
      assert out + (x + DumpTracks(image[b..], trackSize)) == out + x + DumpTracks(image[b..], trackSize);
    }
  }

  lemma LastOrMore(t: nat, n: nat, all: nat)
    requires t > 0 && n <= all
    ensures n * t <= all * t && (n < all ==> n * t < all * t)
  {
  }

  /** The checksum in the header, low byte first, as two words written by put_u16 and read by get_u32. */
  function PutLong(v: bv32): (b: seq<bv8>)
    ensures |b| == 4
  {
    [(v & 0xFF) as bv8, ((v >> 8) & 0xFF) as bv8, ((v >> 16) & 0xFF) as bv8, ((v >> 24) & 0xFF) as bv8]
  }

  function GetLong(b: seq<bv8>): bv32
    requires |b| == 4
  {
    ((((((b[3] as bv32) << 8) | (b[2] as bv32)) << 8) | (b[1] as bv32)) << 8) | (b[0] as bv32)
  }

  lemma LongReads(v: bv32)
    ensures GetLong(PutLong(v)) == v
  {
  }

  /** The end of drv_qm_load_image: an image whose checksum is not that of the header is refused, unless
      the header has none. */
  function Accepted(r: Loading, stored: bv32): Loading {
    if r.Loaded? && stored != 0 && stored != r.crc then DataErr else r
  }

  /** Loading against the checksum in the header. */
  method LoadFile(table: seq<bv32>, head: seq<bv8>, f: seq<byte>, size: nat) returns (r: Loading)
    requires |table| == 256 && |head| == 4
    ensures r == Accepted(Load(table, f, [], size, 0), GetLong(head))
  {
    hide Load;
    r := LoadImage(table, f, size);
    var stored := GetLong(head);
    if r.Loaded? {
      if stored != 0 {
        if stored != r.crc {
          return DataErr;
        }
      }
    }
  }

  /** Saving and loading an image of equal tracks of 1 to 32767 bytes: the checksum saved in the header
      is accepted. */
  method SaveAndLoad(table: seq<bv32>, image: seq<byte>, cyls: nat, heads: nat, trackSize: nat)
    returns (head: seq<bv8>, saved: seq<byte>, r: Loading)
    requires |table| == 256 && 0 < trackSize < 0x8000 && |image| == cyls * heads * trackSize && cyls * heads > 0
    ensures r.Loaded? && r.image == image
  {
    hide Load, DumpTracks, Crc, PutLong, GetLong;
    var crc;
    saved, crc := DumpImage(table, image, cyls, heads, trackSize);
    head := PutLong(crc);
    LongReads(crc);
    r := LoadFile(table, head, saved, |image|);
    ImageRoundTrip(table, image, trackSize);
  }
}
