/** Sectors in a CPCEMU disc image that is not an EXTENDED one: where a sector lies in the file, with
    and without the "current sector" hint, and what reading and writing it do (lib/libdsk/drvcpcem.c). */
module Dsk {
  import opened Bits

  datatype Rate = HD | DD | SD | ED
  datatype Recording = FM | MFM | GCR
  datatype Geometry = Geometry(rate: Rate, recording: Recording, noMulti: bool, noSkip: bool, secBase: nat)

  datatype Err = ErrOk | ErrSeekFail | ErrNoAddr | ErrNoData | ErrDataErr | ErrReadOnly

  /** cpc_dskhead, the file, cpc_sector, the two status bytes that may be set for the next write (-1 for
      not set), and cpc_readonly. */
  datatype Image = Image(dh: seq<byte>, file: seq<byte>, hint: int, st1w: int, st2w: int, readOnly: bool)

  // ---------------------------------------------------------------- the file

  /** Reading up to n bytes. */
  function Peek(f: seq<byte>, at: nat, n: nat): (r: seq<byte>)
    ensures |r| <= n
  {
    if at >= |f| then [] else if at + n <= |f| then f[at..at + n] else f[at..]
  }

  /** Writing; a gap before the place is filled with zeros. */
  function Poke(f: seq<byte>, at: nat, x: seq<byte>): (r: seq<byte>)
  {
    if at + |x| <= |f| then f[..at] + x + f[at + |x|..]
    else if at <= |f| then f[..at] + x
    else f + seq(at - |f|, i => 0) + x
  }

  // ---------------------------------------------------------------- tracks

  function TrackNo(dh: seq<byte>, cyl: nat, head: nat): nat
    requires |dh| == 256
  {
    (if dh[0x31] > 1 then 2 * cyl else cyl) + head
  }

  function TrackLen(dh: seq<byte>): nat
    requires |dh| == 256
  {
    var high: int, low: int := dh[0x33], dh[0x32];
    high * 256 + low
  }

  /** lookup_track. */
  function LookupTrack(dh: seq<byte>, cyl: nat, head: nat): int
    requires |dh| == 256
  {
    if cyl > dh[0x30] || head > dh[0x31] then -1
    else TrackLen(dh) * TrackNo(dh, cyl, head) + 256
  }

  function SizeOf(code: nat): nat {
    128 * Pow2(code)
  }

  const TRACK_INFO: seq<byte> := [0x54, 0x72, 0x61, 0x63, 0x6B, 0x2D, 0x49, 0x6E, 0x66, 0x6F]

  /** The checks of load_track_header on a header it has read. */
  function HeaderError(th: seq<byte>, geom: Geometry): Err
    requires |th| == 256
  {
    if th[..10] != TRACK_INFO then ErrNoAddr
    else
      var size := SizeOf(th[0x14]);
      var rate :=
        if th[0x12] != 0 then th[0x12] as int
        else if size == 1024 && th[0x15] >= 7 then 2
        else if size == 512 && th[0x15] >= 15 then 2
        else 1;
      var recording :=
        if th[0x13] != 0 then th[0x13] as int
        else if size == 256 && th[0x15] == 10 then 1
        else 2;
      if (rate == 1 && geom.rate in {SD, DD}) || (rate == 2 && geom.rate == HD) || (rate == 3 && geom.rate == ED) then
        if (recording == 1 && geom.recording == FM) || (recording == 2 && geom.recording == MFM) then ErrOk
        else ErrNoAddr
      else ErrNoAddr
  }

  // ---------------------------------------------------------------- records

  /** The number of sector records. A header has room for 29; a larger count would make the program
      read past it. */
  function MaxSec(th: seq<byte>): (n: nat)
    requires |th| == 256
    ensures n <= 29
  {
    if th[0x15] > 29 then 29 else th[0x15]
  }

  /** Byte i of the record of sector n. */
  function Field(th: seq<byte>, n: nat, i: nat): byte
    requires |th| == 256 && n < 29 && i < 8
  {
    th[0x18 + 8 * n + i]
  }

  function Id(th: seq<byte>, n: nat): byte
    requires |th| == 256 && n < 29
  {
    Field(th, n, 2)
  }

  /** The size of a sector, from its own record. */
  function OwnSize(th: seq<byte>, n: nat): nat
    requires |th| == 256 && n < 29
  {
    SizeOf(Field(th, n, 3) % 8)
  }

  /** How many of the first n records carry the ID. */
  function Matches(th: seq<byte>, sector: nat, n: nat): nat
    requires |th| == 256 && n <= 29
  {
    if n == 0 then 0 else Matches(th, sector, n - 1) + if Id(th, n - 1) == sector then 1 else 0
  }

  /** The linear scan from record n on: the pick-th record with the ID, or -1. */
  function Scan(th: seq<byte>, sector: nat, n: nat, pick: nat): (r: int)
    requires |th| == 256 && n <= MaxSec(th)
    ensures -1 <= r < MaxSec(th) && (r >= 0 ==> n <= r && Id(th, r) == sector)
    decreases MaxSec(th) - n
  {
    if n == MaxSec(th) then -1
    else if Id(th, n) == sector then (if pick == 0 then n else Scan(th, sector, n + 1, pick - 1))
    else Scan(th, sector, n + 1, pick)
  }

  /** The current sector is the one asked for, and the only one with its ID. */
  predicate HintTaken(th: seq<byte>, sector: nat, hint: int)
    requires |th| == 256
  {
    Matches(th, sector, MaxSec(th)) <= 1 && 0 <= hint < MaxSec(th) && Id(th, hint) == sector
  }

  /** sector_offset: the hinted path, then the scan. The answer is an offset and a record, -1 for none. */
  function SectorOffset(th: seq<byte>, sector: nat, hint: int, pick: nat): (r: (int, int))
    requires |th| == 256
  {
    var len := SizeOf(th[0x14]);
    if HintTaken(th, sector, hint) then (len * hint, hint)
    else
      var n := Scan(th, sector, 0, pick);
      if n < 0 then (-1, -1) else (len * n, n)
  }

  /** The scan misses nothing: a record with the ID, behind fewer than pick others, is found, and the
      one found is the first when pick is 0. */
  lemma {:induction false} ScanFirst(th: seq<byte>, sector: nat, n: nat)
    requires |th| == 256 && n <= MaxSec(th)
    ensures var r := Scan(th, sector, n, 0);
      forall k :: n <= k < MaxSec(th) && Id(th, k) == sector ==> 0 <= r <= k
    decreases MaxSec(th) - n
  {
    if n < MaxSec(th) && Id(th, n) != sector {
      ScanFirst(th, sector, n + 1);
    }
  }

  lemma {:induction false} MatchesCount(th: seq<byte>, sector: nat, n: nat, i: nat, j: nat)
    requires |th| == 256 && i < j < n <= 29 && Id(th, i) == sector && Id(th, j) == sector
    ensures Matches(th, sector, n) >= 2
  {
    if j < n - 1 {
      MatchesCount(th, sector, n - 1, i, j);
    } else {
      MatchesOne(th, sector, n - 1, i);
    }
  }

  lemma {:induction false} MatchesOne(th: seq<byte>, sector: nat, n: nat, i: nat)
    requires |th| == 256 && i < n <= 29 && Id(th, i) == sector
    ensures Matches(th, sector, n) >= 1
  {
    if i < n - 1 {
      MatchesOne(th, sector, n - 1, i);
    }
  }

  /** The hint never matters: whatever the current sector is, the answer is that of the scan. */
  lemma HintAgrees(th: seq<byte>, sector: nat, hint: int)
    requires |th| == 256
    ensures SectorOffset(th, sector, hint, 0) == SectorOffset(th, sector, -1, 0)
    ensures var n := Scan(th, sector, 0, 0);
      SectorOffset(th, sector, hint, 0) == if n < 0 then (-1, -1) else (SizeOf(th[0x14]) * n, n)
  {
    if HintTaken(th, sector, hint) {
      HintIsScan(th, sector, hint);
    }
  }

  // ---------------------------------------------------------------- the hint on EXTENDED images

  /** The length in the file of the sector of record n. */
  function StoredLen(th: seq<byte>, n: nat): (len: int)
    requires |th| == 256 && n < 29
    ensures 0 <= len < 0x1_0000
  {
    var low: int, high: int := Field(th, n, 6), Field(th, n, 7);
    low + 256 * high
  }

  /** The lengths of the first n sectors together. */
  function Ahead(th: seq<byte>, n: nat): (len: nat)
    requires |th| == 256 && n <= 29
  {
    if n == 0 then 0 else Ahead(th, n - 1) + StoredLen(th, n - 1)
  }

  /** The length the hinted path leaves behind: its loop ends one record early. */
  function HintedLen(th: seq<byte>, hint: nat): int
    requires |th| == 256 && hint < 29
  {
    if hint == 0 then SizeOf(th[0x14]) else StoredLen(th, hint - 1)
  }

  /** sector_offset on an EXTENDED image: offset, record and length in the file, None if there is no
      such sector. */
  function ExtendedOffset(th: seq<byte>, sector: nat, hint: int, pick: nat): Option<(int, int, int)>
    requires |th| == 256
  {
    if HintTaken(th, sector, hint) then Some((Ahead(th, hint), hint, HintedLen(th, hint)))
    else
      var n := Scan(th, sector, 0, pick);
      if n < 0 then None else Some((Ahead(th, n), n, StoredLen(th, n)))
  }

  /** On an EXTENDED image the hint leaves offset and record as they are, but the length in the file,
      and with it the number of copies of a weak sector, is right exactly if the hint is not taken or
      the record before has the same length. */
  lemma ExtendedHint(th: seq<byte>, sector: nat, hint: int)
    requires |th| == 256
    ensures var h, s := ExtendedOffset(th, sector, hint, 0), ExtendedOffset(th, sector, -1, 0);
      && (h.Some? <==> s.Some?)
      && (h.Some? ==> h.value.0 == s.value.0 && h.value.1 == s.value.1)
      && (h == s <==> HintTaken(th, sector, hint) ==> HintedLen(th, hint) == StoredLen(th, hint))
  {
    hide Id, StoredLen, HintedLen, Ahead;
    HintAgrees(th, sector, hint);
    if HintTaken(th, sector, hint) {
      HintIsScan(th, sector, hint);
    }
  }

  lemma HintIsScan(th: seq<byte>, sector: nat, hint: int)
    requires |th| == 256 && HintTaken(th, sector, hint)
    ensures Scan(th, sector, 0, 0) == hint
  {
    ScanFirst(th, sector, 0);
    var n := Scan(th, sector, 0, 0);
    if n < hint {
      MatchesCount(th, sector, MaxSec(th), n, hint);
    }
  }

  /** A track of two sectors of 512 bytes, the second stored twice: with the second as the current sector
      its length is taken to be that of the first. */
  lemma ExtendedHintDiffers()
    ensures var th := seq(256, i => if i == 0x14 || i == 0x15 || i == 0x1F || i == 0x22 then 2
                                    else if i == 0x1A then 1 else if i == 0x27 then 4 else 0);
      && ExtendedOffset(th, 2, -1, 0) == Some((512, 1, 1024)) && ExtendedOffset(th, 2, 1, 0) == Some((512, 1, 512))
  {
    var th := seq(256, i => if i == 0x14 || i == 0x15 || i == 0x1F || i == 0x22 then 2
                            else if i == 0x1A then 1 else if i == 0x27 then 4 else 0);
    assert Id(th, 0) == 1 && Id(th, 1) == 2 && MaxSec(th) == 2;
    assert Matches(th, 2, 0) == 0 && Matches(th, 2, 1) == 0 && Matches(th, 2, 2) == 1;
    assert Scan(th, 2, 1, 0) == 1 && Scan(th, 2, 0, 0) == 1;
    assert StoredLen(th, 0) == 512 && StoredLen(th, 1) == 1024;
    assert Ahead(th, 0) == 0 && Ahead(th, 1) == 512;
  }

  // ---------------------------------------------------------------- finding a sector

  /** What seekto_sector answers: an error, or the header read, where the data start, the record, the
      length to transfer and the length and number of the copies. */
  datatype Place = Place(err: Err, th: seq<byte>, at: nat, record: nat, len: nat, secLen: nat, copies: nat)

  function Nowhere(e: Err): Place {
    Place(e, [], 0, 0, 0, 0, 0)
  }

  /** load_track_header. */
  function LoadHeader(im: Image, geom: Geometry, cyl: nat, head: nat): (r: (Err, seq<byte>))
    requires |im.dh| == 256
    ensures r.0 == ErrOk ==> |r.1| == 256
  {
    var track := LookupTrack(im.dh, cyl, head);
    if track < 0 then (ErrSeekFail, [])
    else
      var th := Peek(im.file, track, 256);
      if |th| < 256 then (ErrNoAddr, []) else (HeaderError(th, geom), th)
  }

  /** seekto_sector; roll is the random number it may draw. */
  function SeekTo(im: Image, geom: Geometry, cyl: nat, head: nat, cylX: nat, headX: nat, sector: nat, len: nat,
      pickRandom: bool, roll: nat): (p: Place)
    requires |im.dh| == 256
    ensures p.err in {ErrOk, ErrDataErr} ==>
      |p.th| == 256 && p.record < MaxSec(p.th) && Id(p.th, p.record) == sector && sector < 256
    ensures p.err != ErrReadOnly && p.err != ErrNoData
  {
    var h := LoadHeader(im, geom, cyl, head);
    if h.0 != ErrOk then Nowhere(h.0)
    else
      var m := Matches(h.1, sector, MaxSec(h.1));
      var o := SectorOffset(h.1, sector, im.hint, if pickRandom && m > 1 then roll % m else 0);
      if o.0 < 0 then Nowhere(ErrNoAddr)
      else if Field(h.1, o.1, 0) != cylX || Field(h.1, o.1, 1) != headX then Nowhere(ErrNoAddr)
      else Found(h.1, LookupTrack(im.dh, cyl, head) + 256 + o.0, o.1, len)
  }

  /** The lengths of a sector that was found. */
  function Found(th: seq<byte>, at: nat, n: nat, len: nat): Place
    requires |th| == 256 && n < 29
  {
    var secLen, fileLen := OwnSize(th, n), SizeOf(th[0x14]);
    Place(if secLen == len then ErrOk else ErrDataErr, th, at, n, if secLen < len then secLen else len, secLen,
      if secLen * 2 <= fileLen then fileLen / secLen else 1)
  }

  // ---------------------------------------------------------------- writing

  /** Writing the same bytes n times in a row. */
  function PokeCopies(f: seq<byte>, at: nat, x: seq<byte>, n: nat): seq<byte>
    decreases n
  {
    if n == 0 then f else PokeCopies(Poke(f, at, x), at + |x|, x, n - 1)
  }

  function SetBit6(v: int, on: bool): (r: int)
    requires 0 <= v < 256
    ensures 0 <= r < 256
  {
    if v / 64 % 2 == 1 then (if on then v else v - 64) else if on then v + 64 else v
  }

  lemma SetBit6Keeps(v: int, on: bool)
    requires 0 <= v < 256
    ensures var r := SetBit6(v, on); (r / 64 % 2 == 1 <==> on) && r / 32 % 2 == v / 32 % 2
  {
  }

  /** The two status bytes of a record after a write. */
  function NewStatus(im: Image, th: seq<byte>, n: nat, deleted: bool): (r: (byte, byte))
    requires |th| == 256 && n < 29
  {
    (if im.st1w >= 0 then im.st1w % 256 else Field(th, n, 4),
     SetBit6(if im.st2w >= 0 then im.st2w % 256 else Field(th, n, 5), deleted))
  }

  function WithStatus(th: seq<byte>, n: nat, st: (byte, byte)): (r: seq<byte>)
    requires |th| == 256 && n < 29
    ensures |r| == 256
  {
    th[0x18 + 8 * n + 4 := st.0][0x18 + 8 * n + 5 := st.1]
  }

  /** cpcemu_xwrite. */
  function XWrite(im: Image, geom: Geometry, buf: seq<byte>, cyl: nat, head: nat, cylX: nat, headX: nat, sector: nat,
      deleted: bool): (r: (Image, Err))
    requires |im.dh| == 256
    ensures |r.0.dh| == 256
  {
    if im.readOnly then (im, ErrReadOnly)
    else
      var p := SeekTo(im, geom, cyl, head, cylX, headX, sector, |buf|, false, 0);
      var done := im.(st1w := -1, st2w := -1);
      if p.err != ErrOk && p.err != ErrDataErr then (done, p.err)
      else
        var f := PokeCopies(im.file, p.at, Peek(buf, 0, p.len), p.copies);
        var first := Scan(p.th, sector, 0, 0);
        ScanFirst(p.th, sector, 0);
        var th := WithStatus(p.th, first, NewStatus(im, p.th, first, deleted));
        (done.(file := if th != p.th then Poke(f, LookupTrack(im.dh, cyl, head), th) else f), ErrOk)
  }

  // ---------------------------------------------------------------- reading

  /** What reading delivers: the error, the bytes, whether the sector is of the other kind (deleted or
      not) than asked for, the status bytes, and the new current sector. */
  datatype Reading = Reading(err: Err, data: seq<byte>, other: bool, st1: byte, st2: byte, hint: int)

  /** The loop of cpcemu_xread. round counts the tries; dice are the random numbers, two to a round. */
  function ReadLoop(im: Image, geom: Geometry, cyl: nat, head: nat, cylX: nat, headX: nat, sector: nat, size: nat,
      len: nat,
      wantDeleted: bool, again: bool, round: nat, dice: nat -> nat): Reading
    requires |im.dh| == 256
    decreases if head == 0 then 1 else 0, if sector <= 256 then 257 - sector else 0
  {
    var p := SeekTo(im, geom, cyl, head, cylX, headX, sector, len, true, dice(2 * round));
    if again && p.err == ErrNoAddr then
      if !geom.noMulti && head == 0 && im.dh[0x31] > 0 then
        ReadLoop(im, geom, cyl, 1, cylX, headX, geom.secBase, size, len, wantDeleted, true, round + 1, dice)
      else Reading(ErrNoData, [], false, 0, 0, im.hint)
    else if p.err == ErrNoAddr then Reading(p.err, [], false, 0, 0, -1)
    else if p.err != ErrOk && p.err != ErrDataErr then Reading(p.err, [], false, 0, 0, im.hint)
    else
      var st1, st2 := Field(p.th, p.record, 4), Field(p.th, p.record, 5);
      var mismatch := wantDeleted != (st2 / 64 % 2 == 1);
      if mismatch && !geom.noSkip then
        ReadLoop(im, geom, cyl, head, cylX, headX, sector + 1, size, p.len, wantDeleted, true, round + 1, dice)
      else Deliver(im, p, mismatch, st1, st2, dice(2 * round + 1))
  }

  /** The sector that was found, or one of its copies. */
  function Deliver(im: Image, p: Place, mismatch: bool, st1: byte, st2: byte, roll: nat): Reading {
    var at := p.at + (if p.copies > 1 then roll % p.copies * p.secLen else 0);
    var data := Peek(im.file, at, p.len);
    Reading(if |data| < p.len || st2 / 32 % 2 == 1 then ErrDataErr else p.err, data, mismatch, st1, st2, im.hint)
  }

  /** cpcemu_xread. */
  function XRead(im: Image, geom: Geometry, cyl: nat, head: nat, cylX: nat, headX: nat, sector: nat, size: nat,
      wantDeleted: bool, dice: nat -> nat): Reading
    requires |im.dh| == 256
  {
    ReadLoop(im, geom, cyl, head, cylX, headX, sector, size, size, wantDeleted, false, 0, dice)
  }
}
