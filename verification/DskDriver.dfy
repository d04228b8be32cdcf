/** The DSK driver as it runs: a file with a position, the two header buffers, the current sector and
    the status registers (lib/libdsk/drvcpcem.c). */
module DskDriver {
  import opened Bits
  import opened Dsk

  class Driver {
    var file: seq<byte>
    var pos: nat
    const readOnly: bool
    const dskHead: array<byte>
    const trkHead: array<byte>
    var curSector: int
    const status: array<byte>
    const statusW: array<int>

    ghost predicate Valid()
      reads this
    {
      dskHead.Length == 256 && trkHead.Length == 256 && status.Length == 4 && statusW.Length == 4
      && dskHead != trkHead && dskHead != status && trkHead != status
    }

    ghost function Now(): (im: Image)
      requires Valid()
      reads this, dskHead, statusW
      ensures |im.dh| == 256
    {
      Image(dskHead[..], file, curSector, statusW[1], statusW[2], readOnly)
    }

    // -------------------------------------------------------------- the file

    method FileRead(n: nat) returns (x: seq<byte>)
      modifies `pos
      ensures x == Peek(file, old(pos), n) && pos == old(pos) + |x|
    {
      x := Peek(file, pos, n);
      pos := pos + |x|;
    }

    method FileWrite(x: seq<byte>)
      modifies `pos, `file
      ensures file == Poke(old(file), old(pos), x) && pos == old(pos) + |x|
    {
      file := Poke(file, pos, x);
      pos := pos + |x|;
    }

    // -------------------------------------------------------------- tracks

    method FindTrack(cyl: nat, head: nat) returns (offset: int)
      requires Valid()
      ensures offset == LookupTrack(dskHead[..], cyl, head)
    {
      if cyl > dskHead[0x30] || head > dskHead[0x31] {
        return -1;
      }
      var track := cyl;
      if dskHead[0x31] > 1 {
        track := track * 2;
      }
      track := track + head;
      var high: int, low: int := dskHead[0x33], dskHead[0x32];
      offset := high * 256;
      offset := offset + low;
      offset := offset * track;
      offset := offset + 256;
    }

    /** load_track_header: the header goes to the buffer, and the file is left just behind it. */
    method LoadTrack(geom: Geometry, cyl: nat, head: nat) returns (err: Err)
      requires Valid()
      modifies `pos, trkHead
      ensures var h := LoadHeader(old(Now()), geom, cyl, head);
        err == h.0 && (err == ErrOk ==> trkHead[..] == h.1 && pos == LookupTrack(dskHead[..], cyl, head) + 256)
    {
      hide HeaderError, TrackNo, TrackLen;
      var track := FindTrack(cyl, head);
      if track < 0 {
        return ErrSeekFail;
      }
      pos := track;
      var x := FileRead(256);
      forall i | 0 <= i < |x| {
        trkHead[i] := x[i];
      }
      if |x| < 256 {
        return ErrNoAddr;
      }
      assert trkHead[..] == x;
      err := HeaderError(trkHead[..], geom);
      assert dskHead[..] == old(dskHead[..]);
    }

    // -------------------------------------------------------------- records

    method CountMatches(sector: nat) returns (n: nat)
      requires Valid()
      ensures n == Matches(trkHead[..], sector, MaxSec(trkHead[..]))
    {
      hide Id;
      var max := MaxSec(trkHead[..]);
      n := 0;
      var k := 0;
      while k < max
        invariant 0 <= k <= max && n == Matches(trkHead[..], sector, k)
      {
        if Id(trkHead[..], k) == sector {
          n := n + 1;
        }
        k := k + 1;
      }
    }

    /** sector_offset; roll is the random number a read may draw. */
    method FindSector(sector: nat, pickRandom: bool, roll: nat) returns (offset: int, record: int)
      requires Valid()
      ensures var m := Matches(trkHead[..], sector, MaxSec(trkHead[..]));
        (offset, record) == SectorOffset(trkHead[..], sector, curSector, if pickRandom && m > 1 then roll % m else 0)
    {
      hide Id, SizeOf, Matches;
      var max := MaxSec(trkHead[..]);
      var len := SizeOf(trkHead[0x14]);
      var matches := CountMatches(sector);
      var pick := 0;
      if pickRandom && matches > 1 {
        pick := roll % matches;
      }
      if matches <= 1 && 0 <= curSector < max {
        if Id(trkHead[..], curSector) == sector {
          return len * curSector, curSector;
        }
      }
      offset := 0;
      var n := 0;
      ghost var goal := Scan(trkHead[..], sector, 0, pick);
      while n < max
        invariant 0 <= n <= max && pick >= 0 && Scan(trkHead[..], sector, n, pick) == goal && offset == len * n
      {
        if Id(trkHead[..], n) == sector {
          if pick == 0 {
            return offset, n;
          }
          pick := pick - 1;
        }
        OneMore(len, n);
        offset := offset + len;
        n := n + 1;
      }
      return -1, -1;
    }

    /** sector_head: the first record with the ID. */
    method FirstRecord(sector: nat) returns (n: int)
      requires Valid()
      ensures n == Scan(trkHead[..], sector, 0, 0)
    {
      hide Id;
      n := 0;
      while n < MaxSec(trkHead[..])
        invariant 0 <= n <= MaxSec(trkHead[..]) && Scan(trkHead[..], sector, n, 0) == Scan(trkHead[..], sector, 0, 0)
      {
        if Id(trkHead[..], n) == sector {
          return;
        }
        n := n + 1;
      }
      n := -1;
    }

    /** seekto_sector. The file is left at the data of the sector. */
    method SeekSector(geom: Geometry, cyl: nat, head: nat, cylX: nat, headX: nat, sector: nat, request: nat,
        pickRandom: bool, roll: nat)
      returns (err: Err, record: nat, len: nat, secLen: nat, copies: nat)
      requires Valid()
      modifies `pos, trkHead
      ensures var p := SeekTo(old(Now()), geom, cyl, head, cylX, headX, sector, request, pickRandom, roll);
        && err == p.err
        && (err in {ErrOk, ErrDataErr} ==>
              trkHead[..] == p.th && pos == p.at && record == p.record && len == p.len
              && secLen == p.secLen && copies == p.copies)
    {
      hide Id, SizeOf, Matches, SectorOffset, HeaderError, LookupTrack, Field, LoadHeader;
      record, len, secLen, copies := 0, request, 0, 1;
      err := LoadTrack(geom, cyl, head);
      if err != ErrOk {
        return;
      }
      var base := pos;
      var offset, n := FindSector(sector, pickRandom, roll);
      if offset < 0 {
        err := ErrNoAddr;
        return;
      }
      SectorOffsetRange(trkHead[..], sector, curSector,
        if pickRandom && Matches(trkHead[..], sector, MaxSec(trkHead[..])) > 1
        then roll % Matches(trkHead[..], sector, MaxSec(trkHead[..]))
        else 0);
      if Field(trkHead[..], n, 0) != cylX || Field(trkHead[..], n, 1) != headX {
        err := ErrNoAddr;
        return;
      }
      record := n;
      secLen := OwnSize(trkHead[..], n);
      if secLen < len {
        err := ErrDataErr;
        len := secLen;
      } else if secLen > len {
        err := ErrDataErr;
      }
      if secLen * 2 <= SizeOf(trkHead[0x14]) {
        PositiveSize(trkHead[..], n);
        copies := SizeOf(trkHead[0x14]) / secLen;
      }
      pos := base + offset;
    }

    // -------------------------------------------------------------- writing

    method WriteCopies(x: seq<byte>, copies: nat)
      requires Valid()
      modifies `pos, `file
      ensures file == PokeCopies(old(file), old(pos), x, copies)
    {
      var n := 0;
      ghost var goal := PokeCopies(file, pos, x, copies);
      while n < copies
        invariant 0 <= n <= copies && PokeCopies(file, pos, x, copies - n) == goal
      {
        FileWrite(x);
        n := n + 1;
      }
    }

    /** The status bytes of a record after a write; true if they changed. */
    method MarkRecord(n: nat, deleted: bool) returns (changed: bool)
      requires Valid() && n < 29
      modifies trkHead
      ensures trkHead[..] == WithStatus(old(trkHead[..]), n, NewStatus(Now(), old(trkHead[..]), n, deleted))
      ensures changed <==> trkHead[..] != old(trkHead[..])
    {
      var at4, at5 := 0x18 + 8 * n + 4, 0x18 + 8 * n + 5;
      ghost var was := trkHead[..];
      var osh4, osh5 := trkHead[at4], trkHead[at5];
      if statusW[1] >= 0 {
        trkHead[at4] := statusW[1] % 256;
      }
      if statusW[2] >= 0 {
        trkHead[at5] := statusW[2] % 256;
      }
      trkHead[at5] := SetBit6(trkHead[at5], deleted);
      changed := trkHead[at5] != osh5 || trkHead[at4] != osh4;
      assert trkHead[..] == WithStatus(was, n, NewStatus(Now(), was, n, deleted));
      assert trkHead[..][at4] == trkHead[at4] && trkHead[..][at5] == trkHead[at5];
      assert was[at4] == osh4 && was[at5] == osh5;
      if !changed {
        assert trkHead[..] == was;
      }
    }

    method ClearStatus()
      requires Valid()
      modifies status, statusW
      ensures statusW[1] == -1 && statusW[2] == -1
    {
      var n := 0;
      while n < 4
        invariant 0 <= n <= 4 && forall i :: 0 <= i < n ==> statusW[i] == -1
      {
        statusW[n] := -1;
        status[n] := 0;
        n := n + 1;
      }
    }

    /** cpcemu_xwrite. */
    method Write(geom: Geometry, buf: seq<byte>, cyl: nat, head: nat, cylX: nat, headX: nat, sector: nat, deleted: bool)
      returns (err: Err)
      requires Valid()
      modifies `pos, `file, trkHead, status, statusW
      ensures (Now(), err) == XWrite(old(Now()), geom, buf, cyl, head, cylX, headX, sector, deleted)
    {
      hide SeekTo, LookupTrack, WithStatus, NewStatus, Poke, Id, Scan;
      if readOnly {
        return ErrReadOnly;
      }
      ghost var im := Now();
      var record, len, secLen, copies;
      err, record, len, secLen, copies := SeekSector(geom, cyl, head, cylX, headX, sector, |buf|, false, 0);
      ghost var p := SeekTo(im, geom, cyl, head, cylX, headX, sector, |buf|, false, 0);
      if err == ErrOk || err == ErrDataErr {
        err := ErrOk;
        Lengths(im, geom, cyl, head, cylX, headX, sector, |buf|);
        WriteCopies(Peek(buf, 0, len), copies);
        ScanFirst(trkHead[..], sector, 0);
        FirstInRange(trkHead[..], sector);
        var n := FirstRecord(sector);
        StatusChoice(im, Now(), trkHead[..], n, deleted);
        var changed := MarkRecord(n, deleted);
        if changed {
          var track := FindTrack(cyl, head);
          FoundTrack(im, geom, cyl, head, cylX, headX, sector, |buf|);
          pos := track;
          FileWrite(trkHead[..]);
        }
      }
      ClearStatus();
      assert dskHead[..] == im.dh;
    }

    // -------------------------------------------------------------- reading

    /** cpcemu_xread. dice are the random numbers, two to a round. */
    method Read(geom: Geometry, cyl: nat, head: nat, cylX: nat, headX: nat, sector: nat, size: nat, wantDeleted: bool,
        dice: nat -> nat)
      returns (err: Err, data: seq<byte>, other: bool, st1: byte, st2: byte)
      requires Valid()
      modifies `pos, `curSector, trkHead, status
      ensures Reading(err, data, other, st1, st2, curSector) ==
        XRead(old(Now()), geom, cyl, head, cylX, headX, sector, size, wantDeleted, dice)
      ensures file == old(file) && (err in {ErrOk, ErrDataErr} ==> status[1] == st1 && status[2] == st2)
    {
      hide SeekTo, Id, Field, Deliver, MaxSec, TrackNo, LookupTrack;
      var hd, sec, len, round, again := head, sector, size, 0, false;
      ghost var im := Now();
      ghost var goal := XRead(im, geom, cyl, head, cylX, headX, sector, size, wantDeleted, dice);
      other, data, st1, st2 := false, [], 0, 0;
      while true
        invariant Valid() && Now() == im
        invariant ReadLoop(im, geom, cyl, hd, cylX, headX, sec, size, len, wantDeleted, again, round, dice) == goal
        invariant !other && data == [] && st1 == 0 && st2 == 0
        decreases if hd == 0 then 1 else 0, if sec <= 256 then 257 - sec else 0
      {
        var record, secLen, copies, found;
        err, record, found, secLen, copies := SeekSector(geom, cyl, hd, cylX, headX, sec, len, true, dice(2 * round));
        SeekSound(im, geom, cyl, hd, cylX, headX, sec, len, dice(2 * round));
        if again && err == ErrNoAddr {
          err := ErrNoData;
          if !geom.noMulti && hd == 0 && dskHead[0x31] > 0 {
            hd := 1;
            sec := geom.secBase;
            round := round + 1;
            continue;
          }
          return;
        }
        if err == ErrNoAddr {
          curSector := -1;
        }
        if err != ErrDataErr && err != ErrOk {
          return;
        }
        len := found;
        var mismatch := wantDeleted != (Field(trkHead[..], record, 5) / 64 % 2 == 1);
        if mismatch && !geom.noSkip {
          sec := sec + 1;
          again := true;
          round := round + 1;
          continue;
        }
        other := mismatch;
        err, data, st1, st2 := DeliverSector(err, record, len, secLen, copies, dice(2 * round + 1));
        return;
      }
    }

    /** The data and the status of the sector that was found. */
    method DeliverSector(e: Err, record: nat, len: nat, secLen: nat, copies: nat, roll: nat)
      returns (err: Err, data: seq<byte>, st1: byte, st2: byte)
      requires Valid() && record < 29 && e in {ErrOk, ErrDataErr}
      modifies `pos, status
      ensures st1 == Field(trkHead[..], record, 4) && st2 == Field(trkHead[..], record, 5)
      ensures forall p: Place, other: bool ::
                p.err == e && p.at == old(pos) && p.len == len && p.secLen == secLen && p.copies == copies ==>
                  Reading(err, data, other, st1, st2, curSector) == Deliver(Now(), p, other, st1, st2, roll)
      ensures err in {ErrOk, ErrDataErr} && status[1] == st1 && status[2] == st2
    {
      hide Peek;
      err, st1, st2 := e, Field(trkHead[..], record, 4), Field(trkHead[..], record, 5);
      if copies > 1 {
        pos := pos + roll % copies * secLen;
      }
      data := FileRead(len);
      if |data| < len {
        err := ErrDataErr;
      }
      if st2 / 32 % 2 == 1 {
        err := ErrDataErr;
      }
      status[0], status[1], status[2], status[3] := 0, st1, st2, 0;
    }

    constructor (header: seq<byte>, image: seq<byte>, ro: bool)
      requires |header| == 256
      ensures Valid() && Now() == Image(header, image, curSector, -1, -1, ro)
      ensures fresh(dskHead) && fresh(trkHead) && fresh(status) && fresh(statusW)
    {
      file, pos, readOnly := image, 256, ro;
      dskHead := new byte[256](i requires 0 <= i < 256 => header[i]);
      trkHead := new byte[256];
      status := new byte[4](i => 0);
      statusW := new int[4](i => -1);
      new;
      assert dskHead[..] == header;
    }
  }

  lemma OneMore(len: nat, n: nat)
    ensures len * n + len == len * (n + 1)
  {
  }

  lemma StatusChoice(im: Image, now: Image, th: seq<byte>, n: nat, deleted: bool)
    requires |th| == 256 && n < 29 && now.st1w == im.st1w && now.st2w == im.st2w
    ensures NewStatus(now, th, n, deleted) == NewStatus(im, th, n, deleted)
  {
  }

  lemma SectorOffsetRange(th: seq<byte>, sector: nat, hint: int, pick: nat)
    requires |th| == 256
    ensures var r := SectorOffset(th, sector, hint, pick);
      r.0 >= 0 ==> 0 <= r.1 < MaxSec(th)
  {
    hide Id;
  }

  lemma PositiveSize(th: seq<byte>, n: nat)
    requires |th| == 256 && n < 29
    ensures OwnSize(th, n) > 0
  {
  }

  lemma Lengths(im: Image, geom: Geometry, cyl: nat, head: nat, cylX: nat, headX: nat, sector: nat, len: nat)
    requires |im.dh| == 256
    ensures var p := SeekTo(im, geom, cyl, head, cylX, headX, sector, len, false, 0);
      p.err in {ErrOk, ErrDataErr} ==> p.len <= len
  {
    hide SectorOffset, HeaderError, LookupTrack, Field, Matches, LoadHeader;
  }

  lemma FirstInRange(th: seq<byte>, sector: nat)
    requires |th| == 256
    ensures -1 <= Scan(th, sector, 0, 0) < MaxSec(th)
  {
  }

  lemma FoundTrack(im: Image, geom: Geometry, cyl: nat, head: nat, cylX: nat, headX: nat, sector: nat, len: nat)
    requires |im.dh| == 256
    ensures var p := SeekTo(im, geom, cyl, head, cylX, headX, sector, len, false, 0);
      p.err in {ErrOk, ErrDataErr} ==> LookupTrack(im.dh, cyl, head) >= 0
  {
    hide SectorOffset, HeaderError, LookupTrack, Field, Matches;
  }

  lemma SeekSound(im: Image, geom: Geometry, cyl: nat, head: nat, cylX: nat, headX: nat, sector: nat, len: nat,
      roll: nat)
    requires |im.dh| == 256
    ensures var p := SeekTo(im, geom, cyl, head, cylX, headX, sector, len, true, roll);
      p.err in {ErrOk, ErrDataErr} ==> p.record < 29 && |p.th| == 256 && sector < 256 && p.len <= len
  {
    hide SectorOffset, HeaderError, LookupTrack, Field, Matches, LoadHeader;
  }
}
