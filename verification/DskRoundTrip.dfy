/** Writing a sector of a disc image and reading it back, and what writing leaves alone
    (lib/libdsk/drvcpcem.c). */
module DskRoundTrip {
  import opened Bits
  import opened Dsk

  /** The header of a track, read at its offset. */
  function HeaderAt(f: seq<byte>, off: nat): (th: seq<byte>)
    requires off + 256 <= |f|
    ensures |th| == 256
  {
    f[off..off + 256]
  }

  /** A header whose sectors have different IDs and the size the header gives, and fit the track. */
  ghost predicate GoodHeader(th: seq<byte>, geom: Geometry, trackLen: nat)
    requires |th| == 256
  {
    && HeaderError(th, geom) == ErrOk && th[0x14] < 8
    && (forall i, j :: 0 <= i < j < MaxSec(th) ==> Id(th, i) != Id(th, j))
    && (forall i :: 0 <= i < MaxSec(th) ==> OwnSize(th, i) == SizeOf(th[0x14]))
    && 256 + MaxSec(th) * SizeOf(th[0x14]) <= trackLen
  }

  ghost predicate GoodTrack(im: Image, geom: Geometry, cyl: nat, head: nat) {
    && |im.dh| == 256 && LookupTrack(im.dh, cyl, head) >= 256
    && LookupTrack(im.dh, cyl, head) + TrackLen(im.dh) <= |im.file| && TrackLen(im.dh) >= 256
    && GoodHeader(HeaderAt(im.file, LookupTrack(im.dh, cyl, head)), geom, TrackLen(im.dh))
  }

  /** Where the data of record n of a track start. */
  function DataAt(off: nat, th: seq<byte>, n: nat): nat
    requires |th| == 256
  {
    off + 256 + SizeOf(th[0x14]) * n
  }

  lemma RecordFits(th: seq<byte>, geom: Geometry, trackLen: nat, off: nat, n: nat)
    requires |th| == 256 && GoodHeader(th, geom, trackLen) && n < MaxSec(th)
    ensures off + 256 <= DataAt(off, th, n) && DataAt(off, th, n) + SizeOf(th[0x14]) <= off + trackLen
    ensures SizeOf(th[0x14]) > 0
  {
    Grows(SizeOf(th[0x14]), n + 1, MaxSec(th));
    Grows(SizeOf(th[0x14]), 0, n);
  }

  lemma Grows(s: nat, a: nat, b: nat)
    requires a <= b
    ensures s * a <= s * b && s * (a + 1) == s * a + s
  {
  }

  lemma Apart(s: nat, a: nat, b: nat)
    requires a < b
    ensures s * a + s <= s * b
  {
    Grows(s, a + 1, b);
    Grows(s, a, b);
  }

  // ---------------------------------------------------------------- finding a sector on a good track

  lemma {:induction false} OneMatch(th: seq<byte>, sector: nat, n: nat)
    requires |th| == 256 && n <= 29 && forall i, j :: 0 <= i < j < n ==> Id(th, i) != Id(th, j)
    ensures Matches(th, sector, n) <= 1
    ensures Matches(th, sector, n) == 1 ==> exists i :: 0 <= i < n && Id(th, i) == sector
  {
    hide Id;
    if n > 0 {
      OneMatch(th, sector, n - 1);
    }
  }

  /** Whatever the hint and the dice, seeking on a good track finds the record the scan finds. */
  lemma SeekFinds(im: Image, geom: Geometry, cyl: nat, head: nat, cylX: nat, headX: nat, sector: nat, len: nat,
      pickRandom: bool, roll: nat)
    requires GoodTrack(im, geom, cyl, head)
    requires var th := HeaderAt(im.file, LookupTrack(im.dh, cyl, head)); var n := Scan(th, sector, 0, 0);
      n >= 0 && Field(th, n, 0) == cylX && Field(th, n, 1) == headX
    ensures var off := LookupTrack(im.dh, cyl, head); var th := HeaderAt(im.file, off); var n := Scan(th, sector, 0, 0);
      SeekTo(im, geom, cyl, head, cylX, headX, sector, len, pickRandom, roll) == Found(th, DataAt(off, th, n), n, len)
  {
    hide HeaderError, SizeOf, Id, OwnSize, LookupTrack, Field, TrackLen;
    var th := HeaderAt(im.file, LookupTrack(im.dh, cyl, head));
    OneMatch(th, sector, MaxSec(th));
    HintAgrees(th, sector, im.hint);
  }

  lemma FoundLengths(th: seq<byte>, geom: Geometry, trackLen: nat, at: nat, n: nat, len: nat)
    requires |th| == 256 && GoodHeader(th, geom, trackLen) && n < MaxSec(th)
    ensures var p := Found(th, at, n, len); var s := SizeOf(th[0x14]);
      && p.copies == 1 && p.len == (if s < len then s else len) && p.err == (if s == len then ErrOk else ErrDataErr)
      && p.th == th && p.at == at && p.record == n
  {
    hide HeaderError, Id;
    RecordFits(th, geom, trackLen, 0, n);
  }

  // ---------------------------------------------------------------- what a write changes

  /** The two status bytes of record n are the only difference. */
  ghost predicate SameButStatus(th: seq<byte>, newTh: seq<byte>, n: nat)
    requires |th| == 256 && |newTh| == 256 && n < 29
  {
    forall i :: 0 <= i < 256 && i != 0x18 + 8 * n + 4 && i != 0x18 + 8 * n + 5 ==> newTh[i] == th[i]
  }

  lemma {:induction false} ScanSame(th: seq<byte>, newTh: seq<byte>, sector: nat, k: nat, n: nat, pick: nat)
    requires |th| == 256 && |newTh| == 256 && n < 29 && SameButStatus(th, newTh, n) && k <= MaxSec(th)
    ensures MaxSec(newTh) == MaxSec(th) && Scan(newTh, sector, k, pick) == Scan(th, sector, k, pick)
    decreases MaxSec(th) - k
  {
    if k < MaxSec(th) {
      assert Id(newTh, k) == Id(th, k);
      ScanSame(th, newTh, sector, k + 1, n, pick);
      if pick > 0 {
        ScanSame(th, newTh, sector, k + 1, n, pick - 1);
      }
    }
  }

  /** A header with other status bytes is as good. */
  lemma StatusKeepsGood(th: seq<byte>, newTh: seq<byte>, n: nat, geom: Geometry, trackLen: nat)
    requires |th| == 256 && |newTh| == 256 && n < 29 && SameButStatus(th, newTh, n) && GoodHeader(th, geom, trackLen)
    ensures GoodHeader(newTh, geom, trackLen) && newTh[0x14] == th[0x14] && MaxSec(newTh) == MaxSec(th)
    ensures forall k, i :: 0 <= k < 29 && 0 <= i < 4 ==> Field(newTh, k, i) == Field(th, k, i)
  {
    assert newTh[..10] == th[..10];
    forall k | 0 <= k < MaxSec(th)
      ensures Id(newTh, k) == Id(th, k) && OwnSize(newTh, k) == OwnSize(th, k)
    {
    }
  }

  /** How a write changes the file: the data of one sector and the header of its track. */
  ghost predicate Wrote(f: seq<byte>, g: seq<byte>, off: nat, th: seq<byte>, at: nat, x: seq<byte>) {
    && |g| == |f| && |th| == 256 && off + 256 <= at && at + |x| <= |f|
    && g[off..off + 256] == th && g[at..at + |x|] == x
    && forall i :: 0 <= i < |f| && !(off <= i < off + 256) && !(at <= i < at + |x|) ==> g[i] == f[i]
  }

  lemma PokeEffect(f: seq<byte>, at: nat, x: seq<byte>)
    requires at + |x| <= |f|
    ensures var g := Poke(f, at, x);
      && |g| == |f| && g[at..at + |x|] == x
      && forall i :: 0 <= i < |f| && !(at <= i < at + |x|) ==> g[i] == f[i]
  {
  }

  lemma BothPokes(f: seq<byte>, off: nat, th: seq<byte>, newTh: seq<byte>, at: nat, x: seq<byte>)
    requires |th| == 256 == |newTh| && off + 256 <= at && at + |x| <= |f| && f[off..off + 256] == th
    ensures var g := Poke(f, at, x); Wrote(f, if newTh != th then Poke(g, off, newTh) else g, off, newTh, at, x)
  {
    hide Poke;
    var g := Poke(f, at, x);
    PokeEffect(f, at, x);
    assert g[off..off + 256] == th;
    PokeEffect(g, off, newTh);
    var h := Poke(g, off, newTh);
    assert h[at..at + |x|] == g[at..at + |x|];
  }

  /** Writing a sector that is there succeeds, whatever the hint, and changes the file as described. */
  lemma WriteEffect(im: Image, geom: Geometry, buf: seq<byte>, cyl: nat, head: nat, cylX: nat, headX: nat, sector: nat,
      deleted: bool)
    requires GoodTrack(im, geom, cyl, head) && !im.readOnly
    requires var th := HeaderAt(im.file, LookupTrack(im.dh, cyl, head)); var n := Scan(th, sector, 0, 0);
      n >= 0 && Field(th, n, 0) == cylX && Field(th, n, 1) == headX
    ensures var off := LookupTrack(im.dh, cyl, head); var th := HeaderAt(im.file, off); var n := Scan(th, sector, 0, 0);
      var s := SizeOf(th[0x14]); var x := if s < |buf| then buf[..s] else buf;
      var r := XWrite(im, geom, buf, cyl, head, cylX, headX, sector, deleted);
      && r.1 == ErrOk && r.0 == im.(file := r.0.file, st1w := -1, st2w := -1)
      && Wrote(im.file, r.0.file, off, WithStatus(th, n, NewStatus(im, th, n, deleted)), DataAt(off, th, n), x)
  {
    hide SeekTo, SizeOf, Id, OwnSize, LookupTrack, Field, TrackLen, Found, GoodHeader, Wrote, Poke, WithStatus;
    hide NewStatus;
    var off := LookupTrack(im.dh, cyl, head);
    var th := HeaderAt(im.file, off);
    var n := Scan(th, sector, 0, 0);
    SeekFinds(im, geom, cyl, head, cylX, headX, sector, |buf|, false, 0);
    FoundLengths(th, geom, TrackLen(im.dh), DataAt(off, th, n), n, |buf|);
    RecordFits(th, geom, TrackLen(im.dh), off, n);
    var s := SizeOf(th[0x14]);
    var x := if s < |buf| then buf[..s] else buf;
    assert Peek(buf, 0, if s < |buf| then s else |buf|) == x;
    BothPokes(im.file, off, th, WithStatus(th, n, NewStatus(im, th, n, deleted)), DataAt(off, th, n), x);
    OneCopy(im.file, DataAt(off, th, n), x);
  }

  lemma OneCopy(f: seq<byte>, at: nat, x: seq<byte>)
    ensures PokeCopies(f, at, x, 1) == Poke(f, at, x)
  {
    assert PokeCopies(f, at, x, 1) == PokeCopies(Poke(f, at, x), at + |x|, x, 0);
  }

  lemma StatusOnly(th: seq<byte>, n: nat, st: (byte, byte))
    requires |th| == 256 && n < 29
    ensures SameButStatus(th, WithStatus(th, n, st), n)
    ensures Field(WithStatus(th, n, st), n, 4) == st.0 && Field(WithStatus(th, n, st), n, 5) == st.1
  {
  }

  // ---------------------------------------------------------------- write, then read

  /** On a good track, whatever the current-sector hint is at either time and whatever the dice: reading
      a sector just written gives back the bytes written, as many as the sector holds, with no mismatch
      of the deleted mark; and the only error reported is a data error, exactly when the length asked
      for is not that of the sector or the record is marked as bad. */
  lemma WriteThenRead(im: Image, geom: Geometry, buf: seq<byte>, cyl: nat, head: nat, cylX: nat, headX: nat,
      sector: nat,
      deleted: bool, hint: int, dice: nat -> nat)
    requires GoodTrack(im, geom, cyl, head) && !im.readOnly
    requires var th := HeaderAt(im.file, LookupTrack(im.dh, cyl, head)); var n := Scan(th, sector, 0, 0);
      n >= 0 && Field(th, n, 0) == cylX && Field(th, n, 1) == headX
    ensures var th := HeaderAt(im.file, LookupTrack(im.dh, cyl, head)); var n := Scan(th, sector, 0, 0);
      var s := SizeOf(th[0x14]); var st := NewStatus(im, th, n, deleted);
      var w := XWrite(im, geom, buf, cyl, head, cylX, headX, sector, deleted);
      && w.1 == ErrOk
      && XRead(w.0.(hint := hint), geom, cyl, head, cylX, headX, sector, |buf|, deleted, dice) ==
           Reading(if |buf| != s || st.1 / 32 % 2 == 1 then ErrDataErr else ErrOk,
             if s < |buf| then buf[..s] else buf, false, st.0, st.1, hint)
  {
    hide SeekTo, SizeOf, OwnSize, LookupTrack, Found, GoodHeader, Wrote, WithStatus, NewStatus, XWrite, Field;
    hide TrackLen, SameButStatus, DataAt;
    var off := LookupTrack(im.dh, cyl, head);
    var th := HeaderAt(im.file, off);
    var n := Scan(th, sector, 0, 0);
    var st := NewStatus(im, th, n, deleted);
    var newTh := WithStatus(th, n, st);
    WriteEffect(im, geom, buf, cyl, head, cylX, headX, sector, deleted);
    var w := XWrite(im, geom, buf, cyl, head, cylX, headX, sector, deleted).0;
    var v := w.(hint := hint);
    var s := SizeOf(th[0x14]);
    var x := if s < |buf| then buf[..s] else buf;
    WroteHeader(im.file, w.file, off, newTh, DataAt(off, th, n), x);
    StatusOnly(th, n, st);
    StatusKeepsGood(th, newTh, n, geom, TrackLen(im.dh));
    ScanSame(th, newTh, sector, 0, n, 0);
    SeekFinds(v, geom, cyl, head, cylX, headX, sector, |buf|, true, dice(0));
    FoundLengths(newTh, geom, TrackLen(im.dh), DataAt(off, newTh, n), n, |buf|);
    SamePlace(off, th, newTh, n);
    RecordFits(th, geom, TrackLen(im.dh), off, n);
    DeletedMark(im, th, n, deleted);
    ReadBack(v, geom, cyl, head, cylX, headX, sector, deleted, dice, x, |buf|);
  }

  lemma SamePlace(off: nat, th: seq<byte>, newTh: seq<byte>, n: nat)
    requires |th| == 256 && |newTh| == 256 && newTh[0x14] == th[0x14]
    ensures DataAt(off, newTh, n) == DataAt(off, th, n)
  {
  }

  lemma DeletedMark(im: Image, th: seq<byte>, n: nat, deleted: bool)
    requires |th| == 256 && n < 29
    ensures NewStatus(im, th, n, deleted).1 / 64 % 2 == 1 <==> deleted
  {
    SetBit6Keeps(if im.st2w >= 0 then im.st2w % 256 else Field(th, n, 5), deleted);
  }

  lemma WroteHeader(f: seq<byte>, g: seq<byte>, off: nat, th: seq<byte>, at: nat, x: seq<byte>)
    requires Wrote(f, g, off, th, at, x)
    ensures |g| == |f| && off + 256 <= |g| && |th| == 256 && HeaderAt(g, off) == th
    ensures at + |x| <= |g| && Peek(g, at, |x|) == x
  {
  }

  /** One round of the read loop delivers a sector of the kind asked for. */
  lemma ReadBack(v: Image, geom: Geometry, cyl: nat, head: nat, cylX: nat, headX: nat, sector: nat, wantDeleted: bool,
      dice: nat -> nat, x: seq<byte>, size: nat)
    requires |v.dh| == 256
    requires var p := SeekTo(v, geom, cyl, head, cylX, headX, sector, size, true, dice(0));
      && p.err in {ErrOk, ErrDataErr} && p.copies == 1 && p.len == |x| && Peek(v.file, p.at, |x|) == x
      && (Field(p.th, p.record, 5) / 64 % 2 == 1 <==> wantDeleted)
    ensures var p := SeekTo(v, geom, cyl, head, cylX, headX, sector, size, true, dice(0));
      XRead(v, geom, cyl, head, cylX, headX, sector, size, wantDeleted, dice) ==
        Reading(if Field(p.th, p.record, 5) / 32 % 2 == 1 then ErrDataErr else p.err, x, false,
          Field(p.th, p.record, 4), Field(p.th, p.record, 5), v.hint)
  {
    hide SeekTo, Field, Peek;
    assert 2 * 0 == 0;
  }

  // ---------------------------------------------------------------- what a write leaves alone

  /** The data of a sector of a good track. */
  ghost function SectorData(im: Image, geom: Geometry, cyl: nat, head: nat, sector: nat): Option<seq<byte>>
    requires GoodTrack(im, geom, cyl, head)
  {
    var off := LookupTrack(im.dh, cyl, head);
    var th := HeaderAt(im.file, off);
    var n := Scan(th, sector, 0, 0);
    if n < 0 then None
    else
      RecordFits(th, geom, TrackLen(im.dh), off, n);
      Some(im.file[DataAt(off, th, n)..DataAt(off, th, n) + SizeOf(th[0x14])])
  }

  lemma TracksApart(dh: seq<byte>, cyl: nat, head: nat, cyl2: nat, head2: nat)
    requires |dh| == 256 && LookupTrack(dh, cyl, head) >= 0 && LookupTrack(dh, cyl2, head2) >= 0
    requires TrackNo(dh, cyl, head) != TrackNo(dh, cyl2, head2)
    ensures var a, b := LookupTrack(dh, cyl, head), LookupTrack(dh, cyl2, head2);
      a + TrackLen(dh) <= b || b + TrackLen(dh) <= a
  {
    hide TrackNo, TrackLen;
    if TrackNo(dh, cyl, head) < TrackNo(dh, cyl2, head2) {
      Apart(TrackLen(dh), TrackNo(dh, cyl, head), TrackNo(dh, cyl2, head2));
    } else {
      Apart(TrackLen(dh), TrackNo(dh, cyl2, head2), TrackNo(dh, cyl, head));
    }
  }

  /** Another track is untouched. */
  lemma OtherTrackKept(im: Image, w: Image, geom: Geometry, cyl: nat, head: nat, th: seq<byte>, at: nat, x: seq<byte>,
      cyl2: nat, head2: nat, sector2: nat)
    requires GoodTrack(im, geom, cyl, head) && GoodTrack(im, geom, cyl2, head2) && w.dh == im.dh
    requires TrackNo(im.dh, cyl, head) != TrackNo(im.dh, cyl2, head2)
    requires Wrote(im.file, w.file, LookupTrack(im.dh, cyl, head), th, at, x)
    requires at + |x| <= LookupTrack(im.dh, cyl, head) + TrackLen(im.dh)
    ensures GoodTrack(w, geom, cyl2, head2)
    ensures SectorData(w, geom, cyl2, head2, sector2) == SectorData(im, geom, cyl2, head2, sector2)
  {
    hide LookupTrack, TrackLen, TrackNo, GoodHeader, SizeOf, Scan;
    TracksApart(im.dh, cyl, head, cyl2, head2);
    var off2, len := LookupTrack(im.dh, cyl2, head2), TrackLen(im.dh);
    assert HeaderAt(w.file, off2) == HeaderAt(im.file, off2);
    var h := HeaderAt(im.file, off2);
    var n := Scan(h, sector2, 0, 0);
    ScanRange(h, sector2);
    if n >= 0 {
      RecordFits(h, geom, len, off2, n);
      assert w.file[DataAt(off2, h, n)..DataAt(off2, h, n) + SizeOf(h[0x14])] ==
        im.file[DataAt(off2, h, n)..DataAt(off2, h, n) + SizeOf(h[0x14])];
    }
  }

  lemma ScanRange(th: seq<byte>, sector: nat)
    requires |th| == 256
    ensures -1 <= Scan(th, sector, 0, 0) < MaxSec(th)
  {
  }

  /** Another sector of the same track is untouched. */
  lemma OtherSectorKept(im: Image, w: Image, geom: Geometry, cyl: nat, head: nat, n: nat, newTh: seq<byte>,
      x: seq<byte>,
      cyl2: nat, head2: nat, sector2: nat)
    requires GoodTrack(im, geom, cyl, head) && w.dh == im.dh
    requires LookupTrack(im.dh, cyl2, head2) == LookupTrack(im.dh, cyl, head)
    requires |newTh| == 256 && n < MaxSec(HeaderAt(im.file, LookupTrack(im.dh, cyl, head)))
    requires SameButStatus(HeaderAt(im.file, LookupTrack(im.dh, cyl, head)), newTh, n)
    requires var off := LookupTrack(im.dh, cyl, head); var th := HeaderAt(im.file, off);
      && Wrote(im.file, w.file, off, newTh, DataAt(off, th, n), x) && |x| <= SizeOf(th[0x14])
      && Scan(th, sector2, 0, 0) != n
    ensures GoodTrack(im, geom, cyl2, head2) && GoodTrack(w, geom, cyl2, head2)
    ensures SectorData(w, geom, cyl2, head2, sector2) == SectorData(im, geom, cyl2, head2, sector2)
  {
    hide LookupTrack, TrackLen, GoodHeader, SizeOf, Scan, SameButStatus;
    var off, len := LookupTrack(im.dh, cyl, head), TrackLen(im.dh);
    var th := HeaderAt(im.file, off);
    assert HeaderAt(w.file, off) == newTh;
    StatusKeepsGood(th, newTh, n, geom, len);
    ScanSame(th, newTh, sector2, 0, n, 0);
    ScanRange(th, sector2);
    var k := Scan(th, sector2, 0, 0);
    if k >= 0 {
      SamePlace(off, th, newTh, k);
      RecordFits(th, geom, len, off, k);
      RecordFits(th, geom, len, off, n);
      RecordsApart(off, th, k, n);
      assert w.file[DataAt(off, th, k)..DataAt(off, th, k) + SizeOf(th[0x14])] ==
        im.file[DataAt(off, th, k)..DataAt(off, th, k) + SizeOf(th[0x14])];
    }
  }

  lemma RecordsApart(off: nat, th: seq<byte>, k: nat, n: nat)
    requires |th| == 256 && k != n
    ensures var s := SizeOf(th[0x14]);
      DataAt(off, th, k) + s <= DataAt(off, th, n) || DataAt(off, th, n) + s <= DataAt(off, th, k)
  {
    hide SizeOf;
    if k < n {
      Apart(SizeOf(th[0x14]), k, n);
    } else {
      Apart(SizeOf(th[0x14]), n, k);
    }
  }

  /** A write changes the data of no other sector: not on another good track, and not of another ID on
      the same track. */
  lemma WriteKeepsOthers(im: Image, geom: Geometry, buf: seq<byte>, cyl: nat, head: nat, cylX: nat, headX: nat,
      sector: nat,
      deleted: bool, cyl2: nat, head2: nat, sector2: nat)
    requires GoodTrack(im, geom, cyl, head) && !im.readOnly && GoodTrack(im, geom, cyl2, head2)
    requires var th := HeaderAt(im.file, LookupTrack(im.dh, cyl, head)); var n := Scan(th, sector, 0, 0);
      n >= 0 && Field(th, n, 0) == cylX && Field(th, n, 1) == headX
    requires TrackNo(im.dh, cyl2, head2) != TrackNo(im.dh, cyl, head) || sector2 != sector
    ensures var w := XWrite(im, geom, buf, cyl, head, cylX, headX, sector, deleted).0;
      && GoodTrack(w, geom, cyl2, head2)
      && SectorData(w, geom, cyl2, head2, sector2) == SectorData(im, geom, cyl2, head2, sector2)
  {
    hide SizeOf, OwnSize, GoodHeader, Wrote, WithStatus, NewStatus, XWrite, Field, TrackLen, SameButStatus, TrackNo;
    hide SectorData, DataAt;
    var off := LookupTrack(im.dh, cyl, head);
    var th := HeaderAt(im.file, off);
    var n := Scan(th, sector, 0, 0);
    var st := NewStatus(im, th, n, deleted);
    WriteEffect(im, geom, buf, cyl, head, cylX, headX, sector, deleted);
    var w := XWrite(im, geom, buf, cyl, head, cylX, headX, sector, deleted).0;
    var s := SizeOf(th[0x14]);
    var x := if s < |buf| then buf[..s] else buf;
    RecordFits(th, geom, TrackLen(im.dh), off, n);
    StatusOnly(th, n, st);
    if TrackNo(im.dh, cyl2, head2) != TrackNo(im.dh, cyl, head) {
      OtherTrackKept(im, w, geom, cyl, head, WithStatus(th, n, st), DataAt(off, th, n), x, cyl2, head2, sector2);
    } else {
      OtherId(th, sector, sector2);
      OtherSectorKept(im, w, geom, cyl, head, n, WithStatus(th, n, st), x, cyl2, head2, sector2);
    }
  }

  lemma OtherId(th: seq<byte>, sector: nat, sector2: nat)
    requires |th| == 256 && sector != sector2 && Scan(th, sector, 0, 0) >= 0
    ensures Scan(th, sector2, 0, 0) != Scan(th, sector, 0, 0)
  {
  }
}
