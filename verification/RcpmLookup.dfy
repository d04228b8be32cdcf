/** From a sector back to the file that owns it, and why that inverts the allocation
    (lib/libdsk/drvrcpm.c, rcpmfs_lookup and rcpmfs_psfind2). */
module RcpmLookup {
  import opened Bits
  import opened Rcpm
  import opened RcpmAlloc

  /** The first pointer of an entry, from nb on, that is the block looked for. */
  function FindPtr(p: Params, e: seq<byte>, block: nat, nb: nat): (r: Option<nat>)
    requires |e| == 32 && nb <= BlocksPerExtent(p)
    ensures r.Some? ==> nb <= r.value < BlocksPerExtent(p)
    decreases BlocksPerExtent(p) - nb
  {
    if nb == BlocksPerExtent(p) then None
    else if Ptr(p, e, nb) == block then Some(nb)
    else FindPtr(p, e, block, nb + 1)
  }

  /** rcpmfs_lookup from slot j on: the slot that owns a block, and the position of the block in it. */
  function Lookup(p: Params, s: seq<Slot>, j: nat, block: nat): (r: Option<(nat, nat)>)
    requires j <= |s|
    ensures r.Some? ==> j <= r.value.0 < |s| && |s[r.value.0].bytes| == 32 && r.value.1 < BlocksPerExtent(p)
    decreases |s| - j
  {
    if j == |s| then None
    else if Live(s[j]) && FindPtr(p, s[j].bytes, block, 0).Some? then Some((j, FindPtr(p, s[j].bytes, block, 0).value))
    else Lookup(p, s, j + 1, block)
  }

  function SecPerBlock(p: Params): (n: nat)
    requires Sane(p)
    ensures n > 0
  {
    OneSector(p.blockSize, p.secSize);
    p.blockSize / p.secSize
  }

  lemma OneSector(b: nat, s: nat)
    requires 0 < s <= b
    ensures b / s > 0
  {
  }

  /** rcpmfs_psfind2: the file that owns a sector, and the offset of the sector in it. */
  function PsFind(p: Params, s: seq<Slot>, sector: nat): Option<(string, int)>
    requires Sane(p)
  {
    var block := sector / SecPerBlock(p);
    match Lookup(p, s, 0, block)
    case None => None
    case Some(x) =>
      Some((s[x.0].name,
        x.1 * p.blockSize + (sector - block * SecPerBlock(p)) * p.secSize + ExtentSize(p) * Extent(p, s[x.0].bytes)))
  }

  // ---------------------------------------------------------------- a block has one owner

  lemma {:induction false} FindPtrFirst(p: Params, e: seq<byte>, block: nat, nb: nat)
    requires |e| == 32 && nb <= BlocksPerExtent(p)
    ensures var r := FindPtr(p, e, block, nb);
      && (r.Some? ==> Ptr(p, e, r.value) == block)
      && forall k :: nb <= k < BlocksPerExtent(p) && Ptr(p, e, k) == block ==> r.Some?
    decreases BlocksPerExtent(p) - nb
  {
    hide Ptr;
    if nb < BlocksPerExtent(p) && Ptr(p, e, nb) != block {
      FindPtrFirst(p, e, block, nb + 1);
    }
  }

  /** Slot j is live and has the block at position nb. */
  ghost predicate Owns(p: Params, s: seq<Slot>, j: nat, nb: nat, block: nat) {
    j < |s| && Live(s[j]) && nb < BlocksPerExtent(p) && Ptr(p, s[j].bytes, nb) == block
  }

  lemma {:induction false} LookupFirst(p: Params, s: seq<Slot>, j: nat, block: nat)
    requires j <= |s|
    ensures var r := Lookup(p, s, j, block);
      && (r.Some? ==> Owns(p, s, r.value.0, r.value.1, block))
      && forall k, nb :: j <= k && Owns(p, s, k, nb, block) ==> r.Some?
    decreases |s| - j
  {
    hide Ptr, FindPtr;
    if j < |s| {
      LookupFirst(p, s, j + 1, block);
      if Live(s[j]) {
        FindPtrFirst(p, s[j].bytes, block, 0);
      }
    }
  }

  /** Every block number in a live slot is that of one grant, which says where it is. */
  lemma OwnerGranted(p: Params, s: seq<Slot>, gs: seq<Grant>, end: nat, j: nat, nb: nat, block: nat) returns (i: nat)
    requires Sane(p) && Settled(p, s, gs, end) && Owns(p, s, j, nb, block) && block != 0
    ensures i < |gs| && gs[i].slot == j && gs[i].index % BlocksPerExtent(p) == nb && gs[i].block == block
  {
    assert Accounted(p, s, gs, j, nb);
    i :| 0 <= i < |gs| && gs[i].slot == j && gs[i].index % BlocksPerExtent(p) == nb;
    assert Recorded(p, s, gs[i]);
  }

  lemma SameGrant(gs: seq<Grant>, i: nat, l: nat)
    requires i < |gs| && l < |gs| && gs[i].block == gs[l].block
    requires forall i, k :: 0 <= i < k < |gs| ==> gs[i].block < gs[k].block
    ensures i == l
  {
  }

  lemma OneOwner(p: Params, s: seq<Slot>, gs: seq<Grant>, end: nat, j: nat, nb: nat, k: nat, nc: nat, block: nat)
    requires Sane(p) && Settled(p, s, gs, end) && block != 0
    requires Owns(p, s, j, nb, block) && Owns(p, s, k, nc, block)
    ensures j == k && nb == nc && p.dirBlocks <= block < end
  {
    var i := OwnerGranted(p, s, gs, end, j, nb, block);
    var l := OwnerGranted(p, s, gs, end, k, nc, block);
    hide Recorded, Accounted;
    SameGrant(gs, i, l);
  }

  /** Safety of the allocation: over any list of files, through a full disc and a full directory, no
      block is owned twice, and every owned block lies behind the directory and before the last block
      of the disc, which is never used. */
  lemma BlocksDistinct(p: Params, title: seq<byte>, files: seq<File>, j: nat, nb: nat, k: nat, nc: nat, block: nat)
    requires Sane(p) && |title| == 32 && title[0] == 0x20 && MaxDirent(p) > 0
    requires forall i :: 0 <= i < |files| ==> FileOk(files[i])
    requires var s := ReadDir(p, title, files).d.slots; Owns(p, s, j, nb, block) && Owns(p, s, k, nc, block)
    ensures block != 0 ==> j == k && nb == nc && p.dirBlocks <= block < p.totalBlocks - 1
  {
    hide Sane, ReadDir, Owns, Settled;
    var r := ReadDir(p, title, files);
    ReadDirSettled(p, title, files);
    if block != 0 {
      OneOwner(p, r.d.slots, r.grants, r.blockNo, j, nb, k, nc, block);
    }
  }

  // ---------------------------------------------------------------- allocation and translation

  lemma LookupGrant(p: Params, s: seq<Slot>, gs: seq<Grant>, end: nat, i: nat)
    requires Sane(p) && Settled(p, s, gs, end) && i < |gs|
    ensures Recorded(p, s, gs[i])
    ensures Lookup(p, s, 0, gs[i].block) == Some((gs[i].slot, gs[i].index % BlocksPerExtent(p)))
  {
    hide Lookup, Accounted;
    var g := gs[i];
    assert Recorded(p, s, g) && g.block >= p.dirBlocks > 0;
    assert Owns(p, s, g.slot, g.index % BlocksPerExtent(p), g.block);
    LookupFirst(p, s, 0, g.block);
    var r := Lookup(p, s, 0, g.block).value;
    OneOwner(p, s, gs, end, r.0, r.1, g.slot, g.index % BlocksPerExtent(p), g.block);
  }

  /** The translation inverts the allocation: a sector of the block that was given to a file as its
      block number index is found at that index in that file, exactly while the extent counter, which
      has thirteen bits, can tell the extents of the file apart. */
  lemma TranslationInverts(p: Params, title: seq<byte>, files: seq<File>, i: nat, sector: nat)
    requires Sane(p) && |title| == 32 && title[0] == 0x20 && MaxDirent(p) > 0
    requires forall k :: 0 <= k < |files| ==> FileOk(files[k])
    requires var r := ReadDir(p, title, files); i < |r.grants| && sector / SecPerBlock(p) == r.grants[i].block
    ensures var r := ReadDir(p, title, files); var g := r.grants[i];
      PsFind(p, r.d.slots, sector) ==
        Some((g.name, g.index * p.blockSize + (sector - g.block * SecPerBlock(p)) * p.secSize))
      <==> g.index / BlocksPerExtent(p) * Fold(p) < 8192
  {
    hide ReadDir, Settled, Lookup, Spread, Fold, Extent, Ptr, BlocksPerExtent;
    var r := ReadDir(p, title, files);
    var g := r.grants[i];
    ReadDirSettled(p, title, files);
    LookupGrant(p, r.d.slots, r.grants, r.blockNo, i);
    CounterRoom(p, g.index / BlocksPerExtent(p));
    OffsetOfIndex(p, g.index, Extent(p, r.d.slots[g.slot].bytes));
  }

  lemma CounterRoom(p: Params, extent: nat)
    requires Sane(p) && Spread(Fold(p)) > 0
    ensures extent % (256 * Spread(Fold(p))) == extent <==> extent * Fold(p) < 8192
  {
    SpreadFold(p);
    hide Fold, Spread;
    var m, u := Fold(p), Spread(Fold(p));
    if extent < 256 * u {
      Quotient(extent, 256 * u, 0, extent);
      assert extent * m <= (256 * u - 1) * m == 256 * (m * u) - m;
    } else {
      assert extent * m >= (256 * u) * m == 256 * (m * u);
    }
  }

  lemma OffsetOfIndex(p: Params, index: nat, extent: nat)
    requires Sane(p)
    ensures var n := BlocksPerExtent(p);
      index % n * p.blockSize + ExtentSize(p) * extent == index * p.blockSize <==> extent == index / n
  {
    var b, n := p.blockSize, BlocksPerExtent(p);
    assert index == n * (index / n) + index % n;
    SplitOffset(b, n, index / n, index % n);
    SameMultiple(b * n, extent, index / n);
  }

  lemma SplitOffset(b: nat, n: nat, q: nat, r: nat)
    ensures (n * q + r) * b == r * b + (b * n) * q
  {
  }

  lemma SameMultiple(d: nat, x: nat, y: nat)
    requires d > 0
    ensures d * x == d * y <==> x == y
  {
    assert x > y ==> d * x >= d * (y + 1);
    assert x < y ==> d * y >= d * (x + 1);
  }

  /** Only granted blocks have an owner. */
  lemma OnlyGranted(p: Params, title: seq<byte>, files: seq<File>, sector: nat)
    requires Sane(p) && |title| == 32 && title[0] == 0x20 && MaxDirent(p) > 0
    requires forall k :: 0 <= k < |files| ==> FileOk(files[k])
    requires sector / SecPerBlock(p) != 0
    ensures var r := ReadDir(p, title, files);
      PsFind(p, r.d.slots, sector) != None <==>
        exists i :: 0 <= i < |r.grants| && r.grants[i].block == sector / SecPerBlock(p)
  {
    hide ReadDir, Settled, Lookup, Ptr, BlocksPerExtent, Extent;
    var r := ReadDir(p, title, files);
    var block := sector / SecPerBlock(p);
    ReadDirSettled(p, title, files);
    LookupFirst(p, r.d.slots, 0, block);
    if PsFind(p, r.d.slots, sector) != None {
      var x := Lookup(p, r.d.slots, 0, block).value;
      var i := OwnerGranted(p, r.d.slots, r.grants, r.blockNo, x.0, x.1, block);
    } else if exists i :: 0 <= i < |r.grants| && r.grants[i].block == block {
      var i :| 0 <= i < |r.grants| && r.grants[i].block == block;
      LookupGrant(p, r.d.slots, r.grants, r.blockNo, i);
    }
  }

  // ---------------------------------------------------------------- which blocks a file is given

  /** The new grants of a file are its blocks in order. */
  ghost predicate InOrder(p: Params, o: Outcome, r: Outcome, f: File, from: nat) {
    && |o.grants| <= |r.grants| && r.grants[..|o.grants|] == o.grants
    && forall i :: |o.grants| <= i < |r.grants| ==>
         var k := i - |o.grants|;
         r.grants[i].block == o.blockNo + k && r.grants[i].name == Clip(f.name) && r.grants[i].index == from + k
  }

  /** How many slots from one on, in whole groups of four, are free for an entry. */
  function Room(s: seq<Slot>, from: nat): (n: nat)
    requires forall j :: 0 <= j < |s| ==> |s[j].bytes| == 32
    decreases |s| - from
  {
    if from >= |s| - |s| % 4 then 0 else (if s[from].bytes[0] == FREE then 1 else 0) + Room(s, from + 1)
  }

  /** The slot rcpmfs_add_dirent takes: the next one, or the one behind it if that is a time stamp entry. */
  function Place(d: Disk): nat
    requires d.dirent < |d.slots| && |d.slots[d.dirent].bytes| == 32
  {
    if d.slots[d.dirent].bytes[0] != FREE then d.dirent + 1 else d.dirent
  }

  lemma AddDirentPlace(p: Params, d: Disk, e: seq<byte>, f: File)
    requires Shaped(p, d) && |e| == 32 && FileOk(f) && d.dirent < |d.slots|
    ensures var (r, ok) := AddDirent(p, d, e, f);
      && (ok <==> Place(d) < |d.slots| - |d.slots| % 4)
      && (ok ==> r.dirent == Place(d) + 1 && |r.slots| == |d.slots|)
      && (ok ==> forall j :: r.dirent <= j < |d.slots| ==> r.slots[j].bytes[0] == d.slots[j].bytes[0])
  {
    hide Clip, Stamped;
    if Place(d) < |d.slots| - |d.slots| % 4 {
      StampedHead(d.slots[Stamper(Place(d))].bytes, Place(d) % 4, f.stamp);
    }
  }

  lemma RoomStep(s: seq<Slot>, from: nat)
    requires forall j :: 0 <= j < |s| ==> |s[j].bytes| == 32
    ensures from < |s| - |s| % 4 ==> Room(s, from) == (if s[from].bytes[0] == FREE then 1 else 0) + Room(s, from + 1)
    ensures from >= |s| - |s| % 4 ==> Room(s, from) == 0
  {
  }

  /** The slots skipped are not free, the slot taken is. */
  lemma RoomToPlace(p: Params, d: Disk)
    requires Shaped(p, d) && FreeFrom(d, d.dirent) && d.dirent < |d.slots|
    ensures Place(d) < |d.slots| - |d.slots| % 4 ==> Room(d.slots, d.dirent) == 1 + Room(d.slots, Place(d) + 1)
    ensures Place(d) >= |d.slots| - |d.slots| % 4 ==> Room(d.slots, d.dirent) == 0
  {
    hide Room;
    assert FreeAt(d.slots[d.dirent], d.dirent);
    RoomStep(d.slots, d.dirent);
    if Place(d) < |d.slots| {
      assert FreeAt(d.slots[Place(d)], Place(d));
    }
    RoomStep(d.slots, Place(d));
  }

  /** An entry is added exactly if there is room, and takes one place of it. */
  lemma AddDirentRoom(p: Params, d: Disk, e: seq<byte>, f: File)
    requires Shaped(p, d) && |e| == 32 && FileOk(f) && FreeFrom(d, d.dirent)
    ensures var (r, ok) := AddDirent(p, d, e, f);
      && (ok <==> Room(d.slots, d.dirent) > 0)
      && (ok ==> r.dirent > 0 && Room(r.slots, r.dirent) == Room(d.slots, d.dirent) - 1)
  {
    hide FreeFrom, Room, Place;
    if d.dirent < |d.slots| {
      hide AddDirent;
      AddDirentPlace(p, d, e, f);
      RoomToPlace(p, d);
      var (r, ok) := AddDirent(p, d, e, f);
      if ok {
        RoomSame(d.slots, r.slots, r.dirent);
      }
    } else {
      RoomStep(d.slots, d.dirent);
    }
  }

  lemma {:induction false} RoomSame(s: seq<Slot>, t: seq<Slot>, from: nat)
    requires |s| == |t| && forall j :: 0 <= j < |s| ==> |s[j].bytes| == 32 && |t[j].bytes| == 32
    requires forall j :: from <= j < |s| ==> s[j].bytes[0] == t[j].bytes[0]
    ensures Room(s, from) == Room(t, from)
    decreases |s| - from
  {
    if from < |s| - |s| % 4 {
      RoomSame(s, t, from + 1);
    }
  }

  /** The blocks of a file that its first n extents take. */
  function Taken(p: Params, blocks: nat, n: nat): nat {
    Smaller(blocks, n * BlocksPerExtent(p))
  }

  /** What becomes of blocks left in as many extents, with room for some of them: one extent more than
      there is room for is numbered. The disc is full if those numbers reach its end; otherwise the
      extents that there was room for are granted, in order. */
  ghost predicate Dealt(p: Params, o: Outcome, r: Outcome, f: File, from: nat, blocks: nat, left: nat, room: nat) {
    var used := Taken(p, blocks, Smaller(left, room + 1));
    && (r.blockNo < p.totalBlocks <==> o.blockNo + used < p.totalBlocks)
    && (r.blockNo < p.totalBlocks ==> r.blockNo == o.blockNo + used)
    && (r.blockNo < p.totalBlocks && f.head != [] && f.head[0] < 16 ==>
          InOrder(p, o, r, f, from) && |r.grants| == |o.grants| + Taken(p, blocks, Smaller(left, room)))
  }

  lemma {:induction false} ExtentsDealt(p: Params, o: Outcome, f: File, extent: nat, blocks: nat, rest: nat, left: nat)
    requires Shaped(p, o.d) && FreeFrom(o.d, o.d.dirent) && FileOk(f) && Sane(p) && o.blockNo < p.totalBlocks
    requires blocks <= left * BlocksPerExtent(p)
    ensures Dealt(p, o, AddExtents(p, o, f, extent, blocks, rest, left), f, extent * BlocksPerExtent(p), blocks, left,
      Room(o.d.slots, o.d.dirent))
    decreases left
  {
    hide MakeEntry, BlocksPerExtent, ExtentSize, Clip, InOrder, AddDirent, Given, Sane, Dealt, FreeFrom;
    var from, room := extent * BlocksPerExtent(p), Room(o.d.slots, o.d.dirent);
    var n := Smaller(blocks, BlocksPerExtent(p));
    if left == 0 {
      NoneDealt(p, o, o, f, from, blocks, left, room);
    } else if o.blockNo + n >= p.totalBlocks {
      NoneDealt(p, o, o.(blockNo := p.totalBlocks), f, from, blocks, left, room);
    } else {
      OneLess(left, BlocksPerExtent(p));
      var e := MakeEntry(p, f, extent, rest, o.blockNo, n);
      var (d, ok) := AddDirent(p, o.d, e, f);
      AddDirentRoom(p, o.d, e, f);
      AddDirentSlot(p, o.d, e, f);
      if !ok {
        NoneDealt(p, o, o.(d := d, blockNo := o.blockNo + n), f, from, blocks, left, room);
      } else {
        var t := Outcome(d, o.blockNo + n, o.grants + Given(p, f, extent, o.blockNo, n, d.dirent - 1));
        var rest1 := rest - Smaller(rest, ExtentSize(p));
        ExtentsDealt(p, t, f, extent + 1, blocks - n, rest1, left - 1);
        var r := AddExtents(p, t, f, extent + 1, blocks - n, rest1, left - 1);
        DealtJoins(p, o, t, r, f, extent, n, blocks, left, room);
      }
    }
  }

  /** No extents, a full disc, or a full directory. */
  lemma NoneDealt(p: Params, o: Outcome, r: Outcome, f: File, from: nat, blocks: nat, left: nat, room: nat)
    requires r.grants == o.grants && o.blockNo < p.totalBlocks
    requires var n := Smaller(blocks, BlocksPerExtent(p));
      || (left == 0 && r == o)
      || (left > 0 && o.blockNo + n >= p.totalBlocks && r.blockNo == p.totalBlocks)
      || (left > 0 && room == 0 && r.blockNo == o.blockNo + n)
    ensures Dealt(p, o, r, f, from, blocks, left, room)
  {
    hide BlocksPerExtent;
    if left > 0 {
      TakenFirst(p, blocks, Smaller(left, room + 1));
    }
  }

  lemma TakenFirst(p: Params, blocks: nat, n: nat)
    requires n > 0
    ensures Taken(p, blocks, n) ==
      Smaller(blocks, BlocksPerExtent(p)) + Taken(p, blocks - Smaller(blocks, BlocksPerExtent(p)), n - 1)
  {
    hide BlocksPerExtent;
    OneLess(n, BlocksPerExtent(p));
  }

  lemma TakenMost(p: Params, blocks: nat, n: nat)
    ensures Taken(p, blocks, n) <= blocks
  {
  }

  lemma DealtJoins(p: Params, o: Outcome, t: Outcome, r: Outcome, f: File, extent: nat, n: nat, blocks: nat,
      left: nat, room: nat)
    requires FileOk(f) && n == Smaller(blocks, BlocksPerExtent(p)) && t.d.dirent > 0 && left > 0 && room > 0
    requires t.grants == o.grants + Given(p, f, extent, o.blockNo, n, t.d.dirent - 1)
    requires t.blockNo == o.blockNo + n
    requires Dealt(p, t, r, f, (extent + 1) * BlocksPerExtent(p), blocks - n, left - 1, room - 1)
    ensures Dealt(p, o, r, f, extent * BlocksPerExtent(p), blocks, left, room)
  {
    hide BlocksPerExtent, Clip, Given, InOrder, Taken;
    TakenFirst(p, blocks, Smaller(left, room + 1));
    TakenFirst(p, blocks, Smaller(left, room));
    if r.blockNo < p.totalBlocks && f.head[0] < 16 {
      TakenMost(p, blocks - n, Smaller(left - 1, room - 1));
      OrderJoins(p, o, t, r, f, extent, n);
    }
  }

  lemma OneLess(left: nat, b: nat)
    requires left > 0
    ensures left * b == (left - 1) * b + b
  {
  }

  lemma OrderJoins(p: Params, o: Outcome, t: Outcome, r: Outcome, f: File, extent: nat, n: nat)
    requires FileOk(f) && f.head[0] < 16 && n <= BlocksPerExtent(p) && t.d.dirent > 0
    requires t.grants == o.grants + Given(p, f, extent, o.blockNo, n, t.d.dirent - 1)
    requires t.blockNo == o.blockNo + n
    requires InOrder(p, t, r, f, (extent + 1) * BlocksPerExtent(p))
    requires n < BlocksPerExtent(p) ==> |r.grants| == |t.grants|
    ensures InOrder(p, o, r, f, extent * BlocksPerExtent(p)) && |t.grants| == |o.grants| + n
  {
    hide BlocksPerExtent, Clip;
    var g := Given(p, f, extent, o.blockNo, n, t.d.dirent - 1);
    OneLess(extent + 1, BlocksPerExtent(p));
    forall i | |o.grants| <= i < |r.grants|
      ensures r.grants[i].block == o.blockNo + (i - |o.grants|) && r.grants[i].name == Clip(f.name)
      ensures r.grants[i].index == extent * BlocksPerExtent(p) + (i - |o.grants|)
    {
      if i < |t.grants| {
        assert r.grants[i] == r.grants[..|t.grants|][i] == g[i - |o.grants|];
      }
    }
    assert r.grants[..|o.grants|] == r.grants[..|t.grants|][..|o.grants|];
  }

  /** When a file is kept, in any state of the disc: exactly if the blocks of the extents that are tried
      end before the last block of the disc. A live file is then granted the blocks of the extents there
      was room for: consecutive ones, in order. */
  lemma FileKept(p: Params, o: Outcome, f: File)
    requires Shaped(p, o.d) && FreeFrom(o.d, o.d.dirent) && FileOk(f) && Sane(p) && o.blockNo < p.totalBlocks
    ensures var (r, more) := AddFile(p, o, f); var room := Room(o.d.slots, o.d.dirent);
      var used := Taken(p, FileBlocks(p, f.size), Smaller(FileEntries(p, f.size), room + 1));
      && (more <==> o.blockNo + used < p.totalBlocks)
      && (more ==> r.blockNo == o.blockNo + used)
      && (more && f.head[0] < 16 ==>
            && InOrder(p, o, r, f, 0)
            && |r.grants| == |o.grants| + Taken(p, FileBlocks(p, f.size), Smaller(FileEntries(p, f.size), room)))
  {
    hide AddExtents, InOrder, Taken;
    EnoughEntries(p, f.size);
    ExtentsDealt(p, o, f, 0, FileBlocks(p, f.size), f.size, FileEntries(p, f.size));
  }

  /** A file that the directory has room for is kept exactly if it leaves the last block of the disc
      free, and then it is given all its blocks. */
  lemma FileGranted(p: Params, o: Outcome, f: File)
    requires Shaped(p, o.d) && FreeFrom(o.d, o.d.dirent) && FileOk(f) && Sane(p) && o.blockNo < p.totalBlocks
    requires FileEntries(p, f.size) <= Room(o.d.slots, o.d.dirent)
    ensures var (r, more) := AddFile(p, o, f);
      && (more <==> o.blockNo + FileBlocks(p, f.size) < p.totalBlocks)
      && (more ==> r.blockNo == o.blockNo + FileBlocks(p, f.size))
      && (more && f.head[0] < 16 ==> InOrder(p, o, r, f, 0) && |r.grants| == |o.grants| + FileBlocks(p, f.size))
  {
    hide AddFile, InOrder;
    EnoughEntries(p, f.size);
    FileKept(p, o, f);
  }

  lemma EnoughEntries(p: Params, size: nat)
    requires Sane(p)
    ensures FileBlocks(p, size) <= FileEntries(p, size) * BlocksPerExtent(p)
  {
  }

  /** On a disc of ten blocks, one of them the directory's, a file of nine is taken back although
      nothing else is there, and a file of eight is kept. */
  lemma LastBlockUnused(title: seq<byte>, f: File)
    requires |title| == 32 && FileOk(f) && 8192 < f.size <= 9216
    ensures var p := Params(1024, 1, 10, 512, 2);
      && ReadDir(p, title, [f]).grants == [] && FileBlocks(p, f.size) == p.totalBlocks - p.dirBlocks
      && ReadDir(p, title, [f.(size := 8192)]).blockNo == p.totalBlocks - 1
  {
    var p := Params(1024, 1, 10, 512, 2);
    var o := Outcome(Blank(p, title), p.dirBlocks, []);
    var g := f.(size := 8192);
    BlankFree(p, title);
    hide AddFile, Blank, InOrder;
    FileGranted(p, o, f);
    FileGranted(p, o, g);
    Single(p, title, f);
    Single(p, title, g);
    AddFileGrants(p, o, f);
  }

  /** An empty directory without stamps has room in all its slots. */
  lemma BlankFree(p: Params, title: seq<byte>)
    requires |title| == 32 && MaxDirent(p) > 0 && p.version < FSVERSION_CPM3
    ensures FreeFrom(Blank(p, title), 0) && Blank(p, title).dirent == 0
    ensures Room(Blank(p, title).slots, 0) == MaxDirent(p) - MaxDirent(p) % 4
  {
    AllRoom(Blank(p, title).slots, 0);
  }

  lemma {:induction false} AllRoom(s: seq<Slot>, from: nat)
    requires forall j :: 0 <= j < |s| ==> |s[j].bytes| == 32 && s[j].bytes[0] == FREE
    requires from <= |s| - |s| % 4
    ensures Room(s, from) == |s| - |s| % 4 - from
    decreases |s| - from
  {
    if from < |s| - |s| % 4 {
      AllRoom(s, from + 1);
    }
  }

  /** A file of 128 megabytes and a byte, on a disc that has room for it: its last sector is not found
      where it belongs, but taken for its first. */
  lemma CounterOverflows(title: seq<byte>, f: File)
    requires |title| == 32 && title[0] == 0x20 && FileOk(f) && f.head[0] < 16 && f.size == 134217729
    ensures var p := Params(4096, 33, 65535, 512, 2); var r := ReadDir(p, title, [f]);
      && Sane(p) && |r.grants| == 32769 && r.grants[32768] == Grant(32801, Clip(f.name), 32768, r.grants[32768].slot)
      && PsFind(p, r.d.slots, 32801 * SecPerBlock(p)) == Some((Clip(f.name), 0))
  {
    hide AddFile, Blank, Clip, Lookup, Extent, Settled, Recorded, ReadDir, Room;
    var p := Params(4096, 33, 65535, 512, 2);
    var o := Outcome(Blank(p, title), p.dirBlocks, []);
    BlankFree(p, title);
    FileGranted(p, o, f);
    Single(p, title, f);
    var r := ReadDir(p, title, [f]);
    ReadDirSettled(p, title, [f]);
    LookupGrant(p, r.d.slots, r.grants, r.blockNo, 32768);
    RecordedExtent(p, r.d.slots, r.grants[32768]);
  }

  lemma RecordedExtent(p: Params, s: seq<Slot>, g: Grant)
    requires Sane(p) && Recorded(p, s, g)
    ensures g.slot < |s| && s[g.slot].name == g.name && |s[g.slot].bytes| == 32 && Spread(Fold(p)) > 0
    ensures Extent(p, s[g.slot].bytes) == g.index / BlocksPerExtent(p) % (256 * Spread(Fold(p)))
  {
  }

  lemma Single(p: Params, title: seq<byte>, f: File)
    requires Sane(p) && |title| == 32 && MaxDirent(p) > 0 && FileOk(f)
    ensures ReadDir(p, title, [f]) == AddFile(p, Outcome(Blank(p, title), p.dirBlocks, []), f).0
  {
    hide AddFile, Blank;
    var (t, more) := AddFile(p, Outcome(Blank(p, title), p.dirBlocks, []), f);
    assert [f][1..] == [];
    assert more ==> AddFiles(p, t, []) == t;
  }

  lemma AddFileGrants(p: Params, o: Outcome, f: File)
    requires Shaped(p, o.d) && FileOk(f) && Sane(p) && o.blockNo < p.totalBlocks && !AddFile(p, o, f).1
    ensures AddFile(p, o, f).0.grants == o.grants
  {
  }
}
