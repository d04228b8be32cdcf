/** Building the directory: block allocation, rollback when the disc is full, and early end when the
    directory is (lib/libdsk/drvrcpm.c, rcpmfs_add_dirent and rcpmfs_readdir). */
module RcpmAlloc {
  import opened Bits
  import opened Rcpm

  const FREE := 0xE5
  const STAMPS := 0x21

  /** The directory slots, and rc_dirent. */
  datatype Disk = Disk(slots: seq<Slot>, dirent: nat)

  ghost predicate Shaped(p: Params, d: Disk) {
    |d.slots| == MaxDirent(p) && forall j :: 0 <= j < |d.slots| ==> |d.slots[j].bytes| == 32
  }

  /** A slot that rcpmfs_lookup looks at. */
  predicate Live(s: Slot) {
    |s.bytes| == 32 && s.bytes[0] < 16
  }

  // ---------------------------------------------------------------- adding an entry

  /** The last slot of a group of four. */
  function Stamper(at: nat): (n: nat)
    ensures at <= n
  {
    at - at % 4 + 3
  }

  /** A time stamp entry with the stamps of its slot k filled in. */
  function Stamped(ts: seq<byte>, k: nat, stamp: seq<byte>): (r: seq<byte>)
    requires |ts| == 32 && |stamp| == 9
    ensures |r| == 32
  {
    seq(32, i requires 0 <= i < 32 => if 1 + 10 * k <= i < 10 + 10 * k then stamp[i - 1 - 10 * k] else ts[i])
  }

  /** rcpmfs_add_dirent; false for its overrun error. */
  function AddDirent(p: Params, d: Disk, e: seq<byte>, f: File): (r: (Disk, bool))
    requires Shaped(p, d) && |e| == 32 && FileOk(f)
    ensures Shaped(p, r.0) && r.0.dirent >= d.dirent && (d.dirent <= MaxDirent(p) ==> r.0.dirent <= MaxDirent(p))
  {
    var max := |d.slots|;
    if d.dirent >= max then (d, false)
    else
      var at := if d.slots[d.dirent].bytes[0] != FREE then d.dirent + 1 else d.dirent;
      if at >= max || Stamper(at) >= max then (d.(dirent := at), false)
      else
        var ts := d.slots[Stamper(at)].bytes;
        var s := d.slots[at := Slot(e, Clip(f.name))];
        (Disk(if ts[0] == STAMPS then s[Stamper(at) := Slot(Stamped(ts, at % 4, f.stamp), "")] else s, at + 1), true)
  }

  /** Nothing but time stamp entries stands in a free part of the directory. */
  ghost predicate FreeAt(s: Slot, j: nat) {
    |s.bytes| == 32 && (s.bytes[0] == FREE || (j % 4 == 3 && s.bytes[0] == STAMPS))
  }

  ghost predicate FreeFrom(d: Disk, from: nat) {
    forall j :: from <= j < |d.slots| ==> FreeAt(d.slots[j], j)
  }

  /** An added entry takes a free slot, and touches no other slot but a time stamp entry. */
  lemma AddDirentSlot(p: Params, d: Disk, e: seq<byte>, f: File)
    requires Shaped(p, d) && |e| == 32 && FileOk(f) && FreeFrom(d, d.dirent)
    ensures var r := AddDirent(p, d, e, f); FreeFrom(r.0, r.0.dirent)
    ensures var r := AddDirent(p, d, e, f); !r.1 ==> r.0.slots == d.slots
    ensures var r := AddDirent(p, d, e, f);
      r.1 ==>
        && d.dirent <= r.0.dirent - 1 < |d.slots| && r.0.slots[r.0.dirent - 1] == Slot(e, Clip(f.name))
        && forall j :: 0 <= j < |d.slots| && j != r.0.dirent - 1 ==>
             r.0.slots[j] == d.slots[j] || (j >= d.dirent && FreeAt(d.slots[j], j) && FreeAt(r.0.slots[j], j))
  {
    hide Stamped, Clip;
    var max := |d.slots|;
    if d.dirent < max {
      assert FreeAt(d.slots[d.dirent], d.dirent);
      var at := if d.slots[d.dirent].bytes[0] != FREE then d.dirent + 1 else d.dirent;
      if at < max && Stamper(at) < max {
        assert FreeAt(d.slots[at], at) && FreeAt(d.slots[Stamper(at)], Stamper(at));
        assert at % 4 == 3 ==> d.slots[at].bytes[0] == FREE;
        var ts := d.slots[Stamper(at)].bytes;
        StampedHead(ts, at % 4, f.stamp);
        FreeKept(d, at, Slot(e, Clip(f.name)), Slot(Stamped(ts, at % 4, f.stamp), ""));
      }
    }
  }

  lemma StampedHead(ts: seq<byte>, k: nat, stamp: seq<byte>)
    requires |ts| == 32 && |stamp| == 9
    ensures Stamped(ts, k, stamp)[0] == ts[0]
  {
  }

  lemma FreeKept(d: Disk, at: nat, e: Slot, ts: Slot)
    requires at < |d.slots| && Stamper(at) < |d.slots| && FreeFrom(d, at)
    requires |ts.bytes| == 32 && ts.bytes[0] == d.slots[Stamper(at)].bytes[0]
    ensures FreeFrom(Disk(d.slots[at := e], at + 1), at + 1)
    ensures d.slots[Stamper(at)].bytes[0] == STAMPS ==>
      FreeFrom(Disk(d.slots[at := e][Stamper(at) := ts], at + 1), at + 1)
  {
    assert FreeAt(d.slots[Stamper(at)], Stamper(at));
    assert Stamper(at) % 4 == 3;
  }

  // ---------------------------------------------------------------- allocation

  /** A block given to a file: its number, the host name, its position among the blocks of the file,
      and the directory slot that records it. */
  datatype Grant = Grant(block: nat, name: string, index: nat, slot: nat)

  datatype Outcome = Outcome(d: Disk, blockNo: nat, grants: seq<Grant>)

  /** The blocks an extent that starts at block first takes, if its entry is live. */
  function Given(p: Params, f: File, extent: nat, first: nat, n: nat, slot: nat): seq<Grant>
    requires FileOk(f)
  {
    if f.head[0] < 16 then
      seq(n, i requires 0 <= i < n => Grant(first + i, Clip(f.name), extent * BlocksPerExtent(p) + i, slot))
    else []
  }

  /** The loop over the extents of a file. The loop over the blocks of an extent stops as soon as the
      block number reaches the number of blocks. */
  function AddExtents(p: Params, o: Outcome, f: File, extent: nat, blocks: nat, rest: nat, left: nat): (r: Outcome)
    requires Shaped(p, o.d) && FileOk(f) && Sane(p) && o.blockNo < p.totalBlocks
    ensures Shaped(p, r.d) && r.d.dirent >= o.d.dirent && (o.d.dirent <= MaxDirent(p) ==> r.d.dirent <= MaxDirent(p))
    decreases left
  {
    if left == 0 then o
    else
      var n := Smaller(blocks, BlocksPerExtent(p));
      if o.blockNo + n >= p.totalBlocks then o.(blockNo := p.totalBlocks)
      else
        var e := MakeEntry(p, f, extent, rest, o.blockNo, n);
        var (d, ok) := AddDirent(p, o.d, e, f);
        if !ok then o.(d := d, blockNo := o.blockNo + n)
        else
          var g := Given(p, f, extent, o.blockNo, n, d.dirent - 1);
          AddExtents(p, Outcome(d, o.blockNo + n, o.grants + g), f, extent + 1, blocks - n,
            rest - Smaller(rest, ExtentSize(p)), left - 1)
  }

  /** The rollback of the slots from n on. */
  function RollBack(s: seq<Slot>, n: nat, end: nat): (r: seq<Slot>)
    requires forall j :: 0 <= j < |s| ==> |s[j].bytes| == 32
    ensures |r| == |s| && forall j :: 0 <= j < |s| ==>
      r[j] == if n <= j < end && Live(s[j]) then Slot(s[j].bytes[0 := FREE], "") else s[j]
  {
    seq(|s|, j requires 0 <= j < |s| => if n <= j < end && Live(s[j]) then Slot(s[j].bytes[0 := FREE], "") else s[j])
  }

  function FileBlocks(p: Params, size: nat): nat
    requires Sane(p)
  {
    (size + p.blockSize - 1) / p.blockSize
  }

  function FileEntries(p: Params, size: nat): nat
    requires Sane(p)
  {
    var n := (FileBlocks(p, size) + BlocksPerExtent(p) - 1) / BlocksPerExtent(p);
    if n == 0 then 1 else n
  }

  /** One host file. When the disc is full its entries are taken back. */
  function AddFile(p: Params, o: Outcome, f: File): (r: (Outcome, bool))
    requires Shaped(p, o.d) && FileOk(f) && Sane(p) && o.blockNo < p.totalBlocks
    ensures Shaped(p, r.0.d) && (r.1 ==> r.0.blockNo < p.totalBlocks)
    ensures o.d.dirent <= MaxDirent(p) ==> r.0.d.dirent <= MaxDirent(p)
  {
    var t := AddExtents(p, o, f, 0, FileBlocks(p, f.size), f.size, FileEntries(p, f.size));
    if t.blockNo >= p.totalBlocks then
      (Outcome(Disk(RollBack(t.d.slots, o.d.dirent, t.d.dirent), o.d.dirent), o.blockNo, o.grants), false)
    else (t, true)
  }

  /** The host files in the order they are found; the first one that does not fit ends the scan. */
  function AddFiles(p: Params, o: Outcome, files: seq<File>): (r: Outcome)
    requires Shaped(p, o.d) && Sane(p) && o.blockNo < p.totalBlocks && forall i :: 0 <= i < |files| ==> FileOk(files[i])
    ensures Shaped(p, r.d)
    decreases |files|
  {
    if files == [] then o
    else
      var (t, more) := AddFile(p, o, files[0]);
      if more then AddFiles(p, t, files[1..]) else t
  }

  /** The empty directory of rcpmfs_initdir; title is the directory label of a CP/M 3 disc. */
  function Blank(p: Params, title: seq<byte>): (d: Disk)
    requires |title| == 32 && MaxDirent(p) > 0
    ensures Shaped(p, d)
  {
    var free := Slot(seq(32, i => FREE), "");
    if p.version < FSVERSION_CPM3 then Disk(seq(MaxDirent(p), i => free), 0)
    else
      Disk(seq(MaxDirent(p), i requires 0 <= i < MaxDirent(p) =>
        if i == 0 then Slot(title, ".") else if i % 4 == 3 then Slot([STAMPS] + seq(31, i => 0), "") else free), 1)
  }

  /** rcpmfs_readdir. */
  function ReadDir(p: Params, title: seq<byte>, files: seq<File>): (r: Outcome)
    requires Sane(p) && |title| == 32 && MaxDirent(p) > 0 && forall i :: 0 <= i < |files| ==> FileOk(files[i])
    ensures Shaped(p, r.d)
  {
    AddFiles(p, Outcome(Blank(p, title), p.dirBlocks, []), files)
  }

  // ---------------------------------------------------------------- what the directory records

  /** A grant is recorded: its slot is live, carries the name, the block and the extent number as far as
      the counter can tell it. */
  ghost predicate Recorded(p: Params, s: seq<Slot>, g: Grant)
    requires Sane(p)
  {
    && g.slot < |s| && Live(s[g.slot]) && s[g.slot].name == g.name && Spread(Fold(p)) > 0
    && Ptr(p, s[g.slot].bytes, g.index % BlocksPerExtent(p)) == g.block
    && Extent(p, s[g.slot].bytes) == g.index / BlocksPerExtent(p) % (256 * Spread(Fold(p)))
  }

  /** Every block number in a live slot is that of a grant. */
  ghost predicate Accounted(p: Params, s: seq<Slot>, gs: seq<Grant>, j: nat, nb: nat)
    requires j < |s| && nb < BlocksPerExtent(p)
  {
    Live(s[j]) && Ptr(p, s[j].bytes, nb) != 0 ==>
      exists i :: 0 <= i < |gs| && gs[i].slot == j && gs[i].index % BlocksPerExtent(p) == nb
  }

  /** The grants are recorded, in the order of their block numbers, and there is nothing else in the
      directory. */
  ghost predicate Settled(p: Params, s: seq<Slot>, gs: seq<Grant>, end: nat)
    requires Sane(p)
  {
    && (forall j :: 0 <= j < |s| ==> |s[j].bytes| == 32)
    && (forall i :: 0 <= i < |gs| ==> Recorded(p, s, gs[i]) && p.dirBlocks <= gs[i].block < end)
    && (forall i, k :: 0 <= i < k < |gs| ==> gs[i].block < gs[k].block)
    && (forall j, nb :: 0 <= j < |s| && 0 <= nb < BlocksPerExtent(p) ==> Accounted(p, s, gs, j, nb))
  }

  /** The state between two files. */
  ghost predicate Good(p: Params, o: Outcome)
    requires Sane(p)
  {
    && Shaped(p, o.d) && FreeFrom(o.d, o.d.dirent) && p.dirBlocks <= o.blockNo < p.totalBlocks
    && Settled(p, o.d.slots, o.grants, o.blockNo)
    && forall i :: 0 <= i < |o.grants| ==> o.grants[i].slot < o.d.dirent
  }

  lemma FreeNotLive(s: Slot, j: nat)
    requires FreeAt(s, j)
    ensures !Live(s)
  {
  }

  lemma GivenAt(p: Params, f: File, extent: nat, first: nat, n: nat, slot: nat, i: nat)
    requires FileOk(f) && i < |Given(p, f, extent, first, n, slot)| && n <= BlocksPerExtent(p)
    ensures var g := Given(p, f, extent, first, n, slot)[i];
      && f.head[0] < 16 && i < n && g.block == first + i && g.name == Clip(f.name) && g.slot == slot
      && g.index % BlocksPerExtent(p) == i && g.index / BlocksPerExtent(p) == extent
  {
  }

  lemma EntryHead(p: Params, f: File, extent: nat, rest: nat, first: nat, n: nat)
    requires FileOk(f) && Sane(p)
    ensures MakeEntry(p, f, extent, rest, first, n)[0] == f.head[0]
  {
  }

  /** The blocks just given are recorded by the new entry. */
  lemma NewRecorded(p: Params, s: seq<Slot>, f: File, extent: nat, rest: nat, first: nat, n: nat, slot: nat, i: nat)
    requires FileOk(f) && Sane(p) && n <= BlocksPerExtent(p) && first + n <= p.totalBlocks && slot < |s|
    requires s[slot] == Slot(MakeEntry(p, f, extent, rest, first, n), Clip(f.name))
    requires i < |Given(p, f, extent, first, n, slot)|
    ensures Recorded(p, s, Given(p, f, extent, first, n, slot)[i])
  {
    hide MakeEntry, Given, Ptr, Extent, Spread, Fold, Clip;
    GivenAt(p, f, extent, first, n, slot, i);
    EntryHead(p, f, extent, rest, first, n);
    EntryPointer(p, f, extent, rest, first, n, i);
    EntryExtent(p, f, extent, rest, first, n);
  }

  /** The new entry records no other blocks. */
  lemma NewAccounted(p: Params, s: seq<Slot>, f: File, extent: nat, rest: nat, first: nat, n: nat, slot: nat,
      gs: seq<Grant>, nb: nat)
    requires FileOk(f) && Sane(p) && n <= BlocksPerExtent(p) && first + n <= p.totalBlocks && slot < |s|
    requires s[slot] == Slot(MakeEntry(p, f, extent, rest, first, n), Clip(f.name)) && nb < BlocksPerExtent(p)
    ensures Accounted(p, s, gs + Given(p, f, extent, first, n, slot), slot, nb)
  {
    hide MakeEntry, Ptr, Clip;
    EntryHead(p, f, extent, rest, first, n);
    EntryPointer(p, f, extent, rest, first, n, nb);
    if f.head[0] < 16 && nb < n {
      GivenAt(p, f, extent, first, n, slot, nb);
      var all := gs + Given(p, f, extent, first, n, slot);
      assert all[|gs| + nb] == Given(p, f, extent, first, n, slot)[nb];
    }
  }

  /** A slot that is as before, or free before and after, is accounted for as before. */
  lemma OldAccounted(p: Params, s: seq<Slot>, t: seq<Slot>, gs: seq<Grant>, more: seq<Grant>, j: nat, nb: nat)
    requires |s| == |t| && j < |s| && nb < BlocksPerExtent(p) && Accounted(p, s, gs, j, nb)
    requires t[j] == s[j] || FreeAt(t[j], j)
    ensures Accounted(p, t, gs + more, j, nb)
  {
    if t[j] == s[j] && Live(s[j]) && Ptr(p, s[j].bytes, nb) != 0 {
      var i :| 0 <= i < |gs| && gs[i].slot == j && gs[i].index % BlocksPerExtent(p) == nb;
      assert (gs + more)[i] == gs[i];
    }
  }

  /** What adding the entry of an extent leaves behind. */
  ghost predicate Added(p: Params, o: Outcome, d: Disk, e: Slot) {
    && Shaped(p, d) && FreeFrom(d, d.dirent) && |d.slots| == |o.d.slots|
    && o.d.dirent < d.dirent <= |d.slots| && d.slots[d.dirent - 1] == e
    && forall j :: 0 <= j < |d.slots| && j != d.dirent - 1 ==>
         d.slots[j] == o.d.slots[j] || (j >= o.d.dirent && FreeAt(d.slots[j], j))
  }

  /** An extent that fits keeps the directory good. */
  lemma ExtentGood(p: Params, o: Outcome, f: File, extent: nat, rest: nat, n: nat, d: Disk)
    requires Sane(p) && Good(p, o) && FileOk(f) && n <= BlocksPerExtent(p) && o.blockNo + n < p.totalBlocks
    requires Added(p, o, d, Slot(MakeEntry(p, f, extent, rest, o.blockNo, n), Clip(f.name)))
    ensures Good(p, Outcome(d, o.blockNo + n, o.grants + Given(p, f, extent, o.blockNo, n, d.dirent - 1)))
  {
    hide MakeEntry, Given, Accounted, Recorded, FreeAt, Clip, BlocksPerExtent;
    var at := d.dirent - 1;
    var added := Given(p, f, extent, o.blockNo, n, at);
    var gs := o.grants + added;
    forall i | 0 <= i < |gs|
      ensures Recorded(p, d.slots, gs[i]) && p.dirBlocks <= gs[i].block < o.blockNo + n && gs[i].slot < d.dirent
    {
      if i < |o.grants| {
        assert Recorded(p, o.d.slots, gs[i]) && gs[i].slot < o.d.dirent;
        StillRecorded(p, o.d.slots, d.slots, gs[i]);
      } else {
        assert gs[i] == added[i - |o.grants|];
        GivenAt(p, f, extent, o.blockNo, n, at, i - |o.grants|);
        NewRecorded(p, d.slots, f, extent, rest, o.blockNo, n, at, i - |o.grants|);
      }
    }
    forall i, k | 0 <= i < k < |gs|
      ensures gs[i].block < gs[k].block
    {
      if k >= |o.grants| {
        assert gs[k] == added[k - |o.grants|];
        GivenAt(p, f, extent, o.blockNo, n, at, k - |o.grants|);
        if i >= |o.grants| {
          assert gs[i] == added[i - |o.grants|];
          GivenAt(p, f, extent, o.blockNo, n, at, i - |o.grants|);
        }
      }
    }
    forall j, nb | 0 <= j < |d.slots| && 0 <= nb < BlocksPerExtent(p)
      ensures Accounted(p, d.slots, gs, j, nb)
    {
      if j == at {
        NewAccounted(p, d.slots, f, extent, rest, o.blockNo, n, at, o.grants, nb);
      } else {
        assert Accounted(p, o.d.slots, o.grants, j, nb);
        OldAccounted(p, o.d.slots, d.slots, o.grants, added, j, nb);
      }
    }
  }

  lemma StillRecorded(p: Params, s: seq<Slot>, t: seq<Slot>, g: Grant)
    requires Sane(p) && Recorded(p, s, g) && g.slot < |t| && t[g.slot] == s[g.slot]
    ensures Recorded(p, t, g)
  {
  }

  lemma RecordedIn(p: Params, s: seq<Slot>, g: Grant)
    requires Sane(p) && Recorded(p, s, g)
    ensures g.slot < |s|
  {
  }

  ghost predicate SameBefore(s: seq<Slot>, t: seq<Slot>, n: nat) {
    |s| == |t| && forall j :: 0 <= j < |s| && j < n ==> t[j] == s[j]
  }

  /** Whatever happens to a file, the directory stays good unless the disc is full, and then the slots
      before those of the file are untouched and those after them are free. */
  lemma {:induction false} AddExtentsGood(p: Params, o: Outcome, f: File, extent: nat, blocks: nat, rest: nat,
      left: nat)
    requires Sane(p) && Good(p, o) && FileOk(f)
    ensures var r := AddExtents(p, o, f, extent, blocks, rest, left);
      && SameBefore(o.d.slots, r.d.slots, o.d.dirent) && FreeFrom(r.d, r.d.dirent)
      && (r.blockNo < p.totalBlocks ==> Good(p, r))
    decreases left
  {
    hide MakeEntry, Given, Settled, FreeAt, Clip, BlocksPerExtent, AddDirent, ExtentSize;
    if left > 0 {
      var n := Smaller(blocks, BlocksPerExtent(p));
      if o.blockNo + n < p.totalBlocks {
        var e := MakeEntry(p, f, extent, rest, o.blockNo, n);
        AddDirentSlot(p, o.d, e, f);
        var (d, ok) := AddDirent(p, o.d, e, f);
        if ok {
          ExtentGood(p, o, f, extent, rest, n, d);
          var g := Given(p, f, extent, o.blockNo, n, d.dirent - 1);
          AddExtentsGood(p, Outcome(d, o.blockNo + n, o.grants + g), f, extent + 1, blocks - n,
            rest - Smaller(rest, ExtentSize(p)), left - 1);
        } else {
          SettledLater(p, o.d.slots, o.grants, o.blockNo, o.blockNo + n);
        }
      }
    }
  }

  lemma SettledLater(p: Params, s: seq<Slot>, gs: seq<Grant>, end: nat, later: nat)
    requires Sane(p) && Settled(p, s, gs, end) && end <= later
    ensures Settled(p, s, gs, later)
  {
  }

  /** After the rollback the live entries are those of the grants before the file, and record them. */
  lemma RollBackSettled(p: Params, o: Outcome, t: Disk)
    requires Sane(p) && Good(p, o) && Shaped(p, t)
    requires SameBefore(o.d.slots, t.slots, o.d.dirent) && FreeFrom(t, t.dirent)
    ensures Settled(p, RollBack(t.slots, o.d.dirent, t.dirent), o.grants, o.blockNo)
  {
    hide Accounted, Recorded, BlocksPerExtent, RollBack, FreeAt, Live;
    var r := RollBack(t.slots, o.d.dirent, t.dirent);
    forall j | 0 <= j < |r|
      ensures |r[j].bytes| == 32 && (j < o.d.dirent ==> r[j] == o.d.slots[j]) && (j >= o.d.dirent ==> !Live(r[j]))
    {
      RolledSlot(p, t, o.d.dirent, j);
    }
    forall i | 0 <= i < |o.grants|
      ensures Recorded(p, r, o.grants[i])
    {
      RecordedIn(p, o.d.slots, o.grants[i]);
      StillRecorded(p, o.d.slots, r, o.grants[i]);
    }
    forall j, nb | 0 <= j < |r| && 0 <= nb < BlocksPerExtent(p)
      ensures Accounted(p, r, o.grants, j, nb)
    {
      assert Accounted(p, o.d.slots, o.grants, j, nb);
      RolledAccounted(p, o.d.slots, r, o.grants, j, nb);
    }
  }

  lemma RolledSlot(p: Params, t: Disk, n: nat, j: nat)
    requires Shaped(p, t) && FreeFrom(t, t.dirent) && j < |t.slots|
    ensures var r := RollBack(t.slots, n, t.dirent);
      |r[j].bytes| == 32 && (j < n ==> r[j] == t.slots[j]) && (j >= n ==> !Live(r[j]))
  {
    if j >= t.dirent {
      FreeNotLive(t.slots[j], j);
    }
  }

  lemma RolledAccounted(p: Params, s: seq<Slot>, t: seq<Slot>, gs: seq<Grant>, j: nat, nb: nat)
    requires |s| == |t| && j < |s| && nb < BlocksPerExtent(p) && Accounted(p, s, gs, j, nb)
    requires t[j] == s[j] || !Live(t[j])
    ensures Accounted(p, t, gs, j, nb)
  {
  }

  lemma AddFileSettled(p: Params, o: Outcome, f: File)
    requires Sane(p) && Good(p, o) && FileOk(f)
    ensures var (r, more) := AddFile(p, o, f);
      if more then Good(p, r) else Settled(p, r.d.slots, r.grants, r.blockNo) && r.blockNo < p.totalBlocks
  {
    hide Settled, FreeAt, RollBack, AddExtents;
    var t := AddExtents(p, o, f, 0, FileBlocks(p, f.size), f.size, FileEntries(p, f.size));
    AddExtentsGood(p, o, f, 0, FileBlocks(p, f.size), f.size, FileEntries(p, f.size));
    if t.blockNo >= p.totalBlocks {
      RollBackSettled(p, o, t.d);
    }
  }

  lemma {:induction false} AddFilesSettled(p: Params, o: Outcome, files: seq<File>)
    requires Sane(p) && Good(p, o) && forall i :: 0 <= i < |files| ==> FileOk(files[i])
    ensures var r := AddFiles(p, o, files); Settled(p, r.d.slots, r.grants, r.blockNo) && r.blockNo < p.totalBlocks
    decreases |files|
  {
    hide Settled, FreeAt, AddFile;
    if files != [] {
      AddFileSettled(p, o, files[0]);
      var (t, more) := AddFile(p, o, files[0]);
      if more {
        AddFilesSettled(p, t, files[1..]);
      }
    }
  }

  lemma BlankGood(p: Params, title: seq<byte>)
    requires Sane(p) && |title| == 32 && title[0] == 0x20 && MaxDirent(p) > 0
    ensures Good(p, Outcome(Blank(p, title), p.dirBlocks, []))
  {
    var s := Blank(p, title).slots;
    forall j, nb | 0 <= j < |s| && 0 <= nb < BlocksPerExtent(p)
      ensures Accounted(p, s, [], j, nb)
    {
      assert !Live(s[j]);
    }
  }

  /** Whatever files the directory is built from, it records exactly the blocks that were granted. */
  lemma ReadDirSettled(p: Params, title: seq<byte>, files: seq<File>)
    requires Sane(p) && |title| == 32 && title[0] == 0x20 && MaxDirent(p) > 0
    requires forall i :: 0 <= i < |files| ==> FileOk(files[i])
    ensures var r := ReadDir(p, title, files); Settled(p, r.d.slots, r.grants, r.blockNo) && r.blockNo < p.totalBlocks
  {
    BlankGood(p, title);
    AddFilesSettled(p, Outcome(Blank(p, title), p.dirBlocks, []), files);
  }
}
