/** The reverse CP/M driver as it runs: the chain of sector buffers that holds the directory, the name
    map, and the functions that change them (lib/libdsk/drvrcpm.c). */
module RcpmDriver {
  import opened Bits
  import opened Rcpm
  import opened RcpmAlloc
  import opened RcpmLookup

  datatype Err = ErrOk | ErrOverrun

  /** One element of the chain of sectors that do not come from files. */
  datatype Buffer = Buffer(lsect: nat, data: seq<byte>)

  function Blanks(n: nat): (b: seq<byte>)
    ensures |b| == n && forall i :: 0 <= i < n ==> b[i] == FREE
  {
    seq(n, i => FREE)
  }

  /** The contents of a sector: those of the first buffer for it, or blank. */
  function Sector(chain: seq<Buffer>, lsect: nat, size: nat): seq<byte> {
    if chain == [] then Blanks(size)
    else if chain[0].lsect == lsect then chain[0].data
    else Sector(chain[1..], lsect, size)
  }

  ghost predicate Uniform(chain: seq<Buffer>, size: nat) {
    forall i :: 0 <= i < |chain| ==> |chain[i].data| == size
  }

  lemma {:induction false} SectorSize(chain: seq<Buffer>, lsect: nat, size: nat)
    requires Uniform(chain, size)
    ensures |Sector(chain, lsect, size)| == size
  {
    if chain != [] && chain[0].lsect != lsect {
      SectorSize(chain[1..], lsect, size);
    }
  }

  /** The chain searched up to element k has nothing for the sector. */
  lemma {:induction false} SectorFrom(chain: seq<Buffer>, lsect: nat, size: nat, k: nat)
    requires k <= |chain| && forall i :: 0 <= i < k ==> chain[i].lsect != lsect
    ensures Sector(chain, lsect, size) == Sector(chain[k..], lsect, size)
  {
    if k > 0 {
      SectorFrom(chain[1..], lsect, size, k - 1);
      assert chain[1..][k - 1..] == chain[k..];
    } else {
      assert chain[0..] == chain;
    }
  }

  /** Replacing the first buffer for a sector, or adding one at the end when there is none. */
  lemma {:induction false} SectorReplaced(chain: seq<Buffer>, k: nat, data: seq<byte>, l: nat, size: nat)
    requires k < |chain| && forall i :: 0 <= i < k ==> chain[i].lsect != chain[k].lsect
    ensures Sector(chain[k := Buffer(chain[k].lsect, data)], l, size) ==
      if l == chain[k].lsect then data else Sector(chain, l, size)
  {
    var c := chain[k := Buffer(chain[k].lsect, data)];
    if k > 0 {
      SectorReplaced(chain[1..], k - 1, data, l, size);
      assert c[1..] == chain[1..][k - 1 := Buffer(chain[k].lsect, data)];
    } else {
      assert c[1..] == chain[1..];
    }
  }

  lemma ReplacedSet(chain: seq<Buffer>, k: nat, data: seq<byte>, size: nat)
    requires k < |chain| && forall i :: 0 <= i < k ==> chain[i].lsect != chain[k].lsect
    ensures SectorSet(chain, chain[k := Buffer(chain[k].lsect, data)], chain[k].lsect, data, size)
  {
    var c := chain[k := Buffer(chain[k].lsect, data)];
    forall l: nat
      ensures Sector(c, l, size) == if l == chain[k].lsect then data else Sector(chain, l, size)
    {
      SectorReplaced(chain, k, data, l, size);
    }
  }

  lemma AddedSet(chain: seq<Buffer>, lsect: nat, data: seq<byte>, size: nat)
    requires forall i :: 0 <= i < |chain| ==> chain[i].lsect != lsect
    ensures SectorSet(chain, chain + [Buffer(lsect, data)], lsect, data, size)
  {
    forall l: nat
      ensures Sector(chain + [Buffer(lsect, data)], l, size) == if l == lsect then data else Sector(chain, l, size)
    {
      SectorAdded(chain, lsect, data, l, size);
    }
  }

  lemma {:induction false} SectorAdded(chain: seq<Buffer>, lsect: nat, data: seq<byte>, l: nat, size: nat)
    requires forall i :: 0 <= i < |chain| ==> chain[i].lsect != lsect
    ensures Sector(chain + [Buffer(lsect, data)], l, size) == if l == lsect then data else Sector(chain, l, size)
  {
    var c := chain + [Buffer(lsect, data)];
    if chain != [] {
      SectorAdded(chain[1..], lsect, data, l, size);
      assert c[1..] == chain[1..] + [Buffer(lsect, data)];
    }
  }

  /** The chain is as before but for the contents of one sector. */
  ghost predicate SectorSet(before: seq<Buffer>, after: seq<Buffer>, lsect: nat, data: seq<byte>, size: nat) {
    forall l: nat :: Sector(after, l, size) == (if l == lsect then data else Sector(before, l, size))
  }

  function PerSector(p: Params): (n: nat)
    requires Sane(p)
    ensures n > 0 && 32 * n == p.secSize
  {
    p.secSize / 32
  }

  /** The sector that holds directory entry n. */
  function SectorOf(p: Params, n: nat): nat
    requires Sane(p)
  {
    n / PerSector(p)
  }

  /** Where in its sector a directory entry stands. */
  function EntryOffset(p: Params, n: nat): (o: nat)
    requires Sane(p)
    ensures o + 32 <= p.secSize
  {
    32 * (n % PerSector(p))
  }

  function Entry(data: seq<byte>, at: nat): (e: seq<byte>)
    requires at + 32 <= |data|
    ensures |e| == 32
  {
    data[at..at + 32]
  }

  /** The bytes of directory entry n. */
  ghost function EntryBytes(p: Params, chain: seq<Buffer>, n: nat): (e: seq<byte>)
    requires Sane(p) && Uniform(chain, p.secSize)
    ensures |e| == 32
  {
    SectorSize(chain, SectorOf(p, n), p.secSize);
    Entry(Sector(chain, SectorOf(p, n), p.secSize), EntryOffset(p, n))
  }

  lemma OverwrittenEntry(data: seq<byte>, at: nat, e: seq<byte>, x: nat)
    requires at + |e| <= |data| && x + 32 <= |data| && |e| == 32
    ensures x == at ==> Entry(Overwrite(data, at, e), x) == e
    ensures x + 32 <= at || at + 32 <= x ==> Entry(Overwrite(data, at, e), x) == Entry(data, x)
  {
  }

  /** Entries of one sector do not overlap, and different entries of one sector differ in place. */
  lemma EntryPlaces(p: Params, m: nat, n: nat)
    requires Sane(p) && SectorOf(p, m) == SectorOf(p, n) && m != n
    ensures EntryOffset(p, m) + 32 <= EntryOffset(p, n) || EntryOffset(p, n) + 32 <= EntryOffset(p, m)
  {
    DivMod(m, PerSector(p));
    DivMod(n, PerSector(p));
  }

  /** Writing back the sector of entry n with the entry patched in changes that entry only. */
  lemma EntryWritten(p: Params, chain: seq<Buffer>, after: seq<Buffer>, n: nat, e: seq<byte>, m: nat)
    requires Sane(p) && Uniform(chain, p.secSize) && Uniform(after, p.secSize) && |e| == 32
    requires |Sector(chain, SectorOf(p, n), p.secSize)| == p.secSize
    requires SectorSet(chain, after, SectorOf(p, n),
      Overwrite(Sector(chain, SectorOf(p, n), p.secSize), EntryOffset(p, n), e), p.secSize)
    ensures EntryBytes(p, after, m) == if m == n then e else EntryBytes(p, chain, m)
  {
    hide Sector, Sane, Overwrite, EntryOffset, PerSector, SectorOf, Entry, Uniform;
    var data := Sector(chain, SectorOf(p, n), p.secSize);
    SectorSize(chain, SectorOf(p, m), p.secSize);
    SectorSize(after, SectorOf(p, m), p.secSize);
    if m == n {
      OverwrittenEntry(data, EntryOffset(p, n), e, EntryOffset(p, n));
    } else if SectorOf(p, m) == SectorOf(p, n) {
      EntryPlaces(p, m, n);
      OverwrittenEntry(data, EntryOffset(p, n), e, EntryOffset(p, m));
    }
  }

  /** The directory that a chain and a name map stand for. */
  ghost function SlotsOf(p: Params, chain: seq<Buffer>, names: seq<string>): (s: seq<Slot>)
    requires Sane(p) && Uniform(chain, p.secSize)
    ensures |s| == |names|
  {
    seq(|names|, n requires 0 <= n < |names| => Slot(EntryBytes(p, chain, n), names[n]))
  }

  lemma SlotAt(p: Params, chain: seq<Buffer>, names: seq<string>, n: nat)
    requires Sane(p) && Uniform(chain, p.secSize) && n < |names|
    ensures SlotsOf(p, chain, names)[n] == Slot(EntryBytes(p, chain, n), names[n])
  {
  }

  lemma SlotWritten(p: Params, chain: seq<Buffer>, after: seq<Buffer>, names: seq<string>, n: nat, e: seq<byte>,
      name: string)
    requires Sane(p) && Uniform(chain, p.secSize) && Uniform(after, p.secSize) && |e| == 32 && n < |names|
    requires |Sector(chain, SectorOf(p, n), p.secSize)| == p.secSize
    requires SectorSet(chain, after, SectorOf(p, n),
      Overwrite(Sector(chain, SectorOf(p, n), p.secSize), EntryOffset(p, n), e), p.secSize)
    ensures SlotsOf(p, after, names[n := name]) == SlotsOf(p, chain, names)[n := Slot(e, name)]
  {
    hide EntryBytes, SectorSet, Overwrite, Sector, PerSector, SectorOf, EntryOffset, Sane, Uniform;
    var s, t := SlotsOf(p, chain, names)[n := Slot(e, name)], SlotsOf(p, after, names[n := name]);
    forall m | 0 <= m < |names|
      ensures t[m] == s[m]
    {
      EntryWritten(p, chain, after, n, e, m);
    }
  }

  lemma AddedBehind(p: Params, d: Disk, e: seq<byte>, f: File)
    requires Shaped(p, d) && |e| == 32 && FileOk(f)
    ensures var (r, ok) := AddDirent(p, d, e, f); ok ==> r.dirent > 0
  {
  }

  class Driver {
    const p: Params
    var bufHead: seq<Buffer>
    const nameMap: array<string>
    const sectorBuf: array<byte>
    var dirent: nat

    ghost predicate Valid()
      reads this`bufHead
    {
      && Sane(p) && nameMap.Length == MaxDirent(p) && sectorBuf.Length == p.secSize
      && Uniform(bufHead, p.secSize)
    }

    ghost function Slots(): (s: seq<Slot>)
      requires Valid()
      reads this`bufHead, nameMap
      ensures |s| == MaxDirent(p) && forall n :: 0 <= n < |s| ==> |s[n].bytes| == 32
    {
      SlotsOf(p, bufHead, nameMap[..])
    }

    ghost function Dir(): (d: Disk)
      requires Valid()
      reads this`bufHead, this`dirent, nameMap
      ensures Shaped(p, d)
    {
      Disk(Slots(), dirent)
    }

    /** Filling the sector buffer from the chain, or with 0xE5. */
    method LoadSector(lsect: nat)
      requires Valid()
      modifies sectorBuf
      ensures sectorBuf[..] == Sector(bufHead, lsect, p.secSize)
    {
      SectorSize(bufHead, lsect, p.secSize);
      forall i | 0 <= i < p.secSize {
        sectorBuf[i] := FREE;
      }
      var k := 0;
      while k < |bufHead|
        invariant 0 <= k <= |bufHead| && sectorBuf[..] == Blanks(p.secSize)
        invariant forall i :: 0 <= i < k ==> bufHead[i].lsect != lsect
      {
        if bufHead[k].lsect == lsect {
          SectorFrom(bufHead, lsect, p.secSize, k);
          forall i | 0 <= i < p.secSize {
            sectorBuf[i] := bufHead[k].data[i];
          }
          assert sectorBuf[..] == bufHead[k].data;
          return;
        }
        k := k + 1;
      }
      SectorFrom(bufHead, lsect, p.secSize, k);
      assert bufHead[k..] == [];
    }

    /** rcpmfs_read_dirent. */
    method ReadDirent(n: nat) returns (err: Err, entry: seq<byte>, realName: string)
      requires Valid()
      modifies sectorBuf
      ensures n >= MaxDirent(p) ==> err == ErrOverrun
      ensures n < MaxDirent(p) ==> err == ErrOk && Slot(entry, realName) == Slots()[n]
    {
      if n >= MaxDirent(p) {
        return ErrOverrun, [], "";
      }
      hide Sector, Sane, EntryOffset, PerSector, SectorOf, Uniform, Entry;
      LoadSector(SectorOf(p, n));
      SectorSize(bufHead, SectorOf(p, n), p.secSize);
      SlotAt(p, bufHead, nameMap[..], n);
      realName := nameMap[n];
      entry := Entry(sectorBuf[..], EntryOffset(p, n));
      err := ErrOk;
    }

    /** rcpmfs_writebuffer: replace the buffer of a sector, or add one at the tail of the chain. */
    method WriteBuffer(data: seq<byte>, lsect: nat)
      requires Valid() && |data| == p.secSize
      modifies this`bufHead
      ensures Valid() && SectorSet(old(bufHead), bufHead, lsect, data, p.secSize)
    {
      var k := 0;
      while k < |bufHead|
        invariant 0 <= k <= |bufHead| && bufHead == old(bufHead)
        invariant forall i :: 0 <= i < k ==> bufHead[i].lsect != lsect
      {
        if bufHead[k].lsect == lsect {
          ReplacedSet(bufHead, k, data, p.secSize);
          bufHead := bufHead[k := Buffer(lsect, data)];
          return;
        }
        k := k + 1;
      }
      AddedSet(bufHead, lsect, data, p.secSize);
      bufHead := bufHead + [Buffer(lsect, data)];
    }

    /** rcpmfs_write_dirent. */
    method WriteDirent(n: nat, entry: seq<byte>, realName: string) returns (err: Err)
      requires Valid() && |entry| == 32
      modifies this`bufHead, nameMap, sectorBuf
      ensures Valid()
      ensures n >= MaxDirent(p) ==> err == ErrOverrun && Slots() == old(Slots())
      ensures n < MaxDirent(p) ==> err == ErrOk && Slots() == old(Slots())[n := Slot(entry, Clip(realName))]
    {
      if n >= MaxDirent(p) {
        return ErrOverrun;
      }
      hide Sector, Sane, EntryOffset, PerSector, SectorOf, Overwrite, SectorSet, EntryBytes;
      ghost var was, names := bufHead, nameMap[..];
      SectorSize(bufHead, SectorOf(p, n), p.secSize);
      LoadSector(SectorOf(p, n));
      nameMap[n] := Clip(realName);
      var data := Overwrite(sectorBuf[..], EntryOffset(p, n), entry);
      WriteBuffer(data, SectorOf(p, n));
      SlotWritten(p, was, bufHead, names, n, entry, Clip(realName));
      assert nameMap[..] == names[n := Clip(realName)];
      err := ErrOk;
    }

    // -------------------------------------------------------------- building the directory

    /** rcpmfs_add_dirent. */
    method AddEntry(entry: seq<byte>, f: File) returns (err: Err)
      requires Valid() && |entry| == 32 && FileOk(f)
      modifies this`bufHead, this`dirent, nameMap, sectorBuf
      ensures Valid() && (Dir(), err == ErrOk) == AddDirent(p, old(Dir()), entry, f)
    {
      hide Sane, SlotsOf, Stamped, Clip, Stamper, Uniform;
      var ts, ignored;
      err, ts, ignored := ReadDirent(dirent);
      if err != ErrOk {
        return;
      }
      if ts[0] != FREE {
        dirent := dirent + 1;
        if dirent >= MaxDirent(p) {
          return ErrOverrun;
        }
      }
      err := PutEntry(entry, f);
    }

    /** The second half of rcpmfs_add_dirent: write the entry, and its stamps if there is room for them. */
    method PutEntry(entry: seq<byte>, f: File) returns (err: Err)
      requires Valid() && |entry| == 32 && FileOk(f) && dirent < MaxDirent(p)
      modifies this`bufHead, this`dirent, nameMap, sectorBuf
      ensures Valid()
      ensures old(Stamper(dirent) >= MaxDirent(p)) ==> err == ErrOverrun && Dir() == old(Dir())
      ensures old(Stamper(dirent) < MaxDirent(p)) ==>
                var at := old(dirent);
                var t := old(Slots())[Stamper(at)].bytes;
                var s := old(Slots())[at := Slot(entry, Clip(f.name))];
                && err == ErrOk && dirent == at + 1
                && Slots() == if t[0] == STAMPS then s[Stamper(at) := Slot(Stamped(t, at % 4, f.stamp), "")] else s
    {
      hide Sane, SlotsOf, Stamped, Stamper, Uniform;
      var ts, ignored;
      err, ts, ignored := ReadDirent(Stamper(dirent));
      if err != ErrOk {
        return;
      }
      err := WriteDirent(dirent, entry, f.name);
      if err != ErrOk {
        return;
      }
      if ts[0] == STAMPS {
        err := WriteDirent(Stamper(dirent), Stamped(ts, dirent % 4, f.stamp), "");
        if err != ErrOk {
          return;
        }
      }
      dirent := dirent + 1;
      err := ErrOk;
    }

    /** rcpmfs_initdir. title is the label entry of a CP/M 3 directory. */
    method InitDir(title: seq<byte>) returns (err: Err)
      requires Valid() && |title| == 32 && MaxDirent(p) > 0
      modifies this`bufHead, this`dirent, nameMap, sectorBuf
      ensures Valid() && err == ErrOk && Dir() == Blank(p, title)
    {
      hide Sane, SlotsOf;
      err := ErrOk;
      dirent := 0;
      var blank := seq(32, i => FREE);
      var n := MaxDirent(p);
      if p.version < FSVERSION_CPM3 {
        while n >= 1
          invariant 0 <= n <= MaxDirent(p) && Valid() && dirent == 0 && err == ErrOk
          invariant forall j :: n <= j < MaxDirent(p) ==> Slots()[j] == Blank(p, title).slots[j]
        {
          err := WriteDirent(n - 1, blank, "");
          n := n - 1;
        }
        assert Slots() == Blank(p, title).slots;
        return;
      }
      err := WriteDirent(dirent, title, ".");
      dirent := dirent + 1;
      n := MaxDirent(p) - 1;
      while n >= 1
        invariant 0 <= n < MaxDirent(p) && Valid() && dirent == 1 && err == ErrOk
        invariant Slots()[0] == Blank(p, title).slots[0]
        invariant forall j :: n < j < MaxDirent(p) ==> Slots()[j] == Blank(p, title).slots[j]
      {
        if n % 4 == 3 {
          err := WriteDirent(n, [STAMPS] + seq(31, i => 0), "");
        } else {
          err := WriteDirent(n, blank, "");
        }
        n := n - 1;
      }
      assert Slots() == Blank(p, title).slots;
    }

    /** The loop that numbers the blocks of one extent. It stops when the disc is full. */
    method NumberBlocks(entry: array<byte>, first: nat, n: nat) returns (blockNo: nat)
      requires Valid() && entry.Length == 32 && entry != sectorBuf && n <= BlocksPerExtent(p) && first < p.totalBlocks
      modifies entry
      ensures entry[..16] == old(entry[..16])
      ensures first + n < p.totalBlocks ==> blockNo == first + n && entry[16..] == Pointers(p, first, n)
      ensures first + n >= p.totalBlocks ==> blockNo == p.totalBlocks
    {
      hide Sane;
      SmallNumbers(p);
      forall i | 16 <= i < 32 {
        entry[i] := 0;
      }
      blockNo := first;
      var k := 0;
      assert entry[..16] == old(entry[..16]);
      while k < n
        invariant 0 <= k <= n && blockNo == first + k < p.totalBlocks
        invariant entry[..16] == old(entry[..16])
        invariant forall i :: 16 <= i < 32 ==> entry[i] == PointerByte(p, first, k, i - 16)
      {
        ghost var was := entry[..];
        PlacePointer(entry, blockNo, k);
        forall i | 16 <= i < 32
          ensures entry[i] == PointerByte(p, first, k + 1, i - 16)
        {
          assert was[i] == PointerByte(p, first, k, i - 16);
          ExtendPointers(p, first, k, i - 16);
        }
        blockNo := blockNo + 1;
        if blockNo >= p.totalBlocks {
          return;
        }
        k := k + 1;
      }
      assert entry[16..] == Pointers(p, first, n);
    }

    method PlacePointer(entry: array<byte>, blockNo: nat, k: nat)
      requires entry.Length == 32 && k < BlocksPerExtent(p) && blockNo < 0x1_0000
      modifies entry
      ensures entry[..16] == old(entry[..16])
      ensures forall i :: 16 <= i < 32 ==> entry[i] == Placed(p, old(entry[..])[i], blockNo, k, i - 16)
    {
      if BlocksPerExtent(p) == 16 {
        entry[16 + k] := blockNo % 256;
      } else {
        entry[16 + 2 * k] := blockNo % 256;
        entry[17 + 2 * k] := blockNo / 256;
      }
    }

    /** One extent: number its blocks, fill in the rest of the entry and add it to the directory. */
    method AddExtent(entry: array<byte>, f: File, first: nat, extent: nat, rest: nat, n: nat)
      returns (blockNo: nat, added: bool)
      requires Valid() && FileOk(f) && entry.Length == 32 && entry != sectorBuf && entry[..12] == f.head
      requires n <= BlocksPerExtent(p) && first < p.totalBlocks
      modifies this`bufHead, this`dirent, nameMap, sectorBuf, entry
      ensures Valid() && entry[..12] == f.head && (added ==> dirent > 0)
      ensures first + n >= p.totalBlocks ==> blockNo == p.totalBlocks && !added && Dir() == old(Dir())
      ensures first + n < p.totalBlocks ==>
                && blockNo == first + n
                && (Dir(), added) == AddDirent(p, old(Dir()), MakeEntry(p, f, extent, rest, first, n), f)
    {
      hide Sane, SlotsOf, AddDirent, Pointers, Uniform;
      blockNo := NumberBlocks(entry, first, n);
      assert entry[..12] == entry[..16][..12];
      if blockNo >= p.totalBlocks {
        added := false;
        return;
      }
      var len := Smaller(rest, ExtentSize(p));
      ExtentByte(p, extent, (len + 127) / 16384);
      entry[12] := (extent * Fold(p)) % 32 + ((len + 127) / 16384) % Fold(p);
      entry[13] := if p.version == FSVERSION_ISX then (128 - rest % 128) % 128 else rest % 128;
      entry[14] := (extent * Fold(p)) / 32 % 256;
      entry[15] := (len + 127) / 128 % 256;
      assert entry[..] == MakeEntry(p, f, extent, rest, first, n);
      AddedBehind(p, Dir(), entry[..], f);
      var err := AddEntry(entry[..], f);
      added := err == ErrOk;
    }

    /** The loop over the extents of a file. */
    method AddHostExtents(f: File, first: nat, ghost gs: seq<Grant>) returns (blockNo: nat, ghost hs: seq<Grant>)
      requires Valid() && FileOk(f) && first < p.totalBlocks
      modifies this`bufHead, this`dirent, nameMap, sectorBuf
      ensures Valid()
      ensures Outcome(Dir(), blockNo, hs) ==
        AddExtents(p, Outcome(old(Dir()), first, gs), f, 0, FileBlocks(p, f.size), f.size, FileEntries(p, f.size))
    {
      hide Sane, SlotsOf, AddDirent, MakeEntry, Given, Uniform, FileBlocks, FileEntries, ExtentSize, BlocksPerExtent;
      var entry := new byte[32];
      forall i | 0 <= i < 12 {
        entry[i] := f.head[i];
      }
      assert entry[..12] == f.head;
      var blocks: nat, rest: nat, left: nat, extent: nat := FileBlocks(p, f.size), f.size, FileEntries(p, f.size), 0;
      blockNo, hs := first, gs;
      ghost var goal := AddExtents(p, Outcome(Dir(), first, gs), f, 0, blocks, rest, left);
      while left != 0
        invariant Valid() && entry[..12] == f.head && blockNo < p.totalBlocks
        invariant AddExtents(p, Outcome(Dir(), blockNo, hs), f, extent, blocks, rest, left) == goal
        decreases left
      {
        var n := Smaller(blocks, BlocksPerExtent(p));
        var added;
        ghost var at := blockNo;
        blockNo, added := AddExtent(entry, f, blockNo, extent, rest, n);
        if blockNo >= p.totalBlocks || !added {
          break;
        }
        hs := hs + Given(p, f, extent, at, n, dirent - 1);
        rest := rest - Smaller(rest, ExtentSize(p));
        extent := extent + 1;
        left := left - 1;
        blocks := blocks - n;
      }
    }

    /** The rollback of a file that did not fit. */
    method RollBackFile(from: nat)
      requires Valid() && dirent <= MaxDirent(p)
      modifies this`bufHead, nameMap, sectorBuf
      ensures Valid() && Slots() == RollBack(old(Slots()), from, dirent)
    {
      hide Sane, SlotsOf, Uniform, RollBack;
      var n := from;
      ghost var was := Slots();
      NothingRolled(was, from);
      while n < dirent
        invariant Valid() && from <= n && Slots() == RollBack(was, from, n)
        invariant n <= dirent || n == from
      {
        var err, entry, name := ReadDirent(n);
        RollOne(was, from, n);
        if entry[0] < 16 {
          err := WriteDirent(n, entry[0 := FREE], "");
        }
        n := n + 1;
      }
      if from > dirent {
        NothingBetween(was, from, dirent);
      }
    }

    /** One host file: its extents, and the rollback when the disc is full. */
    method AddHostFile(f: File, first: nat, ghost gs: seq<Grant>) returns (blockNo: nat, more: bool,
        ghost hs: seq<Grant>)
      requires Valid() && FileOk(f) && first < p.totalBlocks && dirent <= MaxDirent(p)
      modifies this`bufHead, this`dirent, nameMap, sectorBuf
      ensures Valid() && dirent <= MaxDirent(p)
      ensures (Outcome(Dir(), blockNo, hs), more) == AddFile(p, Outcome(old(Dir()), first, gs), f)
    {
      hide Sane, SlotsOf, Uniform, RollBack, AddExtents, FileBlocks, FileEntries;
      var rollback, rollblock := dirent, first;
      blockNo, hs := AddHostExtents(f, first, gs);
      more := true;
      if blockNo >= p.totalBlocks {
        RollBackFile(rollback);
        blockNo, hs, more := rollblock, gs, false;
        dirent := rollback;
      }
    }

    /** rcpmfs_readdir, on the host files in the order they are found. */
    method ReadHostDir(title: seq<byte>, files: seq<File>) returns (ghost gs: seq<Grant>)
      requires Valid() && |title| == 32 && MaxDirent(p) > 0 && forall i :: 0 <= i < |files| ==> FileOk(files[i])
      modifies this`bufHead, this`dirent, nameMap, sectorBuf
      ensures Valid() && Dir() == ReadDir(p, title, files).d && gs == ReadDir(p, title, files).grants
    {
      hide SlotsOf, Uniform, Blank, AddFile;
      var err := InitDir(title);
      var blockNo: nat := p.dirBlocks;
      BlankRoom(p, title);
      gs := [];
      var i, more := 0, true;
      ghost var goal := ReadDir(p, title, files);
      assert files[0..] == files;
      while i < |files| && more
        invariant Valid() && 0 <= i <= |files| && dirent <= MaxDirent(p)
        invariant more ==> blockNo < p.totalBlocks && AddFiles(p, Outcome(Dir(), blockNo, gs), files[i..]) == goal
        invariant !more ==> Outcome(Dir(), blockNo, gs) == goal
      {
        assert files[i..][1..] == files[i + 1..];
        blockNo, more, gs := AddHostFile(files[i], blockNo, gs);
        i := i + 1;
      }
      assert more ==> files[i..] == [];
    }

    // -------------------------------------------------------------- looking up a block

    /** The loop of rcpmfs_lookup over the block pointers of an entry. */
    method FindBlock(entry: seq<byte>, block: nat) returns (found: bool, dirOffs: nat)
      requires |entry| == 32
      ensures found == FindPtr(p, entry, block, 0).Some?
      ensures found ==> dirOffs == FindPtr(p, entry, block, 0).value * p.blockSize
    {
      hide BlocksPerExtent;
      dirOffs := 0;
      var nb := 0;
      BoundedExtent(p);
      while nb < BlocksPerExtent(p)
        invariant 0 <= nb <= BlocksPerExtent(p) && dirOffs == nb * p.blockSize
        invariant FindPtr(p, entry, block, nb) == FindPtr(p, entry, block, 0)
      {
        if Ptr(p, entry, nb) == block {
          return true, dirOffs;
        }
        OneLess(nb + 1, p.blockSize);
        nb := nb + 1;
        dirOffs := dirOffs + p.blockSize;
      }
      found := false;
    }

    /** rcpmfs_lookup. */
    method LookupBlock(block: nat) returns (found: bool, entry: seq<byte>, dirOffs: nat, name: string)
      requires Valid()
      modifies sectorBuf
      ensures match Lookup(p, Slots(), 0, block)
              case None => !found
              case Some(x) => found && Slot(entry, name) == Slots()[x.0] && dirOffs == x.1 * p.blockSize
    {
      hide Sane, SlotsOf, Uniform, FindPtr;
      var n := 0;
      while n < MaxDirent(p)
        invariant 0 <= n <= MaxDirent(p) && Lookup(p, Slots(), n, block) == Lookup(p, Slots(), 0, block)
      {
        var err;
        err, entry, name := ReadDirent(n);
        if entry[0] <= 0x0F {
          found, dirOffs := FindBlock(entry, block);
          if found {
            return;
          }
        }
        n := n + 1;
      }
      found, entry, dirOffs, name := false, [], 0, "";
    }

    /** rcpmfs_psfind2, without the size of the part of the sector that belongs to the file. */
    method FindSector(lsect: nat) returns (found: bool, name: string, offset: int)
      requires Valid()
      modifies sectorBuf
      ensures match PsFind(p, Slots(), lsect)
              case None => !found
              case Some(x) => found && name == x.0 && offset == x.1
    {
      hide SlotsOf, Uniform, Lookup, ExtentSize, SecPerBlock, Fold;
      name, offset := "", 0;
      var blockNo := lsect / SecPerBlock(p);
      var blockOffs := (lsect - blockNo * SecPerBlock(p)) * p.secSize;
      var entry, dirOffs;
      found, entry, dirOffs, name := LookupBlock(blockNo);
      if !found {
        return;
      }
      var extent := Extent(p, entry);
      offset := dirOffs;
      offset := offset + blockOffs;
      offset := offset + ExtentSize(p) * extent;
    }

    constructor (params: Params)
      requires Sane(params)
      ensures Valid() && p == params && bufHead == [] && fresh(nameMap) && fresh(sectorBuf)
    {
      p := params;
      bufHead := [];
      dirent := 0;
      nameMap := new string[MaxDirent(params)];
      sectorBuf := new byte[params.secSize];
    }
  }

  lemma BoundedExtent(p: Params)
    ensures BlocksPerExtent(p) <= 16
  {
  }

  lemma BlankRoom(p: Params, title: seq<byte>)
    requires |title| == 32 && MaxDirent(p) > 0
    ensures Blank(p, title).dirent <= MaxDirent(p)
  {
  }

  lemma NothingRolled(s: seq<Slot>, from: nat)
    requires forall j :: 0 <= j < |s| ==> |s[j].bytes| == 32
    ensures RollBack(s, from, from) == s
  {
  }

  lemma NothingBetween(s: seq<Slot>, from: nat, end: nat)
    requires (forall j :: 0 <= j < |s| ==> |s[j].bytes| == 32) && from > end
    ensures RollBack(s, from, end) == RollBack(s, from, from)
  {
  }

  lemma RollOne(s: seq<Slot>, from: nat, n: nat)
    requires (forall j :: 0 <= j < |s| ==> |s[j].bytes| == 32) && from <= n < |s|
    ensures var t := RollBack(s, from, n);
      && t[n] == s[n]
      && RollBack(s, from, n + 1) == if s[n].bytes[0] < 16 then t[n := Slot(s[n].bytes[0 := FREE], "")] else t
  {
  }

  lemma SmallNumbers(p: Params)
    requires Sane(p)
    ensures p.totalBlocks <= 0x1_0000
  {
  }

  /** Byte i of a pointer area when pointer k is set to a block number. */
  function Placed(p: Params, was: byte, block: nat, k: nat, i: nat): byte
    requires block < 0x1_0000
  {
    if BlocksPerExtent(p) == 16 && i == k then block % 256
    else if BlocksPerExtent(p) == 8 && i == 2 * k then block % 256
    else if BlocksPerExtent(p) == 8 && i == 2 * k + 1 then block / 256
    else was
  }

  /** One more block fills in its own pointer bytes only. */
  lemma ExtendPointers(p: Params, first: nat, k: nat, i: nat)
    requires k < BlocksPerExtent(p) && first + k < 0x1_0000 && i < 16
    ensures PointerByte(p, first, k + 1, i) == Placed(p, PointerByte(p, first, k, i), first + k, k, i)
  {
  }
}
