/** Complete exchanges with the floppy controller, with any run of ticks between the bytes
    (lib/lib765/765fdc.c). */
module FdcExchange {
  import opened Bits
  import opened Fdc
  import opened FdcStatus

  // ---------------------------------------------------------------- the host's side

  function Ticks(s: Chip, n: nat): (r: Chip)
    requires Sound(s)
    ensures Sound(r)
    decreases n
  {
    if n == 0 then s else Ticks(Tick(s), n - 1)
  }

  /** Writing bytes to the data register, gaps[i] ticks before byte i; None if a byte is one the
      controller cannot take. */
  function Send(s: Chip, bytes: seq<byte>, gaps: seq<nat>): (r: Option<Chip>)
    requires Sound(s) && |gaps| == |bytes|
    ensures r.Some? ==> Sound(r.value)
    decreases |bytes|
  {
    if bytes == [] then Some(s)
    else
      var t := Ticks(s, gaps[0]);
      if CanPut(t, bytes[0]) then Send(WriteData(t, bytes[0]), bytes[1..], gaps[1..]) else None
  }

  /** Reading |gaps| bytes from the data register. */
  function Receive(s: Chip, gaps: seq<nat>): (r: Option<(Chip, seq<int>)>)
    requires Sound(s)
    ensures r.Some? ==> Sound(r.value.0)
    decreases |gaps|
  {
    if gaps == [] then Some((s, []))
    else
      var t := Ticks(s, gaps[0]);
      if !CanGet(t) then None
      else
        var (u, v) := ReadData(t);
        match Receive(u, gaps[1..])
        case None => None
        case Some(x) => Some((x.0, [v] + x.1))
  }

  lemma {:induction false} SendSplit(s: Chip, a: seq<byte>, b: seq<byte>, g: seq<nat>, h: seq<nat>)
    requires Sound(s) && |g| == |a| && |h| == |b| && Send(s, a, g).Some?
    ensures Send(s, a + b, g + h) == Send(Send(s, a, g).value, b, h)
    decreases |a|
  {
    hide WriteData, CanPut, Ticks;
    if a == [] {
      assert a + b == b && g + h == h;
    } else {
      assert (a + b)[1..] == a[1..] + b && (g + h)[1..] == g[1..] + h;
      SendSplit(WriteData(Ticks(s, g[0]), a[0]), a[1..], b, g[1..], h);
    }
  }

  // ---------------------------------------------------------------- the phases

  ghost predicate Idle(s: Chip) {
    Sound(s) && s.mainStat == 0x80 && s.cmdId < 0
  }

  /** Everything but the clock. */
  ghost predicate SameButClock(s: Chip, t: Chip) {
    t == s.(countdown := t.countdown)
  }

  lemma {:induction false} TicksKeep(s: Chip, n: nat)
    requires Sound(s)
    ensures SameButClock(s, Ticks(s, n))
    decreases n
  {
    if n > 0 {
      TicksKeep(Tick(s), n - 1);
    }
  }

  /** k bytes of the nine-byte command c have been taken. */
  ghost predicate Collecting(s: Chip, base: Chip, c: seq<byte>, k: nat) {
    && Sound(s) && |c| == 9 && 1 <= k <= 8
    && s.mainStat == 0x90 && s.cmdId >= 0 && s.cmdPos == k - 1 && s.cmdLen == 9 - k && s.cmd[..k] == c[..k]
    && s.drives == base.drives && s.dor == base.dor
  }

  lemma FirstByte(s: Chip, c: seq<byte>, gap: nat)
    requires Idle(s) && |c| == 9 && BytesInCmd(c[0] % 32) == 9
    ensures var t := Ticks(s, gap); CanPut(t, c[0]) && Collecting(WriteData(t, c[0]), s, c, 1)
  {
    hide Ticks, Execute;
    TicksKeep(s, gap);
  }

  lemma NextByte(s: Chip, base: Chip, c: seq<byte>, k: nat, gap: nat)
    requires Collecting(s, base, c, k) && k < 8
    ensures var t := Ticks(s, gap); CanPut(t, c[k]) && Collecting(WriteData(t, c[k]), base, c, k + 1)
  {
    hide Ticks, Execute;
    TicksKeep(s, gap);
    var t := Ticks(s, gap);
    var u := WriteData(t, c[k]);
    assert u.cmd == t.cmd[k := c[k]];
    assert u.cmd[..k + 1] == t.cmd[..k] + [c[k]];
    assert c[..k + 1] == c[..k] + [c[k]];
  }

  /** All nine bytes are there, and the command is about to be executed. */
  ghost predicate Complete(s: Chip, base: Chip, c: seq<byte>) {
    && Sound(s) && |c| == 9 && s.cmd[..9] == c && s.mainStat == 0x90 && s.cmdId >= 0 && s.cmdLen == 0
    && s.drives == base.drives && s.dor == base.dor
  }

  /** A command with its last byte added. */
  function Filled(t: Chip, v: byte): (u: Chip)
    requires Sound(t) && 0 <= t.cmdPos < 19
    ensures Sound(u)
  {
    ClearPending(t).(cmdPos := t.cmdPos + 1, cmd := t.cmd[t.cmdPos + 1 := v], cmdLen := 0)
  }

  lemma Executes(t: Chip, v: byte)
    requires Sound(t) && t.mainStat == 0x90 && t.cmdId >= 0 && t.cmdLen == 1 && 0 <= t.cmdPos < 19
    ensures Executable(Filled(t, v)) ==> CanPut(t, v) && WriteData(t, v) == Execute(Filled(t, v))
  {
    hide Execute, Executable;
    ExecutableSame(t.(cmd := Filled(t, v).cmd), Filled(t, v));
  }

  lemma LastByte(s: Chip, base: Chip, c: seq<byte>, gap: nat) returns (u: Chip)
    requires Collecting(s, base, c, 8)
    ensures Complete(u, base, c)
    ensures var t := Ticks(s, gap); Executable(u) ==> CanPut(t, c[8]) && WriteData(t, c[8]) == Execute(u)
  {
    hide Ticks, Execute, Executable, WriteData, CanPut;
    TicksKeep(s, gap);
    var t := Ticks(s, gap);
    u := Filled(t, c[8]);
    assert u.cmd[..9] == t.cmd[..8] + [c[8]];
    assert c == c[..8] + [c[8]];
    Executes(t, c[8]);
  }

  lemma ExecutableSame(s: Chip, t: Chip)
    requires Sound(s) && Sound(t) && s.cmd == t.cmd
    ensures Executable(s) == Executable(t)
  {
  }

  lemma {:induction false} SendRest(s: Chip, base: Chip, c: seq<byte>, k: nat, gaps: seq<nat>) returns (u: Chip)
    requires Collecting(s, base, c, k) && |gaps| == 9 - k
    ensures Complete(u, base, c)
    ensures Executable(u) ==> Send(s, c[k..], gaps) == Some(Execute(u))
    decreases 9 - k
  {
    hide Ticks, Execute, Executable, WriteData, CanPut, Collecting, Complete;
    assert 1 <= k <= 8 && |c| == 9 && Sound(s) by {
      CollectingRange(s, base, c, k);
    }
    assert c[k..][1..] == c[k + 1..];
    if k == 8 {
      u := LastByte(s, base, c, gaps[0]);
    } else {
      NextByte(s, base, c, k, gaps[0]);
      u := SendRest(WriteData(Ticks(s, gaps[0]), c[k]), base, c, k + 1, gaps[1..]);
    }
  }

  lemma CollectingRange(s: Chip, base: Chip, c: seq<byte>, k: nat)
    requires Collecting(s, base, c, k)
    ensures 1 <= k <= 8 && |c| == 9 && Sound(s)
  {
  }

  /** The controller takes exactly nine command bytes, and then executes the command. */
  lemma SendCommand(s: Chip, c: seq<byte>, gaps: seq<nat>) returns (u: Chip)
    requires Idle(s) && |c| == 9 && BytesInCmd(c[0] % 32) == 9 && |gaps| == 9
    ensures Complete(u, s, c)
    ensures Executable(u) ==> Send(s, c, gaps) == Some(Execute(u))
  {
    hide Ticks, Execute, Executable, WriteData, CanPut, Collecting, Complete, BytesInCmd;
    FirstByte(s, c, gaps[0]);
    u := SendRest(WriteData(Ticks(s, gaps[0]), c[0]), s, c, 1, gaps[1..]);
  }

  // ---------------------------------------------------------------- the result phase

  /** i of the seven result bytes res have been read. */
  ghost predicate Reporting(s: Chip, res: seq<int>, i: nat, drives: seq<Drive>) {
    && Sound(s) && |res| == 7 && i < 7 && s.mainStat == 0xD0 && s.resultPos == i && s.resultLen == 7 - i
    && s.result[..7] == res && s.drives == drives
  }

  lemma ResultByte(s: Chip, res: seq<int>, i: nat, drives: seq<Drive>, gap: nat)
    requires Reporting(s, res, i, drives)
    ensures var t := Ticks(s, gap);
      && CanGet(t) && ReadData(t).1 == res[i]
      && if i < 6 then Reporting(ReadData(t).0, res, i + 1, drives)
         else Idle(ReadData(t).0) && ReadData(t).0.drives == drives
  {
    hide Ticks;
    TicksKeep(s, gap);
    var t := Ticks(s, gap);
    assert t.result[i] == t.result[..7][i];
  }

  lemma {:induction false} ReceiveResults(s: Chip, res: seq<int>, i: nat, drives: seq<Drive>, gaps: seq<nat>)
    requires Reporting(s, res, i, drives) && |gaps| == 7 - i
    ensures var r := Receive(s, gaps);
      r.Some? && r.value.1 == res[i..] && Idle(r.value.0) && r.value.0.drives == drives
    decreases 7 - i
  {
    hide Ticks, CanGet, ReadData, Reporting, Idle;
    ReportingRange(s, res, i, drives);
    ResultByte(s, res, i, drives, gaps[0]);
    var u := ReadData(Ticks(s, gaps[0])).0;
    if i < 6 {
      ReceiveResults(u, res, i + 1, drives, gaps[1..]);
    } else {
      assert Receive(u, []) == Some((u, []));
      assert gaps[1..] == [];
    }
  }

  lemma ReportingRange(s: Chip, res: seq<int>, i: nat, drives: seq<Drive>)
    requires Reporting(s, res, i, drives)
    ensures Sound(s) && |res| == 7 && i < 7
  {
  }

  // ---------------------------------------------------------------- READ DATA

  /** The drive a command addresses. */
  function Addressed(s: Chip, c: seq<byte>): Drive
    requires Sound(s) && |c| >= 2
  {
    s.drives[if s.dor < 0 then c[1] % 4 else s.dor % 4]
  }

  function SideOf(c: seq<byte>): int
    requires |c| == 9
  {
    c[1] / 4 % 2
  }

  /** The bytes of count sectors, from the one the command names on. */
  function SectorsData(d: Drive, cmd: seq<byte>, side: int, count: nat, deleted: int): (r: seq<byte>)
    requires |cmd| >= 9
    decreases count
  {
    if count == 0 then []
    else
      var reply := Answer(d, cmd, side, deleted);
      Fit(reply.data, ReadLen(cmd)) + SectorsData(d, NextSector(cmd), side, count - 1, reply.deleted)
  }

  /** No sector fails with anything worse than a data error. */
  predicate AllSoft(d: Drive, cmd: seq<byte>, side: int, count: nat, deleted: int)
    requires |cmd| >= 9
    decreases count
  {
    count > 0 ==>
      var reply := Answer(d, cmd, side, deleted);
      !Hard(reply.err) && AllSoft(d, NextSector(cmd), side, count - 1, reply.deleted)
  }

  /** What the read loop leaves alone. */
  ghost predicate SameDrives(s: Chip, t: Chip) {
    s.drives == t.drives && s.dorDrive == t.dorDrive && s.unit == t.unit && s.side == t.side && s.dor == t.dor
  }

  lemma TakeSectorFacts(s: Chip, reply: Reply)
    requires Sound(s) && 0 <= s.execLen && s.execLen + ReadLen(s.cmd) <= EXEC_SIZE
    ensures var t := TakeSector(s, reply); var n := ReadLen(s.cmd);
      && SameDrives(s, t) && t.exec[..s.execLen + n] == s.exec[..s.execLen] + Fit(reply.data, n)
  {
    hide ReadLen, Fit, SetBit, ClearBit;
    var n := ReadLen(s.cmd);
    var e := Overwrite(s.exec, s.execLen, Fit(reply.data, n));
    assert e[..s.execLen + n] == s.exec[..s.execLen] + Fit(reply.data, n);
  }

  /** What the loop of fdc_read has done when it stops: the buffer has got the sectors one after the
      other, unless one failed. */
  ghost predicate ReadDone(s: Chip, r: ReadOutcome, count: nat, deleted: int)
    requires Sound(s)
  {
    && Sound(r.chip) && SameDrives(s, r.chip) && (Hard(r.err) <==> !AllSoft(CurDrive(s), s.cmd, s.side, count, deleted))
    && r.chip.cmd[..4] == s.cmd[..4] && r.chip.cmd[5..] == s.cmd[5..]
    && (!Hard(r.err) ==> Delivered(s, r.chip, SectorsData(CurDrive(s), s.cmd, s.side, count, deleted), count))
  }

  /** The bytes x, of count sectors, have been put behind those already in the buffer. */
  ghost predicate Delivered(s: Chip, t: Chip, x: seq<byte>, count: nat)
    requires Sound(s) && Sound(t)
  {
    && |x| == count * ReadLen(s.cmd) && 0 <= s.execLen && s.execLen + |x| <= EXEC_SIZE && t.execLen == s.execLen + |x|
    && t.exec[..t.execLen] == s.exec[..s.execLen] + x && t.cmd[4] == (s.cmd[4] + count) % 256
  }

  lemma {:induction false} ReadSectorsData(s: Chip, count: nat, deleted: int, err: DriveErr)
    requires Sound(s) && Room(s.execLen, count, ReadLen(s.cmd)) && !Hard(err)
    ensures ReadDone(s, ReadSectors(s, count, deleted, err), count, deleted)
    decreases count
  {
    hide TakeSector, Answer, ReadLen, Fit, ReadDone, Hard, Sound;
    if count == 0 {
      NothingRead(s, err, deleted);
    } else {
      SoundExec(s);
      var n := ReadLen(s.cmd);
      RoomStep(s.execLen, count, n);
      var reply := Answer(CurDrive(s), s.cmd, s.side, deleted);
      var t := TakeSector(s, reply);
      NextSectorFacts(s.cmd);
      if Hard(reply.err) {
        FirstFails(s, t, reply, count, deleted);
      } else {
        var u := t.(execLen := t.execLen + n, cmd := NextSector(t.cmd));
        StillSound(t, u);
        ReadSectorsData(u, count - 1, reply.deleted, reply.err);
        ReadJoins(s, u, ReadSectors(u, count - 1, reply.deleted, reply.err), count, deleted);
      }
    }
  }

  lemma StillSound(t: Chip, u: Chip)
    requires Sound(t) && |u.cmd| == 20 && u == t.(execLen := u.execLen, cmd := u.cmd)
    ensures Sound(u)
  {
  }

  lemma NothingRead(s: Chip, err: DriveErr, deleted: int)
    requires Sound(s) && Room(s.execLen, 0, ReadLen(s.cmd)) && !Hard(err)
    ensures ReadDone(s, ReadOutcome(s, err), 0, deleted)
  {
    hide ReadLen;
  }

  lemma FirstFails(s: Chip, t: Chip, reply: Reply, count: nat, deleted: int)
    requires Sound(s) && Room(s.execLen, count, ReadLen(s.cmd)) && count > 0
    requires 0 <= s.execLen && s.execLen + ReadLen(s.cmd) <= EXEC_SIZE
    requires reply == Answer(CurDrive(s), s.cmd, s.side, deleted) && Hard(reply.err) && t == TakeSector(s, reply)
    ensures ReadDone(s, ReadOutcome(t, reply.err), count, deleted)
  {
    hide TakeSector, Answer, ReadLen, Delivered;
    TakeSectorFacts(s, reply);
  }

  lemma ReadJoins(s: Chip, u: Chip, r: ReadOutcome, count: nat, deleted: int)
    requires Sound(s) && Room(s.execLen, count, ReadLen(s.cmd)) && count > 0
    requires 0 <= s.execLen && s.execLen + ReadLen(s.cmd) <= EXEC_SIZE
    requires var reply := Answer(CurDrive(s), s.cmd, s.side, deleted); var t := TakeSector(s, reply);
      && !Hard(reply.err) && u == t.(execLen := t.execLen + ReadLen(s.cmd), cmd := NextSector(t.cmd))
      && Sound(u) && ReadDone(u, r, count - 1, reply.deleted)
    ensures ReadDone(s, r, count, deleted)
  {
    hide TakeSector, Answer, ReadLen, Fit, Hard, Delivered;
    var reply := Answer(CurDrive(s), s.cmd, s.side, deleted);
    TakeSectorFacts(s, reply);
    NextSectorFacts(s.cmd);
    if !Hard(r.err) {
      DeliveredJoins(s, u, r.chip, Fit(reply.data, ReadLen(s.cmd)),
        SectorsData(CurDrive(u), u.cmd, u.side, count - 1, reply.deleted), count);
    }
  }

  lemma DeliveredJoins(s: Chip, u: Chip, t: Chip, x: seq<byte>, y: seq<byte>, count: nat)
    requires Sound(s) && Sound(u) && Sound(t) && count > 0 && Delivered(u, t, y, count - 1)
    requires 0 <= s.execLen && u.execLen == s.execLen + |x| && |x| == ReadLen(s.cmd) == ReadLen(u.cmd)
    requires u.exec[..u.execLen] == s.exec[..s.execLen] + x && u.cmd[4] == (s.cmd[4] as int + 1) % 256
    ensures Delivered(s, t, x + y, count)
  {
    hide ReadLen, Sound;
    SoundExec(s);
    SoundExec(u);
    SoundExec(t);
    OneMoreSector(count, |x|);
    NextNumber(s.cmd[4], u.cmd[4], count);
    Assoc(s.exec[..s.execLen], x, y);
  }

  lemma SoundExec(s: Chip)
    requires Sound(s)
    ensures |s.exec| == EXEC_SIZE && |s.cmd| == 20
  {
  }

  lemma OneMoreSector(count: nat, n: nat)
    requires count > 0
    ensures count * n == (count - 1) * n + n
  {
  }

  lemma NextSectorFacts(cmd: seq<byte>)
    requires |cmd| >= 9
    ensures var r := NextSector(cmd);
      r[..4] == cmd[..4] && r[5..] == cmd[5..] && ReadLen(r) == ReadLen(cmd) && r[4] == (cmd[4] as int + 1) % 256
  {
  }

  // ---------------------------------------------------------------- a whole READ DATA

  /** What is asked of the drive depends on the nine command bytes only. */
  lemma {:induction false} SameAsk(d: Drive, cmd: seq<byte>, c: seq<byte>, side: int, count: nat, deleted: int)
    requires |c| == 9 && |cmd| >= 9 && cmd[..9] == c
    ensures ReadLen(cmd) == ReadLen(c) && SectorCount(cmd) == SectorCount(c) && WriteLen(cmd) == WriteLen(c)
    ensures SectorsData(d, cmd, side, count, deleted) == SectorsData(d, c, side, count, deleted)
    ensures AllSoft(d, cmd, side, count, deleted) == AllSoft(d, c, side, count, deleted)
    ensures Replies(d, cmd, side, count, deleted) == Replies(d, c, side, count, deleted)
    decreases count
  {
    assert forall i :: 0 <= i < 9 ==> cmd[i] == cmd[..9][i];
    if count > 0 {
      assert Answer(d, cmd, side, deleted) == Answer(d, c, side, deleted);
      assert NextSector(cmd)[..9] == NextSector(c);
      SameAsk(d, NextSector(cmd), NextSector(c), side, count - 1, Answer(d, cmd, side, deleted).deleted);
    }
  }

  /** i of the bytes x have been handed to the host, and the results res wait behind them. */
  ghost predicate Sending(s: Chip, x: seq<byte>, i: nat, res: seq<int>, drives: seq<Drive>) {
    && Sound(s) && |res| == 7 && i < |x| <= EXEC_SIZE && s.mainStat == 0xF0 && s.execPos == i && s.execLen == |x| - i
    && s.exec[..|x|] == x && s.result[..7] == res && s.drives == drives && s.cmd[0] % 32 in {6, 12}
  }

  lemma DataByte(s: Chip, x: seq<byte>, i: nat, res: seq<int>, drives: seq<Drive>, gap: nat)
    requires Sending(s, x, i, res, drives)
    ensures var t := Ticks(s, gap);
      && CanGet(t) && ReadData(t).1 == x[i]
      && if i + 1 < |x| then Sending(ReadData(t).0, x, i + 1, res, drives) else Reporting(ReadData(t).0, res, 0, drives)
  {
    hide Ticks, Pow2, WriteEnd;
    TicksKeep(s, gap);
    var t := Ticks(s, gap);
    assert t.exec[i] == t.exec[..|x|][i];
  }

  lemma {:induction false} ReceiveData(s: Chip, x: seq<byte>, i: nat, res: seq<int>, drives: seq<Drive>, gaps: seq<nat>)
    requires Sending(s, x, i, res, drives) && |gaps| == |x| - i
    ensures var r := Receive(s, gaps);
      r.Some? && r.value.1 == x[i..] && Reporting(r.value.0, res, 0, drives)
    decreases |x| - i
  {
    hide Ticks, CanGet, ReadData, Reporting, Sending;
    SendingRange(s, x, i, res, drives);
    DataByte(s, x, i, res, drives, gaps[0]);
    var u := ReadData(Ticks(s, gaps[0])).0;
    if i + 1 < |x| {
      ReceiveData(u, x, i + 1, res, drives, gaps[1..]);
    } else {
      ReportingRange(u, res, 0, drives);
      assert Receive(u, []) == Some((u, []));
      assert gaps[1..] == [];
    }
  }

  lemma SendingRange(s: Chip, x: seq<byte>, i: nat, res: seq<int>, drives: seq<Drive>)
    requires Sending(s, x, i, res, drives)
    ensures Sound(s) && |res| == 7 && i < |x| <= EXEC_SIZE
  {
  }

  /** The chip on which execution of a complete command starts. */
  lemma Starts(u: Chip, s: Chip, c: seq<byte>) returns (t: Chip)
    requires Complete(u, s, c) && Executable(u) && Sound(s)
    ensures Sound(t) && t.cmd == u.cmd && t.drives == s.drives && t.dor == s.dor
    ensures t.dorDrive == if s.dor < 0 then [0, 1, 2, 3] else [s.dor % 4, s.dor % 4, s.dor % 4, s.dor % 4]
    ensures t.cmd[0] == c[0] && Executable(t)
    ensures c[0] % 32 == 5 ==> Execute(u) == WriteCmd(t, 0)
    ensures c[0] % 32 == 6 ==> Execute(u) == ReadCmd(t, 0)
    ensures c[0] % 32 == 9 ==> Execute(u) == WriteCmd(t, 1)
    ensures c[0] % 32 == 12 ==> Execute(u) == ReadCmd(t, 1)
  {
    hide WriteCmd, ReadCmd, SenseInt, SenseDrive, SeekTo, InvalidCommand, ClearBit, ReadLen, WriteLen;
    var d := DorCheck(u);
    t := d.(st0 := ClearBit(d.st0, 64));
    assert u.cmd[0] == u.cmd[..9][0];
  }

  /** What READ DATA does once its nine bytes are there. */
  lemma ReadStarts(t: Chip, s: Chip, c: seq<byte>, deleted: int) returns (res: seq<int>)
    requires Sound(s) && Sound(t) && |c| == 9 && t.cmd[..9] == c && t.drives == s.drives && t.dor == s.dor
    requires t.dorDrive == if s.dor < 0 then [0, 1, 2, 3] else [s.dor % 4, s.dor % 4, s.dor % 4, s.dor % 4]
    requires c[0] % 32 in {6, 12} && t.cmd[0] == c[0] && Room(0, SectorCount(c), ReadLen(c))
    requires SectorCount(c) > 0 && ReadLen(c) > 0
    ensures Room(0, SectorCount(t.cmd), ReadLen(t.cmd))
    ensures var d := Addressed(s, c); var n := SectorCount(c); var x := SectorsData(d, c, SideOf(c), n, deleted);
      if AllSoft(d, c, SideOf(c), n, deleted)
      then Sending(ReadCmd(t, deleted), x, 0, res, s.drives) && |x| == n * ReadLen(c)
      else Reporting(ReadCmd(t, deleted), res, 0, s.drives)
    ensures res == ReadResults(c, Replies(Addressed(s, c), c, SideOf(c), SectorCount(c), deleted))
  {
    hide ReadLen, SectorCount, SectorsData, AllSoft, ReadSectors, Answer, Hard, Room, Replies, Errors, Marked;
    hide Passed, Stat0, Stat1, Stat2, Failed, Sending, Reporting, GetDrive, FreshStatus, Results7;
    var d, n := Addressed(s, c), SectorCount(c);
    SameAsk(d, t.cmd, c, SideOf(c), n, deleted);
    var v := ReadPrepared(t, s, c);
    SoftOk();
    ReadSectorsData(v, n, deleted, EOk);
    ReadStatus(v, c, n, deleted);
    SameAsk(d, v.cmd, c, SideOf(c), n, deleted);
    Positive(n, ReadLen(c));
    var o := ReadSectors(v, n, deleted, EOk);
    res := EndOfRead(v, c, o, n, deleted);
  }

  lemma ReadPrepared(t: Chip, s: Chip, c: seq<byte>) returns (v: Chip)
    requires Sound(s) && Sound(t) && |c| == 9 && t.cmd[..9] == c && t.drives == s.drives && t.dor == s.dor
    requires t.dorDrive == if s.dor < 0 then [0, 1, 2, 3] else [s.dor % 4, s.dor % 4, s.dor % 4, s.dor % 4]
    ensures v == GetDrive(FreshStatus(t).(lastId := 0)).(execLen := 0) && Sound(v) && v.cmd == t.cmd
    ensures CurDrive(v) == Addressed(s, c) && v.side == SideOf(c) && v.drives == s.drives
    ensures v.st0 == c[1] % 8 && v.st1 == 0 && v.st2 == 0 && v.execLen == 0
  {
    assert t.cmd[1] == t.cmd[..9][1];
    v := GetDrive(FreshStatus(t).(lastId := 0)).(execLen := 0);
  }

  /** What follows the loop of fdc_read. */
  lemma EndOfRead(v: Chip, c: seq<byte>, o: ReadOutcome, n: nat, deleted: int) returns (res: seq<int>)
    requires Sound(v) && |c| == 9 && v.cmd[..9] == c && c[0] % 32 in {6, 12} && v.execLen == 0
    requires 0 < n * ReadLen(c) && ReadLen(v.cmd) == ReadLen(c) && ReadDone(v, o, n, deleted)
    requires SectorsData(CurDrive(v), v.cmd, v.side, n, deleted) == SectorsData(CurDrive(v), c, v.side, n, deleted)
    ensures Sound(o.chip) && |res| == 7
    ensures var t := Results7(o.chip); var x := SectorsData(CurDrive(v), c, v.side, n, deleted);
      if Hard(o.err)
      then Reporting(ResultInterrupt(t.(mainStat := 0xD0, resultPos := 0, resultLen := 7)), res, 0, v.drives)
      else |x| == n * ReadLen(c) && Sending(ExecInterrupt(t).(mainStat := 0xF0, execPos := 0), x, 0, res, v.drives)
    ensures res == [o.chip.st0, o.chip.st1, o.chip.st2, c[2], c[3], o.chip.cmd[4], c[5]]
  {
    hide ReadLen, SectorsData, AllSoft, Hard;
    var x := SectorsData(CurDrive(v), c, v.side, n, deleted);
    assert forall i :: 0 <= i < 9 ==> v.cmd[i] == v.cmd[..9][i];
    assert forall i :: 0 <= i < 4 ==> o.chip.cmd[i] == o.chip.cmd[..4][i];
    assert o.chip.cmd[5] == o.chip.cmd[5..][0];
    assert v.exec[..0] + x == x;
    res := Results7(o.chip).result[..7];
  }

  lemma ReadStatus(v: Chip, c: seq<byte>, n: nat, deleted: int)
    requires Sound(v) && |c| == 9 && v.cmd[..9] == c && Room(v.execLen, n, ReadLen(v.cmd))
    requires v.st0 == c[1] % 8 && v.st1 == 0 && v.st2 == 0
    ensures var t := ReadSectors(v, n, deleted, EOk).chip; var rs := Replies(CurDrive(v), c, v.side, n, deleted);
      t.st0 == Stat0(c[1] % 8, Errors(rs)) && t.st1 == Stat1(Errors(rs)) && t.st2 == Stat2(Errors(rs), Marked(rs))
        && t.cmd[4] as int == (c[4] + Passed(rs)) % 256
  {
    hide ReadLen, ReadSectors, Answer, Room, Failed, Stat0, Stat1, Stat2, Passed, Replies;
    NothingShown(v, c[1] % 8);
    assert Errors([]) == [] && !Marked([]);
    ReadSectorsTold(v, n, deleted, EOk, c[1] % 8, []);
    SameAsk(CurDrive(v), v.cmd, c, v.side, n, deleted);
    assert v.cmd[4] == v.cmd[..9][4];
    assert [] + Replies(CurDrive(v), c, v.side, n, deleted) == Replies(CurDrive(v), c, v.side, n, deleted);
  }

  /** The answers all come with their data exactly if none fails; then there is one to a sector. */
  lemma {:induction false} RepliesSoft(d: Drive, cmd: seq<byte>, side: int, count: nat, deleted: int)
    requires |cmd| >= 9
    ensures var rs := Replies(d, cmd, side, count, deleted);
      && (AllSoft(d, cmd, side, count, deleted) <==> !Failed(Errors(rs)))
      && (AllSoft(d, cmd, side, count, deleted) ==> Passed(rs) == count)
    decreases count
  {
    hide Answer, Hard, Failed, NextSector;
    if count == 0 {
      NoneFailed();
    } else {
      var reply := Answer(d, cmd, side, deleted);
      if Hard(reply.err) {
        OneFailed(reply.err);
        assert [reply] + [] == [reply];
        assert Errors([reply]) == [reply.err];
      } else {
        var qs := Replies(d, NextSector(cmd), side, count - 1, reply.deleted);
        RepliesSoft(d, NextSector(cmd), side, count - 1, reply.deleted);
        assert Errors([reply] + qs) == [reply.err] + Errors(qs);
        FailedFirst(reply.err, Errors(qs));
      }
    }
  }

  lemma NoneFailed()
    ensures !Failed([]) && Errors([]) == []
  {
  }

  lemma FailedFirst(e: DriveErr, es: seq<DriveErr>)
    requires !Hard(e)
    ensures Failed([e] + es) <==> Failed(es)
  {
    var fs := [e] + es;
    assert forall i :: 0 <= i < |es| ==> fs[i + 1] == es[i];
    if Failed(fs) {
      var i :| 0 <= i < |fs| && Hard(fs[i]);
      assert fs[i] == es[i - 1];
    }
    if Failed(es) {
      var i :| 0 <= i < |es| && Hard(es[i]);
      assert Hard(fs[i + 1]);
    }
  }

  lemma SoftOk()
    ensures !Hard(EOk)
  {
  }

  lemma Positive(a: nat, b: nat)
    requires a > 0 && b > 0
    ensures a * b > 0
  {
  }

  /** A complete READ DATA (or READ DELETED DATA) exchange from idle, with any number of ticks before
      each byte: nine command bytes; then, unless a sector fails for good or the drive is not ready,
      exactly the bytes of the sectors R to EOT; then seven result bytes, which tell what the drive
      answered and where it stopped; and the controller is idle. */
  lemma ReadExchange(s: Chip, c: seq<byte>, g: seq<nat>, h: seq<nat>, k: seq<nat>)
    requires Idle(s) && |c| == 9 && c[0] % 32 in {6, 12} && |g| == 9 && |k| == 7
    requires SectorCount(c) > 0 && 0 < ReadLen(c) && SectorCount(c) * ReadLen(c) <= EXEC_SIZE
    requires |h| == SectorCount(c) * ReadLen(c)
    ensures var deleted := if c[0] % 32 == 12 then 1 else 0;
      var d := Addressed(s, c);
      var rs := Replies(d, c, SideOf(c), SectorCount(c), deleted);
      var a := Send(s, c, g);
      && a.Some?
      && if !Failed(Errors(rs))
         then
           var b := Receive(a.value, h);
           && a.value.mainStat == 0xF0 && b.Some? && Passed(rs) == SectorCount(c)
           && b.value.1 == SectorsData(d, c, SideOf(c), SectorCount(c), deleted) && b.value.0.mainStat == 0xD0
           && Reports(b.value.0, k, ReadResults(c, rs), s.drives)
         else a.value.mainStat == 0xD0 && Reports(a.value, k, ReadResults(c, rs), s.drives)
  {
    hide Send, Receive, Idle, SectorsData, AllSoft, ReadLen, SectorCount, Sending, Reporting, Sound;
    hide Addressed, SideOf, Replies, Errors, Failed, Passed, ReadResults, Reports;
    IdleSound(s);
    var res := ReadBegins(s, c, g);
    var d, n, deleted := Addressed(s, c), SectorCount(c), if c[0] % 32 == 12 then 1 else 0;
    RepliesSoft(d, c, SideOf(c), n, deleted);
    if AllSoft(d, c, SideOf(c), n, deleted) {
      DataFollow(Send(s, c, g).value, SectorsData(d, c, SideOf(c), n, deleted), res, s.drives, h, k);
    } else {
      ReportingReports(Send(s, c, g).value, res, s.drives, k);
    }
  }

  /** The data and then the results. */
  lemma DataFollow(a: Chip, x: seq<byte>, res: seq<int>, drives: seq<Drive>, h: seq<nat>, k: seq<nat>)
    requires Sending(a, x, 0, res, drives) && |h| == |x| && |k| == 7
    ensures Sound(a) && a.mainStat == 0xF0
    ensures var b := Receive(a, h);
      && b.Some? && b.value.1 == x && b.value.0.mainStat == 0xD0 && Reports(b.value.0, k, res, drives)
  {
    hide Receive, Sending, Reporting, Reports;
    SendingStat(a, x, res, drives);
    ReceiveData(a, x, 0, res, drives, h);
    assert x[0..] == x;
    ReportingReports(Receive(a, h).value.0, res, drives, k);
  }

  /** The nine bytes of a READ DATA: the controller goes on to the data, or to the results. */
  lemma ReadBegins(s: Chip, c: seq<byte>, g: seq<nat>) returns (res: seq<int>)
    requires Idle(s) && |c| == 9 && c[0] % 32 in {6, 12} && |g| == 9
    requires SectorCount(c) > 0 && 0 < ReadLen(c) && SectorCount(c) * ReadLen(c) <= EXEC_SIZE
    ensures var deleted := if c[0] % 32 == 12 then 1 else 0;
      var d, n := Addressed(s, c), SectorCount(c); var x := SectorsData(d, c, SideOf(c), n, deleted);
      && Send(s, c, g).Some?
      && res == ReadResults(c, Replies(d, c, SideOf(c), n, deleted))
      && if AllSoft(d, c, SideOf(c), n, deleted)
         then Sending(Send(s, c, g).value, x, 0, res, s.drives) && |x| == n * ReadLen(c)
         else Reporting(Send(s, c, g).value, res, 0, s.drives)
  {
    hide Send, Execute, Executable, Idle, Complete, ReadCmd, SectorsData, AllSoft, ReadLen, SectorCount, Sending;
    hide Reporting;
    hide Addressed, SideOf, Replies, ReadResults;
    var deleted := if c[0] % 32 == 12 then 1 else 0;
    IdleSound(s);
    var u := SendCommand(s, c, g);
    CompleteFacts(u, s, c);
    ReadExecutable(u, c);
    var t := Starts(u, s, c);
    res := ReadStarts(t, s, c, deleted);
  }

  /** Seven bytes read from s, after any ticks, are res, and leave the controller idle over the drives. */
  ghost predicate Reports(s: Chip, k: seq<nat>, res: seq<int>, drives: seq<Drive>)
    requires Sound(s)
  {
    var e := Receive(s, k);
    e.Some? && Idle(e.value.0) && e.value.0.drives == drives && e.value.1 == res
  }

  lemma ReportingReports(s: Chip, res: seq<int>, drives: seq<Drive>, k: seq<nat>)
    requires Reporting(s, res, 0, drives) && |k| == 7
    ensures Sound(s) && s.mainStat == 0xD0 && Reports(s, k, res, drives)
  {
    hide Receive, Idle, Reporting;
    ReportingStat(s, res, drives);
    ReceiveResults(s, res, 0, drives, k);
    assert res[0..] == res;
  }

  lemma IdleSound(s: Chip)
    requires Idle(s)
    ensures Sound(s)
  {
  }

  lemma CompleteFacts(u: Chip, s: Chip, c: seq<byte>)
    requires Complete(u, s, c)
    ensures Sound(u) && u.cmd[..9] == c
  {
  }

  lemma ReadExecutable(u: Chip, c: seq<byte>)
    requires Sound(u) && |c| == 9 && u.cmd[..9] == c && c[0] % 32 in {6, 12}
    requires SectorCount(c) * ReadLen(c) <= EXEC_SIZE
    ensures Executable(u) && Room(0, SectorCount(c), ReadLen(c))
  {
    hide ReadLen, SectorCount;
    assert u.cmd[0] == u.cmd[..9][0];
    SameAsk(u.drives[0], u.cmd, c, 0, 0, 0);
  }

  lemma SendingStat(s: Chip, x: seq<byte>, res: seq<int>, drives: seq<Drive>)
    requires Sending(s, x, 0, res, drives)
    ensures Sound(s) && s.mainStat == 0xF0
  {
  }

  lemma ReportingStat(s: Chip, res: seq<int>, drives: seq<Drive>)
    requires Reporting(s, res, 0, drives)
    ensures Sound(s) && s.mainStat == 0xD0 && |res| == 7
  {
  }
}
