/** Complete WRITE DATA, SEEK and SENSE INTERRUPT STATUS exchanges with the floppy controller
    (lib/lib765/765fdc.c). */
module FdcWrite {
  import opened Bits
  import opened Fdc
  import opened FdcStatus
  import opened FdcExchange

  /** i of the n bytes of a sector have come from the host. */
  ghost predicate Filling(s: Chip, base: Chip, c: seq<byte>, data: seq<byte>, i: nat, deleted: int) {
    && Sound(s) && Sound(base) && |c| == 9 && i < |data| <= EXEC_SIZE && |data| == WriteLen(c)
    && s.mainStat == 0xB0 && s.execPos == i && s.execLen == |data| - i && s.exec[..i] == data[..i]
    && s.cmd[..9] == c && c[0] % 32 in {5, 9} && s.writeDeleted == deleted && s.side == SideOf(c)
    && s.drives == base.drives && CurDrive(s) == Addressed(base, c) && s.dorDrive[s.unit] == DriveIndex(base, c)
    && s.st0 == c[1] % 8 && s.st1 == 0 && s.st2 == 0
  }

  /** The seven result bytes of a WRITE DATA that the drive answers with e. */
  function WriteResults(c: seq<byte>, e: DriveErr): (r: seq<int>)
    requires |c| == 9
    ensures |r| == 7
  {
    [Stat0(c[1] % 8, [e]), Stat1([e]), Stat2([e], false), c[2], c[3], c[4], c[5]]
  }

  /** What the disc says to the sector written. */
  function WriteAnswer(s: Chip, c: seq<byte>, deleted: int, data: seq<byte>): DriveErr
    requires Sound(s) && |c| == 9
  {
    var d := Addressed(s, c);
    d.medium.write(d.log, d.cylinder, Handed(c, deleted, data))
  }

  /** Which of the four drives a command addresses. */
  function DriveIndex(s: Chip, c: seq<byte>): (i: int)
    requires Sound(s) && |c| == 9
    ensures 0 <= i < 4 && s.drives[i] == Addressed(s, c)
  {
    if s.dor < 0 then c[1] % 4 else s.dor % 4
  }

  /** What WRITE DATA hands to the drive. */
  function Handed(c: seq<byte>, deleted: int, data: seq<byte>): Write
    requires |c| == 9
  {
    Write(Ask(c, SideOf(c), WriteLen(c), deleted), data)
  }

  function AfterWrite(s: Chip, c: seq<byte>, deleted: int, data: seq<byte>): seq<Drive>
    requires Sound(s) && |c| == 9
  {
    var d := Addressed(s, c);
    s.drives[DriveIndex(s, c) := d.(log := d.log + [Handed(c, deleted, data)])]
  }

  lemma HostByte(s: Chip, base: Chip, c: seq<byte>, data: seq<byte>, i: nat, deleted: int, gap: nat)
    requires Filling(s, base, c, data, i, deleted) && i + 1 < |data|
    ensures var t := Ticks(s, gap); CanPut(t, data[i]) && Filling(WriteData(t, data[i]), base, c, data, i + 1, deleted)
  {
    hide Ticks, WriteLen, EndExec;
    TicksKeep(s, gap);
    var t := Ticks(s, gap);
    SameAsk(base.drives[0], t.cmd, c, 0, 0, 0);
    assert t.cmd[0] == t.cmd[..9][0];
    var u := WriteData(t, data[i]);
    assert u.exec[..i + 1] == t.exec[..i] + [data[i]];
    assert data[..i + 1] == data[..i] + [data[i]];
  }

  lemma LastHostByte(s: Chip, base: Chip, c: seq<byte>, data: seq<byte>, i: nat, deleted: int, gap: nat)
    returns (res: seq<int>)
    requires Filling(s, base, c, data, i, deleted) && i + 1 == |data|
    ensures var t := Ticks(s, gap);
      CanPut(t, data[i]) && Reporting(WriteData(t, data[i]), res, 0, AfterWrite(base, c, deleted, data))
    ensures res == WriteResults(c, WriteAnswer(base, c, deleted, data))
  {
    hide Ticks, WriteLen, WriteEnd, AfterExecByte, Reporting;
    TicksKeep(s, gap);
    var t := Ticks(s, gap);
    SameAsk(base.drives[0], t.cmd, c, 0, 0, 0);
    assert t.cmd[0] == t.cmd[..9][0];
    var v := ClearPending(t);
    var w := v.(exec := v.exec[i := data[i]], execPos := i + 1, execLen := 0);
    assert w.exec[..i + 1] == t.exec[..i] + [data[i]];
    assert data == data[..i] + [data[i]];
    res := EndOfWrite(w.(mainStat := 0xD0, resultPos := 0), base, c, data, deleted);
    AfterLastByte(w, res, AfterWrite(base, c, deleted, data));
  }

  lemma AfterLastByte(w: Chip, res: seq<int>, drives: seq<Drive>)
    requires Sound(w) && w.execLen == 0 && w.cmd[0] % 32 in {5, 9} && WriteLen(w.cmd) <= EXEC_SIZE
    requires Reporting(WriteEnd(w.(mainStat := 0xD0, resultPos := 0)).(resultLen := 7), res, 0, drives)
    ensures Reporting(AfterExecByte(w), res, 0, drives)
  {
    hide WriteLen, WriteEnd;
  }

  /** fdc_write_end hands the drive the bytes in the buffer. */
  lemma EndOfWrite(w: Chip, base: Chip, c: seq<byte>, data: seq<byte>, deleted: int) returns (res: seq<int>)
    requires Sound(w) && Sound(base) && |c| == 9 && w.cmd[..9] == c && w.writeDeleted == deleted && w.side == SideOf(c)
    requires |data| == WriteLen(c) <= EXEC_SIZE && w.exec[..|data|] == data && w.resultPos == 0
    requires w.drives == base.drives && w.dorDrive[w.unit] == DriveIndex(base, c)
    requires w.st0 == c[1] % 8 && w.st1 == 0 && w.st2 == 0
    ensures WriteLen(w.cmd) <= EXEC_SIZE
      && Reporting(WriteEnd(w).(resultLen := 7), res, 0, AfterWrite(base, c, deleted, data))
    ensures res == WriteResults(c, WriteAnswer(base, c, deleted, data))
  {
    hide WriteLen, SetBit, Pow2, XltError, Stat0, Stat1, Stat2, Failed;
    SameAsk(base.drives[0], w.cmd, c, 0, 0, 0);
    OneShown(SetDrive(w, CurDrive(w).(log := CurDrive(w).log + [Handed(c, deleted, data)])), c[1] % 8,
      WriteAnswer(base, c, deleted, data));
    assert forall i :: 0 <= i < 9 ==> w.cmd[i] == w.cmd[..9][i];
    assert Ask(w.cmd, w.side, WriteLen(c), deleted) == Ask(c, w.side, WriteLen(c), deleted);
    res := WriteEnd(w).result[..7];
  }

  lemma OneShown(s: Chip, x: int, e: DriveErr)
    requires Sound(s) && 0 <= x < 8 && s.st0 == x && s.st1 == 0 && s.st2 == 0
    ensures var t := XltError(s, e);
      Shows(t, x, [e], false) && t == s.(st0 := t.st0, st1 := t.st1, st2 := t.st2)
  {
    hide XltError, Shows;
    ErrorKeeps(s, e);
    NothingShown(s, x);
    ErrorShown(s, x, [], false, e);
    assert [] + [e] == [e];
  }

  lemma {:induction false} SendData(s: Chip, base: Chip, c: seq<byte>, data: seq<byte>, i: nat, deleted: int,
      gaps: seq<nat>)
    returns (res: seq<int>)
    requires Filling(s, base, c, data, i, deleted) && |gaps| == |data| - i
    ensures var r := Send(s, data[i..], gaps);
      r.Some? && Reporting(r.value, res, 0, AfterWrite(base, c, deleted, data))
    ensures res == WriteResults(c, WriteAnswer(base, c, deleted, data))
    decreases |data| - i
  {
    hide Ticks, CanPut, WriteData, Reporting, Filling, AfterWrite;
    FillingRange(s, base, c, data, i, deleted);
    assert data[i..][1..] == data[i + 1..];
    if i + 1 < |data| {
      HostByte(s, base, c, data, i, deleted, gaps[0]);
      res := SendData(WriteData(Ticks(s, gaps[0]), data[i]), base, c, data, i + 1, deleted, gaps[1..]);
    } else {
      res := LastHostByte(s, base, c, data, i, deleted, gaps[0]);
      var u := WriteData(Ticks(s, gaps[0]), data[i]);
      assert data[i + 1..] == [] && gaps[1..] == [];
      assert Send(u, [], []) == Some(u);
    }
  }

  lemma FillingRange(s: Chip, base: Chip, c: seq<byte>, data: seq<byte>, i: nat, deleted: int)
    requires Filling(s, base, c, data, i, deleted)
    ensures Sound(s) && Sound(base) && |c| == 9 && i < |data| <= EXEC_SIZE
  {
  }

  /** The registers when WRITE DATA has been started or refused. */
  lemma WriteOutcome(t: Chip, s: Chip, c: seq<byte>, deleted: int) returns (res: seq<int>)
    requires Sound(s) && Sound(t) && |c| == 9 && t.cmd[1] == c[1] && t.drives == s.drives && t.dor == s.dor
    requires t.dorDrive == if s.dor < 0 then [0, 1, 2, 3] else [s.dor % 4, s.dor % 4, s.dor % 4, s.dor % 4]
    requires 0 < WriteLen(t.cmd) <= EXEC_SIZE
    ensures var d := Addressed(s, c); var u := WriteCmd(t, deleted);
      if d.ready && !d.readOnly
      then
        && u.mainStat == 0xB0 && u.execPos == 0 && u.execLen == WriteLen(t.cmd) && u.cmd == t.cmd
        && u.writeDeleted == deleted && u.side == SideOf(c) && u.drives == s.drives && u.exec[..0] == []
        && u.dorDrive[u.unit] == DriveIndex(s, c) && u.st0 == c[1] % 8 && u.st1 == 0 && u.st2 == 0
      else Reporting(u, res, 0, s.drives) && res == WriteResults(t.cmd[..9], if d.ready then EReadOnly else ENotRdy)
  {
    hide WriteLen, SetBit, ClearBit, Pow2, Overwrite, XltError, Stat0, Stat1, Stat2, Failed;
    var v := NoteReady(GetDrive(FreshStatus(t).(lastId := 0, writeDeleted := deleted))
      .(execLen := WriteLen(t.cmd), exec := Overwrite(t.exec, 0, seq(WriteLen(t.cmd), i => 0))));
    OneShown(v, c[1] % 8, if CurDrive(v).ready then EReadOnly else ENotRdy);
    res := WriteCmd(t, deleted).result[..7];
  }

  /** What WRITE DATA does once its nine bytes are there. */
  lemma WriteStarts(t: Chip, s: Chip, c: seq<byte>, data: seq<byte>, deleted: int) returns (res: seq<int>)
    requires Sound(s) && Sound(t) && |c| == 9 && t.cmd[..9] == c && t.drives == s.drives && t.dor == s.dor
    requires t.dorDrive == if s.dor < 0 then [0, 1, 2, 3] else [s.dor % 4, s.dor % 4, s.dor % 4, s.dor % 4]
    requires c[0] % 32 in {5, 9} && 0 < |data| == WriteLen(c) <= EXEC_SIZE
    ensures WriteLen(t.cmd) <= EXEC_SIZE
    ensures var d := Addressed(s, c);
      if d.ready && !d.readOnly then Filling(WriteCmd(t, deleted), s, c, data, 0, deleted)
      else
        && Reporting(WriteCmd(t, deleted), res, 0, s.drives)
        && res == WriteResults(c, if d.ready then EReadOnly else ENotRdy)
  {
    hide WriteLen, SetBit, ClearBit, Pow2, WriteCmd, WriteResults;
    SameAsk(s.drives[0], t.cmd, c, 0, 0, 0);
    assert t.cmd[1] == t.cmd[..9][1];
    res := WriteOutcome(t, s, c, deleted);
    assert data[..0] == [];
  }

  lemma WriteExecutable(u: Chip, c: seq<byte>)
    requires Sound(u) && |c| == 9 && u.cmd[..9] == c && c[0] % 32 in {5, 9} && WriteLen(c) <= EXEC_SIZE
    ensures Executable(u)
  {
    hide WriteLen;
    assert u.cmd[0] == u.cmd[..9][0];
    SameAsk(u.drives[0], u.cmd, c, 0, 0, 0);
  }

  /** The nine bytes of a WRITE DATA: the controller goes on to the data, or to the results. */
  lemma WriteBegins(s: Chip, c: seq<byte>, data: seq<byte>, g: seq<nat>) returns (res: seq<int>)
    requires Idle(s) && |c| == 9 && c[0] % 32 in {5, 9} && |g| == 9
    requires 0 < WriteLen(c) <= EXEC_SIZE && |data| == WriteLen(c)
    ensures var deleted := if c[0] % 32 == 9 then 1 else 0; var d := Addressed(s, c);
      && Send(s, c, g).Some?
      && if d.ready && !d.readOnly then Filling(Send(s, c, g).value, s, c, data, 0, deleted)
         else
           && Reporting(Send(s, c, g).value, res, 0, s.drives)
           && res == WriteResults(c, if d.ready then EReadOnly else ENotRdy)
  {
    hide Send, Execute, Executable, Idle, Complete, WriteCmd, WriteLen, Filling, Reporting, Addressed, WriteResults;
    IdleSound(s);
    var u := SendCommand(s, c, g);
    CompleteFacts(u, s, c);
    WriteExecutable(u, c);
    var t := Starts(u, s, c);
    res := WriteStarts(t, s, c, data, if c[0] % 32 == 9 then 1 else 0);
  }

  /** A complete WRITE DATA (or WRITE DELETED DATA) exchange from idle, with any number of ticks before
      each byte: nine command bytes; then as many bytes as a sector holds, which the drive is handed
      exactly as they were sent and nothing else; then seven result bytes, which tell what it said to
      them; and the controller is idle. */
  lemma WriteExchange(s: Chip, c: seq<byte>, data: seq<byte>, g: seq<nat>, h: seq<nat>, k: seq<nat>)
    requires Idle(s) && |c| == 9 && c[0] % 32 in {5, 9} && |g| == 9 && |k| == 7
    requires 0 < WriteLen(c) <= EXEC_SIZE && |data| == WriteLen(c) == |h|
    requires Addressed(s, c).ready && !Addressed(s, c).readOnly
    ensures var deleted := if c[0] % 32 == 9 then 1 else 0;
      var a := Send(s, c, g);
      && a.Some? && a.value.mainStat == 0xB0 && a.value.drives == s.drives
      && var b := Send(a.value, data, h);
         && b.Some? && b.value.mainStat == 0xD0
         && Reports(b.value, k, WriteResults(c, WriteAnswer(s, c, deleted, data)), AfterWrite(s, c, deleted, data))
  {
    hide Send, Receive, Idle, WriteLen, Filling, Reporting, Addressed, AfterWrite, WriteResults, WriteAnswer, Reports;
    var deleted := if c[0] % 32 == 9 then 1 else 0;
    IdleSound(s);
    var ignored := WriteBegins(s, c, data, g);
    var a := Send(s, c, g).value;
    FillingStat(a, s, c, data, deleted);
    assert data[0..] == data;
    var res := SendData(a, s, c, data, 0, deleted, h);
    ReportingReports(Send(a, data, h).value, res, AfterWrite(s, c, deleted, data), k);
  }

  lemma FillingStat(s: Chip, base: Chip, c: seq<byte>, data: seq<byte>, deleted: int)
    requires Filling(s, base, c, data, 0, deleted)
    ensures Sound(s) && s.mainStat == 0xB0 && s.drives == base.drives
  {
  }

  /** When the drive is not ready or is read-only, WRITE DATA goes straight to its seven result bytes,
      which tell the two apart, and no drive is handed anything. */
  lemma WriteRefused(s: Chip, c: seq<byte>, g: seq<nat>, k: seq<nat>)
    requires Idle(s) && |c| == 9 && c[0] % 32 in {5, 9} && |g| == 9 && |k| == 7
    requires 0 < WriteLen(c) <= EXEC_SIZE && (!Addressed(s, c).ready || Addressed(s, c).readOnly)
    ensures var a := Send(s, c, g);
      && a.Some? && a.value.mainStat == 0xD0
      && Reports(a.value, k, WriteResults(c, if Addressed(s, c).ready then EReadOnly else ENotRdy), s.drives)
    ensures WriteResults(c, ENotRdy)[..3] == [0x48 + c[1] % 8, 0, 0]
    ensures WriteResults(c, EReadOnly)[..3] == [0x40 + c[1] % 8, 2, 0]
  {
    hide Send, Receive, Idle, WriteLen, Filling, Reporting, Addressed, Reports, Failed;
    IdleSound(s);
    OneFailed(ENotRdy);
    OneFailed(EReadOnly);
    var res := WriteBegins(s, c, seq(WriteLen(c), i => 0), g);
    ReportingReports(Send(s, c, g).value, res, s.drives, k);
  }

  // ---------------------------------------------------------------- seek and sense

  /** The drive a SEEK addresses, and where it is afterwards. */
  function Sought(s: Chip, c: seq<byte>): Drive
    requires Sound(s) && |c| == 3
  {
    var d := s.drives[if s.dor < 0 then c[1] % 4 else s.dor % 4];
    if d.ready && d.medium.seek(c[2]) == EOk then d.(cylinder := c[2]) else d
  }

  /** ST0 as SENSE INTERRUPT STATUS reports it after a seek. */
  function SeekStatus(s: Chip, c: seq<byte>): int
    requires Sound(s) && |c| == 3
  {
    32 + c[1] % 8 + if s.drives[if s.dor < 0 then c[1] % 4 else s.dor % 4].ready then 0 else 8
  }

  /** What is known between a seek and the command that asks for its outcome. */
  ghost predicate SeekWaits(s: Chip, base: Chip, c: seq<byte>) {
    && Idle(s) && Sound(base) && |c| == 3 && s.interrupting == 4 && s.dor == base.dor && s.unit == c[1] % 4
    && s.st0 in {SeekStatus(base, c), SeekStatus(base, c) + 64}
    && s.drives[if s.dor < 0 then c[1] % 4 else s.dor % 4] == Sought(base, c)
  }

  /** The bits of ST0 after GetDrive on a cleared status. */
  lemma SeekBits(x: int)
    requires 0 <= x < 8
    ensures SetBit(x, 32) == x + 32
    ensures SetBit(x + 32, 64) == x + 96 && SetBit(x + 96, 8) == x + 104
    ensures ClearBit(x + 32, 64) == x + 32 && ClearBit(x + 96, 64) == x + 32 && ClearBit(x + 104, 64) == x + 40
    ensures ClearBit(x + 40, 64) == x + 40
  {
  }

  lemma ExecuteSeek(u: Chip) returns (t: Chip)
    requires Sound(u) && u.cmd[0] % 32 == 15
    ensures Sound(t) && Executable(u) && Execute(u) == SeekTo(t, u.cmd[2])
    ensures t.cmd == u.cmd && t.drives == u.drives && t.dor == u.dor
    ensures t.dorDrive == if u.dor < 0 then [0, 1, 2, 3] else [u.dor % 4, u.dor % 4, u.dor % 4, u.dor % 4]
  {
    hide SeekTo, ReadCmd, WriteCmd, SenseInt, SenseDrive, InvalidCommand, ClearBit, ReadLen, WriteLen, SectorCount;
    hide EndResult;
    var d := DorCheck(u);
    t := d.(st0 := ClearBit(d.st0, 64));
  }

  lemma SeekExecutes(u: Chip, base: Chip, c: seq<byte>)
    requires Sound(u) && Sound(base) && |c| == 3 && u.cmd[..3] == c && c[0] % 32 == 15
    requires u.drives == base.drives && u.dor == base.dor
    ensures Executable(u) && SeekWaits(Execute(u), base, c)
  {
    hide Execute, Executable, SeekTo;
    assert u.cmd[0] == u.cmd[..3][0] && u.cmd[1] == u.cmd[..3][1] && u.cmd[2] == u.cmd[..3][2];
    var t := ExecuteSeek(u);
    SeekOutcome(t, base, c);
  }

  lemma SeekOutcome(t: Chip, base: Chip, c: seq<byte>)
    requires Sound(t) && Sound(base) && |c| == 3 && t.cmd[1] == c[1] && t.drives == base.drives && t.dor == base.dor
    requires t.dorDrive ==
      if base.dor < 0 then [0, 1, 2, 3] else [base.dor % 4, base.dor % 4, base.dor % 4, base.dor % 4]
    ensures SeekWaits(SeekTo(t, c[2]), base, c)
  {
    hide MoveHead, SeekWaits;
    var u := SeekStarts(t, c);
    HeadMoved(u, base, c);
  }

  /** A seek before the drive is asked to move. */
  lemma SeekStarts(t: Chip, c: seq<byte>) returns (u: Chip)
    requires Sound(t) && |c| == 3 && t.cmd[1] == c[1]
    ensures Sound(u) && SeekTo(t, c[2]) == MoveHead(u, c[2])
    ensures u.mainStat == 0x80 && u.cmdId < 0 && u.interrupting == 4 && u.st0 == 32 + c[1] % 8 && u.unit == c[1] % 4
    ensures u.drives == t.drives && u.dorDrive == t.dorDrive && u.dor == t.dor
  {
    hide SetBit, ClearBit, MoveHead;
    SeekBits(c[1] % 8);
    var v := EndResult(GetDrive(FreshStatus(t).(lastId := 0))).(countdown := SHORT_TIMEOUT, interrupting := 4);
    u := NoteReady(v.(st2 := ClearBit(v.st2, 2), st0 := SetBit(v.st0, 32)));
  }

  lemma HeadMoved(u: Chip, base: Chip, c: seq<byte>)
    requires Sound(u) && Sound(base) && |c| == 3
    requires u.mainStat == 0x80 && u.cmdId < 0 && u.interrupting == 4 && u.st0 == 32 + c[1] % 8 && u.unit == c[1] % 4
    requires u.drives == base.drives && u.dor == base.dor
    requires u.dorDrive ==
      if base.dor < 0 then [0, 1, 2, 3] else [base.dor % 4, base.dor % 4, base.dor % 4, base.dor % 4]
    ensures SeekWaits(MoveHead(u, c[2]), base, c)
  {
    hide SetBit;
    SeekBits(c[1] % 8);
  }

  lemma FirstOfThree(s: Chip, v: byte, gap: nat) returns (a: Chip)
    requires Idle(s) && v % 32 == 15
    ensures CanPut(Ticks(s, gap), v) && a == WriteData(Ticks(s, gap), v)
    ensures Sound(a) && a.mainStat == 0x90 && a.cmdId >= 0
    ensures a.cmdPos == 0 && a.cmdLen == 2 && a.cmd[0] == v && a.drives == s.drives && a.dor == s.dor
  {
    hide Ticks, Execute, Executable;
    TicksKeep(s, gap);
    a := WriteData(Ticks(s, gap), v);
  }

  lemma SecondOfThree(a: Chip, v: byte, gap: nat) returns (b: Chip)
    requires Sound(a) && a.mainStat == 0x90 && a.cmdId >= 0 && a.cmdPos == 0 && a.cmdLen == 2
    ensures CanPut(Ticks(a, gap), v) && b == WriteData(Ticks(a, gap), v)
    ensures Sound(b) && b.mainStat == 0x90 && b.cmdId >= 0
    ensures b.cmdPos == 1 && b.cmdLen == 1 && b.cmd[..2] == [a.cmd[0], v] && b.drives == a.drives && b.dor == a.dor
  {
    hide Ticks, Execute, Executable;
    TicksKeep(a, gap);
    b := WriteData(Ticks(a, gap), v);
  }

  /** The first two of three command bytes. */
  lemma TwoBytes(s: Chip, c: seq<byte>, g: seq<nat>) returns (b: Chip)
    requires Idle(s) && |c| == 3 && c[0] % 32 == 15 && |g| == 3
    ensures Sound(b) && b.mainStat == 0x90 && b.cmdId >= 0 && b.cmdPos == 1 && b.cmdLen == 1
    ensures b.cmd[..2] == c[..2] && b.drives == s.drives && b.dor == s.dor
    ensures Send(s, c, g) == Send(b, c[2..], g[2..])
  {
    hide Ticks, WriteData, CanPut;
    var a := FirstOfThree(s, c[0], g[0]);
    b := SecondOfThree(a, c[1], g[1]);
    assert c[1..][1..] == c[2..] && g[1..][1..] == g[2..];
    assert Send(a, c[1..], g[1..]) == Send(b, c[2..], g[2..]);
  }

  /** The last byte of a command of three. */
  lemma ThirdByte(b: Chip, c: seq<byte>, g: seq<nat>)
    requires |c| == 3 && |g| == 3 && c[0] % 32 == 15 && Sound(b)
    requires b.mainStat == 0x90 && b.cmdId >= 0 && b.cmdPos == 1 && b.cmdLen == 1 && b.cmd[..2] == c[..2]
    ensures var t := Ticks(b, g[2]);
      t.cmdPos == 1 && (Executable(Filled(t, c[2])) ==> Send(b, c[2..], g[2..]) == Some(Execute(Filled(t, c[2]))))
  {
    hide Ticks, Execute, Executable, WriteData, CanPut;
    TicksKeep(b, g[2]);
    Executes(Ticks(b, g[2]), c[2]);
    var u := Filled(Ticks(b, g[2]), c[2]);
    if Executable(u) {
      assert c[2..][1..] == [] && g[2..][1..] == [];
      assert Send(Execute(u), [], []) == Some(Execute(u));
    }
  }

  lemma SeekTaken(s: Chip, c: seq<byte>, g: seq<nat>)
    requires Idle(s) && |c| == 3 && c[0] % 32 == 15 && |g| == 3
    ensures var r := Send(s, c, g); r.Some? && SeekWaits(r.value, s, c)
  {
    hide Ticks, Execute, SeekWaits, Executable, Send, WriteData, CanPut;
    var b := TwoBytes(s, c, g);
    TicksKeep(b, g[2]);
    var t := Ticks(b, g[2]);
    var u := Filled(t, c[2]);
    assert u.cmd[..3] == t.cmd[..2] + [c[2]] && c == c[..2] + [c[2]];
    SeekExecutes(u, s, c);
    ThirdByte(b, c, g);
  }

  lemma SenseTaken(s: Chip, base: Chip, c: seq<byte>, v: byte, gap: nat)
    requires SeekWaits(s, base, c) && v % 32 == 8
    ensures var r := Send(s, [v], [gap]);
      && r.Some? && r.value.mainStat == 0xD0 && r.value.resultPos == 0 && r.value.resultLen == 2
      && r.value.interrupting == 0
      && r.value.result[0] == SeekStatus(base, c) && r.value.result[1] == Sought(base, c).cylinder % 256
  {
    hide Ticks, SetBit, ClearBit;
    TicksKeep(s, gap);
    var x := c[1] % 8;
    SeekBits(x);
    var t := Ticks(s, gap);
    assert CanPut(t, v);
    assert [v][1..] == [] && [gap][1..] == [];
    assert Send(WriteData(t, v), [], []) == Some(WriteData(t, v));
  }

  /** A SEEK and the SENSE INTERRUPT STATUS that asks for its outcome, with any ticks between the
      bytes: two result bytes, ST0 and the cylinder the drive is on. ST0 tells seek end, the unit and
      head asked for, and whether the drive was not ready; its abnormal-end bit is never set, because
      every command clears it first, so a seek that the disc refused shows in the cylinder only. */
  lemma SeekAndSense(s: Chip, c: seq<byte>, v: byte, g: seq<nat>, gap: nat, k: seq<nat>)
    requires Idle(s) && |c| == 3 && c[0] % 32 == 15 && v % 32 == 8 && |g| == 3 && |k| == 2
    ensures var a := Send(s, c, g);
      && a.Some? && Idle(a.value)
      && var b := Send(a.value, [v], [gap]);
         && b.Some?
         && var e := Receive(b.value, k);
            && e.Some? && Idle(e.value.0) && e.value.0.interrupting == 0
            && e.value.1 == [SeekStatus(s, c), Sought(s, c).cylinder % 256]
  {
    hide Ticks, Send, SeekStatus, Sought;
    SeekTaken(s, c, g);
    var a := Send(s, c, g).value;
    SenseTaken(a, s, c, v, gap);
    var b := Send(a, [v], [gap]).value;
    TwoResults(b, k);
  }

  lemma TwoResults(b: Chip, k: seq<nat>)
    requires Sound(b) && b.mainStat == 0xD0 && b.resultPos == 0 && b.resultLen == 2 && b.interrupting == 0 && |k| == 2
    ensures var e := Receive(b, k);
      && e.Some? && Idle(e.value.0) && e.value.0.interrupting == 0 && e.value.1 == [b.result[0], b.result[1]]
  {
    hide Ticks;
    TicksKeep(b, k[0]);
    var u := ReadData(Ticks(b, k[0])).0;
    TicksKeep(u, k[1]);
    var w := ReadData(Ticks(u, k[1])).0;
    assert k[1..][1..] == [];
    assert Receive(w, []) == Some((w, []));
    assert [b.result[1]] + [] == [b.result[1]];
    assert Receive(u, k[1..]) == Some((w, [b.result[1]]));
    assert [b.result[0]] + [b.result[1]] == [b.result[0], b.result[1]];
  }

  // ---------------------------------------------------------------- sense drive status

  lemma SenseDriveTaken(s: Chip, c: seq<byte>, g: seq<nat>) returns (u: Chip)
    requires Idle(s) && |c| == 2 && c[0] % 32 == 4 && |g| == 2
    ensures Sound(u) && u.cmd[..2] == c && u.drives == s.drives && u.dor == s.dor && Executable(u)
    ensures Send(s, c, g) == Some(Execute(u))
  {
    hide Ticks, Execute;
    TicksKeep(s, g[0]);
    var b := WriteData(Ticks(s, g[0]), c[0]);
    TicksKeep(b, g[1]);
    u := Filled(Ticks(b, g[1]), c[1]);
    Executes(Ticks(b, g[1]), c[1]);
    assert u.cmd[..2] == [b.cmd[0]] + [c[1]] && c == [c[0]] + [c[1]];
    assert c[1..][1..] == [] && g[1..][1..] == [];
    assert Send(Execute(u), [], []) == Some(Execute(u));
    assert Send(b, c[1..], g[1..]) == Some(Execute(u));
  }

  /** A complete SENSE DRIVE STATUS exchange: two bytes in, one out, which names the unit and head asked
      for and shows the upper five bits of what the drive says of itself; the drives stay as they are. */
  lemma SenseDriveExchange(s: Chip, c: seq<byte>, g: seq<nat>, gap: nat)
    requires Idle(s) && |c| == 2 && c[0] % 32 == 4 && |g| == 2
    ensures var a := Send(s, c, g);
      && a.Some? && a.value.mainStat == 0xD0
      && var e := Receive(a.value, [gap]);
         && e.Some? && Idle(e.value.0) && e.value.0.drives == s.drives && |e.value.1| == 1
         && e.value.1[0] % 8 == c[1] % 8 && e.value.1[0] / 8 == Addressed(s, c).status / 8
  {
    hide Ticks, Send;
    var u := SenseDriveTaken(s, c, g);
    var a := Sensed(u, s, c);
    TicksKeep(a, gap);
    assert [gap][1..] == [];
    var w := ReadData(Ticks(a, gap)).0;
    assert Receive(w, []) == Some((w, []));
  }

  lemma ExecuteSense(u: Chip) returns (t: Chip)
    requires Sound(u) && u.cmd[0] % 32 == 4
    ensures Sound(t) && t.cmd == u.cmd && Executable(u) && Execute(u) == SenseDrive(t)
    ensures t.drives == u.drives
    ensures t.dorDrive == if u.dor < 0 then [0, 1, 2, 3] else [u.dor % 4, u.dor % 4, u.dor % 4, u.dor % 4]
  {
    hide SeekTo, ReadCmd, WriteCmd, SenseInt, SenseDrive, InvalidCommand, ClearBit, ReadLen, WriteLen, SectorCount;
    hide EndResult;
    var d := DorCheck(u);
    t := d.(st0 := ClearBit(d.st0, 64));
  }

  /** ST3 as SENSE DRIVE STATUS makes it up. */
  lemma StatusByte(v: nat, x: nat)
    ensures var b := v - v % 8 + (if x / 4 % 2 != 0 then 4 else 0) + x % 4; b % 8 == x % 8 && b / 8 == v / 8
  {
    assert (if x / 4 % 2 != 0 then 4 else 0) + x % 4 == x % 8;
    assert v - v % 8 == 8 * (v / 8);
  }

  lemma Sensed(u: Chip, s: Chip, c: seq<byte>) returns (a: Chip)
    requires Sound(u) && Sound(s) && |c| == 2 && c[0] % 32 == 4 && u.cmd[..2] == c && Executable(u)
    requires u.drives == s.drives && u.dor == s.dor
    ensures a == Execute(u) && Sound(a)
    ensures a.mainStat == 0xD0 && a.resultPos == 0 && a.resultLen == 1 && a.drives == s.drives
    ensures a.result[0] % 8 == c[1] % 8 && a.result[0] / 8 == Addressed(s, c).status / 8
  {
    hide Execute, Executable, SenseDrive;
    assert u.cmd[0] == u.cmd[..2][0] && u.cmd[1] == u.cmd[..2][1];
    var t := ExecuteSense(u);
    StatusByte(Addressed(s, c).status, c[1]);
    a := SenseDrive(t);
    SenseDriveByte(t, c[1]);
  }

  lemma SenseDriveByte(t: Chip, x: byte)
    requires Sound(t) && t.cmd[0] % 32 == 4 && t.cmd[1] == x
    ensures var a := SenseDrive(t); var v := t.drives[t.dorDrive[x % 4]].status as int;
      && a.mainStat == 0xD0 && a.resultPos == 0 && a.resultLen == 1 && a.drives == t.drives
      && a.result[0] == v - v % 8 + (if x / 4 % 2 != 0 then 4 else 0) + x % 4
  {
    hide WriteEnd, WriteLen;
  }
}
