/** The floppy controller as an object whose registers change in place: each method does to the fields
    what the function of the same purpose in module Fdc does to a chip (lib/lib765/765fdc.c). */
module FdcController {
  import opened Bits
  import opened Fdc

  class Controller {
    var mainStat: int
    var interrupting: int
    var countdown: int
    var lastId: int
    var writeDeleted: int
    var specify1: byte
    var specify2: byte
    var cmdId: int
    var cmdLen: int
    var cmdPos: int
    const cmdBuf: array<byte>
    const execBuf: array<byte>
    var execLen: int
    var execPos: int
    const resultBuf: array<byte>
    var resultLen: int
    var resultPos: int
    var st0: int
    var st1: int
    var st2: int
    var st3: int
    var unit: int
    var side: int
    var dor: int
    var dorDrive: seq<int>
    var drives: seq<Drive>

    ghost function Now(): Chip
      reads this, cmdBuf, execBuf, resultBuf
    {
      Chip(mainStat, interrupting, countdown, lastId, writeDeleted, specify1, specify2, cmdId, cmdLen, cmdPos,
        cmdBuf[..], execBuf[..], execLen, execPos, resultBuf[..], resultLen, resultPos, st0, st1, st2, st3, unit, side,
        dor, dorDrive, drives)
    }

    ghost predicate Valid()
      reads this, cmdBuf, execBuf, resultBuf
    {
      cmdBuf != execBuf && cmdBuf != resultBuf && execBuf != resultBuf && Sound(Now())
    }

    lemma Sizes()
      requires Valid()
      ensures cmdBuf.Length == 20 && resultBuf.Length == 20 && execBuf.Length == EXEC_SIZE
      ensures Byte(st0) && Byte(st1) && Byte(st2) && Byte(st3)
    {
    }

    method CheckDor()
      requires Valid()
      modifies `dorDrive
      ensures Valid() && Now() == DorCheck(old(Now()))
    {
      if dor < 0 {
        dorDrive := [0, 1, 2, 3];
      } else {
        var d := dor % 4;
        dorDrive := [d, d, d, d];
      }
    }

    /** fdc_isready. */
    method IsReady() returns (ready: bool)
      requires Valid()
      modifies `st3
      ensures Valid() && Now() == NoteReady(old(Now())) && ready == CurDrive(Now()).ready
    {
      ready := drives[dorDrive[unit]].ready;
      if !ready {
        st3 := ClearBit(st3, 32);
        return;
      }
      st3 := SetBit(st3, 32);
    }

    method TranslateError(e: DriveErr)
      requires Valid()
      modifies `st0, `st1, `st2
      ensures Valid() && Now() == XltError(old(Now()), e)
    {
      match e {
        case EOk =>
        case ENotRdy =>
          st0 := SetBit(SetBit(st0, 64), 8);
        case ESeekFail =>
          st0 := SetBit(st0, 64);
          st2 := SetBit(st2, 2);
        case ENoAddr =>
          st0 := SetBit(st0, 64);
          st2 := SetBit(st2, 1);
        case ENoData =>
          st0 := SetBit(st0, 64);
          st1 := SetBit(st1, 4);
        case EDataErr =>
          st1 := SetBit(st1, 32);
          st2 := SetBit(st2, 32);
        case ENoSector =>
          st0 := SetBit(st0, 64);
          st1 := SetBit(SetBit(st1, 128), 2);
        case EReadOnly =>
          st0 := SetBit(st0, 64);
          st1 := SetBit(st1, 2);
      }
    }

    method FillResults()
      requires Valid()
      modifies `mainStat, resultBuf
      ensures Valid() && Now() == Results7(old(Now()))
    {
      Sizes();
      CopyResults(resultBuf, [st0, st1, st2, cmdBuf[2], cmdBuf[3], cmdBuf[4], cmdBuf[5]]);
      mainStat := 0xD0;
    }

    method EndResultPhase()
      requires Valid()
      modifies `mainStat, `interrupting, `cmdId
      ensures Valid() && Now() == EndResult(old(Now()))
    {
      mainStat := 0x80;
      if interrupting < 3 {
        interrupting := 0;
      }
      cmdId := -1;
    }

    method ReportInvalid()
      requires Valid()
      modifies `st0, `mainStat, `resultLen, `resultPos, resultBuf
      ensures Valid() && Now() == InvalidCommand(old(Now()))
    {
      hide Sound;
      Sizes();
      st0 := st0 % 64 + 128;
      mainStat := 0xD0;
      resultLen := 1;
      resultPos := 0;
      resultBuf[0] := st0;
      assert resultBuf[..] == old(resultBuf[..])[0 := st0];
      assert Now() == InvalidCommand(old(Now()));
    }

    method RaiseResult()
      requires Valid()
      modifies `countdown, `interrupting
      ensures Valid() && Now() == ResultInterrupt(old(Now()))
    {
      countdown := SHORT_TIMEOUT;
      interrupting := 1;
    }

    method RaiseExec()
      requires Valid()
      modifies `countdown, `interrupting
      ensures Valid() && Now() == ExecInterrupt(old(Now()))
    {
      countdown := SHORT_TIMEOUT;
      interrupting := 2;
    }

    method SelectDrive()
      requires Valid()
      modifies `unit, `side, `st0, `st3
      ensures Valid() && Now() == GetDrive(old(Now()))
    {
      hide Sound;
      Sizes();
      var c: int := cmdBuf[1];
      unit := c % 4;
      side := c / 4 % 2;
      st0 := st0 - st0 % 8;
      st3 := st3 - st3 % 8;
      st0 := st0 + c % 8;
      st3 := st3 + c % 8;
      assert Now() == GetDrive(old(Now()));
    }

    /** fdc_write_end. */
    method EndWrite()
      requires Valid() && WriteLen(cmdBuf[..]) <= EXEC_SIZE
      modifies this, resultBuf
      ensures Valid() && Now() == WriteEnd(old(Now()))
    {
      hide SetBit, Pow2;
      var len := WriteLen(cmdBuf[..]);
      var d := drives[dorDrive[unit]];
      var w := Write(Ask(cmdBuf[..], side, len, writeDeleted), execBuf[..len]);
      assert execBuf[..][..len] == execBuf[..len];
      var e := d.medium.write(d.log, d.cylinder, w);
      drives := drives[dorDrive[unit] := d.(log := d.log + [w])];
      TranslateError(e);
      FillResults();
      RaiseResult();
    }

    /** fdc_end_execution_phase. */
    method EndExecution()
      requires Valid() && (cmdBuf[0] % 32 in {5, 9} ==> WriteLen(cmdBuf[..]) <= EXEC_SIZE)
      modifies this, resultBuf
      ensures Valid() && Now() == EndExec(old(Now()))
    {
      hide WriteEnd, Pow2;
      var c := cmdBuf[0] % 32;
      mainStat := 0xD0;
      resultPos := 0;
      if c == 6 || c == 12 {
        resultLen := 7;
        RaiseResult();
      } else if c == 5 || c == 9 {
        EndWrite();
        resultLen := 7;
      }
    }

    // -------------------------------------------------------------- commands

    method ClearStatus()
      requires Valid()
      modifies `st0, `st1, `st2, `lastId
      ensures Valid() && Now() == FreshStatus(old(Now())).(lastId := 0)
    {
      st0 := 0;
      st1 := 0;
      st2 := 0;
      lastId := 0;
    }

    /** Copying bytes into the execution buffer. */
    method PutBytes(at: nat, x: seq<byte>)
      requires Valid() && at + |x| <= EXEC_SIZE
      modifies execBuf
      ensures Valid() && Now() == old(Now()).(exec := Overwrite(old(Now()).exec, at, x))
    {
      forall i | 0 <= i < |x| {
        execBuf[at + i] := x[i];
      }
      assert execBuf[..] == Overwrite(old(execBuf[..]), at, x);
    }

    /** One round of the loop of fdc_read. */
    method ReadOne(deleted: int, len: nat) returns (err: DriveErr, del: int)
      requires Valid() && len == ReadLen(cmdBuf[..]) && 0 <= execLen && execLen + len <= EXEC_SIZE
      modifies this, execBuf
      ensures Valid()
      ensures var s := old(Now()); var reply := Answer(CurDrive(s), s.cmd, s.side, deleted);
        Now() == TakeSector(s, reply) && err == reply.err && del == reply.deleted
    {
      hide SetBit, ClearBit, ReadLen, Fit, Overwrite;
      var reply := Reply(ENotRdy, [], deleted);
      var d := drives[dorDrive[unit]];
      if d.ready {
        reply := d.medium.read(d.log, d.cylinder, Ask(cmdBuf[..], side, len, deleted));
      }
      PutBytes(execLen, Fit(reply.data, len));
      var ready := IsReady();
      TranslateError(reply.err);
      err, del := reply.err, reply.deleted;
      if del != 0 {
        st2 := SetBit(st2, 64);
      }
    }

    /** The buffer is empty. */
    method EmptyBuffer()
      requires Valid()
      modifies `execLen
      ensures Valid() && Now() == old(Now()).(execLen := 0)
    {
      execLen := 0;
    }

    /** Ready to transfer data. */
    method BeginTransfer(stat: int)
      requires Valid()
      modifies `countdown, `interrupting, `mainStat, `execPos
      ensures Valid() && Now() == ExecInterrupt(old(Now())).(mainStat := stat, execPos := 0)
    {
      RaiseExec();
      mainStat := stat;
      execPos := 0;
    }

    /** fdc_read. */
    method ReadCommand(deleted: int)
      requires Valid() && cmdBuf[0] % 32 in {6, 12} && Room(0, SectorCount(cmdBuf[..]), ReadLen(cmdBuf[..]))
      modifies this, execBuf, resultBuf, cmdBuf
      ensures Valid() && Now() == ReadCmd(old(Now()), deleted)
    {
      hide SetBit, ClearBit, ReadLen, TakeSector, Answer, SectorCount, GetDrive, Results7, Sound, FreshStatus;
      hide ReadSectors;
      StartRead();
      ghost var t := Now();
      CommandSize(t);
      var err := ReadLoop(deleted);
      ReadKeepsCommand(t, SectorCount(t.cmd), deleted, EOk);
      FillResults();
      if Hard(err) {
        FailRead();
      } else {
        BeginTransfer(0xF0);
      }
    }

    method StartRead()
      requires Valid()
      modifies this
      ensures Valid() && Now() == GetDrive(FreshStatus(old(Now())).(lastId := 0)).(execLen := 0)
      ensures Now().cmd == old(Now()).cmd
    {
      hide Sound;
      ClearStatus();
      SelectDrive();
      EmptyBuffer();
    }

    /** A read that failed goes straight to its results. */
    method FailRead()
      requires Valid() && cmdBuf[0] % 32 in {6, 12}
      modifies this, resultBuf
      ensures Valid() && Now() == ResultInterrupt(old(Now()).(mainStat := 0xD0, resultPos := 0, resultLen := 7))
    {
      hide WriteEnd, WriteLen;
      EndExecution();
      RaiseResult();
    }

    /** The loop of fdc_read. */
    method ReadLoop(deleted: int) returns (err: DriveErr)
      requires Valid() && Room(execLen, SectorCount(cmdBuf[..]), ReadLen(cmdBuf[..]))
      modifies this, execBuf, cmdBuf
      ensures var o := ReadSectors(old(Now()), SectorCount(old(Now()).cmd), deleted, EOk);
        Valid() && Now() == o.chip && err == o.err
    {
      hide SetBit, ClearBit, ReadLen, TakeSector, Answer;
      var sector: int, last: int := cmdBuf[4], cmdBuf[6];
      var del := deleted;
      err := EOk;
      ghost var left := SectorCount(cmdBuf[..]);
      ghost var goal := ReadSectors(Now(), left, deleted, EOk);
      while sector <= last
        invariant Valid() && !Hard(err) && left == (if sector > last then 0 else last - sector + 1)
        invariant Room(execLen, left, ReadLen(cmdBuf[..])) && ReadSectors(Now(), left, del, err) == goal
        decreases left
      {
        var len := ReadLen(cmdBuf[..]);
        RoomStep(execLen, left, len);
        err, del := ReadOne(del, len);
        if Hard(err) {
          return;
        }
        NextInBuffer(len);
        sector := sector + 1;
        left := left - 1;
      }
    }

    method NextInBuffer(len: nat)
      requires Valid()
      modifies `execLen, cmdBuf
      ensures Valid()
      ensures Now() == old(Now()).(execLen := old(execLen) + len, cmd := NextSector(old(Now()).cmd))
      ensures ReadLen(cmdBuf[..]) == ReadLen(old(cmdBuf[..]))
    {
      execLen := execLen + len;
      cmdBuf[4] := (cmdBuf[4] as int + 1) % 256;
      assert cmdBuf[..] == NextSector(old(cmdBuf[..]));
    }

    /** fdc_write. */
    method WriteCommand(deleted: int)
      requires Valid() && WriteLen(cmdBuf[..]) <= EXEC_SIZE
      modifies this, execBuf, resultBuf
      ensures Valid() && Now() == WriteCmd(old(Now()), deleted)
    {
      hide SetBit, ClearBit, WriteLen, Results7, GetDrive, XltError, Overwrite;
      ClearStatus();
      NoteDeleted(deleted);
      SelectDrive();
      var n := WriteLen(cmdBuf[..]);
      ClearBuffer(n);
      var ready := IsReady();
      var d := drives[dorDrive[unit]];
      if !ready {
        RefuseWrite(ENotRdy);
      } else if d.readOnly {
        RefuseWrite(EReadOnly);
      } else {
        BeginTransfer(0xB0);
      }
    }

    method NoteDeleted(deleted: int)
      requires Valid()
      modifies `writeDeleted
      ensures Valid() && Now() == old(Now()).(writeDeleted := deleted)
    {
      writeDeleted := deleted;
    }

    /** The buffer expects n bytes, and is zero. */
    method ClearBuffer(n: nat)
      requires Valid() && n <= EXEC_SIZE
      modifies `execLen, execBuf
      ensures Valid() && Now() == old(Now()).(execLen := n, exec := Overwrite(old(Now()).exec, 0, seq(n, i => 0)))
    {
      execLen := n;
      PutBytes(0, seq(n, i => 0));
    }

    /** A write that cannot start: seven result bytes. */
    method RefuseWrite(e: DriveErr)
      requires Valid()
      modifies this, resultBuf
      ensures Valid() && Now() == ResultInterrupt(Results7(XltError(old(Now()), e)).(resultPos := 0, resultLen := 7))
    {
      hide SetBit, ClearBit;
      TranslateError(e);
      FillResults();
      resultPos := 0;
      resultLen := 7;
      RaiseResult();
    }

    /** fdc_seek, and with cylinder 0 fdc_recalibrate. */
    method SeekCommand(cylinder: int)
      requires Valid()
      modifies this
      ensures Valid() && Now() == SeekTo(old(Now()), cylinder)
    {
      hide SetBit, ClearBit, GetDrive, EndResult, MoveHead, Sound;
      ClearStatus();
      SelectDrive();
      EndResultPhase();
      SeekPending();
      var ready := IsReady();
      StepDrive(ready, cylinder);
    }

    method StepDrive(ready: bool, cylinder: int)
      requires Valid() && ready == CurDrive(Now()).ready
      modifies `st0, `st2, `drives
      ensures Valid() && Now() == MoveHead(old(Now()), cylinder)
    {
      hide SetBit, ClearBit;
      var d := drives[dorDrive[unit]];
      if !ready {
        st0 := SetBit(SetBit(st0, 64), 8);
      } else if d.medium.seek(cylinder) != EOk {
        st2 := SetBit(st2, 2);
        st0 := SetBit(st0, 64);
      } else {
        drives := drives[dorDrive[unit] := d.(cylinder := cylinder)];
      }
    }

    method SeekPending()
      requires Valid()
      modifies `countdown, `interrupting, `st0, `st2
      ensures Valid()
      ensures var t := old(Now());
        Now() == t.(countdown := SHORT_TIMEOUT, interrupting := 4, st2 := ClearBit(t.st2, 2), st0 := SetBit(t.st0, 32))
    {
      hide SetBit, ClearBit;
      countdown := SHORT_TIMEOUT;
      interrupting := 4;
      st2 := ClearBit(st2, 2);
      st0 := SetBit(st0, 32);
    }

    /** fdc_sense_int. */
    method SenseInterrupt()
      requires Valid() && cmdBuf[0] % 32 == 8
      modifies this, resultBuf
      ensures Valid() && Now() == SenseInt(old(Now()))
    {
      hide WriteEnd, WriteLen, Pow2;
      if interrupting > 2 {
        PutResult(0, st0, 2);
        PutResult(1, drives[dorDrive[unit]].cylinder % 256, 2);
      } else {
        st0 := 0x80;
        PutResult(0, st0, 1);
      }
      EndExecution();
      DropInterrupt();
    }

    method DropInterrupt()
      requires Valid()
      modifies `countdown, `interrupting
      ensures Valid() && Now() == old(Now()).(countdown := 0, interrupting := 0)
    {
      countdown := 0;
      interrupting := 0;
    }

    method PutResult(i: nat, v: byte, len: int)
      requires Valid() && i < 20
      modifies `resultLen, resultBuf
      ensures Valid() && Now() == old(Now()).(result := old(Now()).result[i := v], resultLen := len)
    {
      resultBuf[i] := v;
      resultLen := len;
      assert resultBuf[..] == old(resultBuf[..])[i := v];
    }

    /** fdc_sense_drive. */
    method SenseStatus()
      requires Valid() && cmdBuf[0] % 32 == 4
      modifies this, resultBuf
      ensures Valid() && Now() == SenseDrive(old(Now()))
    {
      hide WriteEnd, WriteLen, Pow2;
      SelectDrive();
      var v := drives[dorDrive[unit]].status as int;
      st3 := v - v % 8 + (if side != 0 then 4 else 0) + unit;
      PutResult(0, st3, 1);
      EndExecution();
    }

    method Specify()
      requires Valid()
      modifies `specify1, `specify2, `mainStat, `interrupting, `cmdId
      ensures Valid()
      ensures Now() == EndResult(old(Now()).(specify1 := old(Now()).cmd[1], specify2 := old(Now()).cmd[2]))
    {
      specify1 := cmdBuf[1];
      specify2 := cmdBuf[2];
      EndResultPhase();
    }

    /** fdc_execute. */
    method ExecuteCommand()
      requires Valid() && Executable(Now())
      modifies this, cmdBuf, execBuf, resultBuf
      ensures Valid() && Now() == Execute(old(Now()))
    {
      hide SetBit, ClearBit, ReadCmd, WriteCmd, SeekTo, SenseInt, SenseDrive, InvalidCommand, EndResult, ReadLen;
      hide WriteLen, SectorCount, Room;
      CheckDor();
      ForgetSeek();
      var c := cmdBuf[0] % 32;
      match c {
        case 3 => Specify();
        case 4 => SenseStatus();
        case 5 => WriteCommand(0);
        case 6 => ReadCommand(0);
        case 7 => SeekCommand(0);
        case 8 => SenseInterrupt();
        case 9 => WriteCommand(1);
        case 12 => ReadCommand(1);
        case 15 => SeekCommand(cmdBuf[2]);
        case _ => ReportInvalid();
      }
    }

    method ForgetSeek()
      requires Valid()
      modifies `st0
      ensures Valid() && Now() == old(Now()).(st0 := ClearBit(old(Now()).st0, 64))
    {
      hide ClearBit;
      st0 := ClearBit(st0, 64);
    }

    // -------------------------------------------------------------- the data register

    method ClearInterrupt()
      requires Valid()
      modifies `countdown, `interrupting
      ensures Valid() && Now() == ClearPending(old(Now()))
    {
      if 0 < interrupting < 4 {
        countdown := 0;
        interrupting := 0;
      }
    }

    /** What follows a byte of the execution phase. */
    method FinishExecByte()
      requires Valid() && (cmdBuf[0] % 32 in {5, 9} ==> WriteLen(cmdBuf[..]) <= EXEC_SIZE)
      modifies this, resultBuf
      ensures Valid() && Now() == AfterExecByte(old(Now()))
    {
      hide EndExec, WriteLen;
      if execLen == 0 {
        EndExecution();
        RaiseResult();
      }
      if 0 <= interrupting < 3 {
        countdown := SHORT_TIMEOUT;
      }
    }

    method TakeExecByte(value: byte)
      requires Valid() && 0 <= execPos < EXEC_SIZE
      modifies `execPos, `execLen, execBuf
      ensures Valid()
      ensures var s := old(Now());
        Now() == s.(exec := s.exec[s.execPos := value], execPos := s.execPos + 1, execLen := s.execLen - 1)
    {
      execBuf[execPos] := value;
      assert execBuf[..] == old(execBuf[..])[execPos := value];
      execPos := execPos + 1;
      execLen := execLen - 1;
    }

    /** The first byte of a command. */
    method FirstCommandByte(value: byte)
      requires Valid() && (BytesInCmd(value % 32) == 1 ==> Executable(Now().(cmd := Now().cmd[0 := value])))
      modifies this, cmdBuf, execBuf, resultBuf
      ensures Valid()
      ensures var s := old(Now());
        var t := s.(cmdId := value, cmdPos := 0, cmd := s.cmd[0 := value], cmdLen := BytesInCmd(value % 32) - 1);
        && Sound(t) && (t.cmdLen == 0 ==> Executable(t))
        && var u := if t.cmdLen == 0 then Execute(t) else t;
           Now() == u.(mainStat := if u.mainStat / 16 % 2 == 1 then u.mainStat else u.mainStat + 16)
    {
      hide Execute, BytesInCmd, Executable;
      ghost var s := Now();
      OpenCommand(value);
      SameExecutable(s.(cmd := s.cmd[0 := value]), Now());
      if cmdLen == 0 {
        ExecuteCommand();
      }
      if mainStat / 16 % 2 != 1 {
        mainStat := mainStat + 16;
      }
    }

    method OpenCommand(value: byte)
      requires Valid()
      modifies `cmdId, `cmdPos, `cmdLen, cmdBuf
      ensures Valid()
      ensures var s := old(Now());
        Now() == s.(cmdId := value, cmdPos := 0, cmd := s.cmd[0 := value], cmdLen := BytesInCmd(value % 32) - 1)
    {
      hide BytesInCmd;
      cmdId := value;
      cmdPos := 0;
      cmdBuf[0] := value;
      cmdLen := BytesInCmd(value % 32) - 1;
      assert cmdBuf[..] == old(cmdBuf[..])[0 := value];
    }

    method MoreCommand(value: byte)
      requires Valid() && 0 <= cmdPos < 19
      modifies `cmdPos, `cmdLen, cmdBuf
      ensures Valid()
      ensures var s := old(Now());
        Now() == s.(cmdPos := s.cmdPos + 1, cmd := s.cmd[s.cmdPos + 1 := value], cmdLen := s.cmdLen - 1)
    {
      cmdPos := cmdPos + 1;
      cmdBuf[cmdPos] := value;
      cmdLen := cmdLen - 1;
      assert cmdBuf[..] == old(cmdBuf[..])[cmdPos := value];
    }

    /** fdc_write_data. */
    method PutData(value: byte)
      requires Valid() && CanPut(Now(), value)
      modifies this, cmdBuf, execBuf, resultBuf
      ensures old(Valid() && CanPut(Now(), value)) && Valid() && Now() == WriteData(old(Now()), value)
    {
      hide Execute, BytesInCmd, Executable, AfterExecByte, WriteLen;
      ghost var s := Now();
      ClearInterrupt();
      if mainStat / 32 % 2 == 1 {
        TakeExecByte(value);
        FinishExecByte();
        return;
      }
      if cmdId >= 0 && cmdLen <= 0 {
        cmdId := -1;
        return;
      }
      if cmdId < 0 {
        SameExecutable(s.(cmd := s.cmd[0 := value]), Now().(cmd := Now().cmd[0 := value]));
        FirstCommandByte(value);
        return;
      }
      MoreCommand(value);
      SameExecutable(s.(cmd := s.cmd[s.cmdPos + 1 := value]), Now());
      if cmdLen == 0 {
        ExecuteCommand();
      }
    }

    method GiveExecByte() returns (v: int)
      requires Valid() && 0 <= execPos < EXEC_SIZE
      modifies `execPos, `execLen
      ensures Valid() && v == old(Now()).exec[old(execPos)]
      ensures Now() == old(Now()).(execPos := old(execPos) + 1, execLen := old(execLen) - 1)
    {
      v := execBuf[execPos];
      execPos := execPos + 1;
      execLen := execLen - 1;
    }

    method GiveResult() returns (v: int)
      requires Valid() && 0 <= resultPos < 20
      modifies `resultPos, `resultLen
      ensures Valid() && v == old(Now()).result[old(resultPos)]
      ensures Now() == old(Now()).(resultPos := old(resultPos) + 1, resultLen := old(resultLen) - 1)
    {
      v := resultBuf[resultPos];
      resultPos := resultPos + 1;
      resultLen := resultLen - 1;
    }

    /** fdc_read_data. */
    method GetData() returns (v: int)
      requires Valid() && CanGet(Now())
      modifies this, resultBuf
      ensures old(Valid() && CanGet(Now())) && Valid() && (Now(), v) == ReadData(old(Now()))
    {
      hide AfterExecByte, EndResult, WriteLen;
      ClearInterrupt();
      if mainStat / 128 % 2 == 1 {
        if mainStat / 32 % 2 == 1 {
          v := GiveExecByte();
          FinishExecByte();
          return;
        }
        v := GiveResult();
        if resultLen == 0 {
          EndResultPhase();
        }
        return;
      }
      v := SelectBit(mainStat, unit);
    }

    /** fdc_tick; what the interrupt routine does is not modelled. */
    method Clock()
      requires Valid()
      modifies `countdown
      ensures Valid() && Now() == Tick(old(Now()))
    {
      if countdown == 0 {
        return;
      }
      countdown := countdown - 1;
    }

    /** fdc_reset: idle, with every register and every buffer cleared; the drives are those given. */
    constructor (units: seq<Drive>)
      requires |units| == 4
      ensures Valid() && Now().mainStat == 0x80 && Now().cmdId < 0 && Now().drives == units && Now().dor < 0
      ensures interrupting == 0 && countdown == 0 && lastId == 0 && specify1 == 0 && specify2 == 0
      ensures st0 == 0 && st1 == 0 && st2 == 0 && st3 == 0 && unit == 0 && side == 0
      ensures cmdLen == 0 && cmdPos == 0 && execLen == 0 && execPos == 0 && resultLen == 0 && resultPos == 0
      ensures forall v :: v in cmdBuf[..] || v in execBuf[..] || v in resultBuf[..] ==> v == 0
      ensures fresh(cmdBuf) && fresh(execBuf) && fresh(resultBuf)
    {
      mainStat, interrupting, countdown, lastId, writeDeleted := 0x80, 0, 0, 0, 0;
      specify1, specify2 := 0, 0;
      cmdId, cmdLen, cmdPos, execLen, execPos, resultLen, resultPos := -1, 0, 0, 0, 0, 0, 0;
      st0, st1, st2, st3, unit, side, dor := 0, 0, 0, 0, 0, 0, -1;
      dorDrive, drives := [0, 1, 2, 3], units;
      cmdBuf := new byte[20](i => 0);
      execBuf := new byte[EXEC_SIZE](i => 0);
      resultBuf := new byte[20](i => 0);
    }
  }

  /** The seven result bytes go to the front of the result buffer. */
  method CopyResults(buf: array<byte>, x: seq<byte>)
    requires buf.Length == 20 && |x| == 7
    modifies buf
    ensures buf[..] == x + old(buf[..])[7..]
  {
    var i := 0;
    while i < 7
      invariant 0 <= i <= 7 && buf[..i] == x[..i] && buf[i..] == old(buf[..])[i..]
    {
      buf[i] := x[i];
      i := i + 1;
    }
    assert buf[..] == buf[..i] + buf[i..];
  }

  lemma SameExecutable(s: Chip, t: Chip)
    requires Sound(s) && Sound(t) && s.cmd == t.cmd
    ensures Executable(s) == Executable(t)
  {
  }

  /** The loop of fdc_read leaves the command code alone. */
  lemma {:induction false} ReadKeepsCommand(s: Chip, count: nat, deleted: int, err: DriveErr)
    requires Sound(s) && Room(s.execLen, count, ReadLen(s.cmd))
    ensures |s.cmd| == 20 && |ReadSectors(s, count, deleted, err).chip.cmd| == 20
    ensures ReadSectors(s, count, deleted, err).chip.cmd[0] == s.cmd[0]
    decreases count
  {
    hide TakeSector, Answer, ReadLen;
    if count > 0 {
      RoomStep(s.execLen, count, ReadLen(s.cmd));
      var reply := Answer(CurDrive(s), s.cmd, s.side, deleted);
      var t := TakeSector(s, reply);
      if !Hard(reply.err) {
        NextLen(t.cmd);
        ReadKeepsCommand(t.(execLen := t.execLen + ReadLen(s.cmd), cmd := NextSector(t.cmd)), count - 1,
          reply.deleted, reply.err);
      }
    }
  }

  lemma CommandSize(s: Chip)
    requires Sound(s)
    ensures |s.cmd| == 20
  {
  }

  lemma NextLen(cmd: seq<byte>)
    requires |cmd| == 20
    ensures ReadLen(NextSector(cmd)) == ReadLen(cmd)
  {
  }
}
