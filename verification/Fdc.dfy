/** The uPD765A floppy controller as steps on its registers: what a byte written to or read from the
    data register does, over an abstract drive (lib/lib765/765fdc.c). */
module Fdc {
  import opened Bits

  const EXEC_SIZE := 16384
  const SHORT_TIMEOUT := 1000

  // ---------------------------------------------------------------- the drive

  datatype DriveErr =
    | EOk | ESeekFail | ENoAddr | ENoData | EDataErr | ENoSector | ENotRdy | EReadOnly

  /** A sector transfer asked of a drive: the ID expected, the side, and the flags of the command. */
  datatype Request = Request(
    cyl: byte, head: byte, side: int, sector: byte, len: nat, deleted: int, skip: bool, mfm: bool, multi: bool)

  datatype Reply = Reply(err: DriveErr, data: seq<byte>, deleted: int)

  datatype Write = Write(req: Request, data: seq<byte>)

  /** A disc in a drive: what it answers may depend on the cylinder and on everything written before. */
  datatype Medium = Medium(
    read: (seq<Write>, int, Request) -> Reply,
    write: (seq<Write>, int, Write) -> DriveErr,
    seek: int -> DriveErr)

  datatype Drive = Drive(ready: bool, readOnly: bool, status: byte, cylinder: int, log: seq<Write>, medium: Medium)

  // ---------------------------------------------------------------- the registers

  datatype Chip = Chip(
    mainStat: int, interrupting: int, countdown: int, lastId: int, writeDeleted: int, specify1: byte, specify2: byte,
    cmdId: int, cmdLen: int, cmdPos: int, cmd: seq<byte>,
    exec: seq<byte>, execLen: int, execPos: int,
    result: seq<byte>, resultLen: int, resultPos: int,
    st0: int, st1: int, st2: int, st3: int, unit: int, side: int,
    dor: int, dorDrive: seq<int>, drives: seq<Drive>)

  predicate Byte(x: int) {
    0 <= x < 256
  }

  predicate Sound(s: Chip) {
    && |s.cmd| == 20 && |s.exec| == EXEC_SIZE && |s.result| == 20 && |s.drives| == 4 && |s.dorDrive| == 4
    && (forall i :: 0 <= i < 4 ==> 0 <= s.dorDrive[i] < 4)
    && 0 <= s.unit < 4 && Byte(s.st0) && Byte(s.st1) && Byte(s.st2) && Byte(s.st3)
  }

  function SetBit(v: int, bit: int): (r: int)
    requires bit in {1, 2, 4, 8, 16, 32, 64, 128} && Byte(v)
    ensures Byte(r)
  {
    if v / bit % 2 == 1 then v else v + bit
  }

  function ClearBit(v: int, bit: int): (r: int)
    requires bit in {1, 2, 4, 8, 16, 32, 64, 128} && Byte(v)
    ensures Byte(r)
  {
    if v / bit % 2 == 1 then v - bit else v
  }

  function CurDrive(s: Chip): Drive
    requires Sound(s)
  {
    s.drives[s.dorDrive[s.unit]]
  }

  function SetDrive(s: Chip, d: Drive): (r: Chip)
    requires Sound(s)
    ensures Sound(r)
  {
    s.(drives := s.drives[s.dorDrive[s.unit] := d])
  }

  /** bytes_in_cmd. */
  function BytesInCmd(c: int): int {
    if c in {2, 5, 6, 9, 12, 17, 25, 30} then 9
    else if c == 13 then 6
    else if c in {3, 15} then 3
    else if c in {4, 7, 10} then 2
    else 1
  }

  /** A buffer of n bytes, cleared and then filled from the drive. */
  function Fit(data: seq<byte>, n: nat): (r: seq<byte>)
    ensures |r| == n
  {
    if |data| >= n then data[..n] else data + seq(n - |data|, i => 0)
  }

  // ---------------------------------------------------------------- parts of commands

  function DorCheck(s: Chip): (r: Chip)
    requires Sound(s)
    ensures Sound(r)
  {
    s.(dorDrive := if s.dor < 0 then [0, 1, 2, 3] else var d := s.dor % 4; [d, d, d, d])
  }

  /** fdc_isready: the answer is also kept in ST3. */
  function NoteReady(s: Chip): (r: Chip)
    requires Sound(s)
    ensures Sound(r)
  {
    s.(st3 := if CurDrive(s).ready then SetBit(s.st3, 32) else ClearBit(s.st3, 32))
  }

  /** fdc_xlt_error. */
  function XltError(s: Chip, e: DriveErr): (r: Chip)
    requires Sound(s)
    ensures Sound(r)
  {
    match e
    case EOk => s
    case ENotRdy => s.(st0 := SetBit(SetBit(s.st0, 64), 8))
    case ESeekFail => s.(st0 := SetBit(s.st0, 64), st2 := SetBit(s.st2, 2))
    case ENoAddr => s.(st0 := SetBit(s.st0, 64), st2 := SetBit(s.st2, 1))
    case ENoData => s.(st0 := SetBit(s.st0, 64), st1 := SetBit(s.st1, 4))
    case EDataErr => s.(st1 := SetBit(s.st1, 32), st2 := SetBit(s.st2, 32))
    case ENoSector => s.(st0 := SetBit(s.st0, 64), st1 := SetBit(SetBit(s.st1, 128), 2))
    case EReadOnly => s.(st0 := SetBit(s.st0, 64), st1 := SetBit(s.st1, 2))
  }

  /** fdc_results_7. */
  function Results7(s: Chip): (r: Chip)
    requires Sound(s)
    ensures Sound(r)
  {
    s.(result := [s.st0, s.st1, s.st2, s.cmd[2], s.cmd[3], s.cmd[4], s.cmd[5]] + s.result[7..], mainStat := 0xD0)
  }

  /** fdc_end_result_phase. */
  function EndResult(s: Chip): (r: Chip)
    requires Sound(s)
    ensures Sound(r)
  {
    s.(mainStat := 0x80, interrupting := if s.interrupting < 3 then 0 else s.interrupting, cmdId := -1)
  }

  /** fdc_error. */
  function InvalidCommand(s: Chip): (r: Chip)
    requires Sound(s)
    ensures Sound(r)
  {
    var v := s.st0 % 64 + 128;
    s.(st0 := v, mainStat := 0xD0, resultLen := 1, resultPos := 0, result := s.result[0 := v])
  }

  function ResultInterrupt(s: Chip): Chip {
    s.(countdown := SHORT_TIMEOUT, interrupting := 1)
  }

  function ExecInterrupt(s: Chip): Chip {
    s.(countdown := SHORT_TIMEOUT, interrupting := 2)
  }

  /** fdc_get_drive. */
  function GetDrive(s: Chip): (r: Chip)
    requires Sound(s)
    ensures Sound(r)
  {
    var c: int := s.cmd[1];
    s.(unit := c % 4, side := c / 4 % 2, st0 := s.st0 - s.st0 % 8 + c % 8, st3 := s.st3 - s.st3 % 8 + c % 8)
  }

  function FreshStatus(s: Chip): (r: Chip)
    requires Sound(s)
    ensures Sound(r)
  {
    s.(st0 := 0, st1 := 0, st2 := 0)
  }

  /** The length of a sector on reading: DTL counts only when N is 0. */
  function ReadLen(cmd: seq<byte>): nat
    requires |cmd| >= 9
  {
    if cmd[5] == 0 && cmd[8] < 255 then cmd[8] else 128 * Pow2(cmd[5])
  }

  function WriteLen(cmd: seq<byte>): nat
    requires |cmd| >= 9
  {
    if cmd[8] < 255 then cmd[8] else 128 * Pow2(cmd[5])
  }

  function Ask(cmd: seq<byte>, side: int, len: nat, deleted: int): Request
    requires |cmd| >= 9
  {
    Request(cmd[2], cmd[3], side, cmd[4], len, deleted,
      cmd[0] / 32 % 2 == 1, cmd[0] / 64 % 2 == 1, cmd[0] / 128 % 2 == 1)
  }

  /** fdc_write_end. */
  function WriteEnd(s: Chip): (r: Chip)
    requires Sound(s) && WriteLen(s.cmd) <= EXEC_SIZE
    ensures Sound(r)
  {
    var d := CurDrive(s);
    var n := WriteLen(s.cmd);
    var w := Write(Ask(s.cmd, s.side, n, s.writeDeleted), s.exec[..n]);
    var e := d.medium.write(d.log, d.cylinder, w);
    ResultInterrupt(Results7(XltError(SetDrive(s, d.(log := d.log + [w])), e)))
  }

  /** fdc_end_execution_phase, for the commands modelled here. */
  function EndExec(s: Chip): (r: Chip)
    requires Sound(s) && (s.cmd[0] % 32 in {5, 9} ==> WriteLen(s.cmd) <= EXEC_SIZE)
    ensures Sound(r)
  {
    var t := s.(mainStat := 0xD0, resultPos := 0);
    var c := s.cmd[0] % 32;
    if c == 6 || c == 12 then ResultInterrupt(t.(resultLen := 7))
    else if c == 5 || c == 9 then WriteEnd(t).(resultLen := 7)
    else t
  }

  // ---------------------------------------------------------------- READ DATA

  /** A transfer of count sectors of n bytes, after the bytes already there, fits the buffer. */
  predicate Room(used: int, count: nat, n: nat) {
    0 <= used && used + count * n <= EXEC_SIZE
  }

  lemma RoomStep(used: int, count: nat, n: nat)
    requires Room(used, count, n) && count > 0
    ensures used + n <= EXEC_SIZE && Room(used + n, count - 1, n)
  {
    assert count * n == (count - 1) * n + n;
  }

  /** How many sectors READ DATA asks for: from R to EOT. */
  function SectorCount(cmd: seq<byte>): nat
    requires |cmd| >= 9
  {
    if cmd[4] > cmd[6] then 0 else cmd[6] as int - cmd[4] as int + 1
  }

  function NextSector(cmd: seq<byte>): (r: seq<byte>)
    requires |cmd| >= 9
    ensures |r| == |cmd| && forall i :: 0 <= i < |cmd| && i != 4 ==> r[i] == cmd[i]
  {
    cmd[4 := (cmd[4] as int + 1) % 256]
  }

  datatype ReadOutcome = ReadOutcome(chip: Chip, err: DriveErr)

  predicate Hard(e: DriveErr) {
    e != EOk && e != EDataErr
  }

  /** What the drive answers; it is asked only if it is ready. */
  function Answer(d: Drive, cmd: seq<byte>, side: int, deleted: int): Reply
    requires |cmd| >= 9
  {
    if d.ready then d.medium.read(d.log, d.cylinder, Ask(cmd, side, ReadLen(cmd), deleted))
    else Reply(ENotRdy, [], deleted)
  }

  /** One sector of READ DATA. */
  function TakeSector(s: Chip, reply: Reply): (r: Chip)
    requires Sound(s) && 0 <= s.execLen && s.execLen + ReadLen(s.cmd) <= EXEC_SIZE
    ensures Sound(r) && r.cmd == s.cmd && r.execLen == s.execLen
  {
    var t := XltError(NoteReady(s.(exec := Overwrite(s.exec, s.execLen, Fit(reply.data, ReadLen(s.cmd))))), reply.err);
    if reply.deleted != 0 then t.(st2 := SetBit(t.st2, 64)) else t
  }

  /** The loop of fdc_read. */
  function ReadSectors(s: Chip, count: nat, deleted: int, err: DriveErr): (r: ReadOutcome)
    requires Sound(s) && Room(s.execLen, count, ReadLen(s.cmd))
    ensures Sound(r.chip)
    decreases count
  {
    if count == 0 then ReadOutcome(s, err)
    else
      var n := ReadLen(s.cmd);
      RoomStep(s.execLen, count, n);
      var reply := Answer(CurDrive(s), s.cmd, s.side, deleted);
      var t := TakeSector(s, reply);
      if Hard(reply.err) then ReadOutcome(t, reply.err)
      else ReadSectors(t.(execLen := t.execLen + n, cmd := NextSector(t.cmd)), count - 1, reply.deleted, reply.err)
  }

  /** fdc_read. */
  function ReadCmd(s: Chip, deleted: int): (r: Chip)
    requires Sound(s) && s.cmd[0] % 32 in {6, 12} && Room(0, SectorCount(s.cmd), ReadLen(s.cmd))
    ensures Sound(r)
  {
    var o := ReadSectors(GetDrive(FreshStatus(s).(lastId := 0)).(execLen := 0), SectorCount(s.cmd), deleted, EOk);
    var t := Results7(o.chip);
    if Hard(o.err) then ResultInterrupt(t.(mainStat := 0xD0, resultPos := 0, resultLen := 7))
    else ExecInterrupt(t).(mainStat := 0xF0, execPos := 0)
  }

  // ---------------------------------------------------------------- the other commands

  /** fdc_write. */
  function WriteCmd(s: Chip, deleted: int): (r: Chip)
    requires Sound(s) && WriteLen(s.cmd) <= EXEC_SIZE
    ensures Sound(r)
  {
    var n := WriteLen(s.cmd);
    var t := NoteReady(GetDrive(FreshStatus(s).(lastId := 0, writeDeleted := deleted))
      .(execLen := n, exec := Overwrite(s.exec, 0, seq(n, i => 0))));
    var d := CurDrive(t);
    if !d.ready || d.readOnly then
      ResultInterrupt(Results7(XltError(t, if !d.ready then ENotRdy else EReadOnly)).(resultPos := 0, resultLen := 7))
    else ExecInterrupt(t).(mainStat := 0xB0, execPos := 0)
  }

  /** fdc_recalibrate and fdc_seek, which differ in the cylinder only. */
  function SeekTo(s: Chip, cylinder: int): (r: Chip)
    requires Sound(s)
    ensures Sound(r)
  {
    var t := EndResult(GetDrive(FreshStatus(s).(lastId := 0))).(countdown := SHORT_TIMEOUT, interrupting := 4);
    MoveHead(NoteReady(t.(st2 := ClearBit(t.st2, 2), st0 := SetBit(t.st0, 32))), cylinder)
  }

  /** The end of a seek: the drive moves, or the status says why not. */
  function MoveHead(u: Chip, cylinder: int): (r: Chip)
    requires Sound(u)
    ensures Sound(r)
  {
    var d := CurDrive(u);
    if !d.ready then u.(st0 := SetBit(SetBit(u.st0, 64), 8))
    else if d.medium.seek(cylinder) != EOk then u.(st2 := SetBit(u.st2, 2), st0 := SetBit(u.st0, 64))
    else SetDrive(u, d.(cylinder := cylinder))
  }

  /** fdc_sense_int. */
  function SenseInt(s: Chip): (r: Chip)
    requires Sound(s) && s.cmd[0] % 32 == 8
    ensures Sound(r)
  {
    var t :=
      if s.interrupting > 2 then s.(result := s.result[0 := s.st0][1 := CurDrive(s).cylinder % 256], resultLen := 2)
      else s.(st0 := 0x80, result := s.result[0 := 0x80], resultLen := 1);
    EndExec(t).(countdown := 0, interrupting := 0)
  }

  /** fdc_sense_drive. */
  function SenseDrive(s: Chip): (r: Chip)
    requires Sound(s) && s.cmd[0] % 32 == 4
    ensures Sound(r)
  {
    var t := GetDrive(s);
    var v := CurDrive(t).status as int;
    var st3 := v - v % 8 + (if t.side != 0 then 4 else 0) + t.unit;
    EndExec(t.(st3 := st3, result := t.result[0 := st3], resultLen := 1))
  }

  /** The command is one of those modelled, and its transfer fits the buffer. */
  predicate Executable(s: Chip)
    requires Sound(s)
  {
    var c := s.cmd[0] % 32;
    && c !in {2, 10, 13, 17, 25, 30}
    && (c in {5, 9} ==> WriteLen(s.cmd) <= EXEC_SIZE)
    && (c in {6, 12} ==> Room(0, SectorCount(s.cmd), ReadLen(s.cmd)))
  }

  /** fdc_execute. */
  function Execute(s: Chip): (r: Chip)
    requires Sound(s) && Executable(s)
    ensures Sound(r)
  {
    var d := DorCheck(s);
    var t := d.(st0 := ClearBit(d.st0, 64));
    var c := t.cmd[0] % 32;
    if c == 3 then EndResult(t.(specify1 := t.cmd[1], specify2 := t.cmd[2]))
    else if c == 4 then SenseDrive(t)
    else if c == 5 then WriteCmd(t, 0)
    else if c == 6 then ReadCmd(t, 0)
    else if c == 7 then SeekTo(t, 0)
    else if c == 8 then SenseInt(t)
    else if c == 9 then WriteCmd(t, 1)
    else if c == 12 then ReadCmd(t, 1)
    else if c == 15 then SeekTo(t, t.cmd[2])
    else InvalidCommand(t)
  }

  // ---------------------------------------------------------------- the data register

  function ClearPending(s: Chip): (r: Chip)
    requires Sound(s)
    ensures Sound(r)
  {
    if 0 < s.interrupting < 4 then s.(countdown := 0, interrupting := 0) else s
  }

  predicate InExec(s: Chip) {
    s.mainStat / 32 % 2 == 1
  }

  /** The end of an execution-phase byte: switch to the result phase when it was the last, and ask for
      an interrupt unless a seek is waiting to report. */
  function AfterExecByte(s: Chip): (r: Chip)
    requires Sound(s) && (s.cmd[0] % 32 in {5, 9} ==> WriteLen(s.cmd) <= EXEC_SIZE)
    ensures Sound(r)
  {
    var t := if s.execLen == 0 then ResultInterrupt(EndExec(s)) else s;
    if 0 <= t.interrupting < 3 then t.(countdown := SHORT_TIMEOUT) else t
  }

  /** Where the next byte written may go: the host keeps to the protocol. */
  predicate CanPut(s: Chip, v: byte)
    requires Sound(s)
  {
    if InExec(s) then
      && 0 <= s.execPos < EXEC_SIZE && s.cmd[0] % 32 !in {17, 25, 30}
      && (s.cmd[0] % 32 in {5, 9} ==> WriteLen(s.cmd) <= EXEC_SIZE)
    else if s.cmdId >= 0 && s.cmdLen <= 0 then true
    else if s.cmdId < 0 then BytesInCmd(v % 32) == 1 ==> Executable(s.(cmd := s.cmd[0 := v]))
    else 0 <= s.cmdPos < 19 && (s.cmdLen == 1 ==> Executable(s.(cmd := s.cmd[s.cmdPos + 1 := v])))
  }

  /** fdc_write_data. */
  function WriteData(s0: Chip, v: byte): (r: Chip)
    requires Sound(s0) && CanPut(s0, v)
    ensures Sound(r)
  {
    var s := ClearPending(s0);
    if InExec(s) then
      AfterExecByte(s.(exec := s.exec[s.execPos := v], execPos := s.execPos + 1, execLen := s.execLen - 1))
    else if s.cmdId >= 0 && s.cmdLen <= 0 then s.(cmdId := -1)
    else if s.cmdId < 0 then
      var t := s.(cmdId := v, cmdPos := 0, cmd := s.cmd[0 := v], cmdLen := BytesInCmd(v % 32) - 1);
      var u := if t.cmdLen == 0 then Execute(t) else t;
      u.(mainStat := if u.mainStat / 16 % 2 == 1 then u.mainStat else u.mainStat + 16)
    else
      var t := s.(cmdPos := s.cmdPos + 1, cmd := s.cmd[s.cmdPos + 1 := v], cmdLen := s.cmdLen - 1);
      if t.cmdLen == 0 then Execute(t) else t
  }

  predicate CanGet(s: Chip)
    requires Sound(s)
  {
    s.mainStat / 128 % 2 == 1 ==>
      if InExec(s) then 0 <= s.execPos < EXEC_SIZE && s.cmd[0] % 32 in {6, 12} else 0 <= s.resultPos < 20
  }

  /** fdc_read_data. */
  function ReadData(s0: Chip): (r: (Chip, int))
    requires Sound(s0) && CanGet(s0)
    ensures Sound(r.0)
  {
    var s := ClearPending(s0);
    if s.mainStat / 128 % 2 == 1 then
      if InExec(s) then
        (AfterExecByte(s.(execPos := s.execPos + 1, execLen := s.execLen - 1)), s.exec[s.execPos])
      else
        var t := s.(resultPos := s.resultPos + 1, resultLen := s.resultLen - 1);
        (if t.resultLen == 0 then EndResult(t) else t, s.result[s.resultPos])
    else (s, SelectBit(s.mainStat, s.unit))
  }

  /** The main status register with the bit of the current unit set. */
  function SelectBit(m: int, unit: int): int {
    var bit := if unit == 0 then 1 else if unit == 1 then 2 else if unit == 2 then 4 else 8;
    if m / bit % 2 == 1 then m else m + bit
  }

  /** fdc_tick. */
  function Tick(s: Chip): (r: Chip)
    requires Sound(s)
    ensures Sound(r)
  {
    if s.countdown == 0 then s else s.(countdown := s.countdown - 1)
  }
}
