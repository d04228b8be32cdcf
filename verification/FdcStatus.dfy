/** What the status registers tell the host about the answers of a drive (lib/lib765/765fdc.c,
    fdc_xlt_error and its callers). */
module FdcStatus {
  import opened Bits
  import opened Fdc

  // ---------------------------------------------------------------- the bits and what they mean

  /** One of the errors ends a command. */
  predicate Failed(es: seq<DriveErr>) {
    exists i :: 0 <= i < |es| && Hard(es[i])
  }

  function Flag(b: bool, v: int): int {
    if b then v else 0
  }

  /** ST0 for the errors es; x is the unit and the head. */
  function Stat0(x: int, es: seq<DriveErr>): int {
    x + Flag(Failed(es), 64) + Flag(ENotRdy in es, 8)
  }

  function Stat1(es: seq<DriveErr>): int {
    Flag(ENoSector in es, 128) + Flag(EDataErr in es, 32) + Flag(ENoData in es, 4)
      + Flag(ENoSector in es || EReadOnly in es, 2)
  }

  /** marked: a sector of deleted data was seen. */
  function Stat2(es: seq<DriveErr>, marked: bool): int {
    Flag(marked, 64) + Flag(EDataErr in es, 32) + Flag(ESeekFail in es, 2) + Flag(ENoAddr in es, 1)
  }

  ghost predicate Shows(s: Chip, x: int, es: seq<DriveErr>, marked: bool) {
    s.st0 == Stat0(x, es) && s.st1 == Stat1(es) && s.st2 == Stat2(es, marked)
  }

  /** The host can tell the errors of a drive apart, and abnormal end from a data error. */
  lemma ErrorsApart(x: int, e: DriveErr, f: DriveErr)
    requires 0 <= x < 8
    ensures Stat0(x, [e]) == Stat0(x, [f]) && Stat1([e]) == Stat1([f]) && Stat2([e], false) == Stat2([f], false) ==>
      e == f
    ensures Stat0(x, [e]) / 64 % 2 == 1 <==> Hard(e)
  {
    OneFailed(e);
    OneFailed(f);
  }

  lemma OneFailed(e: DriveErr)
    ensures Failed([e]) <==> Hard(e)
  {
    assert [e][0] == e;
  }

  lemma FailedPush(es: seq<DriveErr>, e: DriveErr)
    ensures Failed(es + [e]) <==> Failed(es) || Hard(e)
  {
    var fs := es + [e];
    assert fs[|es|] == e;
    assert forall i :: 0 <= i < |es| ==> fs[i] == es[i];
    if Failed(fs) && !Hard(e) {
      var i :| 0 <= i < |fs| && Hard(fs[i]);
      assert Hard(es[i]);
    }
    if Failed(es) {
      var i :| 0 <= i < |es| && Hard(es[i]);
      assert Hard(fs[i]);
    }
  }

  /** Without a failure only a data error can have been noted. */
  lemma SoftErrors(es: seq<DriveErr>)
    requires !Failed(es)
    ensures forall e :: e in es ==> e == EOk || e == EDataErr
  {
  }

  /** Noting an error adds its bits to those of the errors before it. */
  lemma ErrorShown(s: Chip, x: int, es: seq<DriveErr>, marked: bool, e: DriveErr)
    requires Sound(s) && 0 <= x < 8 && Shows(s, x, es, marked) && !Failed(es)
    ensures Shows(XltError(s, e), x, es + [e], marked)
  {
    hide Failed;
    FailedPush(es, e);
    SoftErrors(es);
    assert forall f :: f in es + [e] <==> f in es || f == e;
  }

  /** It changes nothing else. */
  lemma ErrorKeeps(s: Chip, e: DriveErr)
    requires Sound(s)
    ensures var t := XltError(s, e); t == s.(st0 := t.st0, st1 := t.st1, st2 := t.st2)
  {
  }

  lemma MarkShown(s: Chip, x: int, es: seq<DriveErr>, marked: bool)
    requires Sound(s) && Shows(s, x, es, marked)
    ensures Shows(s.(st2 := SetBit(s.st2, 64)), x, es, true)
  {
  }

  lemma NothingShown(s: Chip, x: int)
    requires s.st0 == x && s.st1 == 0 && s.st2 == 0
    ensures Shows(s, x, [], false) && !Failed([])
  {
  }

  // ---------------------------------------------------------------- READ DATA

  /** The answers of the drive to the sectors of a READ DATA, up to the first that fails for good. */
  function Replies(d: Drive, cmd: seq<byte>, side: int, count: nat, deleted: int): (rs: seq<Reply>)
    requires |cmd| >= 9
    decreases count
  {
    if count == 0 then []
    else
      var reply := Answer(d, cmd, side, deleted);
      [reply] + if Hard(reply.err) then [] else Replies(d, NextSector(cmd), side, count - 1, reply.deleted)
  }

  function Errors(rs: seq<Reply>): (es: seq<DriveErr>)
    ensures |es| == |rs|
  {
    seq(|rs|, i requires 0 <= i < |rs| => rs[i].err)
  }

  predicate Marked(rs: seq<Reply>) {
    exists i :: 0 <= i < |rs| && rs[i].deleted != 0
  }

  /** How many of them came with their data. */
  function Passed(rs: seq<Reply>): nat {
    if Failed(Errors(rs)) then |rs| - 1 else |rs|
  }

  /** The seven result bytes of READ DATA: the status of all the answers, and the ID of the command with
      the sector number of the one that failed, or of the one behind the last. */
  function ReadResults(c: seq<byte>, rs: seq<Reply>): (r: seq<int>)
    requires |c| == 9
    ensures |r| == 7
  {
    var es := Errors(rs);
    [Stat0(c[1] % 8, es), Stat1(es), Stat2(es, Marked(rs)), c[2], c[3], (c[4] + Passed(rs)) % 256, c[5]]
  }

  lemma ErrorsPush(rs: seq<Reply>, r: Reply)
    ensures Errors(rs + [r]) == Errors(rs) + [r.err]
    ensures Marked(rs + [r]) <==> Marked(rs) || r.deleted != 0
  {
    var qs := rs + [r];
    assert qs[|rs|] == r;
    assert forall i :: 0 <= i < |rs| ==> qs[i] == rs[i];
    assert Errors(qs) == Errors(rs) + [r.err];
    if Marked(rs) {
      var i :| 0 <= i < |rs| && rs[i].deleted != 0;
      assert qs[i].deleted != 0;
    }
  }

  ghost predicate Told(s: Chip, x: int, rs: seq<Reply>) {
    Shows(s, x, Errors(rs), Marked(rs))
  }

  lemma TakeSectorTold(s: Chip, x: int, rs: seq<Reply>, reply: Reply)
    requires Sound(s) && 0 <= s.execLen && s.execLen + ReadLen(s.cmd) <= EXEC_SIZE
    requires 0 <= x < 8 && Told(s, x, rs) && !Failed(Errors(rs))
    ensures Told(TakeSector(s, reply), x, rs + [reply])
    ensures Failed(Errors(rs + [reply])) <==> Hard(reply.err)
  {
    hide ReadLen, Failed, Errors, Marked, XltError, SetBit, ClearBit, Stat0, Stat1, Stat2;
    var t := NoteReady(s.(exec := Overwrite(s.exec, s.execLen, Fit(reply.data, ReadLen(s.cmd)))));
    ErrorsPush(rs, reply);
    FailedPush(Errors(rs), reply.err);
    ErrorShown(t, x, Errors(rs), Marked(rs), reply.err);
    if reply.deleted != 0 {
      MarkShown(XltError(t, reply.err), x, Errors(rs + [reply]), Marked(rs));
    }
  }

  ghost predicate ReadTold(s: Chip, t: Chip, x: int, rs: seq<Reply>, qs: seq<Reply>)
    requires Sound(s) && Sound(t)
  {
    Told(t, x, rs + qs) && t.cmd[4] as int == (s.cmd[4] + Passed(rs + qs) - |rs|) % 256
  }

  /** The read loop leaves the status of all the answers, those before it included, and R at the sector
      that failed or behind the last. */
  lemma {:induction false} ReadSectorsTold(s: Chip, count: nat, deleted: int, err: DriveErr, x: int, rs: seq<Reply>)
    requires Sound(s) && Room(s.execLen, count, ReadLen(s.cmd)) && 0 <= x < 8 && Told(s, x, rs) && !Failed(Errors(rs))
    ensures ReadTold(s, ReadSectors(s, count, deleted, err).chip, x, rs,
      Replies(CurDrive(s), s.cmd, s.side, count, deleted))
    decreases count
  {
    hide TakeSector, Answer, ReadLen, Failed, Errors, Told, Hard, ReadTold;
    if count == 0 {
      NoneTold(s, x, rs);
    } else {
      var n := ReadLen(s.cmd);
      RoomStep(s.execLen, count, n);
      var reply := Answer(CurDrive(s), s.cmd, s.side, deleted);
      var t := TakeSector(s, reply);
      TakeSectorTold(s, x, rs, reply);
      if Hard(reply.err) {
        LastTold(s, t, x, rs, reply);
        assert Replies(CurDrive(s), s.cmd, s.side, count, deleted) == [reply];
      } else {
        var u := t.(execLen := t.execLen + n, cmd := NextSector(t.cmd));
        TookSector(s, reply, u, x, rs + [reply]);
        ReadSectorsTold(u, count - 1, reply.deleted, reply.err, x, rs + [reply]);
        NextTold(s, u, ReadSectors(u, count - 1, reply.deleted, reply.err).chip, x, rs, reply,
          Replies(CurDrive(u), u.cmd, u.side, count - 1, reply.deleted));
      }
    }
  }

  lemma NoneTold(s: Chip, x: int, rs: seq<Reply>)
    requires Sound(s) && Told(s, x, rs) && !Failed(Errors(rs))
    ensures ReadTold(s, s, x, rs, [])
  {
    hide Failed, Errors, Told;
    assert rs + [] == rs;
  }

  lemma LastTold(s: Chip, t: Chip, x: int, rs: seq<Reply>, reply: Reply)
    requires Sound(s) && Sound(t) && t.cmd == s.cmd && Told(t, x, rs + [reply]) && Failed(Errors(rs + [reply]))
    ensures ReadTold(s, t, x, rs, [reply])
  {
    hide Failed, Errors, Told;
  }

  lemma NextTold(s: Chip, u: Chip, t: Chip, x: int, rs: seq<Reply>, reply: Reply, qs: seq<Reply>)
    requires Sound(s) && Sound(u) && Sound(t) && u.cmd[4] as int == (s.cmd[4] as int + 1) % 256
    requires ReadTold(u, t, x, rs + [reply], qs)
    ensures ReadTold(s, t, x, rs, [reply] + qs)
  {
    hide Passed, Told;
    assert (rs + [reply]) + qs == rs + ([reply] + qs);
    NextNumber(s.cmd[4], u.cmd[4], Passed(rs + ([reply] + qs)) - |rs|);
  }

  lemma NextNumber(r: int, next: int, k: int)
    requires next == (r + 1) % 256
    ensures (next + (k - 1)) % 256 == (r + k) % 256
  {
    assert r + 1 == 256 * ((r + 1) / 256) + next;
  }

  lemma TookSector(s: Chip, reply: Reply, u: Chip, x: int, rs: seq<Reply>)
    requires Sound(s) && 0 <= s.execLen && s.execLen + ReadLen(s.cmd) <= EXEC_SIZE
    requires var t := TakeSector(s, reply);
      u == t.(execLen := t.execLen + ReadLen(s.cmd), cmd := NextSector(t.cmd)) && Told(t, x, rs)
    ensures Sound(u) && Told(u, x, rs) && u.cmd[4] as int == (s.cmd[4] as int + 1) % 256
    ensures ReadLen(u.cmd) == ReadLen(s.cmd) && u.execLen == s.execLen + ReadLen(s.cmd)
    ensures u.cmd == NextSector(s.cmd) && CurDrive(u) == CurDrive(s) && u.side == s.side
  {
    hide ReadLen, TakeSector;
    var t := TakeSector(s, reply);
    NextSectorLen(t.cmd);
    TakeSectorDrives(s, reply);
  }

  lemma NextSectorLen(cmd: seq<byte>)
    requires |cmd| >= 9
    ensures ReadLen(NextSector(cmd)) == ReadLen(cmd)
  {
  }

  lemma TakeSectorDrives(s: Chip, reply: Reply)
    requires Sound(s) && 0 <= s.execLen && s.execLen + ReadLen(s.cmd) <= EXEC_SIZE
    ensures var t := TakeSector(s, reply);
      t.drives == s.drives && t.dorDrive == s.dorDrive && t.unit == s.unit && t.side == s.side
  {
    hide ReadLen;
  }
}
