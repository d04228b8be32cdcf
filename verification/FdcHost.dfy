/** A host at the registers of a floppy controller: whole READ DATA and WRITE DATA exchanges, byte by
    byte, on the controller as it changes in place (lib/lib765/765fdc.c). */
module FdcHost {
  import opened Bits
  import opened Fdc
  import opened FdcStatus
  import opened FdcExchange
  import opened FdcWrite
  import opened FdcController

  /** n ticks of the clock. */
  method Wait(fdc: Controller, n: nat)
    requires fdc.Valid()
    modifies fdc`countdown
    ensures fdc.Valid() && fdc.Now() == Ticks(old(fdc.Now()), n)
  {
    hide Sound, Tick;
    ghost var s := fdc.Now();
    var i := 0;
    while i < n
      invariant 0 <= i <= n && fdc.Valid() && Sound(s) && Ticks(fdc.Now(), n - i) == Ticks(s, n)
    {
      fdc.Clock();
      i := i + 1;
    }
  }

  /** Write bytes to the data register, gaps[i] ticks before byte i. */
  method SendBytes(fdc: Controller, bytes: seq<byte>, gaps: seq<nat>)
    requires fdc.Valid() && |gaps| == |bytes| && Send(fdc.Now(), bytes, gaps).Some?
    modifies fdc, fdc.cmdBuf, fdc.execBuf, fdc.resultBuf
    ensures fdc.Valid() && old(Sound(fdc.Now())) && Send(old(fdc.Now()), bytes, gaps) == Some(fdc.Now())
  {
    hide Sound, WriteData, CanPut, Ticks;
    ghost var s := fdc.Now();
    var i := 0;
    assert bytes[0..] == bytes && gaps[0..] == gaps;
    while i < |bytes|
      invariant 0 <= i <= |bytes| && fdc.Valid() && Sound(s)
      invariant Send(fdc.Now(), bytes[i..], gaps[i..]) == Send(s, bytes, gaps)
      invariant Send(s, bytes, gaps).Some?
    {
      assert bytes[i..][1..] == bytes[i + 1..] && gaps[i..][1..] == gaps[i + 1..];
      Wait(fdc, gaps[i]);
      fdc.PutData(bytes[i]);
      i := i + 1;
    }
  }

  /** Read bytes from the data register. */
  method ReceiveBytes(fdc: Controller, gaps: seq<nat>) returns (x: seq<int>)
    requires fdc.Valid() && Receive(fdc.Now(), gaps).Some?
    modifies fdc, fdc.cmdBuf, fdc.execBuf, fdc.resultBuf
    ensures fdc.Valid() && old(Sound(fdc.Now())) && Receive(old(fdc.Now()), gaps) == Some((fdc.Now(), x))
  {
    hide Sound, ReadData, CanGet, Ticks;
    ghost var s := fdc.Now();
    x := [];
    var i := 0;
    assert gaps[0..] == gaps;
    ReceivedFirst(Receive(s, gaps));
    while i < |gaps|
      invariant 0 <= i <= |gaps| && fdc.Valid() && Sound(s) && Receive(s, gaps).Some?
      invariant Received(Receive(fdc.Now(), gaps[i..]), x) == Receive(s, gaps)
    {
      assert gaps[i..][1..] == gaps[i + 1..];
      Wait(fdc, gaps[i]);
      ghost var y := x;
      var v := fdc.GetData();
      x := x + [v];
      ReceivedMore(Receive(fdc.Now(), gaps[i + 1..]), y, v);
      i := i + 1;
    }
    assert gaps[i..] == [];
    assert x + [] == x;
  }

  /** What is received, with x received before. */
  function Received(r: Option<(Chip, seq<int>)>, x: seq<int>): Option<(Chip, seq<int>)> {
    match r
    case None => None
    case Some(v) => Some((v.0, x + v.1))
  }

  lemma ReceivedFirst(r: Option<(Chip, seq<int>)>)
    ensures Received(r, []) == r
  {
    if r.Some? {
      assert [] + r.value.1 == r.value.1;
    }
  }

  lemma ReceivedMore(r: Option<(Chip, seq<int>)>, x: seq<int>, v: int)
    ensures Received(r, x + [v]) == Received(match r case None => None case Some(w) => Some((w.0, [v] + w.1)), x)
  {
    if r.Some? {
      assert (x + [v]) + r.value.1 == x + ([v] + r.value.1);
    }
  }

  /** READ DATA: the nine bytes of the command; the data, if the main status asks for more of them; the
      seven results. The host gets exactly the bytes of the sectors R to EOT, or none when one fails for
      good, and learns from the results what the drive answered. */
  method ReadSectorsOfDisc(fdc: Controller, c: seq<byte>, g: seq<nat>, h: seq<nat>, k: seq<nat>)
    returns (data: seq<int>, results: seq<int>)
    requires fdc.Valid() && Idle(fdc.Now()) && |c| == 9 && c[0] % 32 in {6, 12} && |g| == 9 && |k| == 7
    requires SectorCount(c) > 0 && 0 < ReadLen(c) && SectorCount(c) * ReadLen(c) <= EXEC_SIZE
    requires |h| == SectorCount(c) * ReadLen(c)
    modifies fdc, fdc.cmdBuf, fdc.execBuf, fdc.resultBuf
    ensures fdc.Valid() && Idle(fdc.Now()) && fdc.drives == old(fdc.drives)
    ensures old(Sound(fdc.Now()))
    ensures var d := Addressed(old(fdc.Now()), c); var deleted := if c[0] % 32 == 12 then 1 else 0;
      var rs := Replies(d, c, SideOf(c), SectorCount(c), deleted);
      && results == ReadResults(c, rs)
      && data == if Failed(Errors(rs)) then [] else SectorsData(d, c, SideOf(c), SectorCount(c), deleted)
  {
    hide Send, Receive, Idle, Sound, SectorsData, ReadLen, SectorCount, Addressed, SideOf, Replies, Errors, Failed;
    hide Passed, ReadResults;
    ghost var s := fdc.Now();
    ReadExchange(s, c, g, h, k);
    SendBytes(fdc, c, g);
    data := [];
    if fdc.mainStat / 32 % 2 == 1 {
      data := ReceiveBytes(fdc, h);
    }
    results := ReceiveBytes(fdc, k);
  }

  /** WRITE DATA: the nine bytes of the command; the data, if the main status asks for them; the seven
      results. A drive that is ready and not read-only is handed exactly those data and nothing else, no
      other drive is handed anything, and the results tell what became of them. */
  method WriteSectorOfDisc(fdc: Controller, c: seq<byte>, data: seq<byte>, g: seq<nat>, h: seq<nat>, k: seq<nat>)
    returns (results: seq<int>)
    requires fdc.Valid() && Idle(fdc.Now()) && |c| == 9 && c[0] % 32 in {5, 9} && |g| == 9 && |k| == 7
    requires 0 < WriteLen(c) <= EXEC_SIZE && |data| == WriteLen(c) == |h|
    modifies fdc, fdc.cmdBuf, fdc.execBuf, fdc.resultBuf
    ensures fdc.Valid() && Idle(fdc.Now()) && old(Sound(fdc.Now()))
    ensures var s := old(fdc.Now()); var d := Addressed(s, c); var deleted := if c[0] % 32 == 9 then 1 else 0;
      if !d.ready then fdc.drives == s.drives && results == WriteResults(c, ENotRdy)
      else if d.readOnly then fdc.drives == s.drives && results == WriteResults(c, EReadOnly)
      else fdc.drives == AfterWrite(s, c, deleted, data) && results == WriteResults(c, WriteAnswer(s, c, deleted, data))
  {
    hide Send, Receive, Idle, Sound, WriteLen, Addressed, AfterWrite, WriteAnswer, WriteResults;
    ghost var s := fdc.Now();
    ghost var d := Addressed(s, c);
    if d.ready && !d.readOnly {
      WriteExchange(s, c, data, g, h, k);
    } else {
      WriteRefused(s, c, g, k);
    }
    SendBytes(fdc, c, g);
    if fdc.mainStat / 32 % 2 == 1 {
      SendBytes(fdc, data, h);
    }
    results := ReceiveBytes(fdc, k);
  }
}
