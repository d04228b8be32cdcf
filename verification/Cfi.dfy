/** The run-length coding of CFI tracks, written into a buffer of length plus four bytes and read back
    in two passes (lib/libdsk/drvcfi.c). */
module Cfi {
  import opened Bits

  const MAX_RUN := 0x7FFF

  // ---------------------------------------------------------------- saving

  /** The length of the run at the front, of at most limit bytes. */
  function RunLength(s: seq<byte>, limit: nat): (n: nat)
    requires s != [] && limit > 0
    ensures 1 <= n <= |s| && n <= limit
    decreases |s|
  {
    if limit > 1 && |s| > 1 && s[1] == s[0] then 1 + RunLength(s[1..], limit - 1) else 1
  }

  function Word(v: nat): seq<byte> {
    [v % 256, v / 256 % 256]
  }

  function Literal(x: seq<byte>): seq<byte> {
    if x == [] then [] else Word(|x|) + x
  }

  function Run(n: nat, b: byte): seq<byte> {
    [n % 256, n / 256 % 128 + 128, b]
  }

  /** The blocks cfi_save_track writes, when the bytes pend have been passed over and not yet written. */
  function Encode(pend: seq<byte>, rest: seq<byte>): seq<byte>
    decreases |rest|
  {
    if rest == [] then Literal(pend)
    else
      var n := RunLength(rest, MAX_RUN);
      if n > 5 then Literal(pend) + Run(n, rest[0]) + Encode([], rest[n..])
      else Encode(pend + [rest[0]], rest[1..])
  }

  /** The blocks take at most two bytes more than the data, so with the length word the output never
      goes beyond the buffer of length plus four; a track of one byte fills that buffer. */
  lemma {:induction false} EncodeFits(pend: seq<byte>, rest: seq<byte>)
    ensures |Encode(pend, rest)| <= |pend| + |rest| + 2
    decreases |rest|
  {
    if rest != [] {
      var n := RunLength(rest, MAX_RUN);
      if n > 5 {
        EncodeFits([], rest[n..]);
      } else {
        EncodeFits(pend + [rest[0]], rest[1..]);
      }
    }
  }

  lemma EncodeTight(b: byte)
    ensures |Encode([], [b])| == |[b]| + 2
  {
    assert [b][1..] == [] && [] + [b] == [b];
    assert RunLength([b], MAX_RUN) == 1;
    assert Encode([b], []) == Literal([b]);
  }

  // ---------------------------------------------------------------- loading

  /** The first block of a buffer, and the rest; None for what cfi_size_track refuses. */
  function Block(b: seq<byte>): (r: Option<(seq<byte>, seq<byte>)>)
    requires b != []
    ensures r.Some? ==> |r.value.1| < |b|
  {
    if |b| < 2 then None
    else
      var low: int, high: int := b[0], b[1];
      if high >= 128 then
        if |b| < 3 then None else Some((Repeat(b[2], low + 256 * (high - 128)), b[3..]))
      else
        var n := low + 256 * high;
        if |b| < 2 + n || n == 0 then None else Some((b[2..2 + n], b[2 + n..]))
  }

  /** The data of a compressed buffer: the second pass. */
  function Decode(b: seq<byte>): Option<seq<byte>>
    decreases |b|
  {
    if b == [] then Some([])
    else
      match Block(b)
      case None => None
      case Some(x) =>
        match Decode(x.1)
        case None => None
        case Some(y) => Some(x.0 + y)
  }

  /** The length the first pass counts. */
  function Measure(b: seq<byte>): Option<nat>
    decreases |b|
  {
    if b == [] then Some(0)
    else
      match Block(b)
      case None => None
      case Some(x) =>
        match Measure(x.1)
        case None => None
        case Some(n) => Some(|x.0| + n)
  }

  /** The second pass writes exactly as many bytes as the first counted. */
  lemma {:induction false} PassesAgree(b: seq<byte>)
    ensures Measure(b).Some? <==> Decode(b).Some?
    ensures Decode(b).Some? ==> Measure(b).value == |Decode(b).value|
    decreases |b|
  {
    hide Block;
    if b != [] && Block(b).Some? {
      PassesAgree(Block(b).value.1);
    }
  }

  lemma LiteralDecodes(x: seq<byte>, tail: seq<byte>)
    requires 0 < |x| < 0x8000
    ensures Block(Literal(x) + tail) == Some((x, tail))
  {
    var b := Literal(x) + tail;
    assert b[0] == |x| % 256 && b[1] == |x| / 256 % 256;
    assert b[2..2 + |x|] == x && b[2 + |x|..] == tail;
  }

  lemma RunDecodes(n: nat, c: byte, tail: seq<byte>)
    requires 0 < n < 0x8000
    ensures Block(Run(n, c) + tail) == Some((Repeat(c, n), tail))
  {
    hide Repeat;
    RunWord(n);
    var b := Run(n, c) + tail;
    assert b[0] == n % 256 && b[1] == n / 256 % 128 + 128 && b[2] == c;
    assert b[3..] == tail;
  }

  lemma RunWord(n: nat)
    requires n < 0x8000
    ensures n % 256 + 256 * (n / 256 % 128) == n
  {
  }

  lemma {:induction false} RunIsRepeat(s: seq<byte>, limit: nat)
    requires s != [] && limit > 0
    ensures s[..RunLength(s, limit)] == Repeat(s[0], RunLength(s, limit))
    decreases |s|
  {
    if limit > 1 && |s| > 1 && s[1] == s[0] {
      RunIsRepeat(s[1..], limit - 1);
      assert s[..RunLength(s, limit)] == [s[0]] + s[1..][..RunLength(s[1..], limit - 1)];
    } else {
      assert Repeat(s[0], 1) == [s[0]] + Repeat(s[0], 0);
    }
  }

  /** A literal block, if there is anything to write, goes in front of what follows. */
  lemma FrontDecodes(pend: seq<byte>, tail: seq<byte>, data: seq<byte>)
    requires |pend| < 0x8000 && Decode(tail) == Some(data)
    ensures Decode(Literal(pend) + tail) == Some(pend + data)
  {
    hide Block;
    if pend == [] {
      assert [] + tail == tail && [] + data == data;
    } else {
      LiteralDecodes(pend, tail);
    }
  }

  /** The round trip of the blocks. */
  lemma {:induction false} EncodeDecodes(pend: seq<byte>, rest: seq<byte>)
    requires |pend| + |rest| < 0x8000
    ensures Decode(Encode(pend, rest)) == Some(pend + rest)
    decreases |rest|
  {
    hide Block, Decode, Literal, RunLength, Repeat, Run;
    if rest == [] {
      NothingDecodes();
      FrontDecodes(pend, [], []);
      assert Literal(pend) + [] == Literal(pend);
    } else {
      var n := RunLength(rest, MAX_RUN);
      if n > 5 {
        EncodeDecodes([], rest[n..]);
        RunCase(pend, rest, n, Encode([], rest[n..]));
      } else {
        EncodeDecodes(pend + [rest[0]], rest[1..]);
        assert pend + [rest[0]] + rest[1..] == pend + rest;
      }
    }
  }

  lemma RunCase(pend: seq<byte>, rest: seq<byte>, n: nat, e: seq<byte>)
    requires |pend| + |rest| < 0x8000 && rest != [] && n == RunLength(rest, MAX_RUN)
    requires Decode(e) == Some([] + rest[n..])
    ensures Decode(Literal(pend) + Run(n, rest[0]) + e) == Some(pend + rest)
  {
    hide Block, Decode, Literal, RunLength, Repeat, Run, Encode;
    RunIsRepeat(rest, MAX_RUN);
    assert [] + rest[n..] == rest[n..];
    RunInFront(n, rest[0], e, rest[n..]);
    TakeAndDrop(rest, n);
    FrontDecodes(pend, Run(n, rest[0]) + e, rest);
    Assoc(Literal(pend), Run(n, rest[0]), e);
  }

  lemma TakeAndDrop(s: seq<byte>, n: nat)
    requires n <= |s|
    ensures s[..n] + s[n..] == s
  {
  }

  lemma NothingDecodes()
    ensures Decode([]) == Some([])
  {
  }

  lemma RunInFront(n: nat, c: byte, tail: seq<byte>, data: seq<byte>)
    requires 0 < n < 0x8000 && Decode(tail) == Some(data)
    ensures Decode(Run(n, c) + tail) == Some(Repeat(c, n) + data)
  {
    hide Block, Repeat;
    RunDecodes(n, c, tail);
  }

  // ---------------------------------------------------------------- a track in a file

  datatype Loading = Loaded(data: seq<byte>, rest: seq<byte>) | EndOfFile | NotMe

  /** cfi_load_track: the next track of a file, and what follows it. */
  function LoadTrack(f: seq<byte>): Loading {
    if |f| < 2 then EndOfFile
    else
      var low: int, high: int := f[0], f[1];
      var n := low + 256 * high;
      if n < 3 || |f| < 2 + n then NotMe
      else
        match Decode(f[2..2 + n])
        case None => NotMe
        case Some(x) => Loaded(x, f[2 + n..])
  }

  /** What cfi_save_track writes for a track. */
  function SaveTrack(track: seq<byte>): seq<byte> {
    var e := Encode([], track);
    Word(|e|) + e
  }

  lemma {:induction false} EncodeMinimum(pend: seq<byte>, rest: seq<byte>)
    requires pend != [] || rest != []
    ensures |Encode(pend, rest)| >= 3
    decreases |rest|
  {
    if rest != [] && RunLength(rest, MAX_RUN) <= 5 {
      EncodeMinimum(pend + [rest[0]], rest[1..]);
    }
  }

  /** The round trip: a track of 1 to 32767 bytes is loaded from what was saved for it, and loading goes
      on behind it; and the two passes agree on its length. */
  lemma TrackRoundTrip(track: seq<byte>, rest: seq<byte>)
    requires 0 < |track| < 0x8000
    ensures LoadTrack(SaveTrack(track) + rest) == Loaded(track, rest)
    ensures Measure(Encode([], track)) == Some(|track|)
  {
    hide Encode, Decode, Measure, Word;
    var e := Encode([], track);
    EncodeDecodes([], track);
    EncodeFits([], track);
    EncodeMinimum([], track);
    PassesAgree(e);
    assert [] + track == track;
    WordReads(|e|);
    Parts(Word(|e|), e, rest);
  }

  lemma Parts(w: seq<byte>, e: seq<byte>, rest: seq<byte>)
    requires |w| == 2
    ensures var f := w + e + rest; f[0] == w[0] && f[1] == w[1] && f[2..2 + |e|] == e && f[2 + |e|..] == rest
  {
  }

  lemma WordReads(v: nat)
    requires v < 0x1_0000
    ensures |Word(v)| == 2 && Word(v)[0] as int + 256 * Word(v)[1] as int == v
  {
  }

  // ---------------------------------------------------------------- the loops

  lemma RunStep(x: seq<byte>, at: nat, n: nat, limit: nat)
    requires 0 < n && at + n <= |x| && limit > 0
    ensures RunLength(x[at + n - 1..], limit) ==
      if limit > 1 && at + n < |x| && x[at + n] == x[at + n - 1] then 1 + RunLength(x[at + n..], limit - 1) else 1
  {
    var s := x[at + n - 1..];
    assert |s| > 1 ==> s[1..] == x[at + n..];
  }

  /** number_same, on the bytes from a place on. */
  method NumberSame(x: seq<byte>, at: nat) returns (matched: nat)
    requires at < |x|
    ensures matched == RunLength(x[at..], MAX_RUN)
  {
    var m := x[at];
    var c, left := at, |x| - at;
    matched := 1;
    while left > 0
      invariant at <= c < |x| && left == |x| - c && matched == c - at + 1 < MAX_RUN && x[c] == m
      invariant RunLength(x[at..], MAX_RUN) == matched - 1 + RunLength(x[c..], MAX_RUN - matched + 1)
    {
      RunStep(x, at, matched, MAX_RUN - matched + 1);
      c := c + 1;
      left := left - 1;
      if left == 0 {
        break;
      }
      if x[c] != m {
        return;
      }
      matched := matched + 1;
      if matched == MAX_RUN {
        OneLeft(x[c..]);
        return;
      }
    }
  }

  lemma OneLeft(s: seq<byte>)
    requires s != []
    ensures RunLength(s, 1) == 1
  {
  }

  /** Copying bytes into a buffer. */
  method Store(buf: array<byte>, at: nat, x: seq<byte>)
    requires at + |x| <= buf.Length
    modifies buf
    ensures buf[..at + |x|] == old(buf[..at]) + x
  {
    forall i | 0 <= i < |x| {
      buf[at + i] := x[i];
    }
    assert buf[..at] == old(buf[..at]);
  }

  class Track {
    var data: array<byte>
    var length: nat

    constructor ()
      ensures fresh(data) && length == 0
    {
      data := new byte[0];
      length := 0;
    }

    /** cfi_save_track: what is written to the file. Every write to the buffer is within its length. */
    method Save() returns (out: seq<byte>)
      requires data.Length == length
      ensures out == SaveTrack(data[..])
    {
      hide RunLength, Run, Encode, Word;
      var track := data[..];
      var buf := new byte[length + 4];
      var left, rd, base, wr := length, 0, 0, 2;
      assert track[0..0] == [] && track[0..] == track && buf[2..2] == [];
      assert [] + Encode([], track) == Encode([], track);
      while left > 0
        invariant rd + left == length && base <= rd && 2 <= wr <= buf.Length
        invariant buf[2..wr] + Encode(track[base..rd], track[rd..]) == Encode([], track)
        decreases left
      {
        var matched := NumberSame(track, rd);
        if matched > 5 {
          wr := WriteRun(buf, wr, track, base, rd, matched);
          rd := rd + matched;
          base := rd;
          left := left - matched;
        } else {
          SaveLiteral(track, base, rd);
          rd := rd + 1;
          left := left - 1;
        }
      }
      assert track[base..rd] == track[base..];
      wr := WriteLast(buf, wr, track, base);
      out := WriteLength(buf, wr);
    }

    /** cfi_size_track: the first pass counts, the second fills a buffer of the size counted. */
    method Size(buf: seq<byte>, pass: bool) returns (ok: bool)
      requires pass ==> Measure(buf) == Some(length)
      modifies this
      ensures ok == Decode(buf).Some?
      ensures !pass ==> data == old(data) && (ok ==> length == |Decode(buf).value|)
      ensures pass ==> fresh(data) && length == old(length) && Decode(buf) == Some(data[..])
    {
      hide Block;
      PassesAgree(buf);
      var at, wr := 0, 0;
      if pass {
        data := new byte[length];
      } else {
        length := 0;
      }
      assert buf[0..] == buf;
      assert data[..0] == [];
      FilledStart(buf);
      while at < |buf|
        invariant 0 <= at <= |buf| && wr >= 0
        invariant Sized(buf, at, if pass then wr else length)
        invariant pass ==> fresh(data) && length == old(length) && Measure(buf) == Some(length)
        invariant pass ==> wr <= data.Length == length && Filled(buf, at, data[..wr])
        invariant !pass ==> data == old(data)
        decreases |buf| - at
      {
        var block := Block(buf[at..]);
        SizedStep(buf, at, if pass then wr else length);
        if block.None? {
          return false;
        }
        var x := block.value.0;
        if pass {
          FilledStep(buf, at, data[..wr]);
          FilledFits(buf, at, wr, x, length);
          Store(data, wr, x);
          wr := wr + |x|;
        } else {
          length := length + |x|;
        }
        at := |buf| - |block.value.1|;
      }
      assert buf[at..] == [];
      ok := true;
      if pass {
        assert data[..wr] == data[..];
        FilledEnd(buf, data[..]);
      }
    }

    /** cfi_load_track, from the bytes of a file; on success the track holds the data. */
    method Load(f: seq<byte>) returns (r: Loading)
      modifies this
      ensures r == LoadTrack(f)
      ensures r.Loaded? ==> length == data.Length && data[..] == r.data
    {
      hide Decode, Measure;
      if |f| < 2 {
        return EndOfFile;
      }
      var low: int, high: int := f[0], f[1];
      var n := low + 256 * high;
      if n < 3 || |f| < 2 + n {
        return NotMe;
      }
      var buf := f[2..2 + n];
      PassesAgree(buf);
      var ok := Size(buf, false);
      if ok {
        ok := Size(buf, true);
      }
      if !ok {
        return NotMe;
      }
      r := Loaded(data[..], f[2 + n..]);
    }
  }

  /** What the passes keep: n bytes counted so far, and the rest of the buffer still to be looked at. */
  ghost predicate Sized(buf: seq<byte>, at: nat, n: nat)
    requires at <= |buf|
  {
    var m := Measure(buf[at..]);
    if m.None? then Measure(buf).None? else Measure(buf) == Some(n + m.value)
  }

  ghost predicate Filled(buf: seq<byte>, at: nat, x: seq<byte>)
    requires at <= |buf|
  {
    var d := Decode(buf[at..]);
    d.Some? && Decode(buf) == Some(x + d.value)
  }

  lemma FilledStart(buf: seq<byte>)
    ensures Decode(buf).Some? ==> Filled(buf, 0, [])
  {
    assert buf[0..] == buf;
    assert Decode(buf).Some? ==> [] + Decode(buf).value == Decode(buf).value;
  }

  lemma FilledEnd(buf: seq<byte>, x: seq<byte>)
    requires Filled(buf, |buf|, x)
    ensures Decode(buf) == Some(x)
  {
    assert buf[|buf|..] == [] && x + [] == x;
  }

  lemma SizedStep(buf: seq<byte>, at: nat, n: nat)
    requires at < |buf| && Sized(buf, at, n)
    ensures var b := Block(buf[at..]);
      if b.None? then Measure(buf).None?
      else
        var next := |buf| - |b.value.1|;
        at <= next <= |buf| && buf[next..] == b.value.1 && Sized(buf, next, n + |b.value.0|)
  {
    BlockTail(buf[at..]);
    hide Block;
    var b := Block(buf[at..]);
    if b.Some? {
      var k := |buf[at..]| - |b.value.1|;
      assert buf[at..][k..] == buf[at + k..];
    }
  }

  lemma BlockTail(b: seq<byte>)
    requires b != []
    ensures Block(b).Some? ==> Block(b).value.1 == b[|b| - |Block(b).value.1|..]
  {
    hide Repeat;
  }

  lemma FilledStep(buf: seq<byte>, at: nat, x: seq<byte>)
    requires at < |buf| && Filled(buf, at, x)
    ensures var b := Block(buf[at..]);
      && b.Some?
      && var next := |buf| - |b.value.1|;
         at <= next <= |buf| && buf[next..] == b.value.1 && Filled(buf, next, x + b.value.0)
  {
    BlockTail(buf[at..]);
    hide Block;
    var b := Block(buf[at..]).value;
    var k := |buf[at..]| - |b.1|;
    assert buf[at..][k..] == buf[at + k..];
    Assoc(x, b.0, Decode(b.1).value);
  }

  lemma FilledFits(buf: seq<byte>, at: nat, wr: nat, x: seq<byte>, length: nat)
    requires at < |buf| && Measure(buf) == Some(length) && Decode(buf).Some?
    requires exists y: seq<byte> ::
      |y| == wr && Filled(buf, at, y) && Block(buf[at..]).Some? && Block(buf[at..]).value.0 == x
    ensures wr + |x| <= length
  {
    hide Block;
    var y: seq<byte> :| |y| == wr && Filled(buf, at, y)
      && Block(buf[at..]).Some? && Block(buf[at..]).value.0 == x;
    FilledStep(buf, at, y);
    PassesAgree(buf);
  }

  /** The length word in front, and the part of the buffer that goes to the file. */
  method WriteLength(buf: array<byte>, wr: nat) returns (out: seq<byte>)
    requires 2 <= wr <= buf.Length
    modifies buf
    ensures out == Word(wr - 2) + old(buf[2..wr])
  {
    var len := wr - 2;
    buf[0] := len % 256;
    buf[1] := len / 256 % 256;
    assert buf[2..wr] == old(buf[2..wr]);
    out := buf[..len + 2];
    assert out == buf[..2] + buf[2..wr];
  }

  /** A literal block if bytes have been passed over, and the block of a run. */
  method WriteRun(buf: array<byte>, wr: nat, track: seq<byte>, base: nat, rd: nat, matched: nat) returns (next: nat)
    requires base <= rd < |track| && matched == RunLength(track[rd..], MAX_RUN) && matched > 5
    requires 2 <= wr <= buf.Length == |track| + 4
    requires buf[2..wr] + Encode(track[base..rd], track[rd..]) == Encode([], track)
    modifies buf
    ensures rd + matched <= |track| && track[rd + matched..rd + matched] == [] && 2 <= next <= buf.Length
    ensures buf[2..next] + Encode([], track[rd + matched..]) == Encode([], track)
  {
    hide RunLength, Encode, Word;
    SaveRun(buf[2..wr], track, base, rd, matched);
    RoomFor(buf[2..wr], track, base, rd, matched);
    WordSize(rd - base);
    next := wr;
    if rd > base {
      AppendBlock(buf, next, Word(rd - base) + track[base..rd]);
      next := next + (rd - base + 2);
    }
    AppendBlock(buf, next, [matched % 256, matched / 256 % 128 + 128, track[rd]]);
    next := next + 3;
  }

  /** The last literal block, if there is one. */
  method WriteLast(buf: array<byte>, wr: nat, track: seq<byte>, base: nat) returns (next: nat)
    requires base <= |track| && 2 <= wr <= buf.Length == |track| + 4
    requires buf[2..wr] + Encode(track[base..], track[|track|..]) == Encode([], track)
    modifies buf
    ensures 2 <= next <= buf.Length && buf[2..next] == Encode([], track)
  {
    hide Word;
    EncodeFits([], track);
    WordSize(|track| - base);
    next := wr;
    if base < |track| {
      AppendBlock(buf, next, Word(|track| - base) + track[base..]);
      next := next + (|track| - base + 2);
    } else {
      assert buf[2..wr] + [] == buf[2..wr];
    }
  }

  lemma WordSize(v: nat)
    ensures |Word(v)| == 2
  {
  }

  /** Appending to what stands in the buffer from byte 2 on. */
  method AppendBlock(buf: array<byte>, wr: nat, x: seq<byte>)
    requires 2 <= wr && wr + |x| <= buf.Length
    modifies buf
    ensures buf[2..wr + |x|] == old(buf[2..wr]) + x
  {
    ghost var was := buf[..wr];
    Store(buf, wr, x);
    assert buf[2..wr + |x|] == buf[..wr + |x|][2..];
    assert (was + x)[2..] == was[2..] + x;
  }

  lemma SaveRun(out: seq<byte>, track: seq<byte>, base: nat, rd: nat, n: nat)
    requires base <= rd < |track| && n == RunLength(track[rd..], MAX_RUN) && n > 5
    ensures rd + n <= |track| && track[rd + n..rd + n] == []
    ensures out + Encode(track[base..rd], track[rd..]) ==
      (if rd > base then out + (Word(rd - base) + track[base..rd]) else out)
        + Run(n, track[rd]) + Encode([], track[rd + n..])
  {
    hide RunLength, Run, Word;
    var x, e := Literal(track[base..rd]), Encode([], track[rd + n..]);
    assert track[rd..][n..] == track[rd + n..];
    Assoc(out, x + Run(n, track[rd]), e);
    Assoc(out, x, Run(n, track[rd]));
    assert out + [] == out;
  }

  /** The next blocks fit, because the whole output does. */
  lemma RoomFor(out: seq<byte>, track: seq<byte>, base: nat, rd: nat, n: nat)
    requires base <= rd < |track| && n == RunLength(track[rd..], MAX_RUN) && n > 5
    requires out + Encode(track[base..rd], track[rd..]) == Encode([], track)
    ensures |out| + (if rd > base then rd - base + 2 else 0) + 3 <= |track| + 2
  {
    hide RunLength;
    EncodeFits([], track);
    SaveRun(out, track, base, rd, n);
  }

  lemma SaveLiteral(track: seq<byte>, base: nat, rd: nat)
    requires base <= rd < |track| && RunLength(track[rd..], MAX_RUN) <= 5
    ensures Encode(track[base..rd], track[rd..]) == Encode(track[base..rd + 1], track[rd + 1..])
  {
    assert track[base..rd] + [track[rd]] == track[base..rd + 1] && track[rd..][1..] == track[rd + 1..];
  }
}
