/** The run-length layer of the Squeeze codec: the symbols rle_stream hands to its writer, and the
    expansion wrbyte performs (lib/libdsk/compsq.c). */
module SqRle {
  import opened Bits

  const RLECODE := 0x90
  const SQ_EOF := 0x100

  // ---------------------------------------------------------------- encoding

  /** One character written plainly; the marker byte is escaped. */
  function Plain(ch: int): seq<int> {
    if ch == RLECODE then [ch, 0] else [ch]
  }

  function Plains(ch: int, n: nat): seq<int> {
    if n == 0 then [] else Plain(ch) + Plains(ch, n - 1)
  }

  /** rle_flush: what a run of run characters ch is written as. */
  function Flush(ch: int, run: nat): seq<int> {
    if run > 3 && ch != RLECODE then [ch, RLECODE, run] else Plains(ch, run)
  }

  /** rle_stream from the state (ch, run) on, with the end-of-file symbol last. */
  function Stream(input: seq<byte>, ch: int, run: nat): (r: seq<int>)
    decreases |input|
  {
    if input == [] then Flush(ch, run) + Flush(SQ_EOF, 1)
    else if input[0] == ch then
      if run + 1 == 0xFF then Flush(ch, run + 1) + Stream(input[1..], -1, 0)
      else Stream(input[1..], ch, run + 1)
    else Flush(ch, run) + Stream(input[1..], input[0], 1)
  }

  ghost predicate RunOk(ch: int, run: nat) {
    run < 0xFF && (if run == 0 then ch == -1 else 0 <= ch < 256)
  }

  // ---------------------------------------------------------------- decoding

  /** The state of wrbyte: the byte held back (-1 for none), whether a marker has just been read, and
      the bytes written. */
  datatype Expander = Expander(ch: int, marked: bool, out: seq<byte>)

  /** wrbyte; None where it reports an error. */
  function WrByte(d: Expander, b: byte): (r: Option<Expander>)
    requires -1 <= d.ch < 256
    ensures r.Some? ==> -1 <= r.value.ch < 256
  {
    if d.marked then
      if b == 0 then
        Some(Expander(-1, false, d.out + Held(d) + [RLECODE]))
      else if d.ch == -1 then None
      else Some(Expander(-1, false, d.out + Repeat(d.ch as byte, b)))
    else if b == RLECODE then Some(d.(marked := true))
    else Some(Expander(b, false, d.out + Held(d)))
  }

  /** The byte held back, if any. */
  function Held(d: Expander): seq<byte>
    requires -1 <= d.ch < 256
  {
    if d.ch == -1 then [] else [d.ch]
  }

  function WrAll(d: Expander, bs: seq<int>): (r: Option<Expander>)
    requires -1 <= d.ch < 256 && forall i :: 0 <= i < |bs| ==> 0 <= bs[i] < 256
    ensures r.Some? ==> -1 <= r.value.ch < 256
    decreases |bs|
  {
    if bs == [] then Some(d)
    else
      match WrByte(d, bs[0])
      case None => None
      case Some(e) => WrAll(e, bs[1..])
  }

  /** Everything d stands for. */
  function Text(d: Expander): seq<byte>
    requires -1 <= d.ch < 256
  {
    d.out + Held(d)
  }

  ghost predicate AllBytes(bs: seq<int>) {
    forall i :: 0 <= i < |bs| ==> 0 <= bs[i] < 256
  }

  /** bs, expanded from the unmarked state d, adds exactly the bytes x. */
  ghost predicate ExpandsAt(bs: seq<int>, x: seq<byte>, d: Expander) {
    AllBytes(bs) && (-1 <= d.ch < 256 && !d.marked ==>
      var r := WrAll(d, bs); r.Some? && !r.value.marked && Text(r.value) == Text(d) + x)
  }

  ghost predicate Expands(bs: seq<int>, x: seq<byte>) {
    AllBytes(bs) && forall d: Expander :: ExpandsAt(bs, x, d)
  }

  lemma {:induction false} WrAllConcat(d: Expander, a: seq<int>, b: seq<int>)
    requires -1 <= d.ch < 256 && AllBytes(a) && AllBytes(b)
    ensures AllBytes(a + b)
    ensures WrAll(d, a + b) == (var r := WrAll(d, a); if r.None? then None else WrAll(r.value, b))
    decreases |a|
  {
    if a == [] {
      assert a + b == b;
    } else {
      assert (a + b)[1..] == a[1..] + b;
      if WrByte(d, a[0]).Some? {
        WrAllConcat(WrByte(d, a[0]).value, a[1..], b);
      }
    }
  }

  lemma ConcatAt(a: seq<int>, x: seq<byte>, b: seq<int>, y: seq<byte>, d: Expander)
    requires Expands(a, x) && Expands(b, y)
    ensures ExpandsAt(a + b, x + y, d)
  {
    hide WrAll, Text;
    assert ExpandsAt(a, x, d);
    if -1 <= d.ch < 256 && !d.marked {
      var e := WrAll(d, a).value;
      assert ExpandsAt(b, y, e);
      WrAllConcat(d, a, b);
      assert Text(d) + x + y == Text(d) + (x + y);
    }
  }

  lemma ExpandsConcat(a: seq<int>, x: seq<byte>, b: seq<int>, y: seq<byte>)
    requires Expands(a, x) && Expands(b, y)
    ensures Expands(a + b, x + y)
  {
    hide ExpandsAt;
    forall d: Expander
      ensures ExpandsAt(a + b, x + y, d)
    {
      ConcatAt(a, x, b, y, d);
    }
  }

  lemma ExpandsNone()
    ensures Expands([], [])
  {
    forall d: Expander
      ensures ExpandsAt([], [], d)
    {
      if -1 <= d.ch < 256 {
        assert Text(d) + [] == Text(d);
      }
    }
  }

  lemma PlainAt(ch: byte, d: Expander)
    ensures ExpandsAt(Plain(ch), [ch], d)
  {
    if -1 <= d.ch < 256 && !d.marked {
      var e := WrByte(d, ch).value;
      if ch == RLECODE {
        assert Plain(ch)[1..] == [0] && [0][1..] == [];
        assert WrAll(d, Plain(ch)) == WrAll(e, [0]);
        assert WrAll(e, [0]) == WrAll(WrByte(e, 0).value, []);
      } else {
        assert Plain(ch)[1..] == [];
        assert WrAll(d, Plain(ch)) == WrAll(e, []);
      }
    }
  }

  lemma PlainExpands(ch: byte)
    ensures Expands(Plain(ch), [ch])
  {
    hide ExpandsAt;
    forall d: Expander
      ensures ExpandsAt(Plain(ch), [ch], d)
    {
      PlainAt(ch, d);
    }
  }

  lemma {:induction false} PlainsExpand(ch: byte, n: nat)
    ensures Expands(Plains(ch, n), Repeat(ch, n))
  {
    if n == 0 {
      ExpandsNone();
    } else {
      hide Expands;
      PlainExpands(ch);
      PlainsExpand(ch, n - 1);
      ExpandsConcat(Plain(ch), [ch], Plains(ch, n - 1), Repeat(ch, n - 1));
    }
  }

  lemma RunAt(ch: byte, n: byte, d: Expander)
    requires ch != RLECODE && n > 0
    ensures ExpandsAt([ch, RLECODE, n], Repeat(ch, n), d)
  {
    hide Repeat;
    if -1 <= d.ch < 256 && !d.marked {
      var e := WrByte(d, ch).value;
      var f := WrByte(e, RLECODE).value;
      var g := WrByte(f, n).value;
      WrAllCons(g, [], n, f);
      WrAllCons(f, [n], RLECODE, e);
      WrAllCons(e, [RLECODE, n], ch, d);
      assert [ch] + ([RLECODE] + [n]) == [ch, RLECODE, n] && [n] + [] == [n];
    }
  }

  lemma WrAllCons(e: Expander, bs: seq<int>, b: byte, d: Expander)
    requires -1 <= d.ch < 256 && AllBytes(bs) && WrByte(d, b) == Some(e)
    ensures AllBytes([b] + bs) && WrAll(d, [b] + bs) == WrAll(e, bs)
  {
    assert ([b] + bs)[1..] == bs;
  }

  lemma RunExpands(ch: byte, n: byte)
    requires ch != RLECODE && n > 0
    ensures Expands([ch, RLECODE, n], Repeat(ch, n))
  {
    hide ExpandsAt;
    forall d: Expander
      ensures ExpandsAt([ch, RLECODE, n], Repeat(ch, n), d)
    {
      RunAt(ch, n, d);
    }
  }

  lemma FlushExpands(ch: int, run: nat)
    requires run <= 0xFF && (run > 0 ==> 0 <= ch < 256)
    ensures Expands(Flush(ch, run), if run == 0 then [] else Repeat(ch as byte, run))
  {
    if run > 3 && ch != RLECODE {
      RunExpands(ch, run);
    } else if run > 0 {
      PlainsExpand(ch, run);
    } else {
      ExpandsNone();
    }
  }

  /** The bytes a run stands for. */
  function RunBytes(ch: int, run: nat): seq<byte>
    requires run > 0 ==> 0 <= ch < 256
  {
    if run == 0 then [] else Repeat(ch as byte, run)
  }

  /** s is a list of bytes that expands to x, followed by the end-of-file symbol. */
  ghost predicate Carries(s: seq<int>, x: seq<byte>) {
    s != [] && s[|s| - 1] == SQ_EOF && Expands(s[..|s| - 1], x)
  }

  /** The run-length round trip: the stream is a list of bytes, which wrbyte expands to the run in
      hand followed by the input, and then the end-of-file symbol. */
  lemma {:induction false} StreamExpands(input: seq<byte>, ch: int, run: nat)
    requires RunOk(ch, run)
    ensures Carries(Stream(input, ch, run), RunBytes(ch, run) + input)
    decreases |input|
  {
    hide Carries, RunBytes, Flush;
    if input == [] {
      StreamEnd(ch, run);
    } else if input[0] == ch {
      RepeatPush(ch, run);
      assert RunBytes(ch, run + 1) + input[1..] == RunBytes(ch, run) + input;
      if run + 1 == 0xFF {
        StreamExpands(input[1..], -1, 0);
        StreamJoin(ch, run + 1, Stream(input[1..], -1, 0), RunBytes(-1, 0) + input[1..]);
        NoRun(-1);
        assert RunBytes(-1, 0) + input[1..] == input[1..];
      } else {
        StreamExpands(input[1..], ch, run + 1);
      }
    } else {
      StreamExpands(input[1..], input[0], 1);
      RepeatPush(input[0], 0);
      NoRun(input[0]);
      StreamJoin(ch, run, Stream(input[1..], input[0], 1), RunBytes(input[0], 1) + input[1..]);
      assert RunBytes(input[0], 1) + input[1..] == input;
    }
  }

  lemma NoRun(ch: int)
    ensures RunBytes(ch, 0) == []
  {
  }

  lemma StreamEnd(ch: int, run: nat)
    requires RunOk(ch, run)
    ensures Carries(Flush(ch, run) + Flush(SQ_EOF, 1), RunBytes(ch, run) + [])
  {
    hide Expands;
    FlushExpands(ch, run);
    assert Plains(SQ_EOF, 0) == [] && Plains(SQ_EOF, 1) == Plain(SQ_EOF) + [];
    var s := Flush(ch, run) + Flush(SQ_EOF, 1);
    assert s[..|s| - 1] == Flush(ch, run);
    assert RunBytes(ch, run) + [] == RunBytes(ch, run);
  }

  lemma StreamJoin(ch: int, run: nat, s: seq<int>, y: seq<byte>)
    requires run <= 0xFF && (run > 0 ==> 0 <= ch < 256) && Carries(s, y)
    ensures Carries(Flush(ch, run) + s, RunBytes(ch, run) + y)
  {
    hide Expands;
    FlushExpands(ch, run);
    var t := Flush(ch, run) + s;
    assert t[..|t| - 1] == Flush(ch, run) + s[..|s| - 1];
    ExpandsConcat(Flush(ch, run), RunBytes(ch, run), s[..|s| - 1], y);
  }

  lemma RepeatPush(c: int, n: nat)
    requires 0 <= c < 256
    ensures RunBytes(c, n + 1) == RunBytes(c, n) + [c]
  {
    RepeatSnoc(c as byte, n);
  }
}
