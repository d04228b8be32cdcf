/** The Squeeze codec as it runs: the fields of SQ_COMPRESS_DATA and the functions that change them
    (lib/libdsk/compsq.c). Each method is tied to the functions of SqRle, SqTree, SqCodes and SqFormat. */
module Squeeze {
  import opened Bits
  import opened Sums
  import opened SqTree
  import opened SqRle
  import opened SqCodes
  import opened SqFormat

  const ULONG_MAX := 0xFFFF_FFFF_FFFF_FFFF
  const HUF_BITS := 520

  /** The two functions rle_stream is given: huf_counter and huf_encode. */
  datatype Writer = Counter | Encoder

  // ---------------------------------------------------------------- bits in a byte being filled

  /** Setting bit n of a number below 2^n appends a bit to its low bits. */
  lemma {:induction false} LowBitsPush(v: nat, n: nat, bit: bool)
    requires v < Pow2(n)
    ensures v + (if bit then Pow2(n) else 0) < Pow2(n + 1)
    ensures LowBits(v + (if bit then Pow2(n) else 0), n + 1) == LowBits(v, n) + [bit]
  {
    hide Pow2, LowBits;
    var add := if bit then Pow2(n) else 0;
    LowBitsNext(v + add, n);
    NoBits();
    PowNext(n);
    if n == 0 {
      NoPower();
    } else {
      PowNext(n - 1);
      LowBitsNext(v, n - 1);
      LowBitsPush(v / 2, n - 1, bit);
      Assoc([v % 2 == 1], LowBits(v / 2, n - 1), [bit]);
    }
  }

  lemma LowBitsNext(v: nat, n: nat)
    ensures LowBits(v, n + 1) == [v % 2 == 1] + LowBits(v / 2, n)
  {
  }

  lemma PowNext(n: nat)
    ensures Pow2(n + 1) == 2 * Pow2(n)
  {
  }

  lemma NoPower()
    ensures Pow2(0) == 1
  {
  }

  lemma NoBits()
    ensures forall v: nat :: LowBits(v, 0) == []
  {
  }

  lemma {:induction false} LowValBits(v: nat, n: nat)
    requires v < Pow2(n)
    ensures LowVal(LowBits(v, n)) == v
  {
    if n > 0 {
      LowValBits(v / 2, n - 1);
      assert LowBits(v, n)[1..] == LowBits(v / 2, n - 1);
    }
  }

  lemma {:induction false} FileLowSnoc(f: seq<byte>, b: byte)
    ensures FileLow(f + [b]) == FileLow(f) + LowBits(b, 8)
  {
    hide LowBits;
    if f == [] {
      assert f + [b] == [b] && [b][1..] == [];
      assert FileLow([b]) == LowBits(b, 8) + [];
    } else {
      assert (f + [b])[1..] == f[1..] + [b];
      FileLowSnoc(f[1..], b);
    }
  }

  /** Bytes already written and the bits of the one being filled pack to what is written in the end. */
  lemma {:induction false} PackBytes(f: seq<byte>, tail: seq<bool>)
    requires |tail| < 8
    ensures Pack(FileLow(f) + tail) == f + Pack(tail)
  {
    hide LowBits, LowVal;
    if f == [] {
      assert FileLow(f) + tail == tail;
    } else {
      PackBytes(f[1..], tail);
      var b := FileLow(f) + tail;
      assert b[..8] == LowBits(f[0], 8) && b[8..] == FileLow(f[1..]) + tail;
      Pow2Small(8);
      LowValBits(f[0], 8);
      assert f == [f[0]] + f[1..];
    }
  }

  function Reversed<A>(s: seq<A>): (r: seq<A>)
    ensures |r| == |s|
  {
    if s == [] then [] else [s[|s| - 1]] + Reversed(s[..|s| - 1])
  }

  lemma ReversedStep<A>(a: seq<A>, s: seq<A>)
    requires s != []
    ensures a + Reversed(s) == (a + [s[|s| - 1]]) + Reversed(s[..|s| - 1])
  {
    Assoc(a, [s[|s| - 1]], Reversed(s[..|s| - 1]));
  }

  lemma NoneReversed<A>(a: seq<A>, s: seq<A>)
    requires s == []
    ensures a + Reversed(s) == a
  {
  }

  // ---------------------------------------------------------------- counts

  lemma {:induction false} TallyBounded(syms: seq<int>, s: int)
    requires (forall i :: 0 <= i < |syms| ==> 0 <= syms[i] < MAXLEAF) && 0 <= s < MAXLEAF
    ensures 0 <= Tally(syms)[s] <= |syms|
  {
    if syms != [] {
      TallyBounded(syms[..|syms| - 1], s);
    }
  }

  lemma {:induction false} TallySum(syms: seq<int>)
    requires forall i :: 0 <= i < |syms| ==> 0 <= syms[i] < MAXLEAF
    ensures Sum(Tally(syms)) == |syms|
  {
    if syms == [] {
      SumZero(Tally(syms));
    } else {
      var c, s := Tally(syms[..|syms| - 1]), syms[|syms| - 1];
      TallySum(syms[..|syms| - 1]);
      SumChange(c, s, c[s] + 1);
    }
  }

  lemma {:induction false} PlainsShort(ch: int, n: nat)
    ensures |Plains(ch, n)| <= 2 * n
  {
    if n > 0 {
      PlainsShort(ch, n - 1);
    }
  }

  /** Run-length coding at most doubles the input, and adds the end-of-file symbol. */
  lemma {:induction false} StreamShort(input: seq<byte>, ch: int, run: nat)
    ensures |Stream(input, ch, run)| <= 2 * (|input| + run) + 1
    decreases |input|
  {
    PlainsShort(ch, run);
    PlainsShort(ch, run + 1);
    if input == [] {
      assert Plains(SQ_EOF, 1) == Plain(SQ_EOF) + Plains(SQ_EOF, 0);
    } else if input[0] == ch {
      if run + 1 == 0xFF {
        StreamShort(input[1..], -1, 0);
      } else {
        StreamShort(input[1..], ch, run + 1);
      }
    } else {
      StreamShort(input[1..], input[0], 1);
    }
  }

  lemma GrowingSized(h: Huff, cnt: seq<int>)
    requires Growing(h, cnt)
    ensures Sized(h)
  {
  }

  /** Merging keeps the sum of the counts. */
  lemma MergeSum(h: Huff, cnt: seq<int>, a: int, b: int)
    requires Growing(h, cnt) && h.cur > 0 && 0 <= a < SLOTS && 0 <= b < SLOTS && a != b
    requires h.count[a] > 0 && h.count[b] > 0
    ensures Sum(Merge(h, a, b).count) == Sum(h.count)
  {
    hide SlotOk, KidsOk, AddNode, Sum;
    SlotFacts(h, cnt, a);
    SlotFacts(h, cnt, b);
    CurEmpty(h, cnt);
    var w := h.count[a] + h.count[b];
    var c1 := h.count[h.cur := w];
    SumChange(h.count, h.cur, w);
    SumChange(c1, a, 0);
    SumChange(c1[a := 0], b, 0);
  }

  lemma PartBelowSum(s: seq<int>, i: int)
    requires 0 <= i < |s| && forall j :: 0 <= j < |s| ==> s[j] >= 0
    ensures s[i] <= Sum(s)
  {
    SumChange(s, i, 0);
    SumFloor(s[i := 0]);
  }

  lemma {:induction false} SumFloor(s: seq<int>)
    requires forall j :: 0 <= j < |s| ==> s[j] >= 0
    ensures Sum(s) >= 0
  {
    if s != [] {
      SumFloor(s[..|s| - 1]);
    }
  }

  /** Counting the nonzero counts one by one counts the positive ones. */
  lemma PositiveStep(count: seq<int>, n: nat)
    requires n < |count|
    ensures |Positive(count[..n + 1])| == |Positive(count[..n])| + if count[n] != 0 then 1 else 0
  {
    assert count[..n + 1] == count[..n] + [count[n]];
    assert multiset(count[..n] + [count[n]]) == multiset(count[..n]) + multiset{count[n]};
    if count[n] != 0 {
      assert Positive(count[..n + 1]) == Positive(count[..n]) + multiset{count[n]};
    } else {
      assert Positive(count[..n + 1]) == Positive(count[..n]);
    }
  }

  ghost predicate InRange(syms: seq<int>) {
    forall i :: 0 <= i < |syms| ==> 0 <= syms[i] < MAXLEAF
  }

  /** The writer can deal with these symbols, cnt being the counts the codes were made for. */
  ghost predicate Allowed(w: Writer, cnt: seq<int>, syms: seq<int>) {
    InRange(syms) && |syms| < ULONG_MAX && (w == Encoder ==> |cnt| == MAXLEAF && AllCounted(cnt, syms))
  }

  lemma AllowedPrefix(w: Writer, cnt: seq<int>, a: seq<int>, b: seq<int>)
    requires Allowed(w, cnt, a + b)
    ensures Allowed(w, cnt, a)
  {
    forall i | 0 <= i < |a|
      ensures a[i] == (a + b)[i]
    {
    }
  }

  class SqData {
    const input: seq<byte>
    var fpIn: nat
    var fpOut: seq<byte>
    var rleChar: int
    var rleRun: int
    const parent: array<int>
    const left: array<int>
    const right: array<int>
    const count: array<int>
    const leaves: array<int>
    var curNode: int
    var nodeCount: int
    const hufBits: array<bool>
    var nBits: int
    var hufOut: nat
    var nOut: nat
    var ckSum: int

    /** The symbols handed to the writer, the counts they had, and where in the output their codes
        start. */
    ghost var sent: seq<int>
    ghost var cnt: seq<int>
    ghost var base: nat

    ghost predicate Shape() {
      && count.Length == SLOTS && parent.Length == MAXNODE && left.Length == MAXNODE && right.Length == MAXNODE
      && leaves.Length == MAXLEAF && hufBits.Length == HUF_BITS
      && parent != left && parent != right && left != right
      && leaves != parent && leaves != left && leaves != right
      && count != parent && count != left && count != right && count != leaves
    }

    ghost function Snap(): (h: Huff)
      reads this`curNode, count, parent, left, right, leaves
    {
      Huff(count[..], parent[..], left[..], right[..], leaves[..], curNode)
    }

    /** The bits of the codes written so far, those still in huf_out included. */
    ghost function OutBits(): seq<bool>
      requires base <= |fpOut|
      reads this`base, this`fpOut, this`hufOut, this`nOut
    {
      FileLow(fpOut[base..]) + LowBits(hufOut, nOut)
    }

    ghost predicate CountsAre(t: seq<int>)
      requires Shape() && |t| == MAXLEAF
      reads count
    {
      && (forall i :: 0 <= i < MAXNODE ==> count[i] == 0)
      && (forall s :: 0 <= s < MAXLEAF ==> count[s + MAXNODE] == t[s])
    }

    ghost predicate Filling()
      reads this`base, this`fpOut, this`hufOut, this`nOut
    {
      base <= |fpOut| && nOut < 8 && hufOut < Pow2(nOut)
    }

    ghost predicate Encoded()
      reads this`base, this`fpOut, this`hufOut, this`nOut, this`cnt, this`sent, this`curNode
      reads count, parent, left, right, leaves
    {
      && Finished(Snap(), cnt) && AllCounted(cnt, sent) && Filling()
      && OutBits() == Codes(Snap(), cnt, sent)
    }

    /** The writer has dealt with all the symbols it was given. */
    ghost predicate Reflects(w: Writer)
      requires Shape()
      reads this`base, this`fpOut, this`hufOut, this`nOut, this`cnt, this`sent, this`curNode
      reads count, parent, left, right, leaves
    {
      && InRange(sent)
      && match w
         case Counter => CountsAre(Tally(sent))
         case Encoder => Encoded()
    }

    /** What a writer leaves alone. */
    twostate predicate Kept(w: Writer)
      reads this`base, this`fpOut, count
    {
      match w
      case Counter => fpOut == old(fpOut)
      case Encoder =>
        && count[..] == old(count[..])
        && (base <= |old(fpOut)| ==> base <= |fpOut| && fpOut[..base] == old(fpOut)[..base])
    }

    // -------------------------------------------------------------- huf_counter and huf_encode

    method HufCounter(ch: int) returns (e: Option<Error>)
      requires Shape() && Reflects(Counter) && Allowed(Counter, cnt, sent + [ch])
      modifies this`sent, count
      ensures e == None && sent == old(sent) + [ch] && Reflects(Counter)
    {
      assert (sent + [ch])[|sent|] == ch;
      assert (sent + [ch])[..|sent|] == sent;
      if 0 <= ch <= SQ_EOF {
        TallyBounded(sent, ch);
        count[ch + MAXNODE] := (count[ch + MAXNODE] + 1) % (ULONG_MAX + 1);
        sent := sent + [ch];
        e := None;
      } else {
        e := Some(Compress);
      }
    }

    /** pushbit. */
    method PushBit(bit: bool)
      requires Shape() && 0 <= nBits
      modifies this`nBits, hufBits
      ensures nBits == old(nBits) + (if old(nBits) < HUF_BITS then 1 else 0)
      ensures old(nBits) < HUF_BITS ==> hufBits[..nBits] == old(hufBits[..nBits]) + [bit]
    {
      if nBits / 8 >= HUF_BITS / 8 {
        return;
      }
      hufBits[nBits] := bit;
      nBits := nBits + 1;
    }

    /** The body of the loop of flipbits. */
    method PutBit(bit: bool)
      requires Filling()
      modifies this`fpOut, this`hufOut, this`nOut
      ensures Filling() && OutBits() == old(OutBits()) + [bit]
      ensures |old(fpOut)| <= |fpOut| && fpOut[..|old(fpOut)|] == old(fpOut)
    {
      hide FileLow, LowBits, Pow2;
      LowBitsPush(hufOut, nOut, bit);
      NoBits();
      if bit {
        hufOut := hufOut + Pow2(nOut);
      }
      nOut := nOut + 1;
      if nOut == 8 {
        Pow2Small(8);
        FileLowSnoc(fpOut[base..], hufOut);
        assert (fpOut + [hufOut])[base..] == fpOut[base..] + [hufOut];
        fpOut := fpOut + [hufOut];
        nOut := 0;
        hufOut := 0;
      }
    }

    method FlipBits()
      requires Shape() && Filling() && 0 <= nBits <= HUF_BITS
      modifies this`fpOut, this`hufOut, this`nOut
      ensures Filling() && OutBits() == old(OutBits()) + Reversed(hufBits[..nBits])
      ensures |old(fpOut)| <= |fpOut| && fpOut[..|old(fpOut)|] == old(fpOut)
    {
      hide FileLow, LowBits, Pow2, Reversed;
      var n := nBits - 1;
      while n >= 0
        invariant -1 <= n < nBits && Filling()
        invariant OutBits() + Reversed(hufBits[..n + 1]) == old(OutBits()) + Reversed(hufBits[..nBits])
        invariant |old(fpOut)| <= |fpOut| && fpOut[..|old(fpOut)|] == old(fpOut)
      {
        ReversedStep(OutBits(), hufBits[..n + 1]);
        assert hufBits[..n + 1][..n] == hufBits[..n];
        PutBit(hufBits[n]);
        n := n - 1;
      }
      NoneReversed(OutBits(), hufBits[..0]);
    }

    /** huf_encode: climb from the symbol to the root, then write the bits in reverse. */
    method HufEncode(ch: int) returns (e: Option<Error>)
      requires Shape() && Reflects(Encoder) && Allowed(Encoder, cnt, sent + [ch])
      modifies this`sent, this`fpOut, this`hufOut, this`nOut, this`nBits, hufBits
      ensures e == None && sent == old(sent) + [ch] && Reflects(Encoder) && Kept(Encoder)
    {
      hide Finished, Codes, Code, FileLow, LowBits, Pow2, Reversed;
      assert (sent + [ch])[|sent|] == ch;
      if ch < 0 || ch > SQ_EOF {
        return Some(Compress);
      }
      ghost var h, c := Snap(), cnt;
      e := Climb(ch);
      if e != None {
        return;
      }
      CodesSnoc(h, c, sent, ch);
      FlipBits();
      assert Snap() == h;
      sent := sent + [ch];
    }

    /** What the climb keeps: the chain of slot i, then the bits collected in reverse, is the code. */
    ghost predicate Climbing(h: Huff, c: seq<int>, ch: int, i: int, more: bool)
      requires Finished(h, c) && 0 <= ch < |c| == MAXLEAF && c[ch] > 0 && 0 <= nBits <= hufBits.Length
      reads this, hufBits
    {
      var bits := Reversed(hufBits[..nBits]);
      if more then Hangs(h, c, i) && Chain(h, c, i) + bits == Code(h, c, ch) else bits == Code(h, c, ch)
    }

    /** The loop of huf_encode that collects the bits of a code. */
    method Climb(ch: int) returns (e: Option<Error>)
      requires Shape() && Finished(Snap(), cnt) && 0 <= ch < MAXLEAF && cnt[ch] > 0
      modifies this`nBits, hufBits
      ensures e == None && 0 <= nBits <= HUF_BITS && Reversed(hufBits[..nBits]) == Code(Snap(), cnt, ch)
    {
      hide Finished, EdgeOk, Chain, Code;
      ghost var h, c := Snap(), cnt;
      RootBounds(h, c);
      SymbolHang(h, c, ch);
      var nodePos := leaves[ch];
      nBits := 0;
      var child := -1 - ch;
      ghost var i := ch + MAXNODE;
      var more := true;
      while more
        invariant 0 <= nBits <= HUF_BITS && Climbing(h, c, ch, i, more)
        invariant more ==> 0 <= i < SLOTS && child == Enc(i) && nodePos == Up(h, i)
        decreases if more then 1 + i else 0
      {
        HangFacts(h, c, i);
        nodePos, child, e := ClimbStep(nodePos, child, h, c, ch, i);
        if e != None {
          return;
        }
        i := child;
        more := nodePos < MAXNODE;
      }
      e := None;
    }

    /** One step up: push the bit that tells which child the slot is. */
    method ClimbStep(nodePos: int, child: int, ghost h: Huff, ghost c: seq<int>, ghost ch: int, ghost i: int)
      returns (up: int, node: int, e: Option<Error>)
      requires Shape() && h == Snap() && Finished(h, c) && 0 <= ch < |c| == MAXLEAF && c[ch] > 0
      requires 0 <= nBits <= HUF_BITS && Climbing(h, c, ch, i, true) && child == Enc(i) && nodePos == Up(h, i)
      requires 0 <= nodePos < MAXNODE && 0 <= i < SLOTS
      modifies this`nBits, hufBits
      ensures e == None && node == nodePos && up == parent[nodePos] && 0 <= nBits <= HUF_BITS
      ensures Climbing(h, c, ch, node, up < MAXNODE)
      ensures (up < MAXNODE ==> node == Enc(node) && up == Up(h, node) && node < i)
    {
      hide Finished, EdgeOk, Chain, Code;
      HangFacts(h, c, i);
      ghost var was := hufBits[..nBits];
      CodeRoom(h, c, ch, i, was);
      if left[nodePos] == child {
        PushBit(false);
      } else if right[nodePos] == child {
        PushBit(true);
      } else {
        return 0, 0, Some(Compress);
      }
      PushedChain(h, c, i, was, hufBits[..nBits]);
      up, node, e := parent[nodePos], nodePos, None;
    }

    method Write(w: Writer, ch: int) returns (e: Option<Error>)
      requires Shape() && Reflects(w) && Allowed(w, cnt, sent + [ch])
      modifies this`sent, this`fpOut, this`hufOut, this`nOut, this`nBits, hufBits, count
      ensures e == None && sent == old(sent) + [ch] && Reflects(w) && Kept(w)
    {
      match w {
        case Counter => e := HufCounter(ch);
        case Encoder => e := HufEncode(ch);
      }
    }

    // -------------------------------------------------------------- rle_flush and rle_stream

    /** The characters a flush may meet: a byte, or the end-of-file symbol on its own. */
    ghost predicate Flushable()
      reads this
    {
      0 <= rleRun <= 0xFF && (rleRun > 0 ==> 0 <= rleChar < 256 || (rleChar == SQ_EOF && rleRun == 1))
    }

    method RleFlush(w: Writer) returns (e: Option<Error>)
      requires Shape() && Reflects(w) && Flushable() && Allowed(w, cnt, sent + Flush(rleChar, rleRun))
      modifies this`sent, this`fpOut, this`hufOut, this`nOut, this`nBits, this`rleRun, hufBits, count
      ensures e == None && sent == old(sent) + Flush(rleChar, old(rleRun)) && Reflects(w) && Kept(w) && rleRun == 0
    {
      hide Reflects, Allowed;
      ghost var goal := sent + Flush(rleChar, rleRun);
      e := None;
      if rleRun > 3 && rleChar != RLECODE {
        e := FlushRun(w);
      } else {
        while rleRun != 0
          invariant 0 <= rleRun && e == None && Reflects(w) && Kept(w)
          invariant sent + Plains(rleChar, rleRun) == goal
        {
          e := FlushOne(w, goal, e);
          rleRun := rleRun - 1;
        }
      }
      rleRun := 0;
    }

    /** A run written as the character, the marker and the length. */
    method FlushRun(w: Writer) returns (e: Option<Error>)
      requires Shape() && Reflects(w) && Allowed(w, cnt, sent + [rleChar, RLECODE, rleRun])
      modifies this`sent, this`fpOut, this`hufOut, this`nOut, this`nBits, hufBits, count
      ensures e == None && sent == old(sent) + [rleChar, RLECODE, rleRun] && Reflects(w) && Kept(w)
    {
      hide Reflects, Allowed;
      assert sent + [rleChar, RLECODE, rleRun] == sent + [rleChar] + [RLECODE] + [rleRun];
      AllowedPrefix(w, cnt, sent + [rleChar] + [RLECODE], [rleRun]);
      AllowedPrefix(w, cnt, sent + [rleChar], [RLECODE]);
      e := Write(w, rleChar);
      if e == None {
        e := Write(w, RLECODE);
      }
      if e == None {
        e := Write(w, rleRun);
      }
    }

    /** One round of the loop of rle_flush. */
    method FlushOne(w: Writer, ghost goal: seq<int>, e0: Option<Error>) returns (e: Option<Error>)
      requires Shape() && Reflects(w) && Allowed(w, cnt, goal) && rleRun > 0
      requires sent + Plains(rleChar, rleRun) == goal && e0 == None
      modifies this`sent, this`fpOut, this`hufOut, this`nOut, this`nBits, hufBits, count
      ensures e == None && sent + Plains(rleChar, rleRun - 1) == goal && Reflects(w) && Kept(w)
    {
      hide Reflects, Allowed;
      e := e0;
      ghost var rest := Plains(rleChar, rleRun - 1);
      if rleChar == RLECODE {
        assert goal == sent + [rleChar] + [0] + rest;
        AllowedPrefix(w, cnt, sent + [rleChar] + [0], rest);
        AllowedPrefix(w, cnt, sent + [rleChar], [0]);
      } else {
        assert goal == sent + [rleChar] + rest;
        AllowedPrefix(w, cnt, sent + [rleChar], rest);
      }
      if e == None {
        e := Write(w, rleChar);
      }
      if rleChar == RLECODE && e == None {
        e := Write(w, 0);
      }
    }

    /** What rle_stream keeps: the symbols sent and those still to come are the ones it set out to
        send. */
    ghost predicate Streaming(w: Writer, goal: seq<int>, sum: int)
      requires Shape()
      reads this, count, parent, left, right, leaves
    {
      && Reflects(w) && Allowed(w, cnt, goal) && fpIn <= |input| && rleRun >= 0 && RunOk(rleChar, rleRun)
      && sent + Stream(input[fpIn..], rleChar, rleRun) == goal
      && ckSum == (sum + CheckSum(input[..fpIn])) % 0x1_0000
    }

    /** One round of the loop of rle_stream. */
    method TakeChar(w: Writer, ghost goal: seq<int>, ghost sum: int) returns (e: Option<Error>)
      requires Shape() && Streaming(w, goal, sum) && fpIn < |input|
      modifies this`sent, this`fpOut, this`hufOut, this`nOut, this`nBits
      modifies this`rleRun, this`rleChar, this`fpIn, this`ckSum
      modifies hufBits, count
      ensures e == None && Streaming(w, goal, sum) && Kept(w) && fpIn == old(fpIn) + 1
    {
      hide Reflects, Allowed, CheckSum, Flush;
      var c := input[fpIn];
      ghost var rest := input[fpIn + 1..];
      SumNext(sum, input, fpIn);
      assert input[fpIn..][1..] == rest;
      fpIn := fpIn + 1;
      ckSum := (ckSum + c) % 0x1_0000;
      e := None;
      if c == rleChar {
        rleRun := rleRun + 1;
        if rleRun == 0xFF {
          e := NextRun(w, -1, 0, goal, Stream(rest, -1, 0));
        }
      } else {
        e := NextRun(w, c, 1, goal, Stream(rest, c, 1));
      }
    }

    /** Flush the run in hand and start another. */
    method NextRun(w: Writer, ch: int, run: int, ghost goal: seq<int>, ghost rest: seq<int>) returns (e: Option<Error>)
      requires Shape() && Reflects(w) && Flushable() && Allowed(w, cnt, goal)
      requires sent + (Flush(rleChar, rleRun) + rest) == goal
      modifies this`sent, this`fpOut, this`hufOut, this`nOut, this`nBits, this`rleRun, this`rleChar, hufBits, count
      ensures e == None && Reflects(w) && Kept(w) && rleChar == ch && rleRun == run && sent + rest == goal
    {
      hide Reflects, Allowed, Flush;
      SendFirst(w, goal, rest);
      e := RleFlush(w);
      if e != None {
        return;
      }
      rleChar := ch;
      rleRun := run;
    }

    lemma SendFirst(w: Writer, goal: seq<int>, rest: seq<int>)
      requires Allowed(w, cnt, goal) && rleRun >= 0 && sent + (Flush(rleChar, rleRun) + rest) == goal
      ensures Allowed(w, cnt, sent + Flush(rleChar, rleRun)) && sent + Flush(rleChar, rleRun) + rest == goal
    {
      assert goal == sent + Flush(rleChar, rleRun) + rest;
      AllowedPrefix(w, cnt, sent + Flush(rleChar, rleRun), rest);
    }

    /** The end of rle_stream: the run in hand, then the end-of-file symbol. */
    method SendEnd(w: Writer, ghost goal: seq<int>) returns (e: Option<Error>)
      requires Shape() && Reflects(w) && rleRun >= 0 && RunOk(rleChar, rleRun) && Allowed(w, cnt, goal)
      requires sent + Stream([], rleChar, rleRun) == goal
      modifies this`sent, this`fpOut, this`hufOut, this`nOut, this`nBits, this`rleRun, this`rleChar, hufBits, count
      ensures e == None && sent == goal && Reflects(w) && Kept(w)
    {
      hide Reflects, Allowed, Flush;
      e := NextRun(w, SQ_EOF, 1, goal, Flush(SQ_EOF, 1));
      if e != None {
        return;
      }
      e := RleFlush(w);
    }

    /** rle_stream. */
    method RleStream(w: Writer, ghost sum: int) returns (e: Option<Error>)
      requires Shape() && Reflects(w) && fpIn == 0 && rleRun >= 0 && RunOk(rleChar, rleRun)
      requires Allowed(w, cnt, sent + Stream(input, rleChar, rleRun)) && 0 <= ckSum < 0x1_0000 && sum == ckSum
      modifies this`sent, this`fpOut, this`hufOut, this`nOut, this`nBits
      modifies this`rleRun, this`rleChar, this`fpIn, this`ckSum
      modifies hufBits, count
      ensures e == None && sent == old(sent + Stream(input, rleChar, rleRun)) && Reflects(w) && Kept(w) && fpIn == 0
      ensures ckSum == (sum + CheckSum(input)) % 0x1_0000
    {
      hide Reflects, Allowed, CheckSum, Flush;
      ghost var goal := sent + Stream(input, rleChar, rleRun);
      assert input[..0] == [] && input[0..] == input;
      NoSum();
      while fpIn < |input|
        invariant Streaming(w, goal, sum) && Kept(w)
      {
        e := TakeChar(w, goal, sum);
        if e != None {
          return;
        }
      }
      assert input[fpIn..] == [] && input[..fpIn] == input;
      e := SendEnd(w, goal);
      if e != None {
        return;
      }
      fpIn := 0;
    }

    // -------------------------------------------------------------- analyze

    ghost predicate CountsFit()
      requires Shape()
      reads count
    {
      forall i :: 0 <= i < SLOTS ==> 0 <= count[i] < ULONG_MAX
    }

    /** huf_smallest. */
    method HufSmallest(skip: int) returns (mi: int)
      requires Shape() && CountsFit()
      ensures mi == Best(count[..], skip, SLOTS)
    {
      var mv := ULONG_MAX;
      mi := -1;
      var n := 0;
      while n < SLOTS
        invariant 0 <= n <= SLOTS && -1 <= mi < n && mi == Best(count[..], skip, n)
        invariant mv == if mi == -1 then ULONG_MAX else count[mi]
      {
        if n != skip && count[n] < mv && count[n] > 0 {
          mv := count[n];
          mi := n;
        }
        n := n + 1;
      }
    }

    /** huf_addnode. */
    method HufAddNode(n1: int, n2: int)
      requires Shape() && 0 <= curNode < MAXNODE && 0 <= n1 < SLOTS && 0 <= n2 < SLOTS
      modifies parent, left, right, leaves
      ensures Snap() == AddNode(old(Snap()), n1, n2)
    {
      var e1 := if n1 < MAXNODE then n1 else MAXNODE - 1 - n1;
      var e2 := if n2 < MAXNODE then n2 else MAXNODE - 1 - n2;
      parent[curNode] := MAXNODE;
      left[curNode] := e1;
      right[curNode] := e2;
      HangFrom(n1);
      HangFrom(n2);
    }

    /** Note in a slot which node it hangs from. */
    method HangFrom(n: int)
      requires Shape() && 0 <= curNode < MAXNODE && 0 <= n < SLOTS
      modifies parent, leaves
      ensures Snap() == SetUp(old(Snap()), n, curNode)
    {
      if n >= MAXNODE {
        leaves[n - MAXNODE] := curNode;
      } else {
        parent[n] := curNode;
      }
    }

    /** One round of the main loop of analyze. */
    method JoinSmallest(ghost c: seq<int>)
      requires Shape() && CountsFit() && Growing(Snap(), c) && Waiting(Snap()) >= 2 && curNode > 0
      modifies this`curNode, this`nodeCount, count, parent, left, right, leaves
      ensures old(Growing(Snap(), c) && Waiting(Snap()) >= 2) && nodeCount == old(nodeCount) - 1
      ensures var h := old(Snap()); var a := Best(h.count, -1, SLOTS); var b := Best(h.count, a, SLOTS);
        0 <= a < SLOTS && 0 <= b < SLOTS && a != b && h.count[a] > 0 && h.count[b] > 0 && Snap() == Merge(h, a, b)
    {
      hide Growing, Positive, Best, Merge;
      TwoSmallest(Snap(), c);
      var n1 := HufSmallest(-1);
      var n2 := HufSmallest(n1);
      SlotFacts(Snap(), c, n1);
      SlotFacts(Snap(), c, n2);
      GrowingSized(Snap(), c);
      JoinPair(n1, n2);
    }

    method JoinPair(n1: int, n2: int)
      requires Shape() && 0 <= n1 < SLOTS && 0 <= n2 < SLOTS && n1 != n2 && 0 < curNode < MAXNODE
      modifies this`curNode, this`nodeCount, count, parent, left, right, leaves
      ensures nodeCount == old(nodeCount) - 1 && Snap() == Merge(old(Snap()), n1, n2)
    {
      HufAddNode(n1, n2);
      count[curNode] := count[n1] + count[n2];
      count[n1] := 0;
      count[n2] := 0;
      curNode := curNode - 1;
      nodeCount := nodeCount - 1;
    }

    /** The state the main loop of analyze keeps. */
    ghost predicate Building(c: seq<int>, total: int)
      requires Shape()
      reads this`curNode, this`nodeCount, count, parent, left, right, leaves
    {
      && Growing(Snap(), c) && nodeCount == Waiting(Snap()) && curNode >= Waiting(Snap()) + 256
      && Sum(count[..]) == total < ULONG_MAX
    }

    lemma BuildingFits(c: seq<int>, total: int)
      requires Shape() && Building(c, total)
      ensures CountsFit()
    {
      hide SlotOk, KidsOk, Positive;
      Nonnegative(Snap(), c);
      forall i | 0 <= i < SLOTS
        ensures 0 <= count[i] < ULONG_MAX
      {
        assert count[i] == count[..][i];
        PartBelowSum(count[..], i);
      }
    }

    /** The main loop of analyze. */
    method BuildTree(ghost c: seq<int>, ghost total: int)
      requires Shape() && Building(c, total)
      modifies this`curNode, this`nodeCount, count, parent, left, right, leaves
      ensures old(Building(c, total)) && Snap() == Build(old(Snap()), c)
    {
      hide SlotOk, KidsOk, Positive, Merge;
      ghost var h0 := Snap();
      while nodeCount > 1
        invariant Building(c, total) && Build(Snap(), c) == Build(h0, c)
        decreases nodeCount
      {
        ghost var h := Snap();
        BuildingFits(c, total);
        TwoSmallest(h, c);
        ghost var a := Best(h.count, -1, SLOTS);
        ghost var b := Best(h.count, a, SLOTS);
        MergeGrows(h, c, a, b);
        MergeWaiting(h, c, a, b);
        MergeSum(h, c, a, b);
        JoinSmallest(c);
      }
    }

    /** The number of nonzero counts. */
    method CountNodes()
      requires Shape()
      modifies this`nodeCount
      ensures nodeCount == Waiting(Snap())
    {
      hide Positive;
      nodeCount := 0;
      var n := 0;
      NonePositive();
      assert count[..0] == [];
      while n < SLOTS
        invariant 0 <= n <= SLOTS && nodeCount == |Positive(count[..n])|
      {
        PositiveStep(count[..], n);
        assert count[..][..n] == count[..n] && count[..][..n + 1] == count[..n + 1];
        if count[n] != 0 {
          nodeCount := nodeCount + 1;
        }
        n := n + 1;
      }
      assert count[..n] == count[..];
    }

    method ClearCounts()
      requires Shape()
      modifies count
      ensures CountsAre(Tally([]))
    {
      var n := 0;
      while n < SLOTS
        invariant 0 <= n <= SLOTS && forall i :: 0 <= i < n ==> count[i] == 0
      {
        count[n] := 0;
        n := n + 1;
      }
    }

    /** The counting pass of analyze. */
    method CountSymbols() returns (e: Option<Error>)
      requires Shape() && fpIn == 0 && 2 * |input| + 1 < ULONG_MAX
      modifies this`sent, this`fpOut, this`hufOut, this`nOut, this`nBits
      modifies this`rleRun, this`rleChar, this`fpIn, this`ckSum
      modifies hufBits, count
      ensures e == None && fpIn == 0 && ckSum == CheckSum(input) && fpOut == old(fpOut)
      ensures InRange(Symbols(input)) && CountsAre(Tally(Symbols(input)))
    {
      hide Stream, Tally, CountsAre, Carries, Expands, CheckSum;
      ckSum := 0;
      ClearCounts();
      sent := [];
      rleChar := -1;
      rleRun := 0;
      SymbolsOk(input);
      StreamShort(input, -1, 0);
      assert sent + Stream(input, rleChar, rleRun) == Symbols(input);
      e := RleStream(Counter, 0);
    }

    /** analyze. */
    method Analyse() returns (e: Option<Error>, ghost h0: Huff)
      requires Shape() && fpIn == 0 && 2 * |input| + 1 < ULONG_MAX
      modifies this`sent, this`fpOut, this`hufOut, this`nOut, this`nBits
      modifies this`rleRun, this`rleChar, this`fpIn, this`ckSum
      modifies this`curNode, this`nodeCount, hufBits, count, parent, left, right, leaves
      ensures e == None && fpIn == 0 && ckSum == CheckSum(input) && fpOut == old(fpOut) && InRange(Symbols(input))
      ensures Counted(h0, Tally(Symbols(input))) && Waiting(h0) > 0
      ensures Snap() == Analyze(h0, Tally(Symbols(input)))
    {
      hide Positive, Tally, Symbols, Growing, Build, CheckSum, AddNode;
      e := CountSymbols();
      if e != None {
        h0 := Snap();
        return;
      }
      curNode := MAXNODE - 1;
      CountNodes();
      h0 := Snap();
      ghost var c := Tally(Symbols(input));
      ReadyToBuild(c);
      if nodeCount == 1 {
        var n1 := HufSmallest(-1);
        LoneSlot(h0, c);
        HufAddNode(n1, n1);
        nodeCount := 0;
        curNode := curNode - 1;
      }
      if nodeCount > 1 {
        BuildTree(c, |Symbols(input)|);
      }
    }

    lemma ReadyToBuild(c: seq<int>)
      requires Shape() && InRange(Symbols(input)) && c == Tally(Symbols(input)) && CountsAre(c)
      requires curNode == MAXNODE - 1 && nodeCount == Waiting(Snap()) && 2 * |input| + 1 < ULONG_MAX
      ensures Counted(Snap(), c) && Waiting(Snap()) > 0 && Building(c, |Symbols(input)|) && CountsFit()
    {
      hide Positive, Tally, SlotOk, KidsOk, Symbols, Carries, Expands;
      var h, syms := Snap(), Symbols(input);
      TallyCounts(syms);
      SymbolsEnd(input);
      CountedGrowing(h, c);
      CountedWaiting(h, c);
      CountedSum(h, c, syms);
      BuildingFits(c, |syms|);
      assert syms[|syms| - 1] == SQ_EOF;
      assert h.count[SQ_EOF + MAXNODE] == c[SQ_EOF];
      PositiveHas(h.count, SQ_EOF + MAXNODE);
    }

    // -------------------------------------------------------------- compress

    method WriteC(c: byte)
      modifies this`fpOut
      ensures fpOut == old(fpOut) + [c]
    {
      fpOut := fpOut + [c];
    }

    /** writes. */
    method WriteS(s: int)
      modifies this`fpOut
      ensures fpOut == old(fpOut) + Word(s)
    {
      WriteC(s % 256);
      WriteC((s / 256) % 256);
    }

    /** The true name and its terminating zero. */
    method WriteName(name: seq<byte>)
      modifies this`fpOut
      ensures fpOut == old(fpOut) + name + [0]
    {
      var i := 0;
      while i < |name|
        invariant 0 <= i <= |name| && fpOut == old(fpOut) + name[..i]
      {
        WriteC(name[i]);
        i := i + 1;
      }
      WriteC(0);
    }

    /** The dictionary, with the node numbers made relative to the root. */
    method WriteDict(dictBase: int)
      requires Shape() && Sized(Snap()) && dictBase == Root(Snap()) && 0 <= dictBase <= MAXNODE
      modifies this`fpOut
      ensures fpOut == old(fpOut) + Dict(Snap(), dictBase)
    {
      hide Word;
      var dn := dictBase;
      ghost var h := Snap();
      ghost var goal := fpOut + Dict(h, dictBase);
      while dn < MAXNODE
        invariant dictBase <= dn <= MAXNODE && fpOut + Dict(h, dn) == goal
      {
        var l, r := left[dn], right[dn];
        if l >= 0 {
          l := l - dictBase;
        }
        if r >= 0 {
          r := r - dictBase;
        }
        Assoc3(fpOut, Word(l), Word(r), Dict(h, dn + 1));
        WriteS(l);
        WriteS(r);
        dn := dn + 1;
      }
      assert fpOut + [] == fpOut;
    }

    /** compress. The codes were made from the counts c. */
    method Squash(name: seq<byte>, ghost c: seq<int>) returns (e: Option<Error>)
      requires Shape() && Finished(Snap(), c) && fpIn == 0 && 0 <= ckSum < 0x1_0000
      requires |c| == MAXLEAF && InRange(Symbols(input)) && AllCounted(c, Symbols(input)) && 2 * |input| + 1 < ULONG_MAX
      modifies this`sent, this`fpOut, this`hufOut, this`nOut, this`nBits
      modifies this`rleRun, this`rleChar, this`fpIn, this`ckSum
      modifies this`cnt, this`base, hufBits, count
      ensures e == None && Snap() == old(Snap()) && Finished(Snap(), c) && 0 <= Root(Snap()) <= MAXNODE
      ensures fpOut == old(fpOut) + (Header(Snap(), old(ckSum), name) + Pack(Codes(Snap(), c, Symbols(input))))
    {
      hide Finished, Word, Dict, Codes, Pack, Symbols, Header;
      ghost var h := Snap();
      RootBounds(h, c);
      WriteS(MAGIC);
      WriteS(ckSum);
      WriteName(name);
      var dictBase := curNode + 1;
      WriteS(MAXNODE - dictBase);
      WriteDict(dictBase);
      JoinHeader(old(fpOut), h, old(ckSum), name);
      e := WriteCodes(c);
      Assoc(old(fpOut), Header(h, old(ckSum), name), Pack(Codes(h, c, Symbols(input))));
    }

    /** The second half of compress: the codes, and the bits that are left over. */
    method WriteCodes(ghost c: seq<int>) returns (e: Option<Error>)
      requires Shape() && Finished(Snap(), c) && fpIn == 0 && 0 <= ckSum < 0x1_0000
      requires |c| == MAXLEAF && InRange(Symbols(input)) && AllCounted(c, Symbols(input)) && 2 * |input| + 1 < ULONG_MAX
      modifies this`sent, this`fpOut, this`hufOut, this`nOut, this`nBits
      modifies this`rleRun, this`rleChar, this`fpIn, this`ckSum
      modifies this`cnt, this`base, hufBits, count
      ensures e == None && Snap() == old(Snap()) && Finished(Snap(), c)
      ensures fpOut == old(fpOut) + Pack(Codes(Snap(), c, Symbols(input)))
    {
      hide Finished, Codes, Pack, Stream, FileLow, LowBits, LowVal, Pow2, CheckSum, Reflects;
      ghost var h, sum, was := Snap(), ckSum, fpOut;
      StartCodes(c);
      StreamShort(input, -1, 0);
      assert sent + Stream(input, rleChar, rleRun) == Symbols(input);
      e := RleStream(Encoder, sum);
      if e != None {
        return;
      }
      assert Snap() == h;
      EncoderDone();
      WriteTail();
    }

    method StartCodes(ghost c: seq<int>)
      requires Shape() && Finished(Snap(), c)
      modifies this`sent, this`hufOut, this`nOut, this`rleRun, this`rleChar, this`cnt, this`base
      ensures Reflects(Encoder) && sent == [] && rleChar == -1 && rleRun == 0 && cnt == c && base == |fpOut|
    {
      hide Finished, Reflects;
      ghost var h := Snap();
      nOut := 0;
      hufOut := 0;
      rleChar := -1;
      rleRun := 0;
      sent, cnt, base := [], c, |fpOut|;
      assert Snap() == h;
      NothingYet();
    }

    lemma NothingYet()
      requires Shape() && Finished(Snap(), cnt) && sent == [] && nOut == 0 && hufOut == 0 && base == |fpOut|
      ensures Reflects(Encoder)
    {
      hide Finished, Codes, FileLow, LowBits;
      NoBits();
      NothingCoded(Snap(), cnt);
      RootBounds(Snap(), cnt);
      assert fpOut[base..] == [];
    }

    lemma EncoderDone()
      requires Shape() && Reflects(Encoder)
      ensures Filling() && Finished(Snap(), cnt) && AllCounted(cnt, sent) && OutBits() == Codes(Snap(), cnt, sent)
    {
    }

    /** The bits that do not fill a byte. */
    method WriteTail()
      requires Filling()
      modifies this`fpOut
      ensures base <= |fpOut| && fpOut == old(fpOut)[..base] + Pack(old(OutBits()))
    {
      hide FileLow, LowBits, Pack, Pow2;
      PackBytes(fpOut[base..], LowBits(hufOut, nOut));
      PackTail(hufOut, nOut);
      assert fpOut == fpOut[..base] + fpOut[base..];
      if nOut != 0 {
        fpOut := fpOut + [hufOut];
      }
    }

    /** squeeze, which does not pass on an error of compress. */
    method SqueezeAll(name: seq<byte>) returns (e: Option<Error>, ghost h0: Huff)
      requires Shape() && fpIn == 0 && fpOut == [] && 2 * |input| + 1 < ULONG_MAX
      modifies this, hufBits, count, parent, left, right, leaves
      ensures e == None && InRange(Symbols(input)) && Counted(h0, Tally(Symbols(input))) && Waiting(h0) > 0
      ensures fpOut == Squeezed(h0, input, name)
    {
      hide Symbols, Tally, Counted, SqTree.Analyze, Finished, Header, Pack, Codes, CheckSum, Positive;
      e, h0 := Analyse();
      if e != None {
        return;
      }
      ghost var c := Tally(Symbols(input));
      AnalyzeFinished(h0, c);
      TallyCounts(Symbols(input));
      var ignored := Squash(name, c);
    }

    // -------------------------------------------------------------- unsqueeze

    ghost function Ahead(): seq<byte>
      requires fpIn <= |input|
      reads this`fpIn
    {
      input[fpIn..]
    }

    /** readc. */
    method ReadC() returns (c: byte, e: Option<Error>)
      requires fpIn <= |input|
      modifies this`fpIn
      ensures fpIn <= |input|
      ensures old(Ahead()) == [] ==> e == Some(SysErr) && Ahead() == []
      ensures old(Ahead()) != [] ==> e == None && c == old(Ahead())[0] && Ahead() == old(Ahead())[1..]
    {
      if fpIn == |input| {
        return 0, Some(SysErr);
      }
      c, e := input[fpIn], None;
      fpIn := fpIn + 1;
    }

    /** readu. */
    method ReadU() returns (u: int, e: Option<Error>)
      requires fpIn <= |input|
      modifies this`fpIn
      ensures fpIn <= |input|
      ensures match TakeWord(old(Ahead()))
              case None => e == Some(SysErr) && Ahead() == []
              case Some(t) => e == None && u == t.0 && Ahead() == t.1
    {
      u := 0;
      var c1, c2;
      c1, e := ReadC();
      if e != None {
        return;
      }
      c2, e := ReadC();
      if e != None {
        return;
      }
      var low: int, high: int := c1, c2;
      u := low + 256 * high;
    }

    /** reads. */
    method ReadS() returns (s: int, e: Option<Error>)
      requires fpIn <= |input|
      modifies this`fpIn
      ensures fpIn <= |input|
      ensures match TakeWord(old(Ahead()))
              case None => e == Some(SysErr) && Ahead() == []
              case Some(t) => e == None && s == Signed(t.0) && Ahead() == t.1
    {
      s, e := ReadU();
      if s >= 0x8000 {
        s := s - 0x1_0000;
      }
    }

    /** The state of wrbyte. */
    ghost function Expanding(): Expander
      reads this`rleChar, this`rleRun, this`fpOut
    {
      Expander(rleChar, rleRun == 1, fpOut)
    }

    ghost predicate Expandable()
      reads this`rleChar, this`rleRun, this`fpOut, this`ckSum
    {
      -1 <= rleChar < 256 && 0 <= rleRun <= 1 && ckSum == CheckSum(fpOut)
    }

    /** ckputc. */
    method CkPutC(b: byte)
      requires ckSum == CheckSum(fpOut)
      modifies this`fpOut, this`ckSum
      ensures fpOut == old(fpOut) + [b] && ckSum == CheckSum(fpOut)
    {
      assert (fpOut + [b])[..|fpOut|] == fpOut;
      fpOut := fpOut + [b];
      ckSum := (ckSum + b) % 0x1_0000;
    }

    /** wrbyte. */
    method ExpandByte(b: byte) returns (e: Option<Error>)
      requires Expandable()
      modifies this`rleChar, this`rleRun, this`fpOut, this`ckSum
      ensures match WrByte(old(Expanding()), b)
              case None => e == Some(SysErr)
              case Some(d) => e == None && Expandable() && Expanding() == d
    {
      hide CheckSum;
      e := None;
      if rleRun == 1 {
        if b == 0 {
          if rleChar != -1 {
            CkPutC(rleChar);
          }
          CkPutC(RLECODE);
        } else {
          if rleChar == -1 {
            return Some(SysErr);
          }
          PutRun(rleChar, b);
        }
        rleRun := 0;
        rleChar := -1;
        return;
      }
      if b == RLECODE {
        rleRun := 1;
        return;
      }
      if rleChar != -1 {
        CkPutC(rleChar);
      }
      rleChar := b;
    }

    method PutRun(ch: byte, b: byte)
      requires ckSum == CheckSum(fpOut)
      modifies this`fpOut, this`ckSum
      ensures fpOut == old(fpOut) + Repeat(ch, b) && ckSum == CheckSum(fpOut)
    {
      hide CheckSum;
      var n := 0;
      while n < b
        invariant 0 <= n <= b && fpOut == old(fpOut) + Repeat(ch, n) && ckSum == CheckSum(fpOut)
      {
        RepeatSnoc(ch, n);
        CkPutC(ch);
        n := n + 1;
      }
    }

    method SkipTrueName() returns (e: Option<Error>)
      requires fpIn <= |input|
      modifies this`fpIn
      ensures fpIn <= |input|
      ensures match SkipName(old(Ahead()))
              case None => e == Some(SysErr)
              case Some(b) => e == None && Ahead() == b
    {
      var c: byte := 1;
      while c != 0
        invariant fpIn <= |input|
        invariant SkipName(old(Ahead())) == if c != 0 then SkipName(Ahead()) else Some(Ahead())
        decreases if c != 0 then 1 + |input| - fpIn else 0
      {
        c, e := ReadC();
        if e != None {
          return;
        }
      }
      e := None;
    }

    method ReadDict(dictLen: nat) returns (e: Option<Error>)
      requires Shape() && fpIn <= |input| && dictLen <= MAXNODE
      modifies this`fpIn, left, right
      ensures fpIn <= |input|
      ensures match TakeDict(old(Ahead()), 0, dictLen, old(left[..]), old(right[..]))
              case None => e == Some(SysErr)
              case Some(d) => e == None && left[..] == d.0 && right[..] == d.1 && Ahead() == d.2
    {
      hide TakeWord, Signed;
      ghost var goal := TakeDict(Ahead(), 0, dictLen, left[..], right[..]);
      var nd := 0;
      while nd < dictLen
        invariant 0 <= nd <= dictLen && fpIn <= |input|
        invariant TakeDict(Ahead(), nd, dictLen, left[..], right[..]) == goal
      {
        var l, r;
        l, e := ReadS();
        if e != None {
          return;
        }
        left[nd] := l;
        r, e := ReadS();
        if e != None {
          return;
        }
        right[nd] := r;
        nd := nd + 1;
      }
      e := None;
    }

    /** The bits of the input not yet looked at. */
    ghost function Unread(): seq<bool>
      requires fpIn <= |input| && nOut <= 8
      reads this`fpIn, this`hufOut, this`nOut
    {
      LowBits(hufOut, 8)[nOut..] + FileLow(input[fpIn..])
    }

    /** Fetching a bit, a byte at a time. */
    method NextBit() returns (bit: bool, e: Option<Error>)
      requires fpIn <= |input| && nOut <= 8
      modifies this`fpIn, this`hufOut, this`nOut
      ensures fpIn <= |input| && nOut <= 8
      ensures old(Unread()) == [] ==> e == Some(SysErr)
      ensures old(Unread()) != [] ==> e == None && bit == old(Unread())[0] && Unread() == old(Unread())[1..]
    {
      hide LowBits;
      bit := false;
      if nOut == 8 {
        assert Unread() == FileLow(Ahead());
        nOut := 0;
        hufOut, e := ReadC();
        if e != None {
          return;
        }
        assert LowBits(hufOut, 8)[0..] == LowBits(hufOut, 8);
      }
      bit, e := LowBits(hufOut, 8)[nOut], None;
      FirstLeft(LowBits(hufOut, 8), nOut, FileLow(Ahead()));
      nOut := nOut + 1;
    }

    /** The decoding loop of unsqueeze. */
    method DecodeData() returns (e: Option<Error>)
      requires Shape() && fpIn <= |input| && nOut <= 8 && Expandable()
      modifies this`fpIn, this`hufOut, this`nOut, this`rleChar, this`rleRun, this`fpOut, this`ckSum
      ensures match Run(left[..], right[..], old(Unread()), 0, old(Expanding()))
              case Err(x) => e == Some(x)
              case Ok(d) => e == None && Expandable() && Expanding() == d
    {
      hide WrByte, LowBits, FileLow, CheckSum;
      ghost var l, r, goal := left[..], right[..], Run(left[..], right[..], Unread(), 0, Expanding());
      var node, done := 0, false;
      while !done
        invariant fpIn <= |input| && nOut <= 8 && Expandable() && 0 <= node < MAXNODE
        invariant goal == if done then Ok(Expanding()) else Run(l, r, Unread(), node, Expanding())
        decreases if done then 0 else 1 + |Unread()|
      {
        var bit;
        bit, e := NextBit();
        if e != None {
          return;
        }
        var code := if bit then right[node] else left[node];
        if code < 0 {
          if -1 - code == SQ_EOF {
            done := true;
          } else {
            e := ExpandByte((-1 - code) % 256);
            if e != None {
              return;
            }
            node := 0;
          }
        } else if code >= MAXNODE {
          return Some(OffTable);
        } else {
          node := code;
        }
      }
      e := None;
    }

    /** unsqueeze after the true name. */
    method UnsqueezeBody(checksum: int) returns (e: Option<Error>)
      requires Shape() && fpIn <= |input| && fpOut == [] && ckSum == 0
      modifies this`fpIn, this`hufOut, this`nOut, this`rleChar, this`rleRun, this`fpOut, this`ckSum, left, right
      ensures match UnsqueezedBody(checksum, old(Ahead()), old(left[..]), old(right[..]))
              case Err(x) => e == Some(x)
              case Ok(x) => e == None && fpOut == x
    {
      hide TakeWord, TakeDict, WrByte, Run, LowBits, FileLow, CheckSum, Checked;
      var dictLen;
      dictLen, e := ReadU();
      if e != None {
        return;
      }
      if dictLen > MAXNODE {
        return Some(Compress);
      }
      WordNonneg(old(Ahead()));
      e := ReadDict(dictLen);
      if e != None {
        return;
      }
      hufOut := 0;
      nOut := 8;
      rleChar := -1;
      rleRun := 0;
      NoSum();
      assert fpOut + [] == fpOut;
      assert LowBits(hufOut, 8)[8..] + FileLow(Ahead()) == FileLow(Ahead());
      if dictLen != 0 {
        e := DecodeData();
        if e != None {
          return;
        }
      }
      e := FinishOutput(checksum);
    }

    /** The end of unsqueeze: write the byte held back and compare the checksum. */
    method FinishOutput(checksum: int) returns (e: Option<Error>)
      requires Expandable()
      modifies this`fpOut, this`ckSum
      ensures match Checked(checksum, Text(old(Expanding())))
              case Err(x) => e == Some(x)
              case Ok(x) => e == None && fpOut == x
    {
      hide CheckSum;
      assert fpOut + [] == fpOut;
      if rleChar != -1 {
        CkPutC(rleChar);
      }
      if checksum != ckSum {
        return Some(Compress);
      }
      e := None;
    }

    /** unsqueeze. The node table holds whatever it held before. */
    method Unsqueeze() returns (e: Option<Error>)
      requires Shape() && fpIn <= |input| && fpOut == []
      modifies this`fpIn, this`hufOut, this`nOut, this`rleChar, this`rleRun, this`fpOut, this`ckSum, left, right
      ensures match Unsqueezed(old(Ahead()), old(left[..]), old(right[..]))
              case Err(x) => e == Some(x)
              case Ok(x) => e == None && fpOut == x
    {
      hide TakeWord, SkipName, UnsqueezedBody;
      var magic, checksum;
      ckSum := 0;
      magic, e := ReadU();
      if e != None {
        return;
      }
      if magic != MAGIC {
        return Some(Compress);
      }
      checksum, e := ReadU();
      NoName();
      e := SkipTrueName();
      if e != None {
        return;
      }
      e := UnsqueezeBody(checksum);
    }

    /** sq_open: a file that does not start with the mark of a squeezed one is refused; otherwise it is
        rewound and expanded. */
    method OpenFile() returns (e: Option<Error>)
      requires Shape() && fpIn == 0 && fpOut == []
      modifies this`fpIn, this`hufOut, this`nOut, this`rleChar, this`rleRun, this`fpOut, this`ckSum, left, right
      ensures match TakeWord(input)
              case None => e == Some(SysErr)
              case Some(m) =>
                if m.0 != MAGIC then e == Some(NotMe)
                else match Unsqueezed(input, old(left[..]), old(right[..]))
                     case Err(x) => e == Some(x)
                     case Ok(x) => e == None && fpOut == x
    {
      hide TakeWord, Unsqueezed;
      assert input[0..] == input;
      var magic;
      magic, e := ReadU();
      if e != None {
        return;
      }
      if magic != MAGIC {
        return Some(NotMe);
      }
      fpIn := 0;
      e := Unsqueeze();
    }

    constructor (data: seq<byte>)
      ensures Shape() && input == data && fpIn == 0 && fpOut == []
      ensures fresh(parent) && fresh(left) && fresh(right) && fresh(count) && fresh(leaves) && fresh(hufBits)
    {
      input := data;
      fpIn := 0;
      fpOut := [];
      parent := new int[MAXNODE];
      left := new int[MAXNODE];
      right := new int[MAXNODE];
      count := new int[SLOTS];
      leaves := new int[MAXLEAF];
      hufBits := new bool[HUF_BITS];
    }
  }

  /** Writing a squeezed file and opening it again gives back the input, for every input and every true
      name without a zero byte. */
  method RoundTripFile(input: seq<byte>, name: seq<byte>) returns (packed: seq<byte>, e: Option<Error>, back: seq<byte>)
    requires 0 !in name && 2 * |input| + 1 < ULONG_MAX
    ensures e == None && back == input
  {
    hide Symbols, Tally, Counted, Positive, Squeezed, Unsqueezed;
    var writer := new SqData(input);
    ghost var h0;
    e, h0 := writer.SqueezeAll(name);
    packed := writer.fpOut;
    var reader := new SqData(packed);
    RoundTrip(h0, input, name, reader.left[..], reader.right[..]);
    Marked(packed, reader.left[..], reader.right[..]);
    e := reader.OpenFile();
    back := reader.fpOut;
  }

  lemma Marked(b: seq<byte>, l: seq<int>, r: seq<int>)
    requires |l| == |r| == MAXNODE
    ensures Unsqueezed(b, l, r).Ok? ==> TakeWord(b).Some? && TakeWord(b).value.0 == MAGIC
  {
    hide TakeWord;
  }

  lemma FirstLeft<A>(a: seq<A>, k: nat, b: seq<A>)
    requires k < |a|
    ensures (a[k..] + b)[0] == a[k] && (a[k..] + b)[1..] == a[k + 1..] + b
  {
  }

  lemma WordNonneg(b: seq<byte>)
    ensures TakeWord(b).Some? ==> TakeWord(b).value.0 >= 0
  {
  }

  lemma NoName()
    ensures SkipName([]) == None
  {
  }

  lemma JoinHeader(a: seq<byte>, h: Huff, sum: int, name: seq<byte>)
    requires Sized(h) && 0 <= Root(h) <= MAXNODE
    ensures a + Word(MAGIC) + Word(sum) + name + [0] + Word(MAXNODE - Root(h)) + Dict(h, Root(h)) ==
      a + Header(h, sum, name)
  {
    hide Word, Dict;
  }

  lemma NothingCoded(h: Huff, cnt: seq<int>)
    requires Finished(h, cnt)
    ensures Codes(h, cnt, []) == [] == FileLow([]) + []
  {
  }

  /** The last, partly filled byte. */
  lemma PackTail(v: nat, n: nat)
    requires n < 8 && v < Pow2(n)
    ensures v < 256 && Pack(LowBits(v, n)) == if n == 0 then [] else [v]
  {
    hide LowVal;
    Pow2Small(n);
    LowValBits(v, n);
  }

  lemma Assoc3<A>(a: seq<A>, b: seq<A>, c: seq<A>, d: seq<A>)
    ensures a + (b + c + d) == ((a + b) + c) + d
  {
  }

  lemma SymbolsEnd(input: seq<byte>)
    ensures var s := Symbols(input); s != [] && s[|s| - 1] == SQ_EOF && |s| <= 2 * |input| + 1
  {
    SymbolsOk(input);
    StreamShort(input, -1, 0);
  }

  lemma CountedSum(h: Huff, cnt: seq<int>, syms: seq<int>)
    requires InRange(syms) && cnt == Tally(syms) && Counted(h, cnt)
    ensures Sum(h.count) == |syms|
  {
    hide Tally, Sum;
    TallySum(syms);
    SumZero(h.count[..MAXNODE]);
    SumConcat(h.count[..MAXNODE], h.count[MAXNODE..]);
    assert h.count == h.count[..MAXNODE] + h.count[MAXNODE..];
    assert h.count[MAXNODE..] == cnt;
  }

  /** When one slot waits, it is a symbol, and the pick finds it. */
  lemma LoneSlot(h: Huff, cnt: seq<int>)
    requires Counted(h, cnt) && Growing(h, cnt) && Waiting(h) > 0
    ensures 0 <= Best(h.count, -1, SLOTS) < SLOTS
  {
    hide SlotOk, KidsOk, Positive;
    Nonnegative(h, cnt);
    SomeWaiting(h.count);
    BestIsSmallest(h.count, -1, SLOTS);
  }

  lemma NonePositive()
    ensures |Positive([])| == 0
  {
  }

  lemma NoSum()
    ensures CheckSum([]) == 0
  {
  }

  lemma SumNext(sum: int, x: seq<byte>, n: nat)
    requires n < |x|
    ensures ((sum + CheckSum(x[..n])) % 0x1_0000 + x[n]) % 0x1_0000 == (sum + CheckSum(x[..n + 1])) % 0x1_0000
  {
    assert x[..n + 1][..n] == x[..n];
    var c: int, b: int := CheckSum(x[..n]), x[n];
    assert CheckSum(x[..n + 1]) == (c + b) % 0x1_0000;
    hide CheckSum;
    ModAdd(sum + c, b);
    ModAdd(c + b, sum);
  }

  lemma ModAdd(x: int, y: int)
    ensures (x % 0x1_0000 + y) % 0x1_0000 == (x + y) % 0x1_0000
  {
    var q := x / 0x1_0000;
    assert x == 0x1_0000 * q + x % 0x1_0000;
  }

  lemma SymbolHang(h: Huff, cnt: seq<int>, s: int)
    requires Finished(h, cnt) && 0 <= s < MAXLEAF && cnt[s] > 0
    ensures Hangs(h, cnt, s + MAXNODE) && h.leaves[s] == Up(h, s + MAXNODE) && Enc(s + MAXNODE) == -1 - s
    ensures Chain(h, cnt, s + MAXNODE) + Reversed([]) == Code(h, cnt, s)
  {
    assert Chain(h, cnt, s + MAXNODE) + [] == Chain(h, cnt, s + MAXNODE);
  }

  lemma CodeRoom(h: Huff, cnt: seq<int>, s: int, i: int, was: seq<bool>)
    requires Finished(h, cnt) && Hangs(h, cnt, i) && 0 <= s < MAXLEAF && cnt[s] > 0
    requires Chain(h, cnt, i) + Reversed(was) == Code(h, cnt, s)
    ensures |was| < 256
  {
    assert |was| == |Code(h, cnt, s)| - |Chain(h, cnt, i)|;
  }

  /** Pushing the bit of slot i moves the last bit of its chain in front of the bits collected. */
  lemma PushedChain(h: Huff, cnt: seq<int>, i: int, was: seq<bool>, now: seq<bool>)
    requires Finished(h, cnt) && Hangs(h, cnt, i) && now == was + [h.left[Up(h, i)] != Enc(i)]
    ensures Chain(h, cnt, i) + Reversed(was) ==
      (if h.parent[Up(h, i)] == MAXNODE then Reversed(now) else Chain(h, cnt, Up(h, i)) + Reversed(now))
    ensures h.parent[Up(h, i)] != MAXNODE ==> Hangs(h, cnt, Up(h, i)) && h.parent[Up(h, i)] < MAXNODE
  {
    HangFacts(h, cnt, i);
    hide Finished, Chain, Reversed;
    var p := Up(h, i);
    var bit := h.left[p] != Enc(i);
    ChainStep(h, cnt, i);
    ReversedPush(was, bit);
    if h.parent[p] != MAXNODE {
      HangFacts(h, cnt, p);
      Assoc(Chain(h, cnt, p), [bit], Reversed(was));
    } else {
      assert [] + [bit] == [bit];
    }
  }

  lemma ChainStep(h: Huff, cnt: seq<int>, i: int)
    requires Finished(h, cnt) && Hangs(h, cnt, i)
    ensures var p := Up(h, i);
      && 0 <= p < MAXNODE && (p != Root(h) ==> Hangs(h, cnt, p))
      && Chain(h, cnt, i) == (if p == Root(h) then [] else Chain(h, cnt, p)) + [h.left[p] != Enc(i)]
  {
    HangFacts(h, cnt, i);
  }

  lemma ReversedPush<A>(s: seq<A>, x: A)
    ensures Reversed(s + [x]) == [x] + Reversed(s)
  {
    assert (s + [x])[..|s|] == s;
  }

  lemma CodesSnoc(h: Huff, cnt: seq<int>, a: seq<int>, s: int)
    requires Finished(h, cnt) && AllCounted(cnt, a) && AllCounted(cnt, a + [s])
    ensures 0 <= s < MAXLEAF && cnt[s] > 0
    ensures Codes(h, cnt, a + [s]) == Codes(h, cnt, a) + Code(h, cnt, s)
  {
    hide Finished, Code;
    assert (a + [s])[|a|] == s;
    CodesSplit(h, cnt, a, [s]);
    assert Codes(h, cnt, [s]) == Code(h, cnt, s) + Codes(h, cnt, []);
  }
}
