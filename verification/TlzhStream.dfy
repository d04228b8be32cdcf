/** The LZHUF decoder as a function of its input: reading bits through the refilling buffer, the
    match position code, and the expansion of tokens against an unbounded history
    (lib/libdsk/comptlzh.c, next_word to Decode). */
module TlzhStream {
  import opened Bits
  import opened TlzhTree
  import opened TlzhReconst
  import opened TlzhCodes

  const N := 4096
  const THRESHOLD := 2

  // ---------------------------------------------------------------- reading bits

  /** How far the reader is: bits handed out, and bytes moved from the file into the bit buffer. */
  datatype Cursor = Cursor(pos: nat, loaded: nat)

  /** Between calls either nothing has been read, or 1 to 15 bits wait in the bit buffer.
      A one-byte input is excluded: the first refill would take a second byte that is not there. */
  ghost predicate CursorOk(input: seq<byte>, cur: Cursor) {
    && |input| != 1 && cur.loaded <= |input|
    && ((cur.pos == 0 && cur.loaded == 0) || 1 <= 8 * cur.loaded - cur.pos <= 15)
  }

  /** GetBit. It fails once every byte of the file is in the bit buffer, even if bits are left there. */
  function ReadBit(input: seq<byte>, cur: Cursor): (r: Option<(bool, Cursor)>)
    requires CursorOk(input, cur)
    ensures r.Some? ==> CursorOk(input, r.value.1) && r.value.1.pos == cur.pos + 1 <= 8 * |input|
  {
    if cur.loaded >= |input| then None
    else Some((FileBits(input)[cur.pos], Cursor(cur.pos + 1, cur.pos / 8 + 2)))
  }

  /** GetByte. */
  function ReadByte(input: seq<byte>, cur: Cursor): (r: Option<(int, Cursor)>)
    requires CursorOk(input, cur)
    ensures r.Some? ==> CursorOk(input, r.value.1) && r.value.1.pos == cur.pos + 8 <= 8 * |input|
    ensures r.Some? ==> 0 <= r.value.0 < 256
  {
    if cur.loaded >= |input| then None
    else
      assert Pow2(8) == 256;
      Some((Val(FileBits(input)[cur.pos..cur.pos + 8]), Cursor(cur.pos + 8, cur.pos / 8 + 2)))
  }

  /** m reads of a bit in a row succeed: the first finds a byte not yet loaded, and so does the last,
      once the reads before it have loaded theirs. */
  predicate Readable(input: seq<byte>, cur: Cursor, m: nat) {
    m > 0 ==> cur.loaded < |input| && (m > 1 ==> cur.pos + m + 15 <= 8 * |input|)
  }

  /** Where the reader is after m of them. */
  function Past(cur: Cursor, m: nat): (c: Cursor) {
    if m == 0 then cur else Cursor(cur.pos + m, (cur.pos + m - 1) / 8 + 2)
  }

  lemma ReadableStep(input: seq<byte>, cur: Cursor, m: nat)
    requires CursorOk(input, cur) && m > 0
    ensures Readable(input, cur, m) <==> cur.loaded < |input| && Readable(input, Past(cur, 1), m - 1)
    ensures Past(cur, m) == Past(Past(cur, 1), m - 1)
    ensures Readable(input, cur, m) ==> cur.pos + m <= 8 * |input|
    ensures cur.loaded < |input| ==> ReadBit(input, cur).Some? && ReadBit(input, cur).value.1 == Past(cur, 1)
  {
  }

  // ---------------------------------------------------------------- reading a symbol

  /** The loop of DecodeChar from slot x. */
  ghost function ReadChar(input: seq<byte>, t: Tree, cur: Cursor, x: int): (r: Option<(int, Cursor)>)
    requires Valid(t) && 0 <= x < T && CursorOk(input, cur)
    ensures r.Some? ==> 0 <= r.value.0 < NCHAR && CursorOk(input, r.value.1)
    ensures r.Some? ==> cur.pos <= r.value.1.pos <= 8 * |input|
    decreases x
  {
    if t.son[x] >= T then
      LeafOf(t, x);
      Some((t.son[x] - T, cur))
    else
      match ReadBit(input, cur)
      case None => None
      case Some(bc) => ReadChar(input, t, bc.1, Child(t, x, bc.0))
  }

  /** ReadChar follows the descent over the bits still unread. It succeeds exactly when the descent
      finds a leaf and the bits on the way are readable. */
  lemma {:induction false} ReadCharDescends(input: seq<byte>, t: Tree, cur: Cursor, x: int)
    requires Valid(t) && 0 <= x < T && CursorOk(input, cur) && cur.pos <= 8 * |input|
    ensures var r, d := ReadChar(input, t, cur, x), Descend(t, x, FileBits(input)[cur.pos..]);
      && (r.Some? <==> d.Some? && Readable(input, cur, d.value.1))
      && (r.Some? ==> r.value == (d.value.0, Past(cur, d.value.1)))
    decreases x
  {
    hide Linked, Ordered, Balanced, FileBits, Readable, Past;
    if t.son[x] >= T {
      LeafOf(t, x);
      ReadableNone(input, cur);
    } else {
      var d := Descend(t, x, FileBits(input)[cur.pos..]);
      if d.Some? {
        ReadableStep(input, cur, d.value.1);
      }
      if cur.loaded < |input| {
        var bc := ReadBit(input, cur).value;
        PastOne(input, cur);
        assert FileBits(input)[cur.pos..][0] == bc.0 && FileBits(input)[cur.pos..][1..] == FileBits(input)[bc.1.pos..];
        ReadCharDescends(input, t, bc.1, Child(t, x, bc.0));
      }
    }
  }

  lemma ReadableNone(input: seq<byte>, cur: Cursor)
    ensures Readable(input, cur, 0) && Past(cur, 0) == cur
  {
  }

  lemma PastOne(input: seq<byte>, cur: Cursor)
    requires CursorOk(input, cur) && cur.loaded < |input|
    ensures ReadBit(input, cur).value.1 == Past(cur, 1)
  {
  }

  // ---------------------------------------------------------------- the position code

  /** Tables d_code and d_len. */
  function DCode(i: int): (u: int)
    requires 0 <= i < 256
    ensures 0 <= u < 64
  {
    if i < 32 then 0
    else if i < 80 then 1 + (i - 32) / 16
    else if i < 144 then 4 + (i - 80) / 8
    else if i < 192 then 12 + (i - 144) / 4
    else if i < 240 then 24 + (i - 192) / 2
    else 48 + (i - 240)
  }

  function DLen(i: int): (l: int)
    requires 0 <= i < 256
    ensures 3 <= l <= 8
  {
    if i < 32 then 3 else if i < 80 then 4 else if i < 144 then 5 else if i < 192 then 6
    else if i < 240 then 7 else 8
  }

  /** The prefix code of the upper six position bits that the tables decode. */
  function UpperLen(u: int): (l: nat)
    ensures 3 <= l <= 8
  {
    if u < 1 then 3 else if u < 4 then 4 else if u < 12 then 5 else if u < 24 then 6
    else if u < 48 then 7 else 8
  }

  function UpperVal(u: int): (v: nat)
    requires 0 <= u < 64
  {
    if u < 1 then 0 else if u < 4 then u + 1 else if u < 12 then u + 6 else if u < 24 then u + 24
    else if u < 48 then u + 72 else u + 192
  }

  function PosCode(p: int): (b: seq<bool>)
    requires 0 <= p < N
    ensures |b| == UpperLen(p / 64) + 6
  {
    ToBits(UpperVal(p / 64), UpperLen(p / 64)) + ToBits(p % 64, 6)
  }

  lemma Powers()
    ensures Pow2(0) == 1 && Pow2(1) == 2 && Pow2(2) == 4 && Pow2(3) == 8 && Pow2(4) == 16
    ensures Pow2(5) == 32 && Pow2(6) == 64 && Pow2(7) == 128 && Pow2(8) == 256
  {
  }

  lemma UpperFits(u: int)
    requires 0 <= u < 64
    ensures UpperVal(u) < Pow2(UpperLen(u))
  {
    Powers();
  }

  /** The tables invert the prefix code: they give u for exactly the bytes that start with its code
      (the byte being the start q, followed by the remaining bits r). */
  lemma TablesInvert(i: int, u: int, q: int, r: int)
    requires 0 <= i < 256 && 0 <= u < 64
    requires i == q * Pow2(8 - UpperLen(u)) + r && 0 <= r < Pow2(8 - UpperLen(u))
    ensures DCode(i) == u <==> q == UpperVal(u)
    ensures DCode(i) == u ==> DLen(i) == UpperLen(u)
  {
    Powers();
  }

  /** The loop of DecodePosition that shifts j more bits into i. */
  function ReadLow(input: seq<byte>, cur: Cursor, i: nat, j: nat): (r: Option<(nat, Cursor)>)
    requires CursorOk(input, cur)
    ensures r.Some? ==> CursorOk(input, r.value.1) && r.value.1.pos == cur.pos + j
    decreases j
  {
    if j == 0 then Some((i, cur))
    else
      match ReadBit(input, cur)
      case None => None
      case Some(bc) => ReadLow(input, bc.1, 2 * i + (if bc.0 then 1 else 0), j - 1)
  }

  lemma SingleVal(b: bool)
    ensures Val([b]) == if b then 1 else 0
  {
    assert [b][..0] == [];
  }

  lemma Distribute(i: int, d: int, p: int)
    ensures (2 * i + d) * p == i * (2 * p) + d * p
  {
  }

  lemma ValPush(i: nat, b: bool, rest: seq<bool>)
    ensures (2 * i + (if b then 1 else 0)) * Pow2(|rest|) + Val(rest) == i * Pow2(|rest| + 1) + Val([b] + rest)
  {
    hide Val;
    ValConcat([b], rest);
    SingleVal(b);
    Distribute(i, if b then 1 else 0, Pow2(|rest|));
  }

  /** The value of the next j bits. */
  ghost function NextVal(input: seq<byte>, pos: nat, j: nat): nat
    requires pos + j <= 8 * |input|
  {
    Val(FileBits(input)[pos..pos + j])
  }

  /** What i becomes when the next j bits are shifted in. */
  ghost function Shifted(input: seq<byte>, pos: nat, i: nat, j: nat): nat
    requires pos + j <= 8 * |input|
  {
    i * Pow2(j) + NextVal(input, pos, j)
  }

  lemma ShiftedPush(input: seq<byte>, pos: nat, i: nat, j: nat)
    requires j > 0 && pos + j <= 8 * |input|
    ensures Shifted(input, pos + 1, 2 * i + (if FileBits(input)[pos] then 1 else 0), j - 1) == Shifted(input, pos, i, j)
  {
    hide FileBits, Val;
    var b, rest := FileBits(input)[pos], FileBits(input)[pos + 1..pos + j];
    assert FileBits(input)[pos..pos + j] == [b] + rest;
    ValPush(i, b, rest);
  }

  lemma ShiftedNone(input: seq<byte>, pos: nat, i: nat)
    requires pos <= 8 * |input|
    ensures Shifted(input, pos, i, 0) == i
  {
    hide FileBits;
    assert FileBits(input)[pos..pos] == [];
  }

  /** The loop reads the next j bits as a number, exactly when they are readable. */
  lemma {:induction false} ReadLowVal(input: seq<byte>, cur: Cursor, i: nat, j: nat)
    requires CursorOk(input, cur) && cur.pos <= 8 * |input|
    ensures Readable(input, cur, j) ==> cur.pos + j <= 8 * |input|
    ensures var r := ReadLow(input, cur, i, j);
      && (r.Some? <==> Readable(input, cur, j))
      && (r.Some? ==> r.value == (Shifted(input, cur.pos, i, j), Past(cur, j)))
    decreases j
  {
    hide FileBits, Readable, Past, Shifted;
    if j == 0 {
      ShiftedNone(input, cur.pos, i);
      ReadableNone(input, cur);
    } else {
      ReadableStep(input, cur, j);
      if cur.loaded < |input| {
        var bc := ReadBit(input, cur).value;
        ReadLowVal(input, bc.1, 2 * i + (if bc.0 then 1 else 0), j - 1);
        if cur.pos + j <= 8 * |input| {
          ShiftedPush(input, cur.pos, i, j);
        }
      }
    }
  }

  /** DecodePosition: the byte picks the upper six bits and the number of bits still to come. */
  function ReadPos(input: seq<byte>, cur: Cursor): (r: Option<(int, Cursor)>)
    requires CursorOk(input, cur)
    ensures r.Some? ==> 0 <= r.value.0 < N && CursorOk(input, r.value.1)
  {
    match ReadByte(input, cur)
    case None => None
    case Some(ic) =>
      match ReadLow(input, ic.1, ic.0, DLen(ic.0) - 2)
      case None => None
      case Some(lc) => Some((DCode(ic.0) * 64 + lc.0 % 64, lc.1))
  }

  lemma SplitVal(w: seq<bool>, n: nat)
    requires n <= |w|
    ensures Val(w) == Val(w[..n]) * Pow2(|w| - n) + Val(w[n..])
  {
    hide Val;
    assert w == w[..n] + w[n..];
    ValConcat(w[..n], w[n..]);
  }

  lemma LowSix(w: seq<bool>)
    requires |w| >= 6
    ensures Val(w) % 64 == Val(w[|w| - 6..])
  {
    hide Val;
    Powers();
    SplitVal(w, |w| - 6);
  }

  /** What a position read from the bits w, first byte i, is coded as. */
  lemma PosFromBits(w: seq<bool>, i: int)
    requires 8 <= |w| && i == Val(w[..8]) && 0 <= i < 256 && |w| == DLen(i) + 6
    ensures PosCode(DCode(i) * 64 + Val(w) % 64) == w
  {
    hide Val, ToBits, Pow2, DCode, DLen, UpperVal, UpperLen;
    var u := DCode(i);
    var n := UpperLen(u);
    assert (u * 64 + Val(w) % 64) / 64 == u && (u * 64 + Val(w) % 64) % 64 == Val(w) % 64;
    SplitVal(w[..8], n);
    assert w[..8][..n] == w[..n];
    TablesInvert(i, u, Val(w[..n]), Val(w[..8][n..]));
    LowSix(w);
    ToBitsVal(w[..n]);
    ToBitsVal(w[n..]);
    assert w == w[..n] + w[n..];
  }

  /** And which byte and how many bits the code of a position starts with. */
  lemma PosToBits(p: int, w: seq<bool>, i: int)
    requires 0 <= p < N && PosCode(p) == w && 8 <= |w| && i == Val(w[..8]) && 0 <= i < 256
    ensures DCode(i) == p / 64 && |w| == DLen(i) + 6 && Val(w) % 64 == p % 64
  {
    hide Val, ToBits, Pow2, DCode, DLen, UpperVal, UpperLen;
    var u := p / 64;
    var n := UpperLen(u);
    UpperFits(u);
    Powers();
    ValToBits(UpperVal(u), n);
    ValToBits(p % 64, 6);
    assert w[..n] == ToBits(UpperVal(u), n) && w[n..] == ToBits(p % 64, 6);
    SplitVal(w[..8], n);
    assert w[..8][..n] == w[..n];
    TablesInvert(i, u, Val(w[..n]), Val(w[..8][n..]));
    LowSix(w);
  }

  /** The bits DecodePosition looks at: a byte and j more. */
  ghost function PosBits(input: seq<byte>, pos: nat, j: nat): (w: seq<bool>)
    requires pos + 8 + j <= 8 * |input|
    ensures |w| == 8 + j
  {
    FileBits(input)[pos..pos + 8 + j]
  }

  lemma JoinByte(w: seq<bool>, i: int, j: nat, v: int)
    requires |w| == 8 + j && i == Val(w[..8]) && v == Val(w[8..])
    ensures Val(w) == i * Pow2(j) + v
  {
    SplitVal(w, 8);
  }

  lemma PosBitsByte(input: seq<byte>, pos: nat, j: nat)
    requires pos + 8 + j <= 8 * |input|
    ensures PosBits(input, pos, j)[..8] == FileBits(input)[pos..pos + 8]
  {
    hide FileBits;
    SubSlice(FileBits(input), pos, 8, j);
  }

  lemma PosBitsLow(input: seq<byte>, pos: nat, j: nat)
    requires pos + 8 + j <= 8 * |input|
    ensures Val(PosBits(input, pos, j)[8..]) == NextVal(input, pos + 8, j)
  {
    hide FileBits, Val;
    SubSlice(FileBits(input), pos, 8, j);
  }

  lemma PosBitsValue(input: seq<byte>, pos: nat, i: int, j: nat)
    requires pos + 8 + j <= 8 * |input| && i == Val(FileBits(input)[pos..pos + 8])
    ensures i == Val(PosBits(input, pos, j)[..8])
    ensures Shifted(input, pos + 8, i, j) == Val(PosBits(input, pos, j))
  {
    hide FileBits, Val, Pow2, NextVal, PosBits;
    PosBitsByte(input, pos, j);
    PosBitsLow(input, pos, j);
    JoinByte(PosBits(input, pos, j), i, j, NextVal(input, pos + 8, j));
  }

  /** After the first byte the loop has read all of those bits into one number. */
  lemma ReadLowAll(input: seq<byte>, cur: Cursor, ic: (int, Cursor), j: nat)
    requires CursorOk(input, cur) && ReadByte(input, cur) == Some(ic)
    ensures var r := ReadLow(input, ic.1, ic.0, j);
      && (r.Some? <==> Readable(input, ic.1, j))
      && (r.Some? ==> cur.pos + 8 + j <= 8 * |input|)
      && (r.Some? ==> r.value == (Val(PosBits(input, cur.pos, j)), Past(ic.1, j)))
      && (r.Some? ==> ic.0 == Val(PosBits(input, cur.pos, j)[..8]))
  {
    hide FileBits, Val, ReadLow, Shifted, PosBits, Readable, Past;
    ReadLowVal(input, ic.1, ic.0, j);
    if cur.pos + 8 + j <= 8 * |input| {
      PosBitsValue(input, cur.pos, ic.0, j);
    }
  }

  /** DecodePosition reads exactly the code of the position it returns. */
  lemma ReadPosCode(input: seq<byte>, cur: Cursor)
    requires CursorOk(input, cur)
    ensures var r := ReadPos(input, cur);
      r.Some? ==>
        && cur.pos <= r.value.1.pos <= 8 * |input|
        && FileBits(input)[cur.pos..r.value.1.pos] == PosCode(r.value.0)
  {
    hide FileBits, Val, PosCode, DLen, DCode, ReadLow, ReadByte;
    if ReadPos(input, cur).Some? {
      var ic := ReadByte(input, cur).value;
      var j := DLen(ic.0) - 2;
      ReadLowAll(input, cur, ic, j);
      PosFromBits(PosBits(input, cur.pos, j), ic.0);
    }
  }

  /** How many bits of the file must follow the code of position p. A position below 64 takes one bit
      after its byte, and the reader looks for a new byte less far ahead. */
  function PosSpare(p: int): (n: nat)
    requires 0 <= p < N
    ensures n == if p < 64 then 8 else 15
  {
    if UpperLen(p / 64) == 3 then 8 else 15
  }

  /** When the code of p comes next, DecodePosition returns p, and stands behind it, exactly if the
      file goes on far enough. */
  lemma PosReads(input: seq<byte>, cur: Cursor, p: int)
    requires CursorOk(input, cur) && 0 <= p < N
    requires cur.pos + |PosCode(p)| <= 8 * |input|
    requires FileBits(input)[cur.pos..cur.pos + |PosCode(p)|] == PosCode(p)
    ensures ReadPos(input, cur).Some? <==> cur.pos + |PosCode(p)| + PosSpare(p) <= 8 * |input|
    ensures ReadPos(input, cur).Some? ==> ReadPos(input, cur).value == (p, Past(cur, |PosCode(p)|))
  {
    hide FileBits, Val, DLen, DCode, PosCode, ReadLow, ReadByte, Readable, Past;
    if cur.loaded < |input| {
      var ic := ByteNext(input, cur);
      var j := |PosCode(p)| - 8;
      PosBitsByte(input, cur.pos, j);
      PosToBits(p, PosCode(p), ic.0);
      ReadLowAll(input, cur, ic, j);
      AfterByte(input, cur, j);
    } else {
      ByteMissing(input, cur);
    }
  }

  /** After the byte of a position, j bits can be read if 15 more follow them, or 8 for a single bit. */
  lemma AfterByte(input: seq<byte>, cur: Cursor, j: nat)
    requires CursorOk(input, cur) && cur.loaded < |input| && j > 0
    ensures var b := Cursor(cur.pos + 8, cur.pos / 8 + 2);
      && (Readable(input, b, j) <==> cur.pos + 8 + j + (if j == 1 then 8 else 15) <= 8 * |input|)
      && Past(b, j) == Past(cur, 8 + j)
  {
  }

  lemma ByteMissing(input: seq<byte>, cur: Cursor)
    requires CursorOk(input, cur) && cur.loaded >= |input|
    ensures ReadByte(input, cur).None? && cur.pos + 17 > 8 * |input|
  {
  }

  lemma ByteNext(input: seq<byte>, cur: Cursor) returns (ic: (int, Cursor))
    requires CursorOk(input, cur) && cur.loaded < |input|
    ensures ReadByte(input, cur) == Some(ic)
    ensures cur.pos + 8 <= 8 * |input| && ic.1 == Cursor(cur.pos + 8, cur.pos / 8 + 2)
    ensures ic.0 == Val(FileBits(input)[cur.pos..cur.pos + 8])
  {
    ic := ReadByte(input, cur).value;
  }
}
