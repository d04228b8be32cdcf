/** The bit reader of the LZHUF decoder: a 512-byte input block and a 16-bit word, refilled a byte at
    a time (lib/libdsk/comptlzh.c, next_word, GetBit and GetByte). */
module TlzhReader {
  import opened Bits
  import opened TlzhStream

  const BUFSZ := 512

  /** A 16-bit word, most significant bit first. */
  type Word = w: seq<bool> | |w| == 16 witness Zeros(16)

  function Zeros(n: nat): (z: seq<bool>)
    ensures |z| == n && forall i :: 0 <= i < n ==> !z[i]
  {
    seq(n, i => false)
  }

  function ShiftLeft(w: Word, n: nat): Word
    requires n <= 16
  {
    w[n..] + Zeros(n)
  }

  function Or(a: Word, b: Word): Word {
    seq(16, i requires 0 <= i < 16 => a[i] || b[i])
  }

  lemma {:induction false} ZeroBits(n: nat)
    ensures ToBits(0, n) == Zeros(n)
  {
    if n > 0 {
      ZeroBits(n - 1);
    }
  }

  lemma {:induction false} WiderBits(v: nat, n: nat, m: nat)
    requires v < Pow2(n)
    ensures ToBits(v, m + n) == Zeros(m) + ToBits(v, n)
  {
    if n == 0 {
      ZeroBits(m);
      assert Zeros(m) + [] == Zeros(m);
    } else {
      WiderBits(v / 2, n - 1, m);
    }
  }

  /** What the word holds when the bits from pos up to byte loaded are waiting. */
  ghost predicate Waiting(file: seq<byte>, pos: nat, loaded: nat, w: Word) {
    && loaded <= |file| && pos <= 8 * loaded <= pos + 16
    && w == FileBits(file)[pos..8 * loaded] + Zeros(pos + 16 - 8 * loaded)
  }

  /** Or-ing in the next byte, shifted into place, appends its bits to those waiting. */
  lemma PushByte(file: seq<byte>, pos: nat, loaded: nat, w: Word)
    requires Waiting(file, pos, loaded, w) && loaded < |file| && 8 * loaded - pos <= 8
    ensures var n := 8 - (8 * loaded - pos);
      Waiting(file, pos, loaded + 1, Or(w, ShiftLeft(ToBits(file[loaded], 16), n)))
  {
    hide FileBits, ToBits;
    var n := 8 - (8 * loaded - pos);
    var b := ToBits(file[loaded], 8);
    Powers();
    WiderBits(file[loaded], 8, 8);
    FileBitsAt(file, loaded);
    var x := ShiftLeft(ToBits(file[loaded], 16), n);
    ByteInPlace(b, n, x);
    var old8 := FileBits(file)[pos..8 * loaded];
    OrAppend(old8, b, n, w, x);
    JoinSlices(FileBits(file), pos, 8 * loaded, 8 * loaded + 8);
  }

  lemma ByteInPlace(b: seq<bool>, n: nat, x: Word)
    requires |b| == 8 && n <= 8 && x == ShiftLeft(Zeros(8) + b, n)
    ensures x == Zeros(8 - n) + b + Zeros(n)
  {
  }

  lemma OrAppend(a: seq<bool>, b: seq<bool>, n: nat, w: Word, x: Word)
    requires |b| == 8 && n <= 8 && |a| == 8 - n
    requires w == a + Zeros(8 + n) && x == Zeros(8 - n) + b + Zeros(n)
    ensures Or(w, x) == a + b + Zeros(n)
  {
  }

  /** Taking k bits off the front of the word. */
  lemma DropBits(file: seq<byte>, pos: nat, loaded: nat, w: Word, k: nat)
    requires Waiting(file, pos, loaded, w) && pos + k <= 8 * loaded
    ensures w[..k] == FileBits(file)[pos..pos + k]
    ensures Waiting(file, pos + k, loaded, ShiftLeft(w, k))
  {
    hide FileBits;
    JoinSlices(FileBits(file), pos, pos + k, 8 * loaded);
    ShiftOut(FileBits(file)[pos..pos + k], FileBits(file)[pos + k..8 * loaded], w);
  }

  lemma ShiftOut(a: seq<bool>, b: seq<bool>, w: Word)
    requires |a| + |b| <= 16 && w == a + b + Zeros(16 - |a| - |b|)
    ensures w[..|a|] == a && ShiftLeft(w, |a|) == b + Zeros(16 - |b|)
  {
  }

  class BitReader {
    const file: seq<byte>
    var fpos: nat
    const inbuf: array<byte>
    var ibufcnt: nat
    var ibufndx: nat
    var getbuf: Word
    var getlen: nat

    /** The block buffer holds the bytes from loaded on that have been read but not yet used. */
    ghost predicate Fetched(loaded: nat)
      reads this, inbuf
    {
      && inbuf.Length == BUFSZ && ibufndx <= ibufcnt <= BUFSZ
      && loaded + (ibufcnt - ibufndx) == fpos <= |file|
      && inbuf[ibufndx..ibufcnt] == file[loaded..fpos]
    }

    ghost predicate Holds(pos: nat, loaded: nat)
      reads this, inbuf
    {
      Fetched(loaded) && Waiting(file, pos, loaded, getbuf) && getlen == 8 * loaded - pos
    }

    ghost predicate At(cur: Cursor)
      reads this, inbuf
    {
      CursorOk(file, cur) && Holds(cur.pos, cur.loaded) && (cur.loaded == 0 ==> fpos == 0)
    }

    /** The end of the file has been seen: every further read fails. */
    ghost predicate Drained()
      reads this
    {
      inbuf.Length == BUFSZ && ibufcnt == ibufndx == 0 && fpos == |file|
    }

    constructor (input: seq<byte>)
      requires |input| != 1
      ensures At(Cursor(0, 0)) && file == input && fresh(inbuf)
    {
      file := input;
      inbuf := new byte[BUFSZ](i => 0);
      fpos, ibufcnt, ibufndx, getlen := 0, 0, 0, 0;
      getbuf := Zeros(16);
      new;
      assert FileBits(file)[0..0] == [];
    }

    /** fread of one block. */
    method ReadBlock() returns (n: nat)
      requires inbuf.Length == BUFSZ && fpos <= |file|
      modifies this`fpos, inbuf
      ensures n == (if |file| - old(fpos) < BUFSZ then |file| - old(fpos) else BUFSZ)
      ensures fpos == old(fpos) + n && inbuf[..n] == file[old(fpos)..fpos]
    {
      n := if |file| - fpos < BUFSZ then |file| - fpos else BUFSZ;
      forall k | 0 <= k < n {
        inbuf[k] := file[fpos + k];
      }
      fpos := fpos + n;
    }

    /** next_word: fetch a block if the last one is used up, then fill the word from it. A refill
        never takes more bytes than the block holds. */
    method NextWord(ghost cur: Cursor) returns (rc: int)
      requires At(cur) || Drained()
      modifies this`fpos, this`ibufcnt, this`ibufndx, this`getbuf, this`getlen, inbuf
      ensures old(Drained()) || cur.loaded >= |file| ==> rc == -1 && Drained()
      ensures !old(Drained()) && cur.loaded < |file| ==> rc == 0 && Holds(cur.pos, cur.pos / 8 + 2)
    {
      hide FileBits, Waiting;
      if ibufndx >= ibufcnt {
        ibufndx := 0;
        var n := ReadBlock();
        ibufcnt := n;
        if ibufcnt <= 0 {
          return -1;
        }
      }
      WaitingBounds(file, cur, getbuf);
      FillWord(cur);
      return 0;
    }

    /** One round of next_word's loop: or the next byte into the word. */
    method LoadByte(ghost pos: nat, ghost loaded: nat)
      requires Holds(pos, loaded) && getlen <= 8 && ibufndx < ibufcnt
      modifies this`ibufndx, this`getbuf, this`getlen
      ensures Holds(pos, loaded + 1) && getlen == old(getlen) + 8 && ibufndx == old(ibufndx) + 1
    {
      hide FileBits, Waiting;
      assert inbuf[ibufndx] == inbuf[ibufndx..ibufcnt][0];
      PushByte(file, pos, loaded, getbuf);
      getbuf := Or(getbuf, ShiftLeft(ToBits(inbuf[ibufndx], 16), 8 - getlen));
      assert inbuf[ibufndx + 1..ibufcnt] == inbuf[ibufndx..ibufcnt][1..];
      ibufndx := ibufndx + 1;
      getlen := getlen + 8;
    }

    /** The while loop of next_word. */
    method FillWord(ghost cur: Cursor)
      requires Holds(cur.pos, cur.loaded) && cur.loaded <= cur.pos / 8 + 2
      requires cur.pos / 8 + 2 - cur.loaded <= ibufcnt - ibufndx
      modifies this`ibufndx, this`getbuf, this`getlen
      ensures Holds(cur.pos, cur.pos / 8 + 2)
    {
      hide FileBits, Waiting, Fetched;
      ghost var loaded: nat := cur.loaded;
      while getlen <= 8
        invariant loaded <= cur.pos / 8 + 2 && Holds(cur.pos, loaded)
        invariant cur.pos / 8 + 2 - loaded <= ibufcnt - ibufndx
        decreases 16 - getlen
      {
        LoadByte(cur.pos, loaded);
        loaded := loaded + 1;
      }
    }

    /** GetBit: the next bit of the file, or -1 once the last byte has been moved into the word. */
    method GetBit(ghost cur: Cursor) returns (b: int, ghost next: Cursor)
      requires At(cur) || Drained()
      modifies this`fpos, this`ibufcnt, this`ibufndx, this`getbuf, this`getlen, inbuf
      ensures old(Drained()) || cur.loaded >= |file| ==> b == -1 && Drained()
      ensures !old(Drained()) && cur.loaded < |file| ==>
        b in {0, 1} && At(next) && ReadBit(file, cur) == Some((b == 1, next))
    {
      hide FileBits, Waiting;
      next := cur;
      var rc := NextWord(cur);
      if rc < 0 {
        return -1, cur;
      }
      var i := getbuf;
      DropBits(file, cur.pos, cur.pos / 8 + 2, getbuf, 1);
      getbuf := ShiftLeft(getbuf, 1);
      getlen := getlen - 1;
      next := Cursor(cur.pos + 1, cur.pos / 8 + 2);
      assert i[..1][0] == i[0];
      b := if i[0] then 1 else 0;
    }

    /** GetByte: the value of the next eight bits, or -1. */
    method GetByte(ghost cur: Cursor) returns (v: int, ghost next: Cursor)
      requires At(cur) || Drained()
      modifies this`fpos, this`ibufcnt, this`ibufndx, this`getbuf, this`getlen, inbuf
      ensures old(Drained()) || cur.loaded >= |file| ==> v == -1 && Drained()
      ensures !old(Drained()) && cur.loaded < |file| ==>
        v >= 0 && At(next) && ReadByte(file, cur) == Some((v, next))
    {
      hide FileBits, Waiting, Val;
      next := cur;
      var rc := NextWord(cur);
      if rc != 0 {
        return -1, cur;
      }
      var i := getbuf;
      DropBits(file, cur.pos, cur.pos / 8 + 2, getbuf, 8);
      getbuf := ShiftLeft(getbuf, 8);
      getlen := getlen - 8;
      next := Cursor(cur.pos + 8, cur.pos / 8 + 2);
      v := Val(i[..8]);
    }
  }

  lemma WaitingBounds(file: seq<byte>, cur: Cursor, w: Word)
    requires CursorOk(file, cur) && Waiting(file, cur.pos, cur.loaded, w)
    ensures cur.loaded <= cur.pos / 8 + 2 && 0 <= 8 * cur.loaded - cur.pos <= 15
    ensures cur.pos > 0 ==> cur.pos / 8 + 1 <= cur.loaded
  {
  }
}
