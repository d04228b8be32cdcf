/** The LZHUF decoder itself: the fields of TLZH_COMPRESS_DATA and the routines that update them in
    place, each tied to the functions of the other Tlzh modules (lib/libdsk/comptlzh.c). */
module TlzhDecoder {
  import opened Bits
  import opened Sums
  import opened TlzhTree
  import opened TlzhReconst
  import opened TlzhCodes
  import opened TlzhStream
  import opened TlzhTokens
  import opened TlzhReader

  const F := 60

  /** Storing into an unsigned short. */
  function U16(x: int): int {
    x % 0x1_0000
  }

  /** The adaptive tree held in the freq, son and prnt arrays. */
  class HuffTree {
    const freq: array<int>
    const son: array<int>
    const prnt: array<int>

    ghost function Now(): Tree
      reads freq, son, prnt
    {
      Tree(freq[..], son[..], prnt[..])
    }

    ghost predicate Shaped()
      reads freq, son, prnt
    {
      && freq.Length == T + 1 && son.Length == T && prnt.Length == T + NCHAR
      && freq != son && freq != prnt && son != prnt
    }

    constructor ()
      ensures Shaped() && fresh(freq) && fresh(son) && fresh(prnt)
    {
      freq := new int[T + 1];
      son := new int[T];
      prnt := new int[T + NCHAR];
    }

    /** The first loop of StartHuff: a leaf of weight one for every symbol. */
    method StartLeaves()
      requires Shaped()
      modifies freq, son, prnt
      ensures freq[..NCHAR] == StartFreqs(NCHAR)
      ensures forall x :: 0 <= x < NCHAR ==> son[x] == x + T
      ensures forall x :: T <= x < T + NCHAR ==> prnt[x] == x - T
    {
      var i := 0;
      while i < NCHAR
        invariant 0 <= i <= NCHAR
        invariant forall x :: 0 <= x < i ==> freq[x] == 1 && son[x] == x + T
        invariant forall x :: T <= x < T + i ==> prnt[x] == x - T
      {
        freq[i] := 1;
        son[i] := i + T;
        prnt[i + T] := i;
        i := i + 1;
      }
      StartOnes(NCHAR);
    }

    method StartHuff()
      requires Shaped()
      modifies freq, son, prnt
      ensures Now() == StartTree()
    {
      hide StartFreqs, StartLinks, StartTree;
      StartLeaves();
      StartLinksNone(son[..], prnt[..]);
      var i, j := 0, NCHAR;
      while j <= R
        invariant NCHAR <= j <= T && i == 2 * (j - NCHAR)
        invariant freq[..j] == StartFreqs(j)
        invariant StartLinks(son[..], prnt[..], j)
      {
        ghost var f := freq[..j];
        StartNext(f, j);
        StartLinksNext(son[..], prnt[..], j);
        assert freq[i] == f[i] && freq[i + 1] == f[i + 1];
        freq[j] := U16(freq[i] + freq[i + 1]);
        assert freq[..j + 1] == f + [f[i] + f[i + 1]];
        son[j] := i;
        prnt[i] := j;
        prnt[i + 1] := j;
        i := i + 2;
        j := j + 1;
      }
      freq[T] := 0xffff;
      ghost var p := prnt[..];
      prnt[R] := 0;
      assert freq[..] == StartFreqs(T) + [0xffff];
      assert prnt[..] == p[R := 0];
      StartLinksAll(freq[..], son[..], p);
    }

    /** The first loop of reconst: halve the leaves, moving them down to the first slots. */
    method Compact(ghost t: Tree)
      requires Shaped() && t == Now() && Valid(t)
      modifies freq, son
      ensures freq[..NCHAR] == HalfFreqs(t, T) && son[..NCHAR] == HalfSons(t, T)
      ensures freq[T] == 0xffff
    {
      hide Linked, Ordered, Balanced;
      Sentinel(t);
      var i, j := 0, 0;
      while i < T
        invariant 0 <= j <= i <= T && j == |HalfFreqs(t, i)|
        invariant freq[..j] == HalfFreqs(t, i)
        invariant son[..j] == HalfSons(t, i)
        invariant forall x :: i <= x <= T ==> freq[x] == t.freq[x]
        invariant forall x :: i <= x < T ==> son[x] == t.son[x]
      {
        if son[i] >= T {
          ghost var f, s := freq[..j], son[..j];
          freq[j] := (freq[i] + 1) / 2;
          son[j] := son[i];
          assert freq[..j + 1] == f + [(t.freq[i] + 1) / 2];
          assert son[..j + 1] == s + [t.son[i]];
          j := j + 1;
        }
        i := i + 1;
      }
      HalvedSize(t);
    }

    /** The k loop of reconst: the slot for a node of weight f among the nodes below j. */
    method FindSlot(i: nat, j: nat, f: int) returns (k: nat)
      requires i + 1 < j <= freq.Length && freq[i + 1] <= f
      ensures k == SlotFor(freq[..j], f, i + 1, j - 1)
    {
      ghost var g := freq[..j];
      var m := j - 1;
      while f < freq[m]
        invariant i + 1 <= m < j
        invariant SlotFor(g, f, i + 1, m) == SlotFor(g, f, i + 1, j - 1)
        decreases m
      {
        m := m - 1;
      }
      k := m + 1;
    }

    /** One round of the second loop of reconst: join slots i and i + 1 and put the new node in place. */
    method JoinOne(i: nat, j: nat)
      requires Shaped() && NCHAR <= j < T && Grove(freq[..j], son[..j], i)
      requires Sum(freq[..j][i..]) < 0x1_0000
      modifies freq, son
      ensures var f, s := old(freq[..j]), old(son[..j]);
        && 0 < f[i]
        && freq[..j + 1] == InsertAt(f, JoinSlot(f, i), f[i] + f[i + 1])
        && son[..j + 1] == InsertAt(s, JoinSlot(f, i), i)
      ensures freq[T] == old(freq[T])
    {
      hide Grove, InsertAt, SlotFor, Sum;
      ghost var fs, ss := freq[..j], son[..j];
      GroveBounds(fs, ss, i);
      JoinSmall(fs, ss, i);
      assert freq[i] == fs[i] && freq[i + 1] == fs[i + 1];
      var f := U16(freq[i] + freq[i + 1]);
      freq[j] := f;
      assert freq[..j] == fs;
      var k := FindSlot(i, j, f);
      Place(freq, k, j, f);
      Place(son, k, j, i);
    }

    /** The second loop of reconst: join slots until one root is left. */
    method Join()
      requires Shaped() && Grove(freq[..NCHAR], son[..NCHAR], 0)
      requires Sum(freq[..NCHAR]) < 0x1_0000
      modifies freq, son
      ensures Joinable(old(freq[..NCHAR]), old(son[..NCHAR]), 0)
      ensures var r := JoinAll(old(freq[..NCHAR]), old(son[..NCHAR]), 0); freq[..T] == r.0 && son[..] == r.1
      ensures freq[T] == old(freq[T])
    {
      hide JoinAll, Grove, InsertAt, SlotFor, JoinSlot, Sum;
      ghost var f0, s0 := freq[..NCHAR], son[..NCHAR];
      GroveJoinable(f0, s0, 0);
      assert f0[0..] == f0;
      var i, j := 0, NCHAR;
      while j < T
        invariant NCHAR <= j <= T && i == 2 * (j - NCHAR)
        invariant Grove(freq[..j], son[..j], i) && Joinable(freq[..j], son[..j], i)
        invariant JoinAll(freq[..j], son[..j], i) == JoinAll(f0, s0, 0)
        invariant Sum(freq[..j][i..]) < 0x1_0000
        invariant freq[T] == old(freq[T])
      {
        ghost var fs, ss := freq[..j], son[..j];
        JoinOne(i, j);
        JoinStep(fs, ss, i);
        JoinGrove(fs, ss, i);
        JoinTotal(fs, i);
        i := i + 2;
        j := j + 1;
      }
      JoinAllDone(freq[..T], son[..T]);
      assert son[..] == son[..T];
    }

    /** The last loop of reconst: point every child at its parent. */
    method Relink()
      requires Shaped() && forall x :: 0 <= x < T ==> 0 <= son[x] < T + NCHAR
      modifies prnt
      ensures prnt[..] == Connect(son[..], old(prnt[..]), T)
    {
      ghost var p0 := prnt[..];
      var i := 0;
      while i < T
        invariant 0 <= i <= T
        invariant prnt[..] == Connect(son[..], p0, i)
      {
        var k := son[i];
        if k >= T {
          prnt[k] := i;
        } else {
          prnt[k] := i;
          prnt[k + 1] := i;
        }
        i := i + 1;
      }
    }

    method Reconstruct()
      requires Shaped() && Valid(Now())
      modifies freq, son, prnt
      ensures Now() == Reconst(old(Now()))
    {
      hide Linked, Ordered, Balanced, Grove, JoinAll, Connect, HalfFreqs, HalfSons;
      ghost var t := Now();
      HalvedGrove(t);
      HalvedTotal(t);
      HalvedSize(t);
      Compact(t);
      Join();
      JoinAllGrove(HalfFreqs(t, T), HalfSons(t, T), 0);
      GroveSlots(freq[..T], son[..]);
      Relink();
      assert freq[..] == freq[..T] + [0xffff];
    }

    /** The inner loop of update: the last slot from c + 1 on that is lighter than k. */
    method LastLighter(c: int, k: int) returns (l: int)
      requires freq.Length == T + 1 && 0 <= c < T && freq[c + 1] < k <= freq[T]
      ensures l == ScanEnd(freq[..], c + 1, k) - 1
    {
      ghost var f := freq[..];
      l := c + 1;
      while k > freq[l]
        invariant c < l <= T
        invariant ScanEnd(f, l, k) == ScanEnd(f, c + 1, k)
        decreases T - l
      {
        l := l + 1;
      }
      l := l - 1;
    }

    /** Exchange the subtrees of slots c and l. */
    method Exchange(ghost t: Tree, c: int, l: int)
      requires Shaped() && Sized(t) && Linked(t) && t.son == son[..] && t.prnt == prnt[..]
      requires 0 <= c < T && 0 <= l < T
      modifies son, prnt
      ensures son[..] == SwapSons(t, c, l).son && prnt[..] == SwapSons(t, c, l).prnt
    {
      hide Linked;
      SonRange(t, c);
      SonRange(t, l);
      var i := son[c];
      prnt[i] := l;
      if i < T {
        prnt[i + 1] := l;
      }
      var j := son[l];
      son[l] := i;
      prnt[j] := c;
      if j < T {
        prnt[j + 1] := c;
      }
      son[c] := j;
    }

    /** One round of update's loop: raise node c, which ends in slot e. */
    method RaiseNode(c: int) returns (e: int)
      requires Shaped() && Owed(Now(), c)
      modifies freq, son, prnt
      ensures (Now(), e) == Raise(old(Now()), c)
    {
      hide Linked, Ordered, Balanced, SwapSons;
      ghost var t := Now();
      OwedSmall(t, c);
      freq[c] := U16(freq[c] + 1);
      var k := freq[c];
      e := c;
      if k > freq[c + 1] {
        var l := LastLighter(c, k);
        RaisedScan(t, freq[..], c);
        freq[c] := freq[l];
        freq[l] := k;
        Exchange(t, c, l);
        e := l;
        assert freq[..] == t.freq[c := t.freq[l]][l := k];
      } else {
        assert freq[..] == t.freq[c := k];
      }
    }

    method Update(s: int)
      requires Shaped() && Valid(Now()) && 0 <= s < NCHAR
      modifies freq, son, prnt
      ensures Now() == TlzhReconst.Update(old(Now()), s)
    {
      hide Linked, Ordered, Balanced, Owed, Settled, Climb, Raise, Reconst;
      ghost var t := Now();
      ReconstCorrect(t);
      if freq[R] == MAX_FREQ {
        Reconstruct();
      }
      LeafOwed(Now(), s);
      LeafSlot(Now(), s);
      var c := prnt[s + T];
      while true
        invariant Owed(Now(), c) && 0 <= c < T
        invariant Climb(Now(), c) == TlzhReconst.Update(t, s)
        decreases T - c
      {
        ClimbStep(Now(), c);
        var e := RaiseNode(c);
        c := prnt[e];
        if c == 0 {
          break;
        }
      }
    }
  }

  lemma SonRange(t: Tree, c: int)
    requires Sized(t) && Linked(t) && 0 <= c < T
    ensures 0 <= t.son[c] < T + NCHAR
  {
  }

  lemma OwedSmall(t: Tree, c: int)
    requires Owed(t, c)
    ensures 0 < t.freq[c] < MAX_FREQ < t.freq[T] < 0x1_0000
  {
    assert c == R || c < R;
  }

  /** The scan sees the raised weight at c only below where it starts. */
  lemma RaisedScan(t: Tree, f: seq<int>, c: int)
    requires Owed(t, c) && f == t.freq[c := t.freq[c] + 1]
    requires t.freq[c] + 1 <= t.freq[T]
    ensures ScanEnd(f, c + 1, t.freq[c] + 1) == ScanEnd(t.freq, c + 1, t.freq[c] + 1)
  {
    hide Linked, Ordered, Balanced;
    SameScan(t.freq, f, c + 1, t.freq[c] + 1);
  }

  lemma {:induction false} SameScan(f: seq<int>, g: seq<int>, l: int, k: int)
    requires |f| == |g| == T + 1 && 0 <= l <= T && k <= f[T]
    requires forall m :: l <= m <= T ==> f[m] == g[m]
    ensures ScanEnd(f, l, k) == ScanEnd(g, l, k)
    decreases T - l
  {
    if f[l] < k {
      SameScan(f, g, l + 1, k);
    }
  }

  lemma LeafSlot(t: Tree, s: int)
    requires Valid(t) && 0 <= s < NCHAR
    ensures 0 <= t.prnt[s + T] < T
  {
  }

  /** One round of Climb. */
  lemma ClimbStep(t: Tree, c: int)
    requires Owed(t, c)
    ensures var (u, e) := Raise(t, c);
      && |u.prnt| == T + NCHAR && 0 <= e < T
      && (u.prnt[e] == 0 ==> Climb(t, c) == u)
      && (u.prnt[e] != 0 ==>
            c < u.prnt[e] < T && Owed(u, u.prnt[e]) && Climb(t, c) == Climb(u, u.prnt[e]))
  {
    RaiseSettled(t, c);
    RootHasParentZero(Raise(t, c).0, Raise(t, c).1);
  }

  /** Move the elements from k up to j one place up and store v at k. */
  method Place(a: array<int>, k: nat, j: nat, v: int)
    requires k <= j < a.Length
    modifies a
    ensures a[..j + 1] == InsertAt(old(a[..j]), k, v)
    ensures forall m :: j < m < a.Length ==> a[m] == old(a[m])
  {
    ghost var s := a[..j];
    forall m | k < m <= j {
      a[m] := a[m - 1];
    }
    a[k] := v;
    assert forall m :: 0 <= m <= j ==> a[..j + 1][m] == InsertAt(s, k, v)[m];
  }

  lemma JoinAllDone(f: seq<int>, s: seq<int>)
    requires Joinable(f, s, R)
    ensures |f| == T && JoinAll(f, s, R) == (f, s)
  {
  }

  lemma GroveSlots(f: seq<int>, s: seq<int>)
    requires Grove(f, s, R)
    ensures |s| == T && forall y :: 0 <= y < T ==> 0 <= s[y] < T + NCHAR
  {
  }

  lemma GroveBounds(f: seq<int>, s: seq<int>, i: int)
    requires Grove(f, s, i) && |f| < T
    ensures 0 <= i && i + 1 < |f| && f[i + 1] <= f[i] + f[i + 1]
  {
  }

  /** The weight of the joined node is part of the total of the roots. */
  lemma JoinSmall(f: seq<int>, s: seq<int>, i: nat)
    requires Grove(f, s, i) && |f| < T && Sum(f[i..]) < 0x1_0000
    ensures 0 < f[i] <= f[i + 1] && f[i] + f[i + 1] < 0x1_0000
  {
    var head, tail := [f[i], f[i + 1]], f[i + 2..];
    assert f[i..] == head + tail;
    SumBoundsBelow(tail);
    SumConcat(head, tail);
    assert head[..1] == [f[i]];
    assert Sum([f[i]]) == f[i];
  }

  lemma {:induction false} SumBoundsBelow(s: seq<int>)
    requires forall x :: 0 <= x < |s| ==> 0 < s[x]
    ensures 0 <= Sum(s)
  {
    if s != [] {
      SumBoundsBelow(s[..|s| - 1]);
    }
  }

  lemma Sentinel(t: Tree)
    requires Valid(t)
    ensures t.freq[T] == 0xffff
  {
  }

  /** The next weight StartHuff stores fits in sixteen bits. */
  lemma StartNext(f: seq<int>, j: nat)
    requires NCHAR <= j < T && f == StartFreqs(j)
    ensures var i := 2 * (j - NCHAR);
      && 0 <= f[i] + f[i + 1] < 0x1_0000
      && StartFreqs(j + 1) == f + [f[i] + f[i + 1]]
  {
    StartSmall(j + 1);
    var i, g := 2 * (j - NCHAR), StartFreqs(j + 1);
    assert g == StartFreqs(j) + [StartFreqs(j)[i] + StartFreqs(j)[i + 1]];
    assert g[j] <= MAX_FREQ && 0 < g[i] && 0 < g[i + 1];
  }

  /** The links StartHuff has stored when it has built the nodes below j. */
  ghost predicate StartLinks(s: seq<int>, p: seq<int>, j: int) {
    && |s| == T && |p| == T + NCHAR && NCHAR <= j <= T
    && (forall x :: 0 <= x < j ==> s[x] == if x < NCHAR then x + T else 2 * (x - NCHAR))
    && (forall x :: 0 <= x < 2 * (j - NCHAR) ==> p[x] == NCHAR + x / 2)
    && (forall x :: T <= x < T + NCHAR ==> p[x] == x - T)
  }

  lemma StartLinksNone(s: seq<int>, p: seq<int>)
    requires |s| == T && |p| == T + NCHAR
    requires forall x :: 0 <= x < NCHAR ==> s[x] == x + T
    requires forall x :: T <= x < T + NCHAR ==> p[x] == x - T
    ensures StartLinks(s, p, NCHAR)
  {
  }

  lemma StartLinksNext(s: seq<int>, p: seq<int>, j: int)
    requires StartLinks(s, p, j) && j < T
    ensures var i := 2 * (j - NCHAR); StartLinks(s[j := i], p[i := j][i + 1 := j], j + 1)
  {
  }

  lemma StartLinksAll(f: seq<int>, s: seq<int>, p: seq<int>)
    requires f == StartFreqs(T) + [0xffff] && StartLinks(s, p, T)
    ensures Tree(f, s, p[R := 0]) == StartTree()
  {
    hide StartFreqs;
  }

  lemma {:induction false} StartOnes(n: nat)
    requires n <= NCHAR
    ensures forall x :: 0 <= x < n ==> StartFreqs(n)[x] == 1
  {
    if n > 0 {
      StartOnes(n - 1);
    }
  }

  lemma StartSmall(n: nat)
    requires n <= T
    ensures forall x :: 0 <= x < n ==> 0 < StartFreqs(n)[x] <= MAX_FREQ
  {
    StartCorrect();
    var t := StartTree();
    TreeBounded(t);
    forall x | 0 <= x < n
      ensures 0 < StartFreqs(n)[x] <= MAX_FREQ
    {
      StartPrefix(n, x);
      StartPrefix(T, x);
      assert 0 < t.freq[x] <= MAX_FREQ;
    }
  }

  // ---------------------------------------------------------------- the ring buffer

  /** How long ago slot k of the ring was written, if r is written next. */
  function Age(k: int, r: int): int {
    if k < r then r - k else r - k + N
  }

  /** The last N bytes of the history h lie in the ring b, the latest just below r. */
  ghost predicate Ring(b: seq<byte>, r: int, h: seq<byte>) {
    && |b| >= N && 0 <= r < N && |h| >= N
    && forall k :: 0 <= k < N ==> b[k] == h[|h| - Age(k, r)]
  }

  lemma RingPush(b: seq<byte>, r: int, h: seq<byte>, c: byte)
    requires Ring(b, r, h)
    ensures Ring(b[r := c], (r + 1) % N, h + [c])
  {
  }

  /** A copy position p that is d behind r holds the byte d back in the history. */
  lemma RingBack(b: seq<byte>, r: int, h: seq<byte>, p: int, d: int)
    requires Ring(b, r, h) && 1 <= d <= N && 0 <= p && (p + d) % N == r
    ensures b[p % N] == h[|h| - d]
  {
    var k := p % N;
    assert (k + d) % N == r by { ModPlus(p, d); }
    assert b[k] == h[|h| - Age(k, r)];
  }

  lemma ModPlus(p: int, d: int)
    ensures (p % N + d) % N == (p + d) % N
  {
    var q := p / N;
    assert p + d == (p % N + d) + q * N;
  }

  /** The window init_Decode leaves, oldest byte first: what the end of the string buffer held,
      then spaces. */
  function Window(mem: seq<byte>): (w: seq<byte>)
    requires |mem| == N + F - 1
    ensures |w| == N
  {
    mem[N - F..N] + seq(N - F, i => 32)
  }

  lemma WindowRing(mem: seq<byte>, b: seq<byte>)
    requires |mem| == |b| == N + F - 1
    requires forall k :: 0 <= k < |b| ==> b[k] == if k < N - F then 32 else mem[k]
    ensures Ring(b, N - F, Window(mem))
  {
  }

  /** One round of DecodeChar's loop. */
  lemma ReadCharStep(input: seq<byte>, t: Tree, cur: Cursor, x: int)
    requires Valid(t) && 0 <= x < T && CursorOk(input, cur) && t.son[x] < T
    ensures 0 <= t.son[x] && t.son[x] + 1 < x
    ensures cur.loaded >= |input| ==> ReadChar(input, t, cur, x).None?
    ensures cur.loaded < |input| ==>
      var bc := ReadBit(input, cur).value;
      var y := t.son[x] + (if bc.0 then 1 else 0);
      ReadChar(input, t, cur, x) == ReadChar(input, t, bc.1, y)
  {
  }

  lemma {:induction false} Pow2Mono(a: nat, b: nat)
    requires a <= b
    ensures Pow2(a) <= Pow2(b)
  {
    if a < b {
      Pow2Mono(a, b - 1);
    }
  }

  class Decoder {
    const tree: HuffTree
    const reader: BitReader
    const textBuf: array<byte>
    var r: nat
    var bufcnt: nat
    var bufndx: nat
    var bufpos: nat

    /** The state of the decoder as the machine of TlzhTokens. */
    ghost var st: State

    ghost predicate Apart()
      reads this, tree, reader
    {
      && textBuf.Length == N + F - 1 && textBuf != reader.inbuf
    }

    /** What is left of a copy under way. */
    ghost predicate Copying()
      reads this
    {
      if st.left == 0 then bufcnt == 0
      else bufndx < bufcnt && st.left == bufcnt - bufndx && (bufpos + bufndx + st.distance) % N == r
    }

    ghost predicate Ready()
      reads this, tree, tree.freq, tree.son, tree.prnt, reader, reader.inbuf, textBuf
    {
      && Apart() && tree.Shaped() && StateOk(reader.file, st) && Copying()
      && Ring(textBuf[..], r, st.hist)
      && (if st.dead then st.left == 0 && reader.Drained() && Valid(tree.Now())
          else reader.At(st.cur) && tree.Now() == st.tree)
    }

    /** A decoder over the bytes that follow the file header; mem is what the string buffer holds
        before init_Decode. */
    constructor (input: seq<byte>, mem: seq<byte>)
      requires |input| != 1 && |mem| == N + F - 1
      ensures Apart() && fresh(tree) && fresh(tree.freq) && fresh(tree.son) && fresh(tree.prnt)
      ensures fresh(reader) && fresh(reader.inbuf) && fresh(textBuf)
      ensures tree.Shaped() && reader.file == input && reader.At(Cursor(0, 0)) && textBuf[..] == mem
    {
      tree := new HuffTree();
      reader := new BitReader(input);
      textBuf := new byte[N + F - 1](i requires 0 <= i < N + F - 1 => mem[i]);
      r, bufcnt, bufndx, bufpos := 0, 0, 0, 0;
      new;
      assert textBuf[..] == mem;
    }

    /** The loop of init_Decode. */
    method FillWindow()
      requires textBuf.Length == N + F - 1
      modifies textBuf
      ensures Ring(textBuf[..], N - F, Window(old(textBuf[..])))
    {
      ghost var mem := textBuf[..];
      var i := 0;
      while i < N - F
        invariant 0 <= i <= N - F
        invariant forall k :: 0 <= k < i ==> textBuf[k] == 32
        invariant forall k :: i <= k < textBuf.Length ==> textBuf[k] == mem[k]
      {
        textBuf[i] := 32;
        i := i + 1;
      }
      WindowRing(mem, textBuf[..]);
    }

    /** init_Decode: the starting tree, and a window of spaces. */
    method InitDecode()
      requires Apart() && tree.Shaped() && reader.At(Cursor(0, 0))
      modifies this`r, this`bufcnt, this`st, tree.freq, tree.son, tree.prnt, textBuf
      ensures Ready()
      ensures |reader.file| != 1 && st == Start(reader.file, Window(old(textBuf[..])))
    {
      hide StartTree, TlzhTree.Valid, Ring, Window, Pow2, StateOk;
      ghost var mem := textBuf[..];
      bufcnt := 0;
      tree.StartHuff();
      FillWindow();
      r := N - F;
      st := Start(reader.file, Window(mem));
      FirstReady();
    }

    lemma FirstReady()
      requires Apart() && tree.Shaped() && tree.Now() == StartTree() && reader.At(Cursor(0, 0))
      requires |reader.file| != 1 && bufcnt == 0 && |st.hist| == N && st == Start(reader.file, st.hist)
      requires Ring(textBuf[..], r, st.hist)
      ensures Ready()
    {
      hide StartTree, TlzhTree.Valid, Ring, Pow2, StateOk;
    }

    /** DecodeChar: the next symbol, after which the tree is updated; -1 at the end of the input. */
    method DecodeChar(ghost live: bool, ghost cur: Cursor) returns (c: int, ghost next: Cursor)
      requires tree.Shaped() && Valid(tree.Now())
      requires if live then reader.At(cur) else reader.Drained()
      modifies tree.freq, tree.son, tree.prnt, reader, reader.inbuf
      ensures tree.Shaped() && Valid(tree.Now())
      ensures var rd := if live then ReadChar(reader.file, old(tree.Now()), cur, R) else None;
        match rd
        case None => c == -1 && reader.Drained()
        case Some(cc) =>
          c == cc.0 && next == cc.1 && reader.At(next) && tree.Now() == TlzhReconst.Update(old(tree.Now()), c)
    {
      hide Linked, Ordered, Balanced, ReadChar, ReadBit, TlzhReconst.Update;
      ghost var t := tree.Now();
      RootInner(t);
      ghost var x := R;
      next := cur;
      c := tree.son[R];
      while c < T
        invariant tree.Now() == t && 0 <= x < T && c == t.son[x]
        invariant if live then reader.At(next) else reader.Drained() && x == R
        invariant live ==> ReadChar(reader.file, t, next, x) == ReadChar(reader.file, t, cur, R)
        decreases x
      {
        if live {
          ReadCharStep(reader.file, t, next, x);
        }
        var ret, n := reader.GetBit(next);
        if ret < 0 {
          return -1, cur;
        }
        x := c + ret;
        c := c + ret;
        c := tree.son[c];
        next := n;
      }
      ReadCharLeaf(reader.file, t, next, x);
      c := c - T;
      tree.Update(c);
    }

    /** The loop of DecodePosition: shift n more bits into i; -1 at the end. */
    method LowBits(ghost cur: Cursor, b: nat, n: nat) returns (i: int, ghost next: Cursor)
      requires reader.At(cur) && b < 256 && n <= 6
      modifies reader, reader.inbuf
      ensures match ReadLow(reader.file, cur, b, n)
        case None => i == -1 && reader.Drained()
        case Some(ic) => i == ic.0 && next == ic.1 && reader.At(next)
    {
      hide ReadBit, ReadLow, Pow2;
      next := cur;
      i := b;
      var j := n;
      FitsAtStart(b, j);
      while j > 0
        invariant 0 <= j <= 6 && reader.At(next)
        invariant 0 <= i < Pow2(14 - j)
        invariant ReadLow(reader.file, next, i, j) == ReadLow(reader.file, cur, b, n)
        decreases j
      {
        ReadLowStep(reader.file, next, i, j);
        ReaderLive(next);
        var bit, m := reader.GetBit(next);
        if bit < 0 {
          return -1, cur;
        }
        ShiftFits(i, bit, j);
        i := U16(2 * i + bit);
        j := j - 1;
        next := m;
      }
      ReadLowEnd(reader.file, next, i);
    }

    /** DecodePosition: six upper bits from the tables, six lower bits directly; -1 at the end. */
    method DecodePosition(ghost cur: Cursor) returns (p: int, ghost next: Cursor)
      requires reader.At(cur)
      modifies reader, reader.inbuf
      ensures match ReadPos(reader.file, cur)
        case None => p == -1 && reader.Drained()
        case Some(pc) => p == pc.0 && next == pc.1 && reader.At(next)
    {
      hide ReadByte, ReadBit, ReadLow, DCode, DLen;
      ReaderLive(cur);
      next := cur;
      var b, n := reader.GetByte(cur);
      if b < 0 {
        return -1, cur;
      }
      var i, m := LowBits(n, b, DLen(b) - 2);
      if i < 0 {
        return -1, cur;
      }
      next := m;
      p := DCode(b) * 64 + i % 64;
    }

    /** A reader that still has something to load has not seen the end. */
    lemma ReaderLive(cur: Cursor)
      requires reader.At(cur)
      ensures reader.Drained() ==> cur.loaded >= |reader.file|
      ensures cur.loaded >= |reader.file| ==>
        ReadByte(reader.file, cur).None? && ReadBit(reader.file, cur).None?
    {
    }

    /** Store c in the string buffer and move on. */
    method PutByte(c: byte, ghost h: seq<byte>)
      requires textBuf.Length == N + F - 1 && Ring(textBuf[..], r, h)
      modifies this`r, textBuf
      ensures Ring(textBuf[..], r, h + [c]) && r == (old(r) + 1) % N
    {
      hide Ring;
      RingBound(textBuf[..], r, h);
      RingPush(textBuf[..], r, h, c);
      ghost var b := textBuf[..];
      textBuf[r] := c;
      assert textBuf[..] == b[r := c];
      r := (r + 1) % N;
    }

    /** Ready but for the fact that symbol c of the next token has been read, ending at cur. */
    ghost predicate HasSymbol(c: int, cur: Cursor)
      reads this, tree, tree.freq, tree.son, tree.prnt, reader, reader.inbuf, textBuf
    {
      && Apart() && tree.Shaped() && StateOk(reader.file, st) && !st.dead && st.left == 0
      && Ring(textBuf[..], r, st.hist) && 0 <= c < NCHAR
      && ReadChar(reader.file, st.tree, st.cur, R) == Some((c, cur))
      && reader.At(cur) && Valid(tree.Now()) && tree.Now() == TlzhReconst.Update(st.tree, c)
    }

    /** A literal goes straight into the string buffer. */
    method TakeLiteral(c: int, ghost cur: Cursor)
      requires HasSymbol(c, cur) && c < 256 && bufcnt == 0
      modifies this`r, this`st, textBuf
      ensures Ready() && NextByte(reader.file, old(st)) == Some(st) && st.hist == old(st).hist + [c]
    {
      hide Linked, Ordered, Balanced, Ring, ReadChar, TlzhReconst.Update, CursorOk;
      LiteralRead(reader.file, st, c, cur);
      PutByte(c, st.hist);
      st := State(tree.Now(), cur, st.hist + [c], 0, 0, false);
    }

    /** A match is noted, to be copied when bytes are asked for; false at the end of the input. */
    method TakeMatch(c: int, ghost cur: Cursor) returns (ok: bool)
      requires HasSymbol(c, cur) && c >= 256 && bufcnt == 0
      modifies this`bufcnt, this`bufndx, this`bufpos, this`st, reader, reader.inbuf
      ensures Ready()
      ensures !ok ==> st == old(st).(dead := true) && NextByte(reader.file, old(st)).None?
      ensures ok ==>
        && bufcnt > 0 && st.left > 0 && st.hist == old(st).hist && !st.dead
        && ReadToken(reader.file, old(st).tree, old(st).cur) == Some((Match(st.distance, st.left), st.tree, st.cur))
    {
      hide Linked, Ordered, Balanced, Ring, ReadChar, ReadPos, TlzhReconst.Update, CursorOk;
      MatchRead(reader.file, st, c, cur);
      var pos, cur2 := DecodePosition(cur);
      if pos < 0 {
        st := st.(dead := true);
        return false;
      }
      bufpos := (r - pos - 1) % N;
      bufcnt := c - 255 + THRESHOLD;
      bufndx := 0;
      RingBound(textBuf[..], r, st.hist);
      BackUp(r, pos);
      st := State(tree.Now(), cur2, st.hist, pos + 1, bufcnt, false);
      return true;
    }

    /** The part of Decode that reads a token. Returns its symbol, or -1 at the end of the input. */
    method NextToken() returns (c: int)
      requires Ready() && bufcnt == 0
      modifies this`r, this`bufcnt, this`bufndx, this`bufpos, this`st
      modifies tree.freq, tree.son, tree.prnt, reader, reader.inbuf, textBuf
      ensures Ready()
      ensures c < 0 ==> st == old(st).(dead := true) && NextByte(reader.file, old(st)).None?
      ensures 0 <= c < 256 ==> NextByte(reader.file, old(st)) == Some(st) && st.hist == old(st).hist + [c]
      ensures c >= 256 ==>
        && !old(st).dead && bufcnt > 0 && st.left > 0 && st.hist == old(st).hist && !st.dead
        && old(st).left == 0
        && ReadToken(reader.file, old(st).tree, old(st).cur) == Some((Match(st.distance, st.left), st.tree, st.cur))
    {
      hide Linked, Ordered, Balanced, Ring, ReadChar, TlzhReconst.Update, CursorOk;
      NoSymbol(reader.file, st);
      ghost var cur;
      c, cur := DecodeChar(!st.dead, st.cur);
      if c < 0 {
        st := st.(dead := true);
      } else if c < 256 {
        TakeLiteral(c, cur);
      } else {
        var ok := TakeMatch(c, cur);
        if !ok {
          c := -1;
        }
      }
    }

    /** One round of Decode's inner loop. */
    method CopyOne(buf: array<byte>, count: nat)
      requires Ready() && bufcnt > 0 && count < buf.Length && buf != textBuf && buf != reader.inbuf
      modifies this`r, this`bufndx, this`st, textBuf, buf
      ensures bufndx == old(bufndx) + 1 <= bufcnt
      ensures if bufndx < bufcnt then Ready() else Finished()
      ensures !st.dead && NextByte(reader.file, old(st)) == Some(st)
      ensures st.hist == old(st).hist + [buf[count]]
      ensures buf[..count] == old(buf[..count])
    {
      hide Ring, TlzhTree.Valid, CursorOk, AtToken, StateOk, NextByte;
      CopyStep(reader.file, st);
      var c := textBuf[(bufpos + bufndx) % N];
      RingBack(textBuf[..], r, st.hist, bufpos + bufndx, st.distance);
      buf[count] := c;
      StepOn(bufpos + bufndx, st.distance);
      bufndx := bufndx + 1;
      PutByte(c, st.hist);
      st := st.(hist := st.hist + [c], left := st.left - 1);
    }

    /** The inner loop of Decode: copy until the match or the request ends. */
    method CopyBytes(buf: array<byte>, start: nat, len: nat) returns (count: nat)
      requires Ready() && bufcnt > 0 && start < len <= buf.Length && buf != textBuf && buf != reader.inbuf
      modifies this`r, this`bufcnt, this`bufndx, this`st, textBuf, buf
      ensures Ready() && !st.dead && start < count <= len
      ensures Deliver(reader.file, st, len - count) == Deliver(reader.file, old(st), len - start)
      ensures st.hist == old(st).hist + buf[start..count]
      ensures buf[..start] == old(buf[..start])
    {
      hide Linked, Ordered, Balanced, Ring, ReadToken, TlzhTree.Valid, CursorOk, NextByte, Deliver, StateOk;
      ghost var was := st;
      count := start;
      assert st.hist + buf[start..count] == st.hist;
      while bufndx < bufcnt && count < len
        invariant start <= count <= len && bufndx <= bufcnt && 0 < bufcnt
        invariant if bufndx < bufcnt then Ready() else Finished()
        invariant count > start || bufndx < bufcnt
        invariant count > start ==> !st.dead
        invariant Deliver(reader.file, st, len - count) == Deliver(reader.file, was, len - start)
        invariant st.hist == was.hist + buf[start..count]
        invariant buf[..start] == old(buf[..start])
        decreases len - count
      {
        ghost var b := buf[..];
        DeliverStep(reader.file, st, len - count);
        CopyOne(buf, count);
        SliceGrow(b, buf[..], start, count);
        count := count + 1;
      }
      if bufndx >= bufcnt {
        bufndx := 0;
        bufcnt := 0;
      }
    }

    /** A copy has just been completed: ready once bufcnt is cleared. */
    ghost predicate Finished()
      reads this, tree, tree.freq, tree.son, tree.prnt, reader, reader.inbuf, textBuf
    {
      && Apart() && tree.Shaped() && StateOk(reader.file, st) && st.left == 0 && !st.dead
      && Ring(textBuf[..], r, st.hist) && reader.At(st.cur) && tree.Now() == st.tree
    }

    lemma ReadyFacts()
      requires Ready()
      ensures StateOk(reader.file, st) && (bufcnt == 0 <==> st.left == 0) && (bufcnt > 0 ==> !st.dead)
    {
    }

    /** One round of Decode's outer loop. */
    method Round(buf: array<byte>, start: nat, len: nat) returns (count: nat, more: bool)
      requires Ready() && start < len <= buf.Length && buf != textBuf && buf != reader.inbuf
      modifies this`r, this`bufcnt, this`bufndx, this`bufpos, this`st
      modifies tree.freq, tree.son, tree.prnt, reader, reader.inbuf, textBuf, buf
      ensures Ready() && start <= count <= len && StateOk(reader.file, old(st))
      ensures st.dead == !more && (more ==> count > start || (old(bufcnt) == 0 && bufcnt > 0))
      ensures StateOk(reader.file, st)
        && Deliver(reader.file, st, len - count) == Deliver(reader.file, old(st), len - start)
      ensures st.hist == old(st).hist + buf[start..count] && buf[..start] == old(buf[..start])
    {
      hide Ready, ReadToken, NextByte, Deliver, StateOk;
      ghost var before, b := st, buf[..];
      ReadyFacts();
      count, more := start, true;
      if bufcnt == 0 {
        DeliverStep(reader.file, st, len - start);
        var c := NextToken();
        ReadyFacts();
        if c < 0 {
          more := false;
          DeadDelivers(reader.file, st);
          assert st.hist + buf[start..start] == st.hist;
        } else if c < 256 {
          NextByteAlive(reader.file, before);
          buf[start] := c;
          SliceGrow(b, buf[..], start, start);
          count := start + 1;
        } else {
          MatchPending(reader.file, before, st, len - start);
          assert st.hist + buf[start..start] == st.hist;
        }
      } else {
        count := CopyBytes(buf, start, len);
        ReadyFacts();
      }
    }

    /** Decode: len bytes, or as many as the input yields. It is the machine of TlzhTokens: how the
        output is cut into requests does not change it. */
    method Decode(buf: array<byte>, len: nat) returns (count: nat)
      requires Ready() && len <= buf.Length && buf != textBuf && buf != reader.inbuf
      modifies this`r, this`bufcnt, this`bufndx, this`bufpos, this`st
      modifies tree.freq, tree.son, tree.prnt, reader, reader.inbuf, textBuf, buf
      ensures Ready() && StateOk(reader.file, old(st)) && st == Deliver(reader.file, old(st), len)
      ensures count <= len && st.hist == old(st).hist + buf[..count]
      ensures count < len ==> st.dead
    {
      hide Ready, ReadToken, NextByte, Deliver, StateOk;
      ghost var was := st;
      ReadyFacts();
      count := 0;
      assert st.hist + buf[..0] == st.hist;
      while count < len
        invariant count <= len && Ready() && StateOk(reader.file, st)
        invariant Deliver(reader.file, st, len - count) == Deliver(reader.file, was, len)
        invariant st.hist == was.hist + buf[..count]
        decreases len - count, if bufcnt == 0 then 1 else 0
      {
        var n, more := Round(buf, count, len);
        assert buf[..n] == buf[..count] + buf[count..n];
        count := n;
        if !more {
          DeadDelivers(reader.file, st);
          return;
        }
      }
      DeliverStep(reader.file, st, 0);
    }

    /** The loop of uncompress: request blocks until one comes back short. Everything the machine can
        deliver has then been delivered. */
    method ExpandAll() returns (out: seq<byte>)
      requires Ready()
      modifies this`r, this`bufcnt, this`bufndx, this`bufpos, this`st
      modifies tree.freq, tree.son, tree.prnt, reader, reader.inbuf, textBuf
      ensures Ready() && st.dead && st.hist == old(st).hist + out
      ensures StateOk(reader.file, old(st))
      ensures exists n: nat :: st == Deliver(reader.file, old(st), n)
    {
      hide Ready, Deliver, StateOk, Fuel;
      ghost var was, n: nat := st, 0;
      ReadyFacts();
      out := [];
      var obuf := new byte[BUFSZ](i => 0);
      var rd: nat := BUFSZ;
      DeliverStep(reader.file, st, 0);
      assert st.hist + out == st.hist;
      while rd == BUFSZ
        invariant rd <= BUFSZ && Ready() && StateOk(reader.file, st)
        invariant st == Deliver(reader.file, was, n) && st.hist == was.hist + out
        invariant rd < BUFSZ ==> st.dead
        decreases rd == BUFSZ, if st.dead then 0 else 1, Fuel(reader.file, st) + 60
      {
        NextByteFuel(reader.file, st);
        DeliverSplit(reader.file, was, n, BUFSZ);
        DeliverFuel(reader.file, st, BUFSZ);
        if st.dead { DeadDelivers(reader.file, st); }
        rd := Decode(obuf, BUFSZ);
        ReadyFacts();
        out := out + obuf[..rd];
        n := n + BUFSZ;
      }
    }
  }

  /** uncompress behind the header: whatever the file, what is written is the expansion of the tokens
      it stands for, against the window that mem leaves; in particular any tokens coded at its start
      and followed by bits enough come out in full, and first. */
  method Uncompress(input: seq<byte>, mem: seq<byte>) returns (out: seq<byte>)
    requires |input| != 1 && |mem| == N + F - 1
    ensures exists toks :: Content(input, toks) && Window(mem) + out == Expand(Window(mem), toks)
    ensures forall toks :: Codes(input, toks) && Followed(input, toks) ==>
      Expand(Window(mem), toks) <= Window(mem) + out
  {
    hide Window, StateOk, Deliver, Content, Codes, Followed, Expand, FirstTree;
    var d := new Decoder(input, mem);
    d.InitDecode();
    out := d.ExpandAll();
    ghost var n: nat :| d.st == Deliver(input, Start(input, Window(mem)), n);
    ghost var toks := DecodesContent(input, Window(mem), n);
    ContentFirst(input, Window(mem), toks);
  }

  /** The next byte of a copy under way. */
  lemma CopyStep(input: seq<byte>, st: State)
    requires StateOk(input, st) && !st.dead && st.left > 0
    ensures 1 <= st.distance <= N <= |st.hist|
    ensures var s := st.(hist := st.hist + [st.hist[|st.hist| - st.distance]], left := st.left - 1);
      NextByte(input, st) == Some(s) && StateOk(input, s)
  {
    hide TlzhTree.Valid, CursorOk, AtToken;
  }

  lemma NextByteAlive(input: seq<byte>, st: State)
    requires StateOk(input, st)
    ensures NextByte(input, st).Some? ==> !NextByte(input, st).value.dead
  {
  }

  lemma DeadDelivers(input: seq<byte>, st: State)
    requires StateOk(input, st) && st.dead
    ensures forall n: nat :: Deliver(input, st, n) == st
  {
  }

  /** Reading a match and copying its first byte later delivers the same bytes. */
  lemma MatchPending(input: seq<byte>, before: State, st: State, n: nat)
    requires StateOk(input, before) && StateOk(input, st) && n > 0
    requires !before.dead && before.left == 0 && !st.dead && st.left > 0 && st.hist == before.hist
    requires ReadToken(input, before.tree, before.cur) == Some((Match(st.distance, st.left), st.tree, st.cur))
    ensures Deliver(input, st, n) == Deliver(input, before, n)
  {
    hide TlzhTree.Valid, CursorOk, ReadToken;
  }

  lemma NoSymbol(input: seq<byte>, st: State)
    requires StateOk(input, st) && st.left == 0
    ensures st.dead || ReadChar(input, st.tree, st.cur, R).None? ==> NextByte(input, st).None?
  {
    hide Linked, Ordered, Balanced, ReadChar, ReadPos, TlzhReconst.Update;
  }

  lemma LiteralRead(input: seq<byte>, st: State, c: int, cur: Cursor)
    requires StateOk(input, st) && !st.dead && st.left == 0
    requires ReadChar(input, st.tree, st.cur, R) == Some((c, cur)) && 0 <= c < 256
    ensures NextByte(input, st) ==
      Some(State(TlzhReconst.Update(st.tree, c), cur, st.hist + [c], 0, 0, false))
  {
    hide Linked, Ordered, Balanced, ReadChar, ReadPos, TlzhReconst.Update;
  }

  lemma MatchRead(input: seq<byte>, st: State, c: int, cur: Cursor)
    requires StateOk(input, st) && !st.dead && st.left == 0
    requires ReadChar(input, st.tree, st.cur, R) == Some((c, cur)) && 256 <= c < NCHAR
    ensures CursorOk(input, cur)
    ensures match ReadPos(input, cur)
      case None => NextByte(input, st).None?
      case Some(pc) =>
        ReadToken(input, st.tree, st.cur)
          == Some((Match(pc.0 + 1, c - 255 + THRESHOLD), TlzhReconst.Update(st.tree, c), pc.1))
  {
    hide Linked, Ordered, Balanced, ReadChar, ReadPos, TlzhReconst.Update;
  }

  lemma RingBound(b: seq<byte>, r: int, h: seq<byte>)
    requires Ring(b, r, h)
    ensures 0 <= r < N <= |b|
  {
  }

  lemma SliceGrow(a: seq<byte>, b: seq<byte>, start: nat, count: nat)
    requires start <= count < |a| == |b| && a[..count] == b[..count]
    ensures b[start..count + 1] == a[start..count] + [b[count]] && a[..start] == b[..start]
  {
    assert a[start..count] == a[..count][start..] && b[start..count] == b[..count][start..];
    assert a[..start] == a[..count][..start] && b[..start] == b[..count][..start];
  }

  lemma StepOn(p: int, d: int)
    ensures (p + 1 + d) % N == ((p + d) % N + 1) % N
  {
    ModPlus(p + d, 1);
  }

  lemma BackUp(r: int, pos: int)
    requires 0 <= r < N
    ensures ((r - pos - 1) % N + 0 + (pos + 1)) % N == r
  {
    ModPlus(r - pos - 1, pos + 1);
  }

  lemma ReadLowStep(input: seq<byte>, cur: Cursor, i: nat, j: nat)
    requires CursorOk(input, cur) && j > 0
    ensures match ReadBit(input, cur)
      case None => ReadLow(input, cur, i, j).None?
      case Some(bc) => ReadLow(input, cur, i, j) == ReadLow(input, bc.1, 2 * i + (if bc.0 then 1 else 0), j - 1)
  {
  }

  lemma ReadLowEnd(input: seq<byte>, cur: Cursor, i: nat)
    requires CursorOk(input, cur)
    ensures ReadLow(input, cur, i, 0) == Some((i, cur))
  {
  }

  lemma FitsAtStart(b: nat, j: nat)
    requires b < 256 && j <= 6
    ensures b < Pow2(14 - j)
  {
    Powers();
    Pow2Mono(8, 14 - j);
  }

  /** The shifted position bits never leave sixteen bits. */
  lemma ShiftFits(i: nat, b: int, j: nat)
    requires 0 < j <= 6 && i < Pow2(14 - j) && b in {0, 1}
    ensures 2 * i + b < Pow2(14 - (j - 1)) && U16(2 * i + b) == 2 * i + b
  {
    Pow2Mono(14 - (j - 1), 14);
    assert Pow2(14) == 64 * Pow2(8) && Pow2(8) == 256;
  }

  lemma ReadCharLeaf(input: seq<byte>, t: Tree, cur: Cursor, x: int)
    requires Valid(t) && 0 <= x < T && CursorOk(input, cur) && t.son[x] >= T
    ensures 0 <= t.son[x] - T < NCHAR && ReadChar(input, t, cur, x) == Some((t.son[x] - T, cur))
  {
    LeafOf(t, x);
  }
}
