/** The codes of the Squeeze codec, and the decoder's walk over the dictionary
    (lib/libdsk/compsq.c, huf_encode and the loop of unsqueeze). */
module SqCodes {
  import opened Bits
  import opened SqTree
  import opened SqRle

  // ---------------------------------------------------------------- codes

  /** The slots that hang from a node of the finished tree. */
  ghost predicate Hangs(h: Huff, cnt: seq<int>, i: int)
    requires Finished(h, cnt)
  {
    Root(h) < i < MAXNODE || (MAXNODE <= i < SLOTS && cnt[i - MAXNODE] > 0)
  }

  lemma HangFacts(h: Huff, cnt: seq<int>, i: int)
    requires Finished(h, cnt) && Hangs(h, cnt, i)
    ensures var p := Up(h, i);
      && Root(h) <= p < MAXNODE && p < i && Enc(i) in {h.left[p], h.right[p]}
      && EdgeOk(h.left[p], p) && EdgeOk(h.right[p], p)
      && (p == Root(h) <==> h.parent[p] == MAXNODE)
      && (p != Root(h) ==> Hangs(h, cnt, p))
  {
    var p := Up(h, i);
    if i >= MAXNODE {
      assert cnt[i - MAXNODE] > 0;
      assert -1 - (i - MAXNODE) == Enc(i);
    }
  }

  /** The code of slot i: huf_encode climbs from i and flipbits reverses, so the last bit is taken at
      the node i hangs from. */
  ghost function Chain(h: Huff, cnt: seq<int>, i: int): (b: seq<bool>)
    requires Finished(h, cnt) && Hangs(h, cnt, i)
    ensures 1 <= |b| <= (if i < MAXNODE then i else MAXNODE) - Root(h)
    decreases i
  {
    HangFacts(h, cnt, i);
    var p := Up(h, i);
    (if p == Root(h) then [] else Chain(h, cnt, p)) + [h.left[p] != Enc(i)]
  }

  /** The code of symbol s: at least one bit, and at most 256, well inside the 65-byte buffer that
      pushbit fills. */
  ghost function Code(h: Huff, cnt: seq<int>, s: int): (b: seq<bool>)
    requires Finished(h, cnt) && 0 <= s < MAXLEAF && cnt[s] > 0
    ensures 1 <= |b| <= 256
  {
    Chain(h, cnt, s + MAXNODE)
  }

  ghost predicate AllCounted(cnt: seq<int>, syms: seq<int>)
    requires |cnt| == MAXLEAF
  {
    forall i :: 0 <= i < |syms| ==> 0 <= syms[i] < MAXLEAF && cnt[syms[i]] > 0
  }

  ghost function Codes(h: Huff, cnt: seq<int>, syms: seq<int>): seq<bool>
    requires Finished(h, cnt) && AllCounted(cnt, syms)
    decreases |syms|
  {
    if syms == [] then [] else Code(h, cnt, syms[0]) + Codes(h, cnt, syms[1..])
  }

  lemma CntSize(h: Huff, cnt: seq<int>)
    requires Finished(h, cnt)
    ensures |cnt| == MAXLEAF
  {
  }

  lemma {:induction false} CodesSplit(h: Huff, cnt: seq<int>, a: seq<int>, b: seq<int>)
    requires Finished(h, cnt) && AllCounted(cnt, a) && AllCounted(cnt, b) && AllCounted(cnt, a + b)
    ensures Codes(h, cnt, a + b) == Codes(h, cnt, a) + Codes(h, cnt, b)
    decreases |a|
  {
    hide Finished, Code;
    CntSize(h, cnt);
    if a == [] {
      assert a + b == b;
    } else {
      assert (a + b)[1..] == a[1..] + b;
      CodesSplit(h, cnt, a[1..], b);
    }
  }

  // ---------------------------------------------------------------- decoding

  datatype Result<+A> = Ok(value: A) | Err(error: Error)
  datatype Error = SysErr | Compress | NotMe | OffTable

  /** The decoding loop of unsqueeze from a node on, over the unread bits. OffTable stands for a
      dictionary entry that points outside huf_node, where the C program reads outside its table. */
  function Run(l: seq<int>, r: seq<int>, bits: seq<bool>, node: int, d: Expander): (res: Result<Expander>)
    requires |l| == |r| == MAXNODE && 0 <= node < MAXNODE && -1 <= d.ch < 256
    ensures res.Ok? ==> -1 <= res.value.ch < 256
    decreases |bits|, 0
  {
    if bits == [] then Err(SysErr)
    else Follow(l, r, if bits[0] then r[node] else l[node], bits[1..], d)
  }

  /** What the loop does with a dictionary entry. */
  function Follow(l: seq<int>, r: seq<int>, code: int, bits: seq<bool>, d: Expander): (res: Result<Expander>)
    requires |l| == |r| == MAXNODE && -1 <= d.ch < 256
    ensures res.Ok? ==> -1 <= res.value.ch < 256
    decreases |bits|, 1
  {
    if code < 0 then
      if -1 - code == SQ_EOF then Ok(d)
      else
        match WrByte(d, (-1 - code) % 256)
        case None => Err(SysErr)
        case Some(e) => Run(l, r, bits, 0, e)
    else if code >= MAXNODE then Err(OffTable)
    else Run(l, r, bits, code, d)
  }

  /** The dictionary holds the tree with its root moved to node 0. */
  ghost predicate Rebased(h: Huff, cnt: seq<int>, l: seq<int>, r: seq<int>)
    requires Finished(h, cnt)
  {
    && |l| == |r| == MAXNODE
    && forall n :: Root(h) <= n < MAXNODE ==>
         l[n - Root(h)] == Rebase(h, h.left[n]) && r[n - Root(h)] == Rebase(h, h.right[n])
  }

  function Rebase(h: Huff, e: int): int {
    if e >= 0 then e - Root(h) else e
  }

  /** The code of a slot leads the decoder from node 0 to that slot. */
  lemma {:induction false} ChainLeads(
    h: Huff, cnt: seq<int>, l: seq<int>, r: seq<int>, i: int, rest: seq<bool>, d: Expander)
    requires Finished(h, cnt) && Hangs(h, cnt, i) && Rebased(h, cnt, l, r) && -1 <= d.ch < 256
    ensures Run(l, r, Chain(h, cnt, i) + rest, 0, d) == Follow(l, r, Rebase(h, Enc(i)), rest, d)
    decreases i
  {
    hide Follow, WrByte;
    HangFacts(h, cnt, i);
    RebasedAt(h, cnt, l, r, Up(h, i));
    var p := Up(h, i);
    var b := h.left[p] != Enc(i);
    var tail := [b] + rest;
    assert tail[1..] == rest;
    if p == Root(h) {
      assert Chain(h, cnt, i) + rest == tail;
    } else {
      assert Chain(h, cnt, i) + rest == Chain(h, cnt, p) + tail;
      ChainLeads(h, cnt, l, r, p, tail, d);
      FollowNode(l, r, p - Root(h), tail, d);
    }
  }

  lemma RebasedAt(h: Huff, cnt: seq<int>, l: seq<int>, r: seq<int>, n: int)
    requires Finished(h, cnt) && Rebased(h, cnt, l, r) && Root(h) <= n < MAXNODE
    ensures 0 <= n - Root(h) < MAXNODE
    ensures l[n - Root(h)] == Rebase(h, h.left[n]) && r[n - Root(h)] == Rebase(h, h.right[n])
  {
  }

  lemma FollowNode(l: seq<int>, r: seq<int>, n: int, bits: seq<bool>, d: Expander)
    requires |l| == |r| == MAXNODE && 0 <= n < MAXNODE && -1 <= d.ch < 256
    ensures Follow(l, r, n, bits, d) == Run(l, r, bits, n, d)
  {
  }

  /** The code of a symbol, and no earlier bit, makes the decoder deliver that symbol. */
  lemma CodeLeads(h: Huff, cnt: seq<int>, l: seq<int>, r: seq<int>, s: int, rest: seq<bool>, d: Expander)
    requires Finished(h, cnt) && 0 <= s < MAXLEAF && cnt[s] > 0 && Rebased(h, cnt, l, r) && -1 <= d.ch < 256
    ensures Run(l, r, Code(h, cnt, s) + rest, 0, d) == Follow(l, r, -1 - s, rest, d)
  {
    ChainLeads(h, cnt, l, r, s + MAXNODE, rest, d);
  }

  /** The codes of a list of bytes followed by the end-of-file symbol decode to what wrbyte makes of
      the bytes, whatever bits come after. */
  lemma {:induction false} CodesDecode(
    h: Huff, cnt: seq<int>, l: seq<int>, r: seq<int>, syms: seq<int>, rest: seq<bool>, d: Expander)
    requires Finished(h, cnt) && Rebased(h, cnt, l, r) && AllCounted(cnt, syms) && -1 <= d.ch < 256
    requires syms != [] && syms[|syms| - 1] == SQ_EOF && AllBytes(syms[..|syms| - 1])
    ensures Run(l, r, Codes(h, cnt, syms) + rest, 0, d) ==
      match WrAll(d, syms[..|syms| - 1])
      case None => Err(SysErr)
      case Some(e) => Ok(e)
    decreases |syms|
  {
    hide WrByte, Finished, EdgeOk, Code, Rebased;
    FinishedSize(h, cnt, l, r);
    var s, tail := syms[0], syms[1..];
    assert 0 <= s < MAXLEAF && cnt[s] > 0;
    assert Codes(h, cnt, syms) + rest == Code(h, cnt, s) + (Codes(h, cnt, tail) + rest);
    CodeLeads(h, cnt, l, r, s, Codes(h, cnt, tail) + rest, d);
    if |syms| > 1 {
      assert s == syms[..|syms| - 1][0];
      assert tail[..|tail| - 1] == syms[..|syms| - 1][1..];
      if WrByte(d, s).Some? {
        CodesDecode(h, cnt, l, r, tail, rest, WrByte(d, s).value);
      }
    }
  }

  lemma FinishedSize(h: Huff, cnt: seq<int>, l: seq<int>, r: seq<int>)
    requires Finished(h, cnt) && Rebased(h, cnt, l, r)
    ensures |cnt| == MAXLEAF && |l| == |r| == MAXNODE
  {
  }
}
