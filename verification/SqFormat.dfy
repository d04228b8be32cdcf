/** The Squeeze file format: what squeeze writes and what unsqueeze reads, as functions on byte
    sequences, and the round trip between them (lib/libdsk/compsq.c). */
module SqFormat {
  import opened Bits
  import opened SqTree
  import opened SqRle
  import opened SqCodes

  const MAGIC := 0xFF76

  // ---------------------------------------------------------------- bits in bytes, lowest first

  function LowBits(v: nat, n: nat): (b: seq<bool>)
    ensures |b| == n
  {
    if n == 0 then [] else [v % 2 == 1] + LowBits(v / 2, n - 1)
  }

  function LowVal(b: seq<bool>): (v: nat)
    ensures v < Pow2(|b|)
  {
    if b == [] then 0 else (if b[0] then 1 else 0) + 2 * LowVal(b[1..])
  }

  lemma {:induction false} LowBitsVal(b: seq<bool>, n: nat)
    requires |b| <= n
    ensures b <= LowBits(LowVal(b), n)
  {
    if b != [] {
      LowBitsVal(b[1..], n - 1);
      assert LowVal(b) / 2 == LowVal(b[1..]);
      assert b == [b[0]] + b[1..];
    }
  }

  /** The bits of a file in the order the decoder takes them. */
  function FileLow(f: seq<byte>): (b: seq<bool>)
    ensures |b| == 8 * |f|
    decreases |f|
  {
    if f == [] then [] else LowBits(f[0], 8) + FileLow(f[1..])
  }

  /** The bytes the encoder fills with a bit string; the last one is padded with zeros. */
  function Pack(b: seq<bool>): (f: seq<byte>)
    decreases |b|
  {
    if b == [] then []
    else if |b| < 8 then
      Pow2Small(|b|);
      [LowVal(b)]
    else
      Pow2Small(8);
      [LowVal(b[..8])] + Pack(b[8..])
  }

  lemma Pow2Small(n: nat)
    requires n <= 8
    ensures Pow2(n) <= 256
  {
    assert Pow2(8) == 256;
    if n < 8 {
      assert n == 0 || n == 1 || n == 2 || n == 3 || n == 4 || n == 5 || n == 6 || n == 7;
    }
  }

  lemma {:induction false} PackKeeps(b: seq<bool>)
    ensures b <= FileLow(Pack(b))
    decreases |b|
  {
    hide LowBits, LowVal;
    if b == [] {
    } else if |b| < 8 {
      LowBitsVal(b, 8);
      assert Pack(b)[1..] == [];
      assert FileLow(Pack(b)) == LowBits(LowVal(b), 8) + [];
    } else {
      LowBitsVal(b[..8], 8);
      PackKeeps(b[8..]);
      assert Pack(b)[1..] == Pack(b[8..]);
      assert LowBits(LowVal(b[..8]), 8) == b[..8];
      assert b == b[..8] + b[8..];
    }
  }

  // ---------------------------------------------------------------- words

  /** writes: a short, low byte first. */
  function Word(v: int): seq<byte> {
    [v % 256, (v / 256) % 256]
  }

  /** readu. */
  function TakeWord(b: seq<byte>): (r: Option<(int, seq<byte>)>)
    ensures r.Some? ==> |b| >= 2 && 0 <= r.value.0 < 0x1_0000 && r.value.1 == b[2..]
  {
    if |b| < 2 then None
    else
      var low: int, high: int := b[0], b[1];
      Some((low + 256 * high, b[2..]))
  }

  /** The value of a 16-bit word read as a signed short. */
  function Signed(v: int): int {
    if v >= 0x8000 then v - 0x1_0000 else v
  }

  lemma WordTakes(v: int, rest: seq<byte>)
    requires 0 <= v < 0x1_0000
    ensures TakeWord(Word(v) + rest) == Some((v, rest))
  {
    assert (Word(v) + rest)[2..] == rest;
  }

  lemma SignedTakes(v: int, rest: seq<byte>)
    requires -0x8000 <= v < 0x8000
    ensures var t := TakeWord(Word(v) + rest); t.Some? && Signed(t.value.0) == v && t.value.1 == rest
  {
    assert (Word(v) + rest)[2..] == rest;
  }

  // ---------------------------------------------------------------- checksum and counts

  /** The sum of the bytes, in 16 bits. */
  function CheckSum(x: seq<byte>): (c: int)
    ensures 0 <= c < 0x1_0000
  {
    if x == [] then 0 else (CheckSum(x[..|x| - 1]) + x[|x| - 1]) % 0x1_0000
  }

  /** How often each symbol occurs. */
  function Tally(syms: seq<int>): (cnt: seq<int>)
    requires forall i :: 0 <= i < |syms| ==> 0 <= syms[i] < MAXLEAF
    ensures |cnt| == MAXLEAF
  {
    if syms == [] then seq(MAXLEAF, i => 0)
    else
      var c := Tally(syms[..|syms| - 1]);
      var s := syms[|syms| - 1];
      c[s := c[s] + 1]
  }

  lemma {:induction false} TallyCounts(syms: seq<int>)
    requires forall i :: 0 <= i < |syms| ==> 0 <= syms[i] < MAXLEAF
    ensures forall s :: 0 <= s < MAXLEAF ==> Tally(syms)[s] >= 0
    ensures AllCounted(Tally(syms), syms)
  {
    if syms != [] {
      TallyCounts(syms[..|syms| - 1]);
      forall i | 0 <= i < |syms|
        ensures 0 <= syms[i] < MAXLEAF && Tally(syms)[syms[i]] > 0
      {
        if i < |syms| - 1 {
          assert syms[i] == syms[..|syms| - 1][i];
        }
      }
    }
  }

  // ---------------------------------------------------------------- what squeeze writes

  /** The dictionary from node n on. */
  function Dict(h: Huff, n: int): seq<byte>
    requires Sized(h) && 0 <= n <= MAXNODE
    decreases MAXNODE - n
  {
    if n == MAXNODE then []
    else Word(Rebase(h, h.left[n])) + Word(Rebase(h, h.right[n])) + Dict(h, n + 1)
  }

  function Header(h: Huff, sum: int, name: seq<byte>): seq<byte>
    requires Sized(h) && 0 <= Root(h) <= MAXNODE
  {
    Word(MAGIC) + Word(sum) + name + [0] + Word(MAXNODE - Root(h)) + Dict(h, Root(h))
  }

  /** The symbols of the input, after run-length coding. */
  function Symbols(input: seq<byte>): seq<int> {
    Stream(input, -1, 0)
  }

  lemma SymbolsOk(input: seq<byte>)
    ensures var s := Symbols(input);
      && s != [] && s[|s| - 1] == SQ_EOF && AllBytes(s[..|s| - 1]) && Expands(s[..|s| - 1], input)
      && forall i :: 0 <= i < |s| ==> 0 <= s[i] < MAXLEAF
  {
    StreamExpands(input, -1, 0);
    assert RunBytes(-1, 0) + input == input;
    var s := Symbols(input);
    assert forall i :: 0 <= i < |s| - 1 ==> s[i] == s[..|s| - 1][i];
  }

  /** The whole squeezed file. h0 holds the counts of the input's symbols. */
  ghost function Squeezed(h0: Huff, input: seq<byte>, name: seq<byte>): seq<byte>
    requires forall i :: 0 <= i < |Symbols(input)| ==> 0 <= Symbols(input)[i] < MAXLEAF
    requires Counted(h0, Tally(Symbols(input))) && Waiting(h0) > 0
  {
    var syms := Symbols(input);
    var cnt := Tally(syms);
    AnalyzeFinished(h0, cnt);
    TallyCounts(syms);
    var h := Analyze(h0, cnt);
    Header(h, CheckSum(input), name) + Pack(Codes(h, cnt, syms))
  }

  // ---------------------------------------------------------------- what unsqueeze reads

  /** Skip a name and its terminating zero. */
  function SkipName(b: seq<byte>): Option<seq<byte>>
    decreases |b|
  {
    if b == [] then None else if b[0] == 0 then Some(b[1..]) else SkipName(b[1..])
  }

  /** Read the dictionary entries from nd to len into the node table. */
  function TakeDict(b: seq<byte>, nd: int, len: int, l: seq<int>, r: seq<int>)
    : (res: Option<(seq<int>, seq<int>, seq<byte>)>)
    requires 0 <= nd <= len <= MAXNODE == |l| == |r|
    ensures res.Some? ==> |res.value.0| == |res.value.1| == MAXNODE
    decreases len - nd
  {
    if nd == len then Some((l, r, b))
    else
      match TakeWord(b)
      case None => None
      case Some(x) =>
        match TakeWord(x.1)
        case None => None
        case Some(y) => TakeDict(y.1, nd + 1, len, l[nd := Signed(x.0)], r[nd := Signed(y.0)])
  }

  /** unsqueeze: the expanded file, or why there is none. The node table starts as (l, r). */
  function Unsqueezed(b: seq<byte>, l: seq<int>, r: seq<int>): Result<seq<byte>>
    requires |l| == |r| == MAXNODE
  {
    match TakeWord(b)
    case None => Err(SysErr)
    case Some(m) =>
      if m.0 != MAGIC then Err(Compress)
      else
        match TakeWord(m.1)
        case None => Err(SysErr)
        case Some(c) =>
          match SkipName(c.1)
          case None => Err(SysErr)
          case Some(t) => UnsqueezedBody(c.0, t, l, r)
  }

  function UnsqueezedBody(sum: int, b: seq<byte>, l: seq<int>, r: seq<int>): Result<seq<byte>>
    requires |l| == |r| == MAXNODE
  {
    match TakeWord(b)
    case None => Err(SysErr)
    case Some(n) =>
      if n.0 > MAXNODE then Err(Compress)
      else
        match TakeDict(n.1, 0, n.0, l, r)
        case None => Err(SysErr)
        case Some(d) =>
          if n.0 == 0 then Checked(sum, [])
          else
            match Run(d.0, d.1, FileLow(d.2), 0, Expander(-1, false, []))
            case Err(e) => Err(e)
            case Ok(e) => Checked(sum, Text(e))
  }

  function Checked(sum: int, out: seq<byte>): Result<seq<byte>> {
    if sum != CheckSum(out) then Err(Compress) else Ok(out)
  }

  // ---------------------------------------------------------------- the round trip

  lemma {:induction false} NameSkips(name: seq<byte>, rest: seq<byte>)
    requires 0 !in name
    ensures SkipName(name + [0] + rest) == Some(rest)
    decreases |name|
  {
    var b := name + [0] + rest;
    if name == [] {
      assert b[1..] == rest;
    } else {
      assert b[0] == name[0] && name[0] in name;
      assert b[1..] == name[1..] + [0] + rest;
      NameSkips(name[1..], rest);
    }
  }

  /** The entries of the dictionary that have been read. */
  ghost predicate Loaded(h: Huff, n: int, l: seq<int>, r: seq<int>)
    requires Sized(h) && 0 <= Root(h)
  {
    && |l| == |r| == MAXNODE
    && forall m :: Root(h) <= m < n && m < MAXNODE ==>
         l[m - Root(h)] == Rebase(h, h.left[m]) && r[m - Root(h)] == Rebase(h, h.right[m])
  }

  lemma {:induction false} DictTakes(h: Huff, cnt: seq<int>, n: int, rest: seq<byte>, l: seq<int>, r: seq<int>)
    requires Finished(h, cnt) && Root(h) <= n <= MAXNODE && Loaded(h, n, l, r)
    ensures var d := TakeDict(Dict(h, n) + rest, n - Root(h), MAXNODE - Root(h), l, r);
      d.Some? && Rebased(h, cnt, d.value.0, d.value.1) && d.value.2 == rest
    decreases MAXNODE - n
  {
    if n == MAXNODE {
      assert Dict(h, n) + rest == rest;
    } else {
      assert EdgeOk(h.left[n], n) && EdgeOk(h.right[n], n);
      DictStep(h, n, rest, l, r);
      DictTakes(h, cnt, n + 1, rest, l[n - Root(h) := Rebase(h, h.left[n])], r[n - Root(h) := Rebase(h, h.right[n])]);
    }
  }

  lemma DictStep(h: Huff, n: int, rest: seq<byte>, l: seq<int>, r: seq<int>)
    requires Sized(h) && 0 <= Root(h) <= n < MAXNODE && |l| == |r| == MAXNODE
    requires EdgeOk(h.left[n], n) && EdgeOk(h.right[n], n)
    ensures TakeDict(Dict(h, n) + rest, n - Root(h), MAXNODE - Root(h), l, r) ==
      TakeDict(Dict(h, n + 1) + rest, n + 1 - Root(h), MAXNODE - Root(h),
        l[n - Root(h) := Rebase(h, h.left[n])], r[n - Root(h) := Rebase(h, h.right[n])])
  {
    hide Word, TakeWord, Signed;
    var x, y := Rebase(h, h.left[n]), Rebase(h, h.right[n]);
    var tail := Dict(h, n + 1) + rest;
    assert Dict(h, n) + rest == Word(x) + (Word(y) + tail);
    SignedTakes(x, Word(y) + tail);
    SignedTakes(y, tail);
  }

  lemma BodyReads(h: Huff, cnt: seq<int>, sum: int, input: seq<byte>, syms: seq<int>, l: seq<int>, r: seq<int>)
    requires Finished(h, cnt) && AllCounted(cnt, syms) && |l| == |r| == MAXNODE
    requires syms != [] && syms[|syms| - 1] == SQ_EOF && Expands(syms[..|syms| - 1], input)
    requires sum == CheckSum(input)
    ensures UnsqueezedBody(sum,
      Word(MAXNODE - Root(h)) + Dict(h, Root(h)) + Pack(Codes(h, cnt, syms)), l, r) == Ok(input)
  {
    hide Finished, Word, TakeWord, Dict, TakeDict, Pack, Codes, Run, CheckSum, FileLow, WrAll;
    RootBounds(h, cnt);
    var bits := Codes(h, cnt, syms);
    var tail := Dict(h, Root(h)) + Pack(bits);
    assert Word(MAXNODE - Root(h)) + Dict(h, Root(h)) + Pack(bits) == Word(MAXNODE - Root(h)) + tail;
    WordTakes(MAXNODE - Root(h), tail);
    DictTakes(h, cnt, Root(h), Pack(bits), l, r);
    var d := TakeDict(tail, 0, MAXNODE - Root(h), l, r).value;
    PackKeeps(bits);
    var pad := FileLow(Pack(bits))[|bits|..];
    assert FileLow(Pack(bits)) == bits + pad;
    var start := Expander(-1, false, []);
    CodesDecode(h, cnt, d.0, d.1, syms, pad, start);
    assert ExpandsAt(syms[..|syms| - 1], input, start);
    assert Text(start) == [];
    assert [] + input == input;
  }

  lemma RootBounds(h: Huff, cnt: seq<int>)
    requires Finished(h, cnt)
    ensures Sized(h) && 0 < Root(h) < MAXNODE && |cnt| == MAXLEAF
  {
  }

  lemma HeaderReads(h: Huff, sum: int, name: seq<byte>, body: seq<byte>, l: seq<int>, r: seq<int>)
    requires 0 <= sum < 0x1_0000 && 0 !in name && |l| == |r| == MAXNODE
    ensures Unsqueezed(Word(MAGIC) + Word(sum) + name + [0] + body, l, r) == UnsqueezedBody(sum, body, l, r)
  {
    hide Word, TakeWord, SkipName, UnsqueezedBody;
    var t := name + [0] + body;
    assert Word(MAGIC) + Word(sum) + name + [0] + body == Word(MAGIC) + (Word(sum) + t);
    WordTakes(MAGIC, Word(sum) + t);
    WordTakes(sum, t);
    NameSkips(name, body);
  }

  /** The round trip: unsqueeze gives back every input from what squeeze writes for it, for every true
      name without a zero byte and whatever the node table held before. */
  lemma RoundTrip(h0: Huff, input: seq<byte>, name: seq<byte>, l: seq<int>, r: seq<int>)
    requires forall i :: 0 <= i < |Symbols(input)| ==> 0 <= Symbols(input)[i] < MAXLEAF
    requires Counted(h0, Tally(Symbols(input))) && Waiting(h0) > 0
    requires 0 !in name && |l| == |r| == MAXNODE
    ensures Unsqueezed(Squeezed(h0, input, name), l, r) == Ok(input)
  {
    hide Symbols, Tally, Counted, Analyze, Finished, Word, Dict, Pack, Codes, Unsqueezed, UnsqueezedBody, CheckSum;
    hide Expands;
    SymbolsOk(input);
    var syms := Symbols(input);
    var cnt := Tally(syms);
    AnalyzeFinished(h0, cnt);
    TallyCounts(syms);
    var h := Analyze(h0, cnt);
    RootBounds(h, cnt);
    var body := Word(MAXNODE - Root(h)) + Dict(h, Root(h)) + Pack(Codes(h, cnt, syms));
    assert Squeezed(h0, input, name) == Word(MAGIC) + Word(CheckSum(input)) + name + [0] + body;
    HeaderReads(h, CheckSum(input), name, body, l, r);
    BodyReads(h, cnt, CheckSum(input), input, syms, l, r);
  }
}
