/** Whole LZHUF streams: what a token stream stands for, how it is coded under the adapting tree, and
    the decoder as a machine that delivers one byte at a time (lib/libdsk/comptlzh.c, Decode). */
module TlzhTokens {
  import opened Bits
  import opened TlzhTree
  import opened TlzhReconst
  import opened TlzhCodes
  import opened TlzhStream

  /** A byte, or a copy of count bytes starting distance back. */
  datatype Token = Literal(c: byte) | Match(distance: nat, count: nat)

  predicate TokenOk(tok: Token) {
    tok.Match? ==> 1 <= tok.distance <= N && 3 <= tok.count <= 60
  }

  predicate TokensOk(toks: seq<Token>) {
    forall i :: 0 <= i < |toks| ==> TokenOk(toks[i])
  }

  /** The Huffman symbol of a token. */
  function Symbol(tok: Token): (s: int)
    requires TokenOk(tok)
    ensures 0 <= s < NCHAR && (s < 256 <==> tok.Literal?)
  {
    match tok
    case Literal(c) => c
    case Match(_, count) => count + 255 - THRESHOLD
  }

  // ---------------------------------------------------------------- what tokens mean

  /** h followed by n bytes, each copied from distance d back, so that a copy may overlap itself. */
  function Copy(h: seq<byte>, d: nat, n: nat): (r: seq<byte>)
    requires 1 <= d <= |h|
    ensures |r| == |h| + n && h <= r
    decreases n
  {
    if n == 0 then h else Copy(h + [h[|h| - d]], d, n - 1)
  }

  /** The history h extended by what the tokens stand for. */
  function Expand(h: seq<byte>, toks: seq<Token>): (r: seq<byte>)
    requires |h| >= N && TokensOk(toks)
    ensures |r| >= |h| && h <= r
    decreases |toks|
  {
    if toks == [] then h
    else
      var g := match toks[0] case Literal(c) => h + [c] case Match(d, n) => Copy(h, d, n);
      Expand(g, toks[1..])
  }

  // ---------------------------------------------------------------- how tokens are coded

  ghost function TokenCode(t: Tree, tok: Token): seq<bool>
    requires Valid(t) && TokenOk(tok)
  {
    Code(t, Symbol(tok)) + (if tok.Match? then PosCode(tok.distance - 1) else [])
  }

  ghost function Encode(t: Tree, toks: seq<Token>): seq<bool>
    requires Valid(t) && TokensOk(toks)
    decreases |toks|
  {
    if toks == [] then [] else TokenCode(t, toks[0]) + Encode(Update(t, Symbol(toks[0])), toks[1..])
  }

  /** How many bits of the file must follow the code of a token. */
  function Spare(tok: Token): (n: nat)
    requires TokenOk(tok)
    ensures n == if tok.Match? && tok.distance <= 64 then 8 else 15
  {
    if tok.Match? then PosSpare(tok.distance - 1) else 15
  }

  // ---------------------------------------------------------------- the decoder

  /** Before the first read, or after a read of a single bit, with which every token ends. */
  ghost predicate AtToken(cur: Cursor) {
    cur == Cursor(0, 0) || (cur.pos > 0 && cur.loaded == (cur.pos - 1) / 8 + 2)
  }

  /** DecodeChar with its update, and DecodePosition if the symbol asks for one. */
  ghost function ReadToken(input: seq<byte>, t: Tree, cur: Cursor): (r: Option<(Token, Tree, Cursor)>)
    requires Valid(t) && CursorOk(input, cur)
    ensures r.Some? ==> TokenOk(r.value.0) && Valid(r.value.1) && CursorOk(input, r.value.2) && AtToken(r.value.2)
  {
    CharEnds(input, t, cur);
    match ReadChar(input, t, cur, R)
    case None => None
    case Some(cc) =>
      var u := Update(t, cc.0);
      if cc.0 < 256 then Some((Literal(cc.0), u, cc.1))
      else
        PosEnds(input, cc.1);
        match ReadPos(input, cc.1)
        case None => None
        case Some(pc) => Some((Match(pc.0 + 1, cc.0 - 255 + THRESHOLD), u, pc.1))
  }

  lemma RootInner(t: Tree)
    requires Valid(t)
    ensures 0 <= t.son[R] < T
  {
    assert t.son[t.prnt[R - 1]] == R - 2;
  }

  lemma CharEnds(input: seq<byte>, t: Tree, cur: Cursor)
    requires Valid(t) && CursorOk(input, cur)
    ensures var r := ReadChar(input, t, cur, R); r.Some? ==> AtToken(r.value.1) && r.value.1.pos > cur.pos
  {
    hide Linked, Ordered, Balanced, FileBits, ReadChar;
    RootInner(t);
    ReadCharDescends(input, t, cur, R);
  }

  lemma PosEnds(input: seq<byte>, cur: Cursor)
    requires CursorOk(input, cur)
    ensures var r := ReadPos(input, cur); r.Some? ==> AtToken(r.value.1) && r.value.1.pos > cur.pos
  {
    hide FileBits, Val, DCode, ReadLow;
    var r := ReadByte(input, cur);
    if r.Some? {
      ReadLowAll(input, cur, r.value, DLen(r.value.0) - 2);
    }
  }

  /** hist is the initial window followed by every byte delivered; left bytes of a copy from distance
      back are still to come; dead is set when the input has run out. */
  datatype State =
    State(tree: Tree, cur: Cursor, hist: seq<byte>, distance: nat, left: nat, dead: bool)

  ghost predicate StateOk(input: seq<byte>, st: State) {
    && Valid(st.tree) && CursorOk(input, st.cur) && AtToken(st.cur) && |st.hist| >= N
    && (st.left > 0 ==> 1 <= st.distance <= N)
  }

  /** The next byte, reading a token only when no copy is under way. */
  ghost function NextByte(input: seq<byte>, st: State): (r: Option<State>)
    requires StateOk(input, st)
    ensures r.Some? ==>
      StateOk(input, r.value) && |r.value.hist| == |st.hist| + 1 && st.hist <= r.value.hist && !r.value.dead
  {
    if st.dead then None
    else if st.left > 0 then
      Some(st.(hist := st.hist + [st.hist[|st.hist| - st.distance]], left := st.left - 1))
    else
      match ReadToken(input, st.tree, st.cur)
      case None => None
      case Some(r) =>
        match r.0
        case Literal(c) => Some(State(r.1, r.2, st.hist + [c], 0, 0, false))
        case Match(d, n) =>
          Some(State(r.1, r.2, st.hist + [st.hist[|st.hist| - d]], d, n - 1, false))
  }

  /** A request for n bytes: as many as can be had. */
  ghost function Deliver(input: seq<byte>, st: State, n: nat): (r: State)
    requires StateOk(input, st)
    ensures StateOk(input, r) && st.hist <= r.hist && |r.hist| <= |st.hist| + n
    ensures !r.dead ==> |r.hist| == |st.hist| + n
    decreases n
  {
    if n == 0 then st
    else
      match NextByte(input, st)
      case None => st.(dead := true)
      case Some(s) => Deliver(input, s, n - 1)
  }

  /** Asking for a bytes and then for b more gives what asking for a + b at once gives, wherever in a
      copy the first request stops. */
  lemma {:induction false} DeliverSplit(input: seq<byte>, st: State, a: nat, b: nat)
    requires StateOk(input, st)
    ensures Deliver(input, st, a + b) == Deliver(input, Deliver(input, st, a), b)
    decreases a
  {
    hide NextByte, StateOk;
    if a > 0 {
      NextByteDead(input, st);
      match NextByte(input, st)
      case None =>
        NextByteDead(input, st.(dead := true));
      case Some(s) =>
        DeliverSplit(input, s, a - 1, b);
    }
  }

  lemma NextByteDead(input: seq<byte>, st: State)
    requires StateOk(input, st)
    ensures StateOk(input, st.(dead := true)) && NextByte(input, st.(dead := true)).None?
    ensures NextByte(input, st).Some? ==> StateOk(input, NextByte(input, st).value)
  {
  }

  // ---------------------------------------------------------------- tokens are read as coded

  lemma CharReads(input: seq<byte>, t: Tree, cur: Cursor, s: int)
    requires Valid(t) && CursorOk(input, cur) && 0 <= s < NCHAR
    requires cur.pos + |Code(t, s)| <= 8 * |input|
    requires FileBits(input)[cur.pos..cur.pos + |Code(t, s)|] == Code(t, s)
    ensures ReadChar(input, t, cur, R).Some? <==> Readable(input, cur, |Code(t, s)|)
    ensures ReadChar(input, t, cur, R).Some? ==> ReadChar(input, t, cur, R).value == (s, Past(cur, |Code(t, s)|))
  {
    hide Linked, Ordered, Balanced, FileBits, Code, Descend, ReadChar;
    var bits, n := FileBits(input)[cur.pos..], |Code(t, s)|;
    assert bits == Code(t, s) + FileBits(input)[cur.pos + n..];
    CodeDecodes(t, s, FileBits(input)[cur.pos + n..]);
    ReadCharDescends(input, t, cur, R);
  }

  lemma CodeSome(t: Tree, s: int)
    requires Valid(t) && 0 <= s < NCHAR
    ensures |Code(t, s)| > 0
  {
    hide Linked, Ordered, Balanced, Code;
    RootInner(t);
    CodeDecodes(t, s, []);
  }

  lemma CharCode(input: seq<byte>, t: Tree, cur: Cursor)
    requires Valid(t) && CursorOk(input, cur) && cur.pos <= 8 * |input|
    ensures var r := ReadChar(input, t, cur, R);
      r.Some? ==> FileBits(input)[cur.pos..r.value.1.pos] == Code(t, r.value.0)
  {
    hide Linked, Ordered, Balanced, FileBits, Code, Descend, ReadChar;
    var bits := FileBits(input)[cur.pos..];
    ReadCharDescends(input, t, cur, R);
    DescendUses(t, R, bits);
    RootPath(t);
    var r := ReadChar(input, t, cur, R);
    if r.Some? {
      assert [] + bits[..r.value.1.pos - cur.pos] == FileBits(input)[cur.pos..r.value.1.pos];
    }
  }

  lemma RootPath(t: Tree)
    requires Valid(t)
    ensures Path(t, R) == []
  {
  }

  /** Where a token starts, its symbol can be read exactly if fifteen bits follow the code. */
  lemma StartReadable(input: seq<byte>, cur: Cursor, m: nat)
    requires CursorOk(input, cur) && AtToken(cur) && m > 0 && cur.pos + m <= 8 * |input|
    ensures Readable(input, cur, m) <==> cur.pos + m + 15 <= 8 * |input|
  {
  }

  /** Its symbol is read, if so many follow. */
  lemma SymbolReads(input: seq<byte>, t: Tree, cur: Cursor, s: int)
    requires Valid(t) && CursorOk(input, cur) && AtToken(cur) && 0 <= s < NCHAR
    requires cur.pos + |Code(t, s)| <= 8 * |input|
    requires FileBits(input)[cur.pos..cur.pos + |Code(t, s)|] == Code(t, s)
    ensures var r := ReadChar(input, t, cur, R);
      && (r.Some? <==> cur.pos + |Code(t, s)| + 15 <= 8 * |input|)
      && (r.Some? ==> r.value == (s, Past(cur, |Code(t, s)|)) && r.value.1.pos == cur.pos + |Code(t, s)|)
  {
    hide Valid, FileBits, Code, ReadChar, AtToken, CursorOk, Readable;
    CodeSome(t, s);
    CharReads(input, t, cur, s);
    StartReadable(input, cur, |Code(t, s)|);
  }

  /** When the code of a token comes next, that token is read exactly if enough bits follow. */
  lemma TokenReads(input: seq<byte>, t: Tree, cur: Cursor, tok: Token)
    requires Valid(t) && CursorOk(input, cur) && AtToken(cur) && TokenOk(tok)
    requires cur.pos + |TokenCode(t, tok)| <= 8 * |input|
    requires FileBits(input)[cur.pos..cur.pos + |TokenCode(t, tok)|] == TokenCode(t, tok)
    ensures ReadToken(input, t, cur).Some? <==> cur.pos + |TokenCode(t, tok)| + Spare(tok) <= 8 * |input|
    ensures ReadToken(input, t, cur).Some? ==>
      var r := ReadToken(input, t, cur).value;
      r.0 == tok && r.1 == Update(t, Symbol(tok)) && r.2.pos == cur.pos + |TokenCode(t, tok)|
  {
    hide Valid, FileBits, Code, ReadChar, ReadPos, PosCode, Update, CursorOk, AtToken, Past;
    if tok.Literal? {
      assert TokenCode(t, tok) == Code(t, Symbol(tok));
      SymbolReads(input, t, cur, Symbol(tok));
    } else {
      MatchReads(input, t, cur, tok);
    }
  }

  lemma MatchReads(input: seq<byte>, t: Tree, cur: Cursor, tok: Token)
    requires Valid(t) && CursorOk(input, cur) && AtToken(cur) && TokenOk(tok) && tok.Match?
    requires cur.pos + |TokenCode(t, tok)| <= 8 * |input|
    requires FileBits(input)[cur.pos..cur.pos + |TokenCode(t, tok)|] == TokenCode(t, tok)
    ensures ReadToken(input, t, cur).Some? <==> cur.pos + |TokenCode(t, tok)| + Spare(tok) <= 8 * |input|
    ensures ReadToken(input, t, cur).Some? ==>
      var r := ReadToken(input, t, cur).value;
      r.0 == tok && r.1 == Update(t, Symbol(tok)) && r.2.pos == cur.pos + |TokenCode(t, tok)|
  {
    hide Valid, FileBits, Code, ReadChar, ReadPos, PosCode, Update, CursorOk, AtToken;
    var p := tok.distance - 1;
    SliceParts(FileBits(input), cur.pos, Code(t, Symbol(tok)), PosCode(p));
    SymbolReads(input, t, cur, Symbol(tok));
    if ReadChar(input, t, cur, R).Some? {
      PosReads(input, Past(cur, |Code(t, Symbol(tok))|), p);
    }
  }

  /** Whatever token is read, the bits used up are its code. */
  lemma TokenUses(input: seq<byte>, t: Tree, cur: Cursor)
    requires Valid(t) && CursorOk(input, cur) && cur.pos <= 8 * |input|
    ensures var r := ReadToken(input, t, cur);
      r.Some? ==>
        && r.value.1 == Update(t, Symbol(r.value.0))
        && cur.pos <= r.value.2.pos <= 8 * |input|
        && FileBits(input)[cur.pos..r.value.2.pos] == TokenCode(t, r.value.0)
  {
    hide Valid, FileBits, Code, ReadChar, ReadPos, PosCode, Update, CursorOk;
    var r := ReadToken(input, t, cur);
    if r.Some? {
      CharCode(input, t, cur);
      var c := ReadChar(input, t, cur, R).value.1;
      if r.value.0.Match? {
        ReadPosCode(input, c);
        JoinSlices(FileBits(input), cur.pos, c.pos, r.value.2.pos);
      }
    }
  }

  // ---------------------------------------------------------------- the main results

  /** What is still owed to a reader of state st if the tokens toks come next. */
  function Owing(hist: seq<byte>, d: nat, left: nat, toks: seq<Token>): (r: seq<byte>)
    requires |hist| >= N && TokensOk(toks) && (left > 0 ==> 1 <= d <= N)
    ensures hist <= r
  {
    Expand(if left == 0 then hist else Copy(hist, d, left), toks)
  }

  /** The tokens toks come next in the input. */
  ghost predicate Upcoming(input: seq<byte>, st: State, toks: seq<Token>)
    requires Valid(st.tree)
  {
    && TokensOk(toks)
    && st.cur.pos + |Encode(st.tree, toks)| <= 8 * |input|
    && FileBits(input)[st.cur.pos..st.cur.pos + |Encode(st.tree, toks)|] == Encode(st.tree, toks)
  }

  /** How many of the tokens, coded from bit pos on in a file of the given number of bits, are followed
      by as many bits as they need. */
  ghost function Fed(bits: nat, t: Tree, pos: nat, toks: seq<Token>): (k: nat)
    requires Valid(t) && TokensOk(toks)
    ensures k <= |toks|
    decreases |toks|
  {
    if toks == [] || pos + |TokenCode(t, toks[0])| + Spare(toks[0]) > bits then 0
    else 1 + Fed(bits, Update(t, Symbol(toks[0])), pos + |TokenCode(t, toks[0])|, toks[1..])
  }

  lemma UpcomingStep(input: seq<byte>, st: State, toks: seq<Token>)
    requires StateOk(input, st) && Upcoming(input, st, toks) && toks != []
    ensures var r, k := ReadToken(input, st.tree, st.cur), Fed(8 * |input|, st.tree, st.cur.pos, toks);
      && TokensOk(toks[1..])
      && (r.Some? <==> k > 0)
      && (r.Some? ==> r.value.0 == toks[0])
      && (r.Some? ==> forall s: State :: s.tree == r.value.1 && s.cur == r.value.2 ==>
            Upcoming(input, s, toks[1..]) && k == 1 + Fed(8 * |input|, s.tree, s.cur.pos, toks[1..]))
  {
    hide Valid, FileBits, TokenCode, ReadToken, Update, CursorOk, AtToken;
    var t, tok := st.tree, toks[0];
    assert TokenOk(tok);
    var u := Update(t, Symbol(tok));
    assert Encode(t, toks) == TokenCode(t, tok) + Encode(u, toks[1..]);
    SliceParts(FileBits(input), st.cur.pos, TokenCode(t, tok), Encode(u, toks[1..]));
    TokenReads(input, t, st.cur, tok);
  }

  lemma OwingCopy(hist: seq<byte>, d: nat, left: nat, toks: seq<Token>)
    requires |hist| >= N && TokensOk(toks) && left > 0 && 1 <= d <= N
    ensures Owing(hist, d, left, toks) == Owing(hist + [hist[|hist| - d]], d, left - 1, toks)
  {
    hide Expand;
  }

  lemma OwingToken(hist: seq<byte>, toks: seq<Token>)
    requires |hist| >= N && TokensOk(toks) && toks != []
    ensures TokensOk(toks[1..]) && TokenOk(toks[0])
    ensures Owing(hist, 0, 0, toks) ==
      match toks[0]
      case Literal(c) => Owing(hist + [c], 0, 0, toks[1..])
      case Match(d, n) => Owing(hist + [hist[|hist| - d]], d, n - 1, toks[1..])
  {
    assert TokenOk(toks[0]);
  }

  lemma OwingNone(hist: seq<byte>, d: nat)
    requires |hist| >= N
    ensures Owing(hist, d, 0, []) == hist
  {
  }

  lemma OwingStart(hist: seq<byte>, d: nat, toks: seq<Token>)
    requires |hist| >= N && TokensOk(toks)
    ensures Owing(hist, d, 0, toks) == Owing(hist, 0, 0, toks)
  {
  }

  /** What the tokens that can still be read leave to deliver. */
  ghost function Reach(input: seq<byte>, st: State, toks: seq<Token>): seq<byte>
    requires StateOk(input, st) && TokensOk(toks)
  {
    hide Valid, CursorOk, AtToken, Fed;
    Owing(st.hist, st.distance, st.left, toks[..Fed(8 * |input|, st.tree, st.cur.pos, toks)])
  }

  /** The next byte is the next one of those; it is refused when there is none and a token is waiting. */
  lemma NextByteReach(input: seq<byte>, st: State, toks: seq<Token>) returns (rest: seq<Token>)
    requires StateOk(input, st) && !st.dead && Upcoming(input, st, toks)
    requires |Reach(input, st, toks)| > |st.hist| || Fed(8 * |input|, st.tree, st.cur.pos, toks) < |toks|
    ensures TokensOk(rest)
    ensures |Reach(input, st, toks)| > |st.hist| <==> NextByte(input, st).Some?
    ensures NextByte(input, st).Some? ==>
      var s := NextByte(input, st).value;
      && StateOk(input, s) && Upcoming(input, s, rest) && Reach(input, s, rest) == Reach(input, st, toks)
      && (Fed(8 * |input|, s.tree, s.cur.pos, rest) < |rest| <==> Fed(8 * |input|, st.tree, st.cur.pos, toks) < |toks|)
    ensures NextByte(input, st).None? ==> Reach(input, st, toks) == st.hist
  {
    hide Valid, FileBits, ReadToken, Encode, CursorOk, AtToken, Owing, Fed;
    var k := Fed(8 * |input|, st.tree, st.cur.pos, toks);
    rest := toks;
    if st.left > 0 {
      OwingCopy(st.hist, st.distance, st.left, toks[..k]);
    } else {
      OwingNone(st.hist, st.distance);
      OwingStart(st.hist, st.distance, toks[..k]);
      if toks != [] {
        UpcomingStep(input, st, toks);
        if k > 0 {
          rest := toks[1..];
          OwingToken(st.hist, toks[..k]);
          assert toks[..k][1..] == rest[..k - 1];
        }
      }
    }
  }

  lemma FedNone(bits: nat, t: Tree, pos: nat)
    requires Valid(t)
    ensures Fed(bits, t, pos, []) == 0
  {
  }

  /** LZSS refinement: if the input codes the tokens toks from the current tree on, a request is met
      with the next bytes of the expansion of those that are followed by bits enough; a request beyond
      their expansion, with a token left that is not, gets just that expansion and the end. */
  lemma {:induction false} DeliverExpands(input: seq<byte>, st: State, toks: seq<Token>, n: nat)
    requires StateOk(input, st) && !st.dead && Upcoming(input, st, toks)
    ensures |st.hist| + n <= |Reach(input, st, toks)| ==>
      Deliver(input, st, n).hist == Reach(input, st, toks)[..|st.hist| + n] && !Deliver(input, st, n).dead
    ensures |st.hist| + n > |Reach(input, st, toks)| && Fed(8 * |input|, st.tree, st.cur.pos, toks) < |toks| ==>
      Deliver(input, st, n).hist == Reach(input, st, toks) && Deliver(input, st, n).dead
    decreases n
  {
    hide StateOk, Upcoming, NextByte, Reach, Fed;
    UpcomingOk(input, st, toks);
    ReachGrows(input, st, toks);
    if n > 0 && (|Reach(input, st, toks)| > |st.hist| || Fed(8 * |input|, st.tree, st.cur.pos, toks) < |toks|) {
      var rest := NextByteReach(input, st, toks);
      match NextByte(input, st)
      case None =>
      case Some(s) =>
        DeliverExpands(input, s, rest, n - 1);
    }
  }

  lemma UpcomingOk(input: seq<byte>, st: State, toks: seq<Token>)
    requires StateOk(input, st) && Upcoming(input, st, toks)
    ensures Valid(st.tree) && TokensOk(toks)
  {
  }

  lemma ReachGrows(input: seq<byte>, st: State, toks: seq<Token>)
    requires StateOk(input, st) && TokensOk(toks)
    ensures st.hist <= Reach(input, st, toks)
  {
  }

  /** Soundness on any input: the bytes delivered are the expansion of the tokens that the bits used
      up really code, apart from the end of a copy that has not been asked for yet. */
  lemma {:induction false} DeliverSound(input: seq<byte>, st: State, n: nat) returns (toks: seq<Token>)
    requires StateOk(input, st) && st.cur.pos <= 8 * |input|
    ensures var r := Deliver(input, st, n);
      && TokensOk(toks)
      && st.cur.pos <= r.cur.pos <= 8 * |input|
      && FileBits(input)[st.cur.pos..r.cur.pos] == Encode(st.tree, toks)
      && Owing(st.hist, st.distance, st.left, toks) == Owing(r.hist, r.distance, r.left, [])
    decreases n
  {
    hide Valid, FileBits, Encode, CursorOk, AtToken, Owing, Deliver, NextByte, TokenCode, Update;
    EncodeNone(st.tree);
    assert FileBits(input)[st.cur.pos..st.cur.pos] == [];
    DeliverStep(input, st, n);
    toks := [];
    if n > 0 && NextByte(input, st).Some? {
      var s := NextByte(input, st).value;
      var head := NextByteSound(input, st);
      var rest := DeliverSound(input, s, n - 1);
      toks := head + rest;
      if head != [] {
        assert toks == [head[0]] + rest;
        EncodePush(st.tree, head[0], rest);
        JoinSlices(FileBits(input), st.cur.pos, s.cur.pos, Deliver(input, st, n).cur.pos);
        OwingPush(st, s, head[0], rest);
      } else {
        assert toks == rest;
        OwingCopy(st.hist, st.distance, st.left, rest);
      }
    }
  }

  lemma EncodeNone(t: Tree)
    requires Valid(t)
    ensures Encode(t, []) == []
  {
  }

  lemma EncodePush(t: Tree, tok: Token, rest: seq<Token>)
    requires Valid(t) && TokenOk(tok) && TokensOk(rest)
    ensures TokensOk([tok] + rest)
    ensures Encode(t, [tok] + rest) == TokenCode(t, tok) + Encode(Update(t, Symbol(tok)), rest)
  {
    hide Valid, TokenCode, Update;
    assert ([tok] + rest)[1..] == rest;
  }

  lemma DeliverStep(input: seq<byte>, st: State, n: nat)
    requires StateOk(input, st)
    ensures n == 0 ==> Deliver(input, st, n) == st
    ensures n > 0 && NextByte(input, st).None? ==> Deliver(input, st, n) == st.(dead := true)
    ensures n > 0 && NextByte(input, st).Some? ==>
      Deliver(input, st, n) == Deliver(input, NextByte(input, st).value, n - 1)
  {
  }

  /** The token, if any, read for one byte, and the bits used for it. */
  lemma NextByteSound(input: seq<byte>, st: State) returns (head: seq<Token>)
    requires StateOk(input, st) && st.cur.pos <= 8 * |input| && NextByte(input, st).Some?
    ensures var s := NextByte(input, st).value;
      && |head| <= 1 && TokensOk(head)
      && st.cur.pos <= s.cur.pos <= 8 * |input|
      && (head == [] <==> st.left > 0)
      && (head == [] ==>
            && s.cur == st.cur && s.tree == st.tree
            && s == st.(hist := st.hist + [st.hist[|st.hist| - st.distance]], left := st.left - 1))
      && (head != [] ==>
            && s.tree == Update(st.tree, Symbol(head[0]))
            && FileBits(input)[st.cur.pos..s.cur.pos] == TokenCode(st.tree, head[0])
            && Begins(st, s, head[0]))
  {
    hide Valid, FileBits, ReadToken, TokenCode, CursorOk;
    if st.left > 0 {
      head := [];
    } else {
      TokenUses(input, st.tree, st.cur);
      head := [ReadToken(input, st.tree, st.cur).value.0];
    }
  }

  /** State s has just delivered the first byte of tok after st. */
  predicate Begins(st: State, s: State, tok: Token)
    requires |st.hist| >= N && TokenOk(tok)
  {
    match tok
    case Literal(c) => s.hist == st.hist + [c] && s.left == 0
    case Match(d, n) =>
      s.hist == st.hist + [st.hist[|st.hist| - d]] && s.distance == d && s.left == n - 1
  }

  lemma OwingPush(st: State, s: State, tok: Token, rest: seq<Token>)
    requires |st.hist| >= N && st.left == 0 && TokenOk(tok) && TokensOk(rest) && Begins(st, s, tok)
    ensures |s.hist| >= N && (s.left > 0 ==> 1 <= s.distance <= N) && TokensOk([tok] + rest)
    ensures Owing(st.hist, st.distance, st.left, [tok] + rest) == Owing(s.hist, s.distance, s.left, rest)
  {
    hide Owing;
    var toks := [tok] + rest;
    assert toks[1..] == rest;
    OwingStart(st.hist, st.distance, toks);
    OwingToken(st.hist, toks);
    if tok.Literal? {
      OwingStart(s.hist, s.distance, rest);
    }
  }

  // ---------------------------------------------------------------- any run of requests

  function Total(lens: seq<nat>): nat {
    if lens == [] then 0 else lens[0] + Total(lens[1..])
  }

  /** A run of requests of the given lengths. */
  ghost function Requests(input: seq<byte>, st: State, lens: seq<nat>): (r: State)
    requires StateOk(input, st)
    ensures StateOk(input, r)
    decreases |lens|
  {
    if lens == [] then st else Requests(input, Deliver(input, st, lens[0]), lens[1..])
  }

  lemma {:induction false} RequestsTotal(input: seq<byte>, st: State, lens: seq<nat>)
    requires StateOk(input, st)
    ensures Requests(input, st, lens) == Deliver(input, st, Total(lens))
    decreases |lens|
  {
    hide NextByte, StateOk;
    if lens != [] {
      RequestsTotal(input, Deliver(input, st, lens[0]), lens[1..]);
      DeliverSplit(input, st, lens[0], Total(lens[1..]));
    }
  }

  /** The tree of StartHuff, which is a valid one. */
  ghost function FirstTree(): (t: Tree)
    ensures Valid(t)
  {
    StartCorrect();
    StartTree()
  }

  /** The decoder at the start of a file. */
  ghost function Start(input: seq<byte>, window: seq<byte>): (st: State)
    requires |input| != 1 && |window| == N
    ensures StateOk(input, st)
  {
    State(FirstTree(), Cursor(0, 0), window, 0, 0, false)
  }

  /** The file starts with the code of toks. */
  ghost predicate Codes(input: seq<byte>, toks: seq<Token>) {
    TokensOk(toks) && Encode(FirstTree(), toks) <= FileBits(input)
  }

  lemma CodesUpcoming(input: seq<byte>, window: seq<byte>, toks: seq<Token>)
    requires |input| != 1 && |window| == N && Codes(input, toks)
    ensures Upcoming(input, Start(input, window), toks)
  {
    hide FirstTree, Encode, FileBits;
    var n := |Encode(FirstTree(), toks)|;
    assert FileBits(input)[0..0 + n] == FileBits(input)[..n];
  }

  /** The code of the last token is followed by as many bits of the file as that token needs. */
  ghost predicate Followed(input: seq<byte>, toks: seq<Token>)
    requires TokensOk(toks)
  {
    toks != [] ==> |Encode(FirstTree(), toks)| + Spare(toks[|toks| - 1]) <= 8 * |input|
  }

  /** Only the last token of a stream can be short of following bits. */
  lemma {:induction false} FedAll(bits: nat, t: Tree, pos: nat, toks: seq<Token>)
    requires Valid(t) && TokensOk(toks) && toks != []
    ensures Fed(bits, t, pos, toks) == |toks| <==> pos + |Encode(t, toks)| + Spare(toks[|toks| - 1]) <= bits
    decreases |toks|
  {
    hide Valid, Update, TokenCode;
    var u, rest := Update(t, Symbol(toks[0])), toks[1..];
    if rest != [] {
      FedAll(bits, u, pos + |TokenCode(t, toks[0])|, rest);
      CodeLong(u, rest);
    } else {
      EncodeNone(u);
    }
  }

  lemma {:induction false} CodeLong(t: Tree, toks: seq<Token>)
    requires Valid(t) && TokensOk(toks) && toks != []
    ensures |Encode(t, toks)| + Spare(toks[|toks| - 1]) > 15
    decreases |toks|
  {
    hide Valid, Update, Code;
    if |toks| > 1 {
      CodeLong(Update(t, Symbol(toks[0])), toks[1..]);
    } else {
      CodeSome(t, Symbol(toks[0]));
      EncodeNone(Update(t, Symbol(toks[0])));
    }
  }

  /** Every token stands for at least one byte. */
  lemma {:induction false} ExpandGrows(h: seq<byte>, toks: seq<Token>, k: nat)
    requires |h| >= N && TokensOk(toks) && k < |toks|
    ensures Expand(h, toks[..k]) < Expand(h, toks)
    decreases k
  {
    var g := match toks[0] case Literal(c) => h + [c] case Match(d, n) => Copy(h, d, n);
    assert TokenOk(toks[0]);
    if k > 0 {
      assert toks[..k][1..] == toks[1..][..k - 1];
      ExpandGrows(g, toks[1..], k - 1);
    }
  }

  lemma FollowedFed(input: seq<byte>, toks: seq<Token>)
    requires TokensOk(toks)
    ensures Fed(8 * |input|, FirstTree(), 0, toks) == |toks| <==> Followed(input, toks)
  {
    hide FirstTree, Encode, Fed, Spare;
    if toks == [] {
      FedNone(8 * |input|, FirstTree(), 0);
    } else {
      FedAll(8 * |input|, FirstTree(), 0, toks);
    }
  }

  /** A whole stream: if a file starts with the code of toks, requests of any lengths deliver the
      expansion of toks against the window, in order. All of it can be had exactly if bits enough
      follow the last code. */
  lemma StreamDecodes(input: seq<byte>, window: seq<byte>, toks: seq<Token>, lens: seq<nat>)
    requires |input| != 1 && |window| == N && Codes(input, toks)
    requires N + Total(lens) <= |Expand(window, toks)|
    ensures var r := Requests(input, Start(input, window), lens);
      && r.hist <= Expand(window, toks)
      && (Followed(input, toks) ==> r.hist == Expand(window, toks)[..N + Total(lens)] && !r.dead)
      && (N + Total(lens) == |Expand(window, toks)| ==>
            (r.hist == Expand(window, toks) <==> Followed(input, toks)))
  {
    hide FirstTree, Encode, Expand, Deliver, Requests, FileBits, Upcoming, StateOk, Followed, Fed;
    var st := Start(input, window);
    var k := Fed(8 * |input|, st.tree, 0, toks);
    CodesUpcoming(input, window, toks);
    RequestsTotal(input, st, lens);
    DeliverExpands(input, st, toks, Total(lens));
    FollowedFed(input, toks);
    assert toks[..|toks|] == toks;
    if k < |toks| {
      ExpandGrows(window, toks, k);
    }
  }

  lemma PathStep(x: int, y: int)
    requires 0 <= x < R && y == NCHAR + x / 2
    ensures x < y <= R && Path(FirstTree(), x) == Path(FirstTree(), y) + [x % 2 == 1]
  {
    hide Path, Linked, Ordered, Balanced;
    assert FirstTree().prnt[x] == y;
    PathUp(FirstTree(), x);
  }

  lemma PathUp(t: Tree, x: int)
    requires Valid(t) && 0 <= x < R
    ensures x < t.prnt[x] < T && Path(t, x) == Path(t, t.prnt[x]) + [x % 2 == 1]
  {
    ParentOf(t, x);
  }

  lemma FirstCode()
    ensures Code(FirstTree(), 0) == [true, true, false, false, false, true, true, false, false]
  {
    hide Path, Linked, Ordered, Balanced;
    assert FirstTree().prnt[0 + T] == 0;
    RootPath(FirstTree());
    PathStep(625, 626);
    PathStep(623, 625);
    PathStep(618, 623);
    PathStep(608, 618);
    PathStep(588, 608);
    PathStep(549, 588);
    PathStep(471, 549);
    PathStep(314, 471);
    PathStep(0, 314);
  }

  lemma FileTwo(b: byte, c: byte)
    ensures FileBits([b, c]) == ToBits(b, 8) + ToBits(c, 8)
  {
    hide ToBits;
    assert [b, c][..1] == [b] && [b][..0] == [];
    assert FileBits([b]) == FileBits([]) + ToBits(b, 8);
    assert FileBits([b, c]) == FileBits([b]) + ToBits(c, 8);
  }

  lemma FirstByteBits()
    ensures ToBits(0xC6, 8) == [true, true, false, false, false, true, true, false]
  {
    assert ToBits(3, 2) == [true, true];
    assert ToBits(12, 4) == ToBits(3, 2) + [false, false];
    assert ToBits(49, 6) == ToBits(12, 4) + [false, true];
  }

  lemma FileStart()
    ensures FileBits([0xC6, 0])[..9] == [true, true, false, false, false, true, true, false, false]
  {
    hide ToBits, FileBits;
    FileTwo(0xC6, 0);
    FirstByteBits();
    ToBitsHead(8);
  }

  lemma {:induction false} ToBitsHead(n: nat)
    requires n > 0
    ensures ToBits(0, n)[0] == false
  {
    if n > 1 {
      ToBitsHead(n - 1);
    }
  }

  lemma LiteralEncodes()
    ensures Encode(FirstTree(), [Literal(0)]) == [true, true, false, false, false, true, true, false, false]
  {
    hide FirstTree, Code, Update;
    FirstCode();
    var toks := [Literal(0)];
    assert toks[1..] == [];
    EncodeNone(Update(FirstTree(), 0));
    assert Encode(FirstTree(), toks) == TokenCode(FirstTree(), Literal(0)) + Encode(Update(FirstTree(), 0), []);
  }

  lemma LiteralFiles()
    ensures Codes([0xC6, 0], [Literal(0)]) && !Followed([0xC6, 0], [Literal(0)])
    ensures Codes([0xC6, 0, 0], [Literal(0)]) && Followed([0xC6, 0, 0], [Literal(0)])
  {
    hide FirstTree, Encode, FileBits;
    LiteralEncodes();
    FileStart();
    FileLonger([0xC6, 0], 0);
    assert [0xC6, 0, 0] == [0xC6, 0] + [0];
  }

  /** A file that holds the whole code of a literal, with seven bits to spare, delivers nothing; with
      one more byte it delivers the literal. */
  lemma CodeStarves(window: seq<byte>)
    requires |window| == N
    ensures Codes([0xC6, 0], [Literal(0)]) && Deliver([0xC6, 0], Start([0xC6, 0], window), 1).hist == window
    ensures Codes([0xC6, 0, 0], [Literal(0)])
    ensures Deliver([0xC6, 0, 0], Start([0xC6, 0, 0], window), 1).hist == window + [0]
  {
    hide FirstTree, Deliver, FileBits, StateOk, Expand, Codes, Followed;
    LiteralFiles();
    ExpandOne(window, 0);
    CodesOne([0xC6, 0], window, [Literal(0)]);
    CodesOne([0xC6, 0, 0], window, [Literal(0)]);
  }

  lemma FileLonger(f: seq<byte>, b: byte)
    ensures FileBits(f) <= FileBits(f + [b])
  {
    assert (f + [b])[..|f|] == f;
  }

  lemma ExpandOne(window: seq<byte>, c: byte)
    requires |window| == N
    ensures Expand(window, [Literal(c)]) == window + [c]
  {
    assert Expand(window + [c], []) == window + [c];
  }

  lemma CodesOne(input: seq<byte>, window: seq<byte>, toks: seq<Token>)
    requires |input| != 1 && |window| == N && Codes(input, toks) && |Expand(window, toks)| == N + 1
    ensures Deliver(input, Start(input, window), 1).hist ==
      if Followed(input, toks) then Expand(window, toks) else window
  {
    hide FirstTree, Deliver, FileBits, StateOk, Expand, Requests, Codes, Followed, NextByte;
    StreamDecodes(input, window, toks, [1]);
    RequestsTotal(input, Start(input, window), [1]);
    assert Total([1]) == 1 + Total([]) by { assert [1][1..] == []; }
    OneByte(input, Start(input, window));
  }

  lemma OneByte(input: seq<byte>, st: State)
    requires StateOk(input, st)
    ensures |Deliver(input, st, 1).hist| <= |st.hist| + 1 && st.hist <= Deliver(input, st, 1).hist
  {
  }

  // ---------------------------------------------------------------- the code is uniquely decodable

  /** The position codes are prefix free. */
  lemma PosPrefix(p: int, q: int, bits: seq<bool>)
    requires 0 <= p < N && 0 <= q < N && PosCode(p) <= bits && PosCode(q) <= bits
    ensures p == q
  {
    hide Val, ToBits, PosCode, DCode, DLen;
    var v, w := PosCode(p), PosCode(q);
    ByteBound(bits[..8]);
    assert v[..8] == bits[..8] == w[..8];
    PosToBits(p, v, Val(bits[..8]));
    PosToBits(q, w, Val(bits[..8]));
    assert v == w;
  }

  lemma ByteBound(w: seq<bool>)
    requires |w| == 8
    ensures 0 <= Val(w) < 256
  {
    Powers();
  }

  lemma TokenPrefix(t: Tree, a: Token, b: Token, bits: seq<bool>)
    requires Valid(t) && TokenOk(a) && TokenOk(b) && TokenCode(t, a) <= bits && TokenCode(t, b) <= bits
    ensures a == b
  {
    hide Valid, Code, PosCode;
    var s := Code(t, Symbol(a));
    assert s <= bits && Code(t, Symbol(b)) <= bits;
    PrefixCode(t, bits);
    if a.Match? {
      assert PosCode(a.distance - 1) <= bits[|s|..] && PosCode(b.distance - 1) <= bits[|s|..];
      PosPrefix(a.distance - 1, b.distance - 1, bits[|s|..]);
    }
  }

  /** Although the tree changes with every symbol, the bits of a file code one list of tokens only:
      of two lists whose codes it starts with, one starts with the other. */
  lemma {:induction false} UniqueTokens(t: Tree, a: seq<Token>, b: seq<Token>, bits: seq<bool>)
    requires Valid(t) && TokensOk(a) && TokensOk(b) && Encode(t, a) <= bits && Encode(t, b) <= bits
    ensures if |a| <= |b| then a <= b else b < a
    decreases |a|
  {
    hide Valid, TokenCode, Update;
    if a != [] && b != [] {
      var c := TokenCode(t, a[0]);
      TokenPrefix(t, a[0], b[0], bits);
      assert Encode(Update(t, Symbol(a[0])), a[1..]) <= bits[|c|..];
      assert Encode(Update(t, Symbol(a[0])), b[1..]) <= bits[|c|..];
      UniqueTokens(Update(t, Symbol(a[0])), a[1..], b[1..], bits[|c|..]);
      assert a == [a[0]] + a[1..] && b == [b[0]] + b[1..];
    }
  }

  // ---------------------------------------------------------------- the output is bounded

  /** A bound on the number of bytes still to come: every token uses up at least one bit and stands
      for at most sixty bytes. */
  ghost function Fuel(input: seq<byte>, st: State): int {
    60 * (8 * |input| - st.cur.pos) + st.left
  }

  lemma TokenMoves(input: seq<byte>, t: Tree, cur: Cursor)
    requires Valid(t) && CursorOk(input, cur)
    ensures var r := ReadToken(input, t, cur); r.Some? ==> r.value.2.pos > cur.pos
  {
    hide Valid, Update, ReadChar, ReadPos;
    CharEnds(input, t, cur);
    if ReadChar(input, t, cur, R).Some? {
      PosEnds(input, ReadChar(input, t, cur, R).value.1);
    }
  }

  /** Every byte delivered lowers the bound, which is never negative: decoding always ends. */
  lemma NextByteFuel(input: seq<byte>, st: State)
    requires StateOk(input, st)
    ensures 0 <= Fuel(input, st)
    ensures NextByte(input, st).Some? ==> Fuel(input, NextByte(input, st).value) < Fuel(input, st)
  {
    hide Valid, ReadToken;
    if st.left == 0 {
      TokenMoves(input, st.tree, st.cur);
    }
  }

  lemma {:induction false} DeliverFuel(input: seq<byte>, st: State, n: nat)
    requires StateOk(input, st)
    ensures !Deliver(input, st, n).dead ==> Fuel(input, Deliver(input, st, n)) <= Fuel(input, st) - n
    decreases n
  {
    hide NextByte, StateOk, Fuel;
    DeliverStep(input, st, n);
    NextByteFuel(input, st);
    if n > 0 && NextByte(input, st).Some? {
      DeliverFuel(input, NextByte(input, st).value, n - 1);
    }
  }

  // ---------------------------------------------------------------- whole files

  /** toks is what a file stands for: it starts with their code, the last is followed by bits enough,
      and no more tokens than these have both. */
  ghost predicate Content(input: seq<byte>, toks: seq<Token>) {
    && Codes(input, toks) && Followed(input, toks)
    && forall more: seq<Token> :: Codes(input, more) && Followed(input, more) ==> more <= toks
  }

  /** A decoder that stops does not stop inside a copy. */
  lemma {:induction false} DeadEmpty(input: seq<byte>, st: State, n: nat)
    requires StateOk(input, st) && !st.dead
    ensures Deliver(input, st, n).dead ==> Deliver(input, st, n).left == 0
    decreases n
  {
    hide Valid, CursorOk, AtToken, ReadToken;
    DeliverStep(input, st, n);
    if n > 0 && NextByte(input, st).Some? {
      DeadEmpty(input, NextByte(input, st).value, n - 1);
    }
  }

  /** What was delivered before the end, as tokens. */
  lemma DeadCodes(input: seq<byte>, window: seq<byte>, n: nat) returns (toks: seq<Token>)
    requires |input| != 1 && |window| == N && Deliver(input, Start(input, window), n).dead
    ensures Codes(input, toks) && Deliver(input, Start(input, window), n).hist == Expand(window, toks)
  {
    hide FirstTree, Encode, Deliver, FileBits, StateOk, NextByte, Expand;
    var st := Start(input, window);
    var r := Deliver(input, st, n);
    DeadEmpty(input, st, n);
    toks := DeliverSound(input, st, n);
    OwingNone(r.hist, r.distance);
    assert FileBits(input)[0..r.cur.pos] == FileBits(input)[..r.cur.pos];
  }

  lemma DeadFollowed(input: seq<byte>, window: seq<byte>, n: nat, toks: seq<Token>)
    requires |input| != 1 && |window| == N && Deliver(input, Start(input, window), n).dead
    requires Codes(input, toks) && Deliver(input, Start(input, window), n).hist == Expand(window, toks)
    ensures Followed(input, toks)
  {
    hide FirstTree, Encode, Deliver, FileBits, StateOk, NextByte, Expand, Fed, Upcoming, Followed;
    var st := Start(input, window);
    var k := Fed(8 * |input|, st.tree, 0, toks);
    CodesUpcoming(input, window, toks);
    FollowedFed(input, toks);
    if k < |toks| {
      DeliverExpands(input, st, toks, n);
      ExpandGrows(window, toks, k);
    }
  }

  lemma DeadMost(input: seq<byte>, window: seq<byte>, n: nat, toks: seq<Token>, more: seq<Token>)
    requires |input| != 1 && |window| == N && Deliver(input, Start(input, window), n).dead
    requires Codes(input, toks) && Deliver(input, Start(input, window), n).hist == Expand(window, toks)
    requires Codes(input, more) && Followed(input, more)
    ensures more <= toks
  {
    hide FirstTree, Encode, Deliver, FileBits, StateOk, NextByte, Expand, Fed, Upcoming, Followed;
    var st := Start(input, window);
    CodesUpcoming(input, window, more);
    FollowedFed(input, more);
    assert more[..|more|] == more;
    var m := |Expand(window, more)| - N;
    DeliverExpands(input, st, more, n);
    DeliverExpands(input, st, more, m);
    DeliverSplit(input, st, m, n - m);
    UniqueTokens(FirstTree(), toks, more, FileBits(input));
    if toks < more {
      assert more[..|toks|] == toks;
      ExpandGrows(window, more, |toks|);
    }
  }

  /** Decoding until the end delivers the expansion of what the file stands for, whatever the file is:
      bits after that are padding. */
  lemma DecodesContent(input: seq<byte>, window: seq<byte>, n: nat) returns (toks: seq<Token>)
    requires |input| != 1 && |window| == N && Deliver(input, Start(input, window), n).dead
    ensures Content(input, toks) && Deliver(input, Start(input, window), n).hist == Expand(window, toks)
  {
    hide FirstTree, Encode, Deliver, FileBits, StateOk, Followed, NextByte;
    toks := DeadCodes(input, window, n);
    DeadFollowed(input, window, n, toks);
    forall more: seq<Token> | Codes(input, more) && Followed(input, more)
      ensures more <= toks
    {
      DeadMost(input, window, n, toks, more);
    }
  }

  lemma ContentFirst(input: seq<byte>, window: seq<byte>, toks: seq<Token>)
    requires |window| == N && Content(input, toks)
    ensures forall more :: Codes(input, more) && Followed(input, more) ==> Expand(window, more) <= Expand(window, toks)
  {
    hide Followed, Expand, Encode, FileBits, FirstTree;
    forall more | Codes(input, more) && Followed(input, more)
      ensures Expand(window, more) <= Expand(window, toks)
    {
      assert toks[..|more|] == more;
      if |more| < |toks| {
        ExpandGrows(window, toks, |more|);
      } else {
        assert more == toks;
      }
    }
  }
}
