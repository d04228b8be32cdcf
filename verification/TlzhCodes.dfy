/** What the LZHUF bit stream means: the code of each symbol in the current tree, the code of a match
    position, and the tokens of a whole stream (lib/libdsk/comptlzh.c, DecodeChar and DecodePosition). */
module TlzhCodes {
  import opened Bits
  import opened TlzhTree
  import opened TlzhReconst

  // ---------------------------------------------------------------- symbol codes

  /** The slot a bit leads to from internal slot x lies below x, and x is its parent. */
  function Child(t: Tree, x: int, b: bool): (y: int)
    requires Valid(t) && 0 <= x < T && t.son[x] < T
    ensures 0 <= y < x && t.prnt[y] == x && (y % 2 == 1 <==> b)
  {
    t.son[x] + (if b then 1 else 0)
  }

  /** The parent of a slot other than the root lies above it, and the slot is one of its children. */
  lemma ParentOf(t: Tree, x: int)
    requires Valid(t) && 0 <= x < R
    ensures x < t.prnt[x] < T && t.son[t.prnt[x]] < T && Child(t, t.prnt[x], x % 2 == 1) == x
  {
    assert t.son[t.prnt[x]] == x - x % 2;
  }

  /** A leaf slot carries exactly one symbol. */
  lemma LeafOf(t: Tree, x: int)
    requires Valid(t) && 0 <= x < T && t.son[x] >= T
    ensures t.son[x] < T + NCHAR && t.prnt[t.son[x]] == x
  {
  }

  lemma SymbolAt(t: Tree, s: int)
    requires Valid(t) && 0 <= s < NCHAR
    ensures 0 <= t.prnt[s + T] < T && t.son[t.prnt[s + T]] == s + T
  {
  }

  /** The path from the root to slot x: its prnt chain read backwards, one bit per step. */
  ghost function Path(t: Tree, x: int): seq<bool>
    requires Valid(t) && 0 <= x < T
    decreases T - x
  {
    if x == R then [] else
      ParentOf(t, x);
      Path(t, t.prnt[x]) + [x % 2 == 1]
  }

  /** The code of symbol s. */
  ghost function Code(t: Tree, s: int): seq<bool>
    requires Valid(t) && 0 <= s < NCHAR
  {
    Path(t, t.prnt[s + T])
  }

  /** The descent of DecodeChar from slot x over a given bit string: the symbol reached and the
      number of bits used. */
  ghost function Descend(t: Tree, x: int, bits: seq<bool>): (r: Option<(int, nat)>)
    requires Valid(t) && 0 <= x < T
    ensures r.Some? ==> 0 <= r.value.0 < NCHAR && r.value.1 <= |bits|
    decreases |bits|
  {
    if t.son[x] >= T then Some((t.son[x] - T, 0))
    else if bits == [] then None
    else
      var r := Descend(t, Child(t, x, bits[0]), bits[1..]);
      if r.None? then None else Some((r.value.0, r.value.1 + 1))
  }

  /** Bits along a path lead the descent from the root to that slot. */
  lemma {:induction false} DescendPath(t: Tree, x: int, rest: seq<bool>)
    requires Valid(t) && 0 <= x < T
    ensures var r := Descend(t, x, rest);
      Descend(t, R, Path(t, x) + rest) ==
        if r.None? then None else Some((r.value.0, r.value.1 + |Path(t, x)|))
    decreases T - x
  {
    hide Linked, Ordered, Balanced;
    if x == R {
      assert Path(t, x) + rest == rest;
    } else {
      ParentOf(t, x);
      var p, b := t.prnt[x], x % 2 == 1;
      DescendPath(t, p, [b] + rest);
      assert Path(t, x) + rest == Path(t, p) + ([b] + rest);
      assert ([b] + rest)[1..] == rest;
    }
  }

  /** DecodeChar, given the code of s, finds s and uses exactly that code. */
  lemma CodeDecodes(t: Tree, s: int, rest: seq<bool>)
    requires Valid(t) && 0 <= s < NCHAR
    ensures Descend(t, R, Code(t, s) + rest) == Some((s, |Code(t, s)|))
  {
    SymbolAt(t, s);
    DescendPath(t, t.prnt[s + T], rest);
  }

  /** Whatever bits DecodeChar uses up are the path on from where it started. */
  lemma {:induction false} DescendUses(t: Tree, x: int, bits: seq<bool>)
    requires Valid(t) && 0 <= x < T
    ensures var r := Descend(t, x, bits);
      r.Some? ==> Code(t, r.value.0) == Path(t, x) + bits[..r.value.1]
    decreases |bits|
  {
    hide Linked, Ordered, Balanced;
    if t.son[x] >= T {
      LeafOf(t, x);
      assert Path(t, x) + bits[..0] == Path(t, x);
    } else if bits != [] {
      var y := Child(t, x, bits[0]);
      DescendUses(t, y, bits[1..]);
      var r := Descend(t, y, bits[1..]);
      if r.Some? {
        var n := r.value.1;
        assert Path(t, y) + bits[1..][..n] == Path(t, x) + bits[..n + 1];
      }
    }
  }

  /** Every slot has a leaf below it. */
  lemma {:induction false} SlotHasLeaf(t: Tree, x: int) returns (s: int)
    requires Valid(t) && 0 <= x < T
    ensures 0 <= s < NCHAR && Path(t, x) <= Code(t, s)
    decreases x
  {
    hide Linked, Ordered, Balanced;
    if t.son[x] >= T {
      s := t.son[x] - T;
      LeafOf(t, x);
    } else {
      var y := Child(t, x, false);
      s := SlotHasLeaf(t, y);
      assert Path(t, x) <= Path(t, y);
    }
  }

  /** The descent runs out of bits only inside some symbol's code. */
  lemma {:induction false} DescendStarves(t: Tree, x: int, bits: seq<bool>) returns (s: int)
    requires Valid(t) && 0 <= x < T && Descend(t, x, bits).None?
    ensures 0 <= s < NCHAR && Path(t, x) + bits < Code(t, s)
    decreases |bits|
  {
    hide Linked, Ordered, Balanced;
    if bits == [] {
      assert Path(t, x) + bits == Path(t, x);
      var y := Child(t, x, false);
      s := SlotHasLeaf(t, y);
      assert Path(t, x) < Path(t, y);
    } else {
      var y := Child(t, x, bits[0]);
      s := DescendStarves(t, y, bits[1..]);
      assert Path(t, y) + bits[1..] == Path(t, x) + bits;
    }
  }

  /** The codes of a valid tree are prefix free and complete: a bit string either starts with the
      code of exactly one symbol, the one DecodeChar finds, or is a proper start of some code. */
  lemma PrefixCode(t: Tree, bits: seq<bool>)
    requires Valid(t)
    ensures forall s, u :: 0 <= s < NCHAR && 0 <= u < NCHAR && Code(t, s) <= bits && Code(t, u) <= bits ==> s == u
    ensures var r := Descend(t, R, bits);
      if r.Some? then Code(t, r.value.0) <= bits
      else exists s :: 0 <= s < NCHAR && bits < Code(t, s)
  {
    forall s | 0 <= s < NCHAR && Code(t, s) <= bits
      ensures Descend(t, R, bits) == Some((s, |Code(t, s)|))
    {
      assert Code(t, s) + bits[|Code(t, s)|..] == bits;
      CodeDecodes(t, s, bits[|Code(t, s)|..]);
    }
    var r := Descend(t, R, bits);
    if r.Some? {
      DescendUses(t, R, bits);
    } else {
      var s := DescendStarves(t, R, bits);
      assert Path(t, R) + bits == bits;
    }
  }
}
