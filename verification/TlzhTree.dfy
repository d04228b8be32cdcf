/** The adaptive Huffman tree of the LZHUF decoder and the step that follows each symbol
    (lib/libdsk/comptlzh.c, update). The three C arrays are kept as three sequences. */
module TlzhTree {
  import opened Sums

  const NCHAR := 314
  const T := 627
  const R := 626
  const MAX_FREQ := 0x8000

  datatype Tree = Tree(freq: seq<int>, son: seq<int>, prnt: seq<int>)

  ghost predicate Sized(t: Tree) {
    |t.freq| == T + 1 && |t.son| == T && |t.prnt| == T + NCHAR
  }

  /** son and prnt are inverse; siblings are an even slot and the next one, and lie below their parent. */
  ghost predicate Linked(t: Tree)
    requires Sized(t)
  {
    && (forall i :: 0 <= i < T ==>
          && 0 <= t.son[i] < T + NCHAR && t.son[i] != R
          && t.prnt[t.son[i]] == i
          && (t.son[i] < T ==> t.son[i] % 2 == 0 && t.son[i] + 1 < i && t.prnt[t.son[i] + 1] == i))
    && (forall x :: 0 <= x < T + NCHAR && x != R ==>
          0 <= t.prnt[x] < T && t.son[t.prnt[x]] == (if x < T then x - x % 2 else x))
    && t.prnt[R] == 0
  }

  /** Weights are positive and in order, below the sentinel. */
  ghost predicate Ordered(t: Tree)
    requires Sized(t)
  {
    && (forall i :: 0 <= i < T ==> 0 < t.freq[i])
    && (forall i, j :: 0 <= i < j < T ==> t.freq[i] <= t.freq[j])
    && t.freq[T] == 0xffff
  }

  /** Every internal node weighs as much as its two children, except that node c is one short. */
  ghost predicate Balanced(t: Tree, c: int)
    requires Sized(t) && Linked(t)
  {
    forall i :: 0 <= i < T && t.son[i] < T ==>
      t.freq[i] + (if i == c then 1 else 0) == t.freq[t.son[i]] + t.freq[t.son[i] + 1]
  }

  ghost predicate Valid(t: Tree) {
    Sized(t) && Linked(t) && Ordered(t) && Balanced(t, -1) && t.freq[R] <= MAX_FREQ
  }

  /** The state in the middle of an update: node c still has to gain one. */
  ghost predicate Owed(t: Tree, c: int) {
    0 <= c < T && Sized(t) && Linked(t) && Ordered(t) && Balanced(t, c) && t.freq[R] < MAX_FREQ
  }

  /** The weight of the leaf that carries symbol s. */
  ghost function Weight(t: Tree, s: int): int
    requires Sized(t) && Linked(t) && 0 <= s < NCHAR
  {
    t.freq[t.prnt[s + T]]
  }

  // ---------------------------------------------------------------- one step of update

  /** The first slot from l on whose weight is at least k. */
  function ScanEnd(freq: seq<int>, l: int, k: int): (e: int)
    requires |freq| == T + 1 && 0 <= l <= T && k <= freq[T]
    ensures l <= e <= T && freq[e] >= k
    ensures forall m :: l <= m < e ==> freq[m] < k
    decreases T - l
  {
    if freq[l] < k then ScanEnd(freq, l + 1, k) else l
  }

  /** Exchange the subtrees (not the slots) at c and l; both child links follow. */
  function SwapSons(t: Tree, c: int, l: int): Tree
    requires Sized(t) && Linked(t) && 0 <= c < T && 0 <= l < T
  {
    var i, j := t.son[c], t.son[l];
    var p1 := t.prnt[i := l];
    var p2 := if i < T then p1[i + 1 := l] else p1;
    var p3 := p2[j := c];
    var p4 := if j < T then p3[j + 1 := c] else p3;
    t.(son := t.son[l := i][c := j], prnt := p4)
  }

  /** One round of the do loop: raise node c, moving it up past its equals if order asks for it.
      Returns the tree and the slot the raised node ended in. */
  function Raise(t: Tree, c: int): (r: (Tree, int))
    requires Owed(t, c)
    ensures Sized(r.0) && c <= r.1 < T
  {
    var k := t.freq[c] + 1;
    assert t.freq[c] <= t.freq[R] by { assert c == R || c < R; }
    if k > t.freq[c + 1] then
      var l := ScanEnd(t.freq, c + 1, k) - 1;
      (SwapSons(t, c, l).(freq := t.freq[c := t.freq[l]][l := k]), l)
    else
      (t.(freq := t.freq[c := k]), c)
  }

  /** What a round leaves: node e is settled, and its parent, if any, is the only one short. */
  ghost predicate Settled(t: Tree, e: int) {
    && 0 <= e < T && Sized(t) && Linked(t) && Ordered(t)
    && Balanced(t, if e == R then -1 else t.prnt[e])
    && (e == R ==> t.freq[R] <= MAX_FREQ)
    && (e != R ==> t.freq[R] < MAX_FREQ)
  }

  /** The slots from c to l that are passed over all weigh what c weighed, and none of them is
      c's parent, or a child of c or l. */
  lemma EqualRun(t: Tree, c: int, l: int)
    requires Owed(t, c) && c < l < T
    requires t.freq[l] < t.freq[c] + 1
    ensures forall m :: c <= m <= l ==> t.freq[m] == t.freq[c]
    ensures t.prnt[c] !in {c, l} && t.prnt[l] !in {c, l}
    ensures t.son[l] < T ==> t.son[l] + 1 < c
    ensures l < R
  {
    assert c < R;
    var p := t.prnt[c];
    assert t.freq[p] == t.freq[t.son[p]] + t.freq[t.son[p] + 1];
    assert c == t.son[p] || c == t.son[p] + 1;
    var s := t.son[l];
    if s < T {
      assert t.freq[l] == t.freq[s] + t.freq[s + 1];
    }
  }

  /** The parent links after a swap: c and l trade places as parents. */
  lemma SwapParents(t: Tree, c: int, l: int)
    requires Sized(t) && Linked(t) && 0 <= c < l < R
    ensures var u := SwapSons(t, c, l); Sized(u) && forall x :: 0 <= x < T + NCHAR && x != R ==>
      u.prnt[x] == (if t.prnt[x] == c then l else if t.prnt[x] == l then c else t.prnt[x])
    ensures SwapSons(t, c, l).prnt[R] == 0
  {
    var u := SwapSons(t, c, l);
    var i, j := t.son[c], t.son[l];
    forall x | 0 <= x < T + NCHAR && x != R
      ensures u.prnt[x] == (if t.prnt[x] == c then l else if t.prnt[x] == l then c else t.prnt[x])
    {
      assert t.son[t.prnt[x]] == (if x < T then x - x % 2 else x);
      assert t.prnt[x] == c <==> x == i || (i < T && x == i + 1);
      assert t.prnt[x] == l <==> x == j || (j < T && x == j + 1);
    }
  }

  lemma SwapSonAt(t: Tree, c: int, l: int, i: int)
    requires Sized(t) && Linked(t) && 0 <= c < l < R && 0 <= i < T
    requires t.son[l] < T ==> t.son[l] + 1 < c
    ensures var u := SwapSons(t, c, l);
      && Sized(u)
      && 0 <= u.son[i] < T + NCHAR && u.son[i] != R && u.prnt[u.son[i]] == i
      && (u.son[i] < T ==> u.son[i] % 2 == 0 && u.son[i] + 1 < i && u.prnt[u.son[i] + 1] == i)
  {
    SwapParents(t, c, l);
    var o := if i == c then l else if i == l then c else i;
    assert SwapSons(t, c, l).son[i] == t.son[o] && t.prnt[t.son[o]] == o;
  }

  lemma SwapPrntAt(t: Tree, c: int, l: int, x: int)
    requires Sized(t) && Linked(t) && 0 <= c < l < R && 0 <= x < T + NCHAR && x != R
    ensures var u := SwapSons(t, c, l);
      && Sized(u)
      && 0 <= u.prnt[x] < T && u.son[u.prnt[x]] == (if x < T then x - x % 2 else x)
  {
    SwapParents(t, c, l);
    assert t.son[t.prnt[x]] == (if x < T then x - x % 2 else x);
  }

  lemma SwapLinked(t: Tree, c: int, l: int)
    requires Sized(t) && Linked(t) && 0 <= c < l < R
    requires t.son[l] < T ==> t.son[l] + 1 < c
    ensures var u := SwapSons(t, c, l); Sized(u) && Linked(u)
  {
    SwapParents(t, c, l);
    var u := SwapSons(t, c, l);
    hide SwapSons;
    forall i | 0 <= i < T
      ensures
        && 0 <= u.son[i] < T + NCHAR && u.son[i] != R
        && u.prnt[u.son[i]] == i
        && (u.son[i] < T ==> u.son[i] % 2 == 0 && u.son[i] + 1 < i && u.prnt[u.son[i] + 1] == i)
    {
      SwapSonAt(t, c, l, i);
    }
    forall x | 0 <= x < T + NCHAR && x != R
      ensures 0 <= u.prnt[x] < T && u.son[u.prnt[x]] == (if x < T then x - x % 2 else x)
    {
      SwapPrntAt(t, c, l, x);
    }
  }

  /** Raising by one the last of a run of equal weights keeps the order. */
  lemma BumpOrdered(t: Tree, l: int)
    requires Sized(t) && Ordered(t) && 0 <= l < T && t.freq[l] < t.freq[l + 1] && t.freq[l] < MAX_FREQ
    ensures Ordered(t.(freq := t.freq[l := t.freq[l] + 1]))
  {
  }

  lemma RaiseOrdered(t: Tree, c: int)
    requires Owed(t, c)
    ensures Ordered(Raise(t, c).0)
  {
    var k := t.freq[c] + 1;
    var (u, l) := Raise(t, c);
    assert t.freq[c] <= t.freq[R];
    if k > t.freq[c + 1] {
      EqualRun(t, c, l);
      assert t.freq[l + 1] >= k;
    }
    hide Linked, Balanced;
    BumpOrdered(t, l);
    assert u.freq == t.freq[l := t.freq[l] + 1];
  }

  /** An internal slot other than the two swapped ones keeps its sum; only l's parent sees the gain. */
  lemma SwapElsewhere(t: Tree, c: int, l: int, i: int)
    requires Owed(t, c) && c < l < R && t.freq[l] == t.freq[c]
    requires 0 <= i < T && i != c && i != l && t.son[i] < T
    ensures var f := t.freq[l := t.freq[c] + 1];
      f[i] + (if i == t.prnt[l] then 1 else 0) == f[t.son[i]] + f[t.son[i] + 1]
  {
    var x := t.son[i];
    assert t.freq[i] == t.freq[x] + t.freq[x + 1];
    assert t.prnt[x] == i && t.prnt[x + 1] == i;
    assert t.son[t.prnt[l]] == l - l % 2;
  }

  /** The sums after a swap, slot by slot. */
  lemma SwapBalanced(t: Tree, c: int, l: int, i: int)
    requires Owed(t, c) && c < l < R && t.freq[l] == t.freq[c]
    requires t.prnt[c] !in {c, l} && t.prnt[l] !in {c, l} && (t.son[l] < T ==> t.son[l] + 1 < c)
    requires 0 <= i < T && SwapSons(t, c, l).son[i] < T
    ensures var f := t.freq[l := t.freq[c] + 1]; var x := SwapSons(t, c, l).son[i];
      0 <= x && f[i] + (if i == t.prnt[l] then 1 else 0) == f[x] + f[x + 1]
  {
    var x := SwapSons(t, c, l).son[i];
    if i == c {
      assert x == t.son[l];
    } else if i == l {
      assert x == t.son[c] && x + 1 < c;
    } else {
      assert x == t.son[i];
      SwapElsewhere(t, c, l, i);
    }
  }

  lemma RaiseSwapFacts(t: Tree, c: int)
    requires Owed(t, c) && t.freq[c] + 1 > t.freq[c + 1]
    ensures var (u, l) := Raise(t, c);
      && Linked(u) && c < l < R && u.freq == t.freq[l := t.freq[c] + 1] && u.prnt[l] == t.prnt[l]
      && u.son == SwapSons(t, c, l).son && t.freq[l] == t.freq[c]
      && t.prnt[c] !in {c, l} && t.prnt[l] !in {c, l} && (t.son[l] < T ==> t.son[l] + 1 < c)
  {
    var (u, l) := Raise(t, c);
    EqualRun(t, c, l);
    SwapLinked(t, c, l);
    assert u.freq == t.freq[l := t.freq[c] + 1];
    assert u.prnt[l] == t.prnt[l] by { SwapParents(t, c, l); }
  }

  lemma RaiseSwapBalanced(t: Tree, c: int)
    requires Owed(t, c) && t.freq[c] + 1 > t.freq[c + 1]
    ensures var (u, l) := Raise(t, c); Linked(u) && Balanced(u, u.prnt[l])
  {
    hide Ordered, Linked, SwapSons, ScanEnd, Raise;
    RaiseSwapFacts(t, c);
    var (u, l) := Raise(t, c);
    forall i | 0 <= i < T && u.son[i] < T
      ensures 0 <= u.son[i]
      ensures u.freq[i] + (if i == u.prnt[l] then 1 else 0) == u.freq[u.son[i]] + u.freq[u.son[i] + 1]
    {
      SwapBalanced(t, c, l, i);
    }
  }

  lemma RaiseSettledSwap(t: Tree, c: int)
    requires Owed(t, c) && t.freq[c] + 1 > t.freq[c + 1]
    ensures Settled(Raise(t, c).0, Raise(t, c).1)
  {
    hide Ordered, Linked, Balanced;
    RaiseOrdered(t, c);
    RaiseSwapFacts(t, c);
    RaiseSwapBalanced(t, c);
  }

  lemma StayBalanced(t: Tree, c: int, i: int)
    requires Owed(t, c) && 0 <= i < T && t.son[i] < T
    ensures var f := t.freq[c := t.freq[c] + 1];
      f[i] + (if c != R && i == t.prnt[c] then 1 else 0) == f[t.son[i]] + f[t.son[i] + 1]
  {
    var x := t.son[i];
    assert t.prnt[x] == i && t.prnt[x + 1] == i;
    if c != R {
      assert t.son[t.prnt[c]] == c - c % 2;
    }
  }

  lemma RaiseSettledStay(t: Tree, c: int)
    requires Owed(t, c) && t.freq[c] + 1 <= t.freq[c + 1]
    ensures Settled(Raise(t, c).0, Raise(t, c).1)
  {
    RaiseOrdered(t, c);
    var u := Raise(t, c).0;
    assert u.freq == t.freq[c := t.freq[c] + 1];
    hide Ordered;
    forall i | 0 <= i < T && u.son[i] < T
      ensures u.freq[i] + (if c != R && i == u.prnt[c] then 1 else 0) == u.freq[u.son[i]] + u.freq[u.son[i] + 1]
    {
      StayBalanced(t, c, i);
    }
  }

  /** After a round the raised node is settled and the debt has moved to its parent. */
  lemma RaiseSettled(t: Tree, c: int)
    requires Owed(t, c)
    ensures Settled(Raise(t, c).0, Raise(t, c).1)
  {
    if t.freq[c] + 1 > t.freq[c + 1] {
      RaiseSettledSwap(t, c);
    } else {
      RaiseSettledStay(t, c);
    }
  }

  lemma RaiseWeightSwap(t: Tree, c: int, s: int)
    requires Owed(t, c) && 0 <= s < NCHAR && t.freq[c] + 1 > t.freq[c + 1]
    ensures var u := Raise(t, c).0;
      && 0 <= u.prnt[s + T] < T
      && u.freq[u.prnt[s + T]] == Weight(t, s) + (if t.son[c] == s + T then 1 else 0)
  {
    var l := Raise(t, c).1;
    EqualRun(t, c, l);
    SwapParents(t, c, l);
    assert t.son[t.prnt[s + T]] == s + T;
    assert t.prnt[s + T] == c <==> t.son[c] == s + T;
  }

  /** A round changes the weight of at most one leaf: the one at slot c, if c is a leaf. */
  lemma RaiseWeight(t: Tree, c: int, s: int)
    requires Owed(t, c) && 0 <= s < NCHAR
    ensures Settled(Raise(t, c).0, Raise(t, c).1)
    ensures Weight(Raise(t, c).0, s) == Weight(t, s) + (if t.son[c] == s + T then 1 else 0)
  {
    RaiseSettled(t, c);
    if t.freq[c] + 1 > t.freq[c + 1] {
      RaiseWeightSwap(t, c, s);
    } else {
      assert t.son[t.prnt[s + T]] == s + T;
    }
  }

  // ---------------------------------------------------------------- the whole update

  /** The do loop of update: settle c, then its parent, until the root is settled. */
  ghost function Climb(t: Tree, c: int): (u: Tree)
    requires Owed(t, c)
    ensures Valid(u)
    decreases T - c
  {
    RaiseSettled(t, c);
    var (u, e) := Raise(t, c);
    if u.prnt[e] == 0 then
      RootHasParentZero(u, e);
      u
    else
      RootHasParentZero(u, e);
      Climb(u, u.prnt[e])
  }

  /** Parent 0 means the root: slot 0 cannot have children, because they would lie below it. */
  lemma RootHasParentZero(t: Tree, e: int)
    requires Sized(t) && Linked(t) && 0 <= e < T
    ensures t.prnt[e] == 0 <==> e == R
    ensures e != R ==> t.prnt[e] > e && t.son[t.prnt[e]] < T
  {
    if e != R {
      assert t.son[t.prnt[e]] == e - e % 2;
    }
  }

  /** Climbing from slot c adds one to the leaf at c, if there is one, and to no other leaf. */
  lemma {:induction false} ClimbWeight(t: Tree, c: int, s: int)
    requires Owed(t, c) && 0 <= s < NCHAR
    ensures Weight(Climb(t, c), s) == Weight(t, s) + (if t.son[c] == s + T then 1 else 0)
    decreases T - c
  {
    RaiseWeight(t, c, s);
    var (u, e) := Raise(t, c);
    RootHasParentZero(u, e);
    if u.prnt[e] != 0 {
      ClimbWeight(u, u.prnt[e], s);
    }
  }
}
