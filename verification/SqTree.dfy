/** The Huffman tree of the Squeeze codec: how analyze builds it in the node and count arrays, and why
    the code of a symbol, read from the root, leads to that symbol (lib/libdsk/compsq.c). */
module SqTree {
  import opened Bits

  const MAXLEAF := 257
  const MAXNODE := 514
  const SLOTS := 771

  /** huf_count, the three fields of huf_node, huf_leaves and huf_curnode. Slots below MAXNODE are
      internal nodes, the others are symbols. */
  datatype Huff = Huff(
    count: seq<int>, parent: seq<int>, left: seq<int>, right: seq<int>, leaves: seq<int>, cur: int)

  ghost predicate Sized(h: Huff) {
    && |h.count| == SLOTS && |h.parent| == MAXNODE && |h.left| == MAXNODE && |h.right| == MAXNODE
    && |h.leaves| == MAXLEAF && 0 <= h.cur < MAXNODE
  }

  /** How a slot is named in the left and right fields: a node by its number, symbol s by -1 - s. */
  function Enc(i: int): int {
    if i < MAXNODE then i else MAXNODE - 1 - i
  }

  function Dec(e: int): int {
    if e < 0 then MAXNODE - 1 - e else e
  }

  // ---------------------------------------------------------------- the smallest counts

  /** huf_smallest over the slots below n: the first smallest positive count, or -1. */
  function Best(count: seq<int>, skip: int, n: nat): (b: int)
    requires n <= |count|
    ensures -1 <= b < n
  {
    if n == 0 then -1
    else
      var b := Best(count, skip, n - 1);
      if n - 1 != skip && count[n - 1] > 0 && (b == -1 || count[n - 1] < count[b]) then n - 1 else b
  }

  /** The slot huf_smallest picks is the smallest among the positive ones, and it finds one if there
      is one. */
  lemma {:induction false} BestIsSmallest(count: seq<int>, skip: int, n: nat)
    requires n <= |count|
    ensures var b := Best(count, skip, n);
      && (b != -1 ==> b != skip && count[b] > 0)
      && (forall i :: 0 <= i < n && i != skip && count[i] > 0 ==> b != -1 && count[b] <= count[i])
  {
    if n > 0 {
      BestIsSmallest(count, skip, n - 1);
    }
  }

  // ---------------------------------------------------------------- merging two slots

  /** The node a slot hangs from. */
  function Up(h: Huff, i: int): int
    requires Sized(h) && 0 <= i < SLOTS
  {
    if i < MAXNODE then h.parent[i] else h.leaves[i - MAXNODE]
  }

  function SetUp(h: Huff, i: int, n: int): Huff
    requires Sized(h) && 0 <= i < SLOTS
  {
    if i < MAXNODE then h.(parent := h.parent[i := n]) else h.(leaves := h.leaves[i - MAXNODE := n])
  }

  /** huf_addnode. */
  function AddNode(h: Huff, a: int, b: int): (r: Huff)
    requires Sized(h) && 0 <= a < SLOTS && 0 <= b < SLOTS
    ensures Sized(r)
  {
    var g := h.(parent := h.parent[h.cur := MAXNODE],
      left := h.left[h.cur := Enc(a)], right := h.right[h.cur := Enc(b)]);
    SetUp(SetUp(g, a, h.cur), b, h.cur)
  }

  /** One round of analyze's loop: join slots a and b under a new node. */
  function Merge(h: Huff, a: int, b: int): (r: Huff)
    requires Sized(h) && 0 <= a < SLOTS && 0 <= b < SLOTS && h.cur > 0
    ensures Sized(r)
  {
    var w := h.count[a] + h.count[b];
    AddNode(h, a, b).(count := h.count[h.cur := w][a := 0][b := 0], cur := h.cur - 1)
  }

  ghost predicate Used(h: Huff, cnt: seq<int>, i: int)
    requires |cnt| == MAXLEAF
  {
    h.cur < i < MAXNODE || (MAXNODE <= i < SLOTS && cnt[i - MAXNODE] > 0)
  }

  /** A slot in use either still waits to be merged, or hangs from a lower-numbered node. */
  ghost predicate SlotOk(h: Huff, cnt: seq<int>, i: int)
    requires Sized(h) && |cnt| == MAXLEAF && 0 <= i < SLOTS
  {
    if !Used(h, cnt, i) then h.count[i] == 0
    else if h.count[i] > 0 then i < MAXNODE ==> h.parent[i] == MAXNODE
    else
      && h.count[i] == 0 && h.cur < Up(h, i) < MAXNODE && Up(h, i) < i
      && Enc(i) in {h.left[Up(h, i)], h.right[Up(h, i)]}
  }

  /** The children of node n are two merged slots that hang from it. */
  ghost predicate KidsOk(h: Huff, cnt: seq<int>, n: int)
    requires Sized(h) && |cnt| == MAXLEAF && 0 <= n < MAXNODE
  {
    var a, b := Dec(h.left[n]), Dec(h.right[n]);
    && n < a < SLOTS && n < b < SLOTS && a != b && h.left[n] < MAXNODE && h.right[n] < MAXNODE
    && Used(h, cnt, a) && Used(h, cnt, b)
    && h.count[a] == 0 && h.count[b] == 0 && Up(h, a) == n && Up(h, b) == n
  }

  /** What every round of analyze keeps. */
  ghost predicate Growing(h: Huff, cnt: seq<int>) {
    && Sized(h) && |cnt| == MAXLEAF
    && (forall i :: 0 <= i < SLOTS ==> SlotOk(h, cnt, i))
    && (forall n :: h.cur < n < MAXNODE ==> KidsOk(h, cnt, n))
  }

  lemma MergeSlot(h: Huff, cnt: seq<int>, a: int, b: int, i: int)
    requires Growing(h, cnt) && h.cur > 0 && 0 <= a < SLOTS && 0 <= b < SLOTS && a != b
    requires h.count[a] > 0 && h.count[b] > 0 && 0 <= i < SLOTS
    ensures SlotOk(Merge(h, a, b), cnt, i)
  {
    assert SlotOk(h, cnt, a) && SlotOk(h, cnt, b) && SlotOk(h, cnt, i);
  }

  /** The fields of a merged slot, slot by slot. */
  lemma MergeFields(h: Huff, a: int, b: int, i: int)
    requires Sized(h) && 0 <= a < SLOTS && 0 <= b < SLOTS && h.cur > 0 && 0 <= i < SLOTS
    requires a > h.cur && b > h.cur
    ensures var g := Merge(h, a, b);
      && Up(g, i) == (if i == a || i == b then h.cur else if i == h.cur then MAXNODE else Up(h, i))
      && g.count[i] == (if i == a || i == b then 0 else if i == h.cur then h.count[a] + h.count[b] else h.count[i])
      && g.left == h.left[h.cur := Enc(a)] && g.right == h.right[h.cur := Enc(b)] && g.cur == h.cur - 1
  {
  }

  lemma NewKids(h: Huff, cnt: seq<int>, a: int, b: int)
    requires Growing(h, cnt) && h.cur > 0 && 0 <= a < SLOTS && 0 <= b < SLOTS && a != b
    requires h.count[a] > 0 && h.count[b] > 0
    ensures KidsOk(Merge(h, a, b), cnt, h.cur)
  {
    SlotFacts(h, cnt, a);
    SlotFacts(h, cnt, b);
    hide SlotOk, Merge;
    MergeFields(h, a, b, a);
    MergeFields(h, a, b, b);
  }

  lemma OldKids(h: Huff, cnt: seq<int>, a: int, b: int, n: int)
    requires Growing(h, cnt) && h.cur > 0 && 0 <= a < SLOTS && 0 <= b < SLOTS && a != b
    requires h.count[a] > 0 && h.count[b] > 0 && h.cur < n < MAXNODE
    ensures KidsOk(Merge(h, a, b), cnt, n)
  {
    SlotFacts(h, cnt, a);
    SlotFacts(h, cnt, b);
    hide SlotOk, Merge;
    assert KidsOk(h, cnt, n);
    MergeFields(h, a, b, n);
    MergeFields(h, a, b, Dec(h.left[n]));
    MergeFields(h, a, b, Dec(h.right[n]));
  }

  lemma MergeGrows(h: Huff, cnt: seq<int>, a: int, b: int)
    requires Growing(h, cnt) && h.cur > 0 && 0 <= a < SLOTS && 0 <= b < SLOTS && a != b
    requires h.count[a] > 0 && h.count[b] > 0
    ensures Growing(Merge(h, a, b), cnt)
  {
    hide SlotOk, KidsOk;
    forall i | 0 <= i < SLOTS
      ensures SlotOk(Merge(h, a, b), cnt, i)
    {
      MergeSlot(h, cnt, a, b, i);
    }
    forall n | h.cur - 1 < n < MAXNODE
      ensures KidsOk(Merge(h, a, b), cnt, n)
    {
      if n == h.cur {
        NewKids(h, cnt, a, b);
      } else {
        OldKids(h, cnt, a, b, n);
      }
    }
  }

  // ---------------------------------------------------------------- the positive counts

  /** The positive counts, as a multiset. */
  ghost function Positive(count: seq<int>): multiset<int> {
    multiset(count)[0 := 0]
  }

  lemma PositiveHas(count: seq<int>, i: int)
    requires 0 <= i < |count| && count[i] != 0
    ensures count[i] in Positive(count)
  {
    assert count[i] in multiset(count);
  }

  lemma PositiveFrom(count: seq<int>, v: int)
    requires v in Positive(count)
    ensures exists i :: 0 <= i < |count| && count[i] == v && v != 0
  {
    assert v in multiset(count);
    assert v in count;
  }

  lemma PositiveDrop(count: seq<int>, i: int)
    requires 0 <= i < |count| && count[i] != 0
    ensures Positive(count) == Positive(count[i := 0]) + multiset{count[i]}
  {
    assert multiset(count[i := 0]) == multiset(count) - multiset{count[i]} + multiset{0};
    assert count[i] in multiset(count);
  }

  lemma PositiveAdd(count: seq<int>, i: int, w: int)
    requires 0 <= i < |count| && count[i] == 0 && w != 0
    ensures Positive(count[i := w]) == Positive(count) + multiset{w}
  {
    assert count[i := w][i := 0] == count;
    PositiveDrop(count[i := w], i);
  }

  /** The number of slots waiting to be merged: huf_nodecount. */
  ghost function Waiting(h: Huff): nat {
    |Positive(h.count)|
  }

  /** Taking out two positive counts and putting in their sum, on a bare sequence; the counts that
      stay are returned. */
  lemma PositiveMerge(count: seq<int>, a: int, b: int, c: int) returns (rest: multiset<int>)
    requires 0 <= a < |count| && 0 <= b < |count| && 0 <= c < |count| && a != b && b != c && a != c
    requires count[a] > 0 && count[b] > 0 && count[c] == 0
    ensures Positive(count) == rest + multiset{count[b]} + multiset{count[a]}
    ensures Positive(count[c := count[a] + count[b]][a := 0][b := 0]) == rest + multiset{count[a] + count[b]}
  {
    hide Positive;
    var c1 := count[a := 0];
    var c2 := c1[b := 0];
    UpdatesCommute(count, a, b, c, count[a] + count[b]);
    PositiveDrop(count, a);
    PositiveDrop(c1, b);
    PositiveAdd(c2, c, count[a] + count[b]);
    rest := Positive(c2);
  }

  lemma UpdatesCommute(s: seq<int>, a: int, b: int, c: int, w: int)
    requires 0 <= a < |s| && 0 <= b < |s| && 0 <= c < |s| && a != b && b != c && a != c
    ensures s[c := w][a := 0][b := 0] == s[a := 0][b := 0][c := w]
  {
  }

  lemma MergeCounts(h: Huff, cnt: seq<int>, a: int, b: int) returns (rest: multiset<int>)
    requires Growing(h, cnt) && h.cur > 0 && 0 <= a < SLOTS && 0 <= b < SLOTS && a != b
    requires h.count[a] > 0 && h.count[b] > 0
    ensures Positive(h.count) == rest + multiset{h.count[b]} + multiset{h.count[a]}
    ensures Positive(Merge(h, a, b).count) == rest + multiset{h.count[a] + h.count[b]}
    ensures Waiting(h) == |rest| + 2 && Waiting(Merge(h, a, b)) == |rest| + 1
  {
    hide SlotOk, KidsOk, Positive;
    SlotFacts(h, cnt, a);
    SlotFacts(h, cnt, b);
    CurEmpty(h, cnt);
    rest := PositiveMerge(h.count, a, b, h.cur);
  }

  lemma SlotFacts(h: Huff, cnt: seq<int>, i: int)
    requires Growing(h, cnt) && 0 <= i < SLOTS && h.count[i] > 0
    ensures h.cur < i && Used(h, cnt, i)
  {
    assert SlotOk(h, cnt, i);
  }

  lemma CurEmpty(h: Huff, cnt: seq<int>)
    requires Growing(h, cnt)
    ensures h.count[h.cur] == 0
  {
    assert SlotOk(h, cnt, h.cur);
  }

  lemma SomeWaiting(count: seq<int>)
    requires |count| == SLOTS && Positive(count) != multiset{} && forall i :: 0 <= i < SLOTS ==> count[i] >= 0
    ensures exists i :: 0 <= i < SLOTS && count[i] > 0
  {
    var v :| v in Positive(count);
    PositiveFrom(count, v);
  }

  lemma Nonnegative(h: Huff, cnt: seq<int>)
    requires Growing(h, cnt)
    ensures forall i :: 0 <= i < SLOTS ==> h.count[i] >= 0
  {
    forall i | 0 <= i < SLOTS
      ensures h.count[i] >= 0
    {
      assert SlotOk(h, cnt, i);
    }
  }

  /** While two slots wait, the two picks of analyze are distinct slots with the two smallest counts. */
  lemma TwoSmallest(h: Huff, cnt: seq<int>)
    requires Growing(h, cnt) && Waiting(h) >= 2
    ensures var a := Best(h.count, -1, SLOTS); var b := Best(h.count, a, SLOTS);
      && 0 <= a < SLOTS && 0 <= b < SLOTS && a != b && 0 < h.count[a] <= h.count[b]
      && forall i :: 0 <= i < SLOTS && i != a && h.count[i] > 0 ==> h.count[b] <= h.count[i]
  {
    hide SlotOk, KidsOk;
    Nonnegative(h, cnt);
    SomeWaiting(h.count);
    BestIsSmallest(h.count, -1, SLOTS);
    var a := Best(h.count, -1, SLOTS);
    PositiveDrop(h.count, a);
    SomeWaiting(h.count[a := 0]);
    BestIsSmallest(h.count, a, SLOTS);
  }

  // ---------------------------------------------------------------- analyze

  /** The arrays when analyze has counted the symbols; what the other arrays hold is not initialised. */
  ghost predicate Counted(h: Huff, cnt: seq<int>) {
    && Sized(h) && |cnt| == MAXLEAF && h.cur == MAXNODE - 1
    && (forall i :: 0 <= i < MAXNODE ==> h.count[i] == 0)
    && (forall s :: 0 <= s < MAXLEAF ==> h.count[s + MAXNODE] == cnt[s] >= 0)
  }

  lemma CountedGrowing(h: Huff, cnt: seq<int>)
    requires Counted(h, cnt)
    ensures Growing(h, cnt)
  {
    forall i | 0 <= i < SLOTS
      ensures SlotOk(h, cnt, i)
    {
      if i >= MAXNODE {
        assert h.count[i - MAXNODE + MAXNODE] == cnt[i - MAXNODE];
      }
    }
  }

  lemma CountedWaiting(h: Huff, cnt: seq<int>)
    requires Counted(h, cnt)
    ensures Waiting(h) <= MAXLEAF
  {
    assert h.count == h.count[..MAXNODE] + h.count[MAXNODE..];
    ZerosPositive(h.count[..MAXNODE], h.count[MAXNODE..]);
  }

  lemma ZerosPositive(z: seq<int>, c: seq<int>)
    requires forall i :: 0 <= i < |z| ==> z[i] == 0
    ensures Positive(z + c) == Positive(c) && |Positive(c)| <= |c|
  {
    assert multiset(z + c) == multiset(z) + multiset(c);
    assert forall v :: v in multiset(z) ==> v in z;
    assert |multiset(c)| == |c|;
    assert multiset(c) == Positive(c) + (multiset(c) - Positive(c));
  }

  lemma MergeWaiting(h: Huff, cnt: seq<int>, a: int, b: int)
    requires Growing(h, cnt) && h.cur > 0 && 0 <= a < SLOTS && 0 <= b < SLOTS && a != b
    requires h.count[a] > 0 && h.count[b] > 0
    ensures Waiting(Merge(h, a, b)) == Waiting(h) - 1 && Merge(h, a, b).cur == h.cur - 1
  {
    var rest := MergeCounts(h, cnt, a, b);
  }

  /** The main loop of analyze: merge until one slot is left. */
  ghost function Build(h: Huff, cnt: seq<int>): (r: Huff)
    requires Growing(h, cnt) && h.cur >= Waiting(h) + 256
    ensures Growing(r, cnt) && r.cur >= Waiting(r) + 256 && Waiting(r) <= 1
    decreases Waiting(h)
  {
    if Waiting(h) <= 1 then h
    else
      TwoSmallest(h, cnt);
      var a := Best(h.count, -1, SLOTS);
      var b := Best(h.count, a, SLOTS);
      MergeGrows(h, cnt, a, b);
      MergeWaiting(h, cnt, a, b);
      Build(Merge(h, a, b), cnt)
  }

  /** analyze after counting. A lone symbol gets a node with equal children. */
  ghost function Analyze(h: Huff, cnt: seq<int>): (r: Huff)
    requires Counted(h, cnt) && Waiting(h) > 0
    ensures Sized(r)
  {
    CountedGrowing(h, cnt);
    CountedWaiting(h, cnt);
    if Waiting(h) == 1 then
      Nonnegative(h, cnt);
      SomeWaiting(h.count);
      BestIsSmallest(h.count, -1, SLOTS);
      var a := Best(h.count, -1, SLOTS);
      AddNode(h, a, a).(cur := h.cur - 1)
    else Build(h, cnt)
  }

  // ---------------------------------------------------------------- the finished tree

  function Root(h: Huff): int {
    h.cur + 1
  }

  /** What the left and right fields of node n may hold: a symbol, or a higher-numbered node. */
  ghost predicate EdgeOk(e: int, n: int) {
    -MAXLEAF <= e < MAXNODE && (e >= 0 ==> n < e)
  }

  /** A finished tree: from every node and every counted symbol the parent links lead down in number
      to the root, and each is a child of its parent. */
  ghost predicate Finished(h: Huff, cnt: seq<int>) {
    && Sized(h) && |cnt| == MAXLEAF && 257 < Root(h) < MAXNODE && h.parent[Root(h)] == MAXNODE
    && (forall n :: Root(h) < n < MAXNODE ==>
          Root(h) <= h.parent[n] < n && n in {h.left[h.parent[n]], h.right[h.parent[n]]})
    && (forall n :: Root(h) <= n < MAXNODE ==> EdgeOk(h.left[n], n) && EdgeOk(h.right[n], n))
    && (forall s :: 0 <= s < MAXLEAF && cnt[s] > 0 ==>
          Root(h) <= h.leaves[s] < MAXNODE && -1 - s in {h.left[h.leaves[s]], h.right[h.leaves[s]]})
  }

  lemma OneWaiting(h: Huff, i: int, j: int)
    requires Sized(h) && Waiting(h) == 1 && 0 <= i < SLOTS && 0 <= j < SLOTS && h.count[i] != 0 && h.count[j] != 0
    ensures i == j
  {
    if i != j {
      hide Positive;
      PositiveDrop(h.count, i);
      PositiveDrop(h.count[i := 0], j);
    }
  }

  /** When one slot is left and it is the node made last, the tree is finished. */
  lemma GrownFinished(h: Huff, cnt: seq<int>)
    requires Growing(h, cnt) && Waiting(h) == 1 && 257 <= h.cur < MAXNODE - 1 && h.count[Root(h)] > 0
    ensures Finished(h, cnt)
  {
    var r := Root(h);
    assert SlotOk(h, cnt, r);
    forall n | r < n < MAXNODE
      ensures r <= h.parent[n] < n && n in {h.left[h.parent[n]], h.right[h.parent[n]]}
    {
      assert SlotOk(h, cnt, n);
      if h.count[n] > 0 { OneWaiting(h, n, r); }
    }
    forall n | r <= n < MAXNODE
      ensures EdgeOk(h.left[n], n) && EdgeOk(h.right[n], n)
    {
      assert KidsOk(h, cnt, n);
    }
    forall s | 0 <= s < MAXLEAF && cnt[s] > 0
      ensures r <= h.leaves[s] < MAXNODE && -1 - s in {h.left[h.leaves[s]], h.right[h.leaves[s]]}
    {
      assert SlotOk(h, cnt, s + MAXNODE);
      if h.count[s + MAXNODE] > 0 { OneWaiting(h, s + MAXNODE, r); }
    }
  }

  lemma {:induction false} BuildFinished(h: Huff, cnt: seq<int>)
    requires Growing(h, cnt) && h.cur >= Waiting(h) + 256 && Waiting(h) > 0
    requires Waiting(h) > 1 || (h.cur < MAXNODE - 1 && h.count[Root(h)] > 0)
    ensures Finished(Build(h, cnt), cnt) && Waiting(Build(h, cnt)) == 1
    decreases Waiting(h)
  {
    hide SlotOk, KidsOk, Finished, Positive;
    if Waiting(h) <= 1 {
      GrownFinished(h, cnt);
    } else {
      TwoSmallest(h, cnt);
      var a := Best(h.count, -1, SLOTS);
      var b := Best(h.count, a, SLOTS);
      MergeGrows(h, cnt, a, b);
      MergeWaiting(h, cnt, a, b);
      MergeRoot(h, cnt, a, b);
      BuildFinished(Merge(h, a, b), cnt);
    }
  }

  lemma MergeRoot(h: Huff, cnt: seq<int>, a: int, b: int)
    requires Growing(h, cnt) && h.cur > 0 && 0 <= a < SLOTS && 0 <= b < SLOTS && h.count[a] > 0 && h.count[b] > 0
    ensures var g := Merge(h, a, b); Root(g) == h.cur && g.count[Root(g)] > 0
  {
    SlotFacts(h, cnt, a);
    SlotFacts(h, cnt, b);
  }

  lemma AloneFinished(h: Huff, cnt: seq<int>, a: int)
    requires Counted(h, cnt) && MAXNODE <= a < SLOTS
    requires forall s :: 0 <= s < MAXLEAF && s + MAXNODE != a ==> cnt[s] == 0
    ensures Finished(AddNode(h, a, a).(cur := h.cur - 1), cnt)
  {
  }

  /** Whatever symbols occur, analyze ends with a finished tree. */
  lemma AnalyzeFinished(h: Huff, cnt: seq<int>)
    requires Counted(h, cnt) && Waiting(h) > 0
    ensures Finished(Analyze(h, cnt), cnt)
  {
    CountedGrowing(h, cnt);
    CountedWaiting(h, cnt);
    if Waiting(h) == 1 {
      Nonnegative(h, cnt);
      SomeWaiting(h.count);
      BestIsSmallest(h.count, -1, SLOTS);
      var a := Best(h.count, -1, SLOTS);
      forall s | 0 <= s < MAXLEAF && s + MAXNODE != a
        ensures cnt[s] == 0
      {
        if h.count[s + MAXNODE] != 0 { OneWaiting(h, s + MAXNODE, a); }
      }
      AloneFinished(h, cnt, a);
    } else {
      BuildFinished(h, cnt);
    }
  }
}
