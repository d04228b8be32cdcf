/** Merging the two smallest counts first gives a tree of least cost, and the codes of the finished
    Squeeze tree spend exactly that cost (lib/libdsk/compsq.c, the loop of analyze). */
module SqOptimal {
  import opened Sums
  import opened SqTree
  import opened SqRle
  import opened SqCodes
  import opened SqFormat

  /** A full binary tree with a count at every leaf. */
  datatype Tree = Leaf(w: int) | Node(l: Tree, r: Tree)

  ghost function Leaves(t: Tree): multiset<int> {
    match t
    case Leaf(w) => multiset{w}
    case Node(l, r) => Leaves(l) + Leaves(r)
  }

  function Weight(t: Tree): int {
    match t
    case Leaf(w) => w
    case Node(l, r) => Weight(l) + Weight(r)
  }

  /** The sum of the weights of the internal nodes. */
  function Cost(t: Tree): int {
    match t
    case Leaf(_) => 0
    case Node(l, r) => Weight(t) + Cost(l) + Cost(r)
  }

  /** The sum over the leaves of count times depth, when the root is at depth d. */
  function DepthCost(t: Tree, d: nat): int {
    match t
    case Leaf(w) => d * w
    case Node(l, r) => DepthCost(l, d + 1) + DepthCost(r, d + 1)
  }

  lemma {:induction false} CostIsDepths(t: Tree, d: nat)
    ensures DepthCost(t, d) == Cost(t) + d * Weight(t)
  {
    match t
    case Leaf(_) =>
    case Node(l, r) =>
      CostIsDepths(l, d + 1);
      CostIsDepths(r, d + 1);
      assert (d + 1) * Weight(l) + (d + 1) * Weight(r) == d * Weight(t) + Weight(t);
  }

  function Height(t: Tree): nat {
    match t
    case Leaf(_) => 0
    case Node(l, r) => 1 + if Height(l) > Height(r) then Height(l) else Height(r)
  }

  // ---------------------------------------------------------------- the exchange argument

  /** A product, kept apart so that the arithmetic below stays linear. */
  function Times(k: int, x: int): int {
    k * x
  }

  lemma TimesNext(k: int, x: int)
    ensures Times(k + 1, x) == Times(k, x) + x
  {
  }

  lemma TimesMore(h: nat, k: nat, x: int)
    requires h <= k && 0 <= x
    ensures Times(h, x) <= Times(k, x)
  {
  }

  lemma Regroup(p: multiset<int>, q: multiset<int>, r: multiset<int>, s: multiset<int>, o: multiset<int>)
    requires p + q == r + s
    ensures (p + o) + q == (r + o) + s
  {
    forall x
      ensures ((p + o) + q)[x] == ((r + o) + s)[x]
    {
      assert (p + q)[x] == (r + s)[x];
    }
  }

  lemma Cancel(p: multiset<int>, q: multiset<int>, o: multiset<int>)
    requires p + o == q + o
    ensures p == q
  {
    forall x
      ensures p[x] == q[x]
    {
      assert (p + o)[x] == (q + o)[x];
    }
  }

  /** A node whose children are c and o, the first of them on the left if left. */
  function Join(left: bool, c: Tree, o: Tree): Tree {
    if left then Node(c, o) else Node(o, c)
  }

  lemma JoinEffect(left: bool, c: Tree, o: Tree)
    ensures var t := Join(left, c, o);
      && Leaves(t) == Leaves(c) + Leaves(o) && Weight(t) == Weight(c) + Weight(o)
      && Cost(t) == Weight(t) + Cost(c) + Cost(o)
      && Height(t) == 1 + if Height(c) > Height(o) then Height(c) else Height(o)
  {
    assert Leaves(c) + Leaves(o) == Leaves(o) + Leaves(c);
  }

  /** Two sibling leaves at the greatest depth, a and b, can be replaced by one leaf s. */
  lemma {:induction false} FoldDeepest(t: Tree, s: int) returns (u: Tree, a: int, b: int)
    requires t.Node?
    ensures Leaves(u) + multiset{a, b} == Leaves(t) + multiset{s}
    ensures Weight(u) + a + b == Weight(t) + s && Height(u) <= Height(t)
    ensures Cost(u) + Times(Height(t), a + b) == Cost(t) + Times(Height(t) - 1, s)
    decreases t
  {
    hide Times, Leaves, Weight, Cost;
    if Height(t) == 1 {
      u, a, b := FoldPair(t, s);
    } else {
      var left := Height(t.l) > Height(t.r);
      var c, o := if left then t.l else t.r, if left then t.r else t.l;
      var v;
      v, a, b := FoldDeepest(c, s);
      u := Join(left, v, o);
      JoinEffect(left, c, o);
      JoinEffect(left, v, o);
      Regroup(Leaves(v), multiset{a, b}, Leaves(c), multiset{s}, Leaves(o));
      TimesNext(Height(c), a + b);
      TimesNext(Height(c) - 1, s);
    }
  }

  lemma FoldPair(t: Tree, s: int) returns (u: Tree, a: int, b: int)
    requires t.Node? && Height(t) == 1
    ensures Leaves(u) + multiset{a, b} == Leaves(t) + multiset{s}
    ensures Weight(u) + a + b == Weight(t) + s && Height(u) <= Height(t)
    ensures Cost(u) + Times(Height(t), a + b) == Cost(t) + Times(Height(t) - 1, s)
  {
    assert Height(t.l) == 0 && Height(t.r) == 0;
    u, a, b := Leaf(s), t.l.w, t.r.w;
  }

  /** Raising a leaf from x to a raises the cost at most once for every level of the tree. */
  lemma {:induction false} Reweigh(t: Tree, x: int, a: int) returns (u: Tree)
    requires x < a && x in Leaves(t)
    ensures Leaves(u) + multiset{x} == Leaves(t) + multiset{a}
    ensures Height(u) == Height(t) && Weight(u) == Weight(t) + a - x
    ensures Cost(u) <= Cost(t) + Times(Height(t), a - x)
    decreases t
  {
    hide Times, Leaves, Weight, Cost;
    if t.Leaf? {
      u := Leaf(a);
      LeafEffect(t.w, a, x);
    } else {
      var left := x in Leaves(t.l);
      var c, o := if left then t.l else t.r, if left then t.r else t.l;
      InEither(t, x);
      var v := Reweigh(c, x, a);
      u := Join(left, v, o);
      JoinEffect(left, c, o);
      JoinEffect(left, v, o);
      Regroup(Leaves(v), multiset{x}, Leaves(c), multiset{a}, Leaves(o));
      TimesNext(Height(c), a - x);
      TimesMore(Height(c) + 1, Height(t), a - x);
    }
  }

  lemma LeafEffect(w: int, a: int, x: int)
    ensures Leaves(Leaf(w)) == multiset{w} && Leaves(Leaf(a)) == multiset{a} && Times(0, a - x) == 0
    ensures Weight(Leaf(w)) == w && Weight(Leaf(a)) == a && Cost(Leaf(w)) == 0 && Cost(Leaf(a)) == 0
  {
  }

  lemma InEither(t: Tree, x: int)
    requires t.Node? && x in Leaves(t)
    ensures x in Leaves(t.l) || x in Leaves(t.r)
  {
  }

  /** Reweigh, or nothing if there is nothing to raise. */
  lemma Raise(t: Tree, x: int, a: int) returns (u: Tree)
    requires x <= a && (x == a || x in Leaves(t))
    ensures Leaves(u) + multiset{x} == Leaves(t) + multiset{a}
    ensures Height(u) == Height(t) && Cost(u) <= Cost(t) + Times(Height(t), a - x)
  {
    if x == a {
      u := t;
    } else {
      u := Reweigh(t, x, a);
    }
  }

  /** The exchange step: if x and y are the two smallest leaves of a tree, some tree has x + y in their
      place and costs at least x + y less. */
  lemma Exchange(t: Tree, rest: multiset<int>, x: int, y: int) returns (v: Tree)
    requires Leaves(t) == rest + multiset{x, y} && 0 < x <= y && forall z :: z in rest ==> y <= z
    ensures Leaves(v) == rest + multiset{x + y} && Cost(v) + x + y <= Cost(t)
  {
    hide Times, Leaves, Cost, Height, Weight;
    TwoLeaves(t, rest, x, y);
    var u, a, b := FoldDeepest(t, x + y);
    if b == x {
      a, b := b, a;
    }
    PairFacts(Leaves(u), a, b, rest, x, y);
    var w := Raise(u, x, a);
    LastFacts(Leaves(u), Leaves(w), a, b, rest, x, y);
    v := Raise(w, y, b);
    Cancel(Leaves(v), rest + multiset{x + y}, multiset{y});
    ExchangeCost(Height(t), Height(u), a, b, x, y);
  }

  lemma TwoLeaves(t: Tree, rest: multiset<int>, x: int, y: int)
    requires Leaves(t) == rest + multiset{x, y}
    ensures t.Node?
  {
    assert |rest + multiset{x, y}| == |rest| + 2;
    assert t.Leaf? ==> |Leaves(t)| == 1;
  }

  lemma PairFacts(m: multiset<int>, a: int, b: int, rest: multiset<int>, x: int, y: int)
    requires m + multiset{a, b} == rest + multiset{x, y} + multiset{x + y}
    requires 0 < x <= y && (forall z :: z in rest ==> y <= z) && (b == x ==> a == x)
    ensures x <= a && y <= b && (x == a || x in m)
  {
    var all := rest + multiset{x, y} + multiset{x + y};
    assert all == m + multiset{a, b};
    assert a in all && b in all && x in all;
    assert x < y ==> all[x] == 1;
    assert a == x && b == x ==> all[x] >= 2;
  }

  lemma Unpair(m: multiset<int>, a: int, b: int)
    ensures m + multiset{a, b} == m + multiset{b} + multiset{a}
  {
  }

  lemma Shuffle(m: multiset<int>, x: int, y: int, z: int)
    ensures m + multiset{x, y} + multiset{z} == m + multiset{z} + multiset{y} + multiset{x}
  {
  }

  lemma InSum(n: multiset<int>, b: int, m: multiset<int>, y: int)
    requires n + multiset{b} == m + multiset{y}
    ensures y == b || y in n
  {
    assert y in n + multiset{b};
  }

  lemma LastFacts(m: multiset<int>, n: multiset<int>, a: int, b: int, rest: multiset<int>, x: int, y: int)
    requires m + multiset{a, b} == rest + multiset{x, y} + multiset{x + y}
    requires n + multiset{x} == m + multiset{a}
    ensures n + multiset{b} == rest + multiset{x + y} + multiset{y}
    ensures y == b || y in n
  {
    Regroup(n, multiset{x}, m, multiset{a}, multiset{b});
    Unpair(m, a, b);
    Shuffle(rest, x, y, x + y);
    Cancel(n + multiset{b}, rest + multiset{x + y} + multiset{y}, multiset{x});
    InSum(n, b, rest + multiset{x + y}, y);
  }

  lemma ExchangeCost(h: nat, k: nat, a: int, b: int, x: int, y: int)
    requires k <= h && x <= a && y <= b
    ensures Times(k, a - x) + Times(k, b - y) + x + y + Times(h - 1, x + y) <= Times(h, a + b)
    ensures Times(h, a + b) == Times(h, b + a)
  {
    TimesMore(k, h, a - x);
    TimesMore(k, h, b - y);
    assert h * (a - x) + h * (b - y) == h * (a + b) - h * (x + y);
    assert (h - 1) * (x + y) == h * (x + y) - (x + y);
  }

  // ---------------------------------------------------------------- what the loop of analyze spends

  /** The sum of the counts analyze gives to the nodes it makes, from h on. */
  ghost function BuildCost(h: Huff, cnt: seq<int>): int
    requires Growing(h, cnt) && h.cur >= Waiting(h) + 256
    decreases Waiting(h)
  {
    if Waiting(h) <= 1 then 0
    else
      TwoSmallest(h, cnt);
      var a := Best(h.count, -1, SLOTS);
      var b := Best(h.count, a, SLOTS);
      MergeGrows(h, cnt, a, b);
      MergeWaiting(h, cnt, a, b);
      h.count[a] + h.count[b] + BuildCost(Merge(h, a, b), cnt)
  }

  /** The counts left after the two smallest are taken are no smaller than those. */
  lemma RestIsLarger(count: seq<int>, a: int, b: int, rest: multiset<int>)
    requires |count| == SLOTS && 0 <= a < SLOTS && 0 <= b < SLOTS && a != b && 0 < count[a] <= count[b]
    requires forall i :: 0 <= i < SLOTS ==> count[i] >= 0
    requires forall i :: 0 <= i < SLOTS && i != a && count[i] > 0 ==> count[b] <= count[i]
    requires Positive(count) == rest + multiset{count[b]} + multiset{count[a]}
    ensures forall z :: z in rest ==> count[b] <= z
  {
    hide Positive;
    PositiveDrop(count, a);
    Cancel(Positive(count[a := 0]), rest + multiset{count[b]}, multiset{count[a]});
    forall z | z in rest
      ensures count[b] <= z
    {
      assert z in Positive(count[a := 0]);
      PositiveFrom(count[a := 0], z);
    }
  }

  /** No full binary tree over the waiting counts costs less than the merges of analyze. */
  lemma {:induction false} GreedyIsLeast(h: Huff, cnt: seq<int>, t: Tree)
    requires Growing(h, cnt) && h.cur >= Waiting(h) + 256 && Leaves(t) == Positive(h.count)
    ensures BuildCost(h, cnt) <= Cost(t)
    decreases Waiting(h)
  {
    hide SlotOk, KidsOk, Positive, Merge, Leaves, Cost;
    if Waiting(h) <= 1 {
      LoneLeaf(t);
    } else {
      TwoSmallest(h, cnt);
      var a := Best(h.count, -1, SLOTS);
      var b := Best(h.count, a, SLOTS);
      MergeGrows(h, cnt, a, b);
      MergeWaiting(h, cnt, a, b);
      var rest := MergeCounts(h, cnt, a, b);
      Nonnegative(h, cnt);
      RestIsLarger(h.count, a, b, rest);
      Unpair(rest, h.count[a], h.count[b]);
      var v := Exchange(t, rest, h.count[a], h.count[b]);
      GreedyIsLeast(Merge(h, a, b), cnt, v);
    }
  }

  lemma {:induction false} LeafCount(t: Tree)
    ensures |Leaves(t)| >= 1 && (t.Node? ==> |Leaves(t)| >= 2)
  {
    if t.Node? {
      LeafCount(t.l);
      LeafCount(t.r);
    }
  }

  lemma LoneLeaf(t: Tree)
    requires |Leaves(t)| <= 1
    ensures Cost(t) == 0
  {
    LeafCount(t);
  }

  /** Splitting a leaf w into two leaves with the same total costs w. */
  lemma {:induction false} Split(t: Tree, x: int, y: int) returns (u: Tree)
    requires x + y in Leaves(t)
    ensures Leaves(u) + multiset{x + y} == Leaves(t) + multiset{x, y}
    ensures Weight(u) == Weight(t) && Cost(u) == Cost(t) + x + y
    decreases t
  {
    hide Leaves, Weight, Cost;
    if t.Leaf? {
      u := Join(true, Leaf(x), Leaf(y));
      JoinEffect(true, Leaf(x), Leaf(y));
      LeafEffect(t.w, x, y);
      LeafEffect(t.w, y, x);
      assert multiset{x} + multiset{y} == multiset{x, y};
    } else {
      var left := x + y in Leaves(t.l);
      var c, o := if left then t.l else t.r, if left then t.r else t.l;
      InEither(t, x + y);
      var v := Split(c, x, y);
      u := Join(left, v, o);
      JoinEffect(left, c, o);
      JoinEffect(left, v, o);
      Regroup(Leaves(v), multiset{x + y}, Leaves(c), multiset{x, y}, Leaves(o));
    }
  }

  /** Some full binary tree over the waiting counts costs exactly what the merges of analyze cost. */
  lemma {:induction false} GreedyIsAttained(h: Huff, cnt: seq<int>) returns (t: Tree)
    requires Growing(h, cnt) && h.cur >= Waiting(h) + 256 && Waiting(h) > 0
    ensures Leaves(t) == Positive(h.count) && Cost(t) == BuildCost(h, cnt)
    decreases Waiting(h)
  {
    hide SlotOk, KidsOk, Positive, Merge, Leaves, Cost;
    if Waiting(h) <= 1 {
      var w := OnlyOne(Positive(h.count));
      t := Leaf(w);
      LeafEffect(w, w, w);
    } else {
      TwoSmallest(h, cnt);
      var a := Best(h.count, -1, SLOTS);
      var b := Best(h.count, a, SLOTS);
      MergeGrows(h, cnt, a, b);
      MergeWaiting(h, cnt, a, b);
      var rest := MergeCounts(h, cnt, a, b);
      var u := GreedyIsAttained(Merge(h, a, b), cnt);
      t := Split(u, h.count[a], h.count[b]);
      SplitCounts(Leaves(t), rest, h.count[a], h.count[b]);
    }
  }

  lemma OnlyOne(m: multiset<int>) returns (w: int)
    requires |m| == 1
    ensures m == multiset{w}
  {
    assert (forall v :: v !in m) ==> m == multiset{};
    w :| w in m;
    var rest := m - multiset{w};
    assert m == rest + multiset{w};
    assert |rest| == 0;
  }

  lemma SplitCounts(m: multiset<int>, rest: multiset<int>, x: int, y: int)
    requires m + multiset{x + y} == rest + multiset{x + y} + multiset{x, y}
    ensures m == rest + multiset{y} + multiset{x}
  {
    assert rest + multiset{x + y} + multiset{x, y} == rest + multiset{y} + multiset{x} + multiset{x + y};
    Cancel(m, rest + multiset{y} + multiset{x}, multiset{x + y});
  }

  // ---------------------------------------------------------------- what the codes spend

  /** The waiting slot that slot i hangs below, and how far. */
  ghost function Top(h: Huff, cnt: seq<int>, i: int): (t: int)
    requires Growing(h, cnt) && 0 <= i < SLOTS && Used(h, cnt, i)
    ensures 0 <= t < SLOTS && h.count[t] > 0
    decreases i
  {
    assert SlotOk(h, cnt, i);
    if h.count[i] > 0 then i else Top(h, cnt, Up(h, i))
  }

  ghost function Depth(h: Huff, cnt: seq<int>, i: int): nat
    requires Growing(h, cnt) && 0 <= i < SLOTS && Used(h, cnt, i)
    decreases i
  {
    assert SlotOk(h, cnt, i);
    if h.count[i] > 0 then 0 else 1 + Depth(h, cnt, Up(h, i))
  }

  /** Joining a and b puts everything below them one level lower, below the new node. */
  lemma {:induction false} MergeTops(h: Huff, cnt: seq<int>, a: int, b: int, i: int)
    requires Growing(h, cnt) && h.cur > 0 && 0 <= a < SLOTS && 0 <= b < SLOTS && a != b
    requires h.count[a] > 0 && h.count[b] > 0 && Growing(Merge(h, a, b), cnt)
    requires 0 <= i < SLOTS && Used(h, cnt, i)
    ensures var g := Merge(h, a, b); var below := Top(h, cnt, i) in {a, b};
      && Used(g, cnt, i)
      && Top(g, cnt, i) == (if below then h.cur else Top(h, cnt, i))
      && Depth(g, cnt, i) == Depth(h, cnt, i) + (if below then 1 else 0)
    decreases i
  {
    SlotFacts(h, cnt, a);
    SlotFacts(h, cnt, b);
    SlotUp(h, cnt, i);
    hide SlotOk, KidsOk, Growing, Merge, Up;
    MergeFields(h, a, b, i);
    MergeFields(h, a, b, h.cur);
    if h.count[i] == 0 {
      MergeTops(h, cnt, a, b, Up(h, i));
    }
  }

  lemma SlotUp(h: Huff, cnt: seq<int>, i: int)
    requires Growing(h, cnt) && 0 <= i < SLOTS && Used(h, cnt, i)
    ensures Sized(h) && |cnt| == MAXLEAF && h.count[i] >= 0 && i > h.cur
    ensures h.count[i] == 0 ==> 0 <= Up(h, i) < i && Used(h, cnt, Up(h, i))
  {
    assert SlotOk(h, cnt, i);
  }

  /** What symbol s adds to the weight below slot w. */
  ghost function Share(h: Huff, cnt: seq<int>, w: int, s: int): int
    requires Growing(h, cnt) && 0 <= s < MAXLEAF
  {
    if cnt[s] > 0 && Top(h, cnt, s + MAXNODE) == w then cnt[s] else 0
  }

  ghost function Shares(h: Huff, cnt: seq<int>, w: int): (r: seq<int>)
    requires Growing(h, cnt)
    ensures |r| == MAXLEAF
  {
    seq(MAXLEAF, s requires 0 <= s < MAXLEAF => Share(h, cnt, w, s))
  }

  /** What symbol s spends on code bits below the waiting slots. */
  ghost function Spend(h: Huff, cnt: seq<int>, s: int): int
    requires Growing(h, cnt) && 0 <= s < MAXLEAF
  {
    if cnt[s] > 0 then Times(Depth(h, cnt, s + MAXNODE), cnt[s]) else 0
  }

  ghost function Spends(h: Huff, cnt: seq<int>): (r: seq<int>)
    requires Growing(h, cnt)
    ensures |r| == MAXLEAF
  {
    seq(MAXLEAF, s requires 0 <= s < MAXLEAF => Spend(h, cnt, s))
  }

  /** The count of every waiting slot is the sum of the counts of the symbols below it. */
  ghost predicate Weighed(h: Huff, cnt: seq<int>)
    requires Growing(h, cnt)
  {
    forall w :: 0 <= w < SLOTS && h.count[w] > 0 ==> Sum(Shares(h, cnt, w)) == h.count[w]
  }

  lemma MergeShare(h: Huff, cnt: seq<int>, a: int, b: int, w: int, s: int)
    requires Growing(h, cnt) && h.cur > 0 && 0 <= a < SLOTS && 0 <= b < SLOTS && a != b
    requires h.count[a] > 0 && h.count[b] > 0 && Growing(Merge(h, a, b), cnt)
    requires 0 <= s < MAXLEAF && w != a && w != b
    ensures Share(Merge(h, a, b), cnt, w, s) ==
      if w == h.cur then Share(h, cnt, a, s) + Share(h, cnt, b, s) else Share(h, cnt, w, s)
    ensures Spend(Merge(h, a, b), cnt, s) == Spend(h, cnt, s) + (Share(h, cnt, a, s) + Share(h, cnt, b, s))
  {
    CurEmpty(h, cnt);
    hide Growing, Merge, Times;
    if cnt[s] > 0 {
      MergeTops(h, cnt, a, b, s + MAXNODE);
      TimesNext(Depth(h, cnt, s + MAXNODE), cnt[s]);
    }
  }

  lemma MergeSums(h: Huff, cnt: seq<int>, a: int, b: int)
    requires Growing(h, cnt) && h.cur > 0 && 0 <= a < SLOTS && 0 <= b < SLOTS && a != b
    requires h.count[a] > 0 && h.count[b] > 0 && Growing(Merge(h, a, b), cnt)
    ensures Sum(Shares(Merge(h, a, b), cnt, h.cur)) == Sum(Shares(h, cnt, a)) + Sum(Shares(h, cnt, b))
    ensures Sum(Spends(Merge(h, a, b), cnt)) == Sum(Spends(h, cnt)) + Sum(Shares(Merge(h, a, b), cnt, h.cur))
  {
    SlotFacts(h, cnt, a);
    SlotFacts(h, cnt, b);
    hide Growing, Merge, Share, Spend;
    forall s | 0 <= s < MAXLEAF
      ensures Share(Merge(h, a, b), cnt, h.cur, s) == Share(h, cnt, a, s) + Share(h, cnt, b, s)
      ensures Spend(Merge(h, a, b), cnt, s) == Spend(h, cnt, s) + Share(Merge(h, a, b), cnt, h.cur, s)
    {
      MergeShare(h, cnt, a, b, h.cur, s);
    }
    SumAdd(Shares(h, cnt, a), Shares(h, cnt, b), Shares(Merge(h, a, b), cnt, h.cur));
    SumAdd(Spends(h, cnt), Shares(Merge(h, a, b), cnt, h.cur), Spends(Merge(h, a, b), cnt));
  }

  lemma MergeOthers(h: Huff, cnt: seq<int>, a: int, b: int, w: int)
    requires Growing(h, cnt) && h.cur > 0 && 0 <= a < SLOTS && 0 <= b < SLOTS && a != b
    requires h.count[a] > 0 && h.count[b] > 0 && Growing(Merge(h, a, b), cnt)
    requires w != a && w != b && w != h.cur
    ensures Shares(Merge(h, a, b), cnt, w) == Shares(h, cnt, w)
  {
    SlotFacts(h, cnt, a);
    SlotFacts(h, cnt, b);
    hide Growing, Merge, Share;
    forall s | 0 <= s < MAXLEAF
      ensures Share(Merge(h, a, b), cnt, w, s) == Share(h, cnt, w, s)
    {
      MergeShare(h, cnt, a, b, w, s);
    }
  }

  /** Every merge spends its weight in bits, and keeps the counts weighed. */
  lemma MergeWeighed(h: Huff, cnt: seq<int>, a: int, b: int)
    requires Growing(h, cnt) && h.cur > 0 && 0 <= a < SLOTS && 0 <= b < SLOTS && a != b
    requires h.count[a] > 0 && h.count[b] > 0 && Growing(Merge(h, a, b), cnt) && Weighed(h, cnt)
    ensures Weighed(Merge(h, a, b), cnt)
    ensures Sum(Spends(Merge(h, a, b), cnt)) == Sum(Spends(h, cnt)) + h.count[a] + h.count[b]
  {
    SlotFacts(h, cnt, a);
    SlotFacts(h, cnt, b);
    MergeSums(h, cnt, a, b);
    hide Growing, Merge, Shares, Spends;
    forall w | 0 <= w < SLOTS && Merge(h, a, b).count[w] > 0
      ensures Sum(Shares(Merge(h, a, b), cnt, w)) == Merge(h, a, b).count[w]
    {
      MergeFields(h, a, b, w);
      if w != h.cur {
        MergeOthers(h, cnt, a, b, w);
      }
    }
  }

  /** Over the whole loop, the bits spent are the counts given to new nodes. */
  lemma {:induction false} BuildSpends(h: Huff, cnt: seq<int>)
    requires Growing(h, cnt) && h.cur >= Waiting(h) + 256 && Weighed(h, cnt)
    ensures Growing(Build(h, cnt), cnt) && Sum(Spends(Build(h, cnt), cnt)) == Sum(Spends(h, cnt)) + BuildCost(h, cnt)
    decreases Waiting(h)
  {
    hide SlotOk, KidsOk, Positive, Merge, Weighed, Spends;
    if Waiting(h) > 1 {
      TwoSmallest(h, cnt);
      var a := Best(h.count, -1, SLOTS);
      var b := Best(h.count, a, SLOTS);
      MergeGrows(h, cnt, a, b);
      MergeWaiting(h, cnt, a, b);
      MergeWeighed(h, cnt, a, b);
      BuildSpends(Merge(h, a, b), cnt);
    }
  }

  // ---------------------------------------------------------------- the length of the output

  lemma SymbolTop(h: Huff, cnt: seq<int>, s: int)
    requires Counted(h, cnt) && Growing(h, cnt) && 0 <= s < MAXLEAF && cnt[s] > 0
    ensures Top(h, cnt, s + MAXNODE) == s + MAXNODE && Depth(h, cnt, s + MAXNODE) == 0
  {
    assert h.count[s + MAXNODE] == cnt[s];
  }

  /** When analyze starts merging, every waiting slot is a symbol and no bits are spent. */
  lemma CountedWeighed(h: Huff, cnt: seq<int>)
    requires Counted(h, cnt) && Growing(h, cnt)
    ensures Weighed(h, cnt) && Sum(Spends(h, cnt)) == 0
  {
    hide Growing, SlotOk, KidsOk;
    forall s | 0 <= s < MAXLEAF
      ensures Spend(h, cnt, s) == 0
    {
      if cnt[s] > 0 { SymbolTop(h, cnt, s); }
    }
    SumZero(Spends(h, cnt));
    forall w | 0 <= w < SLOTS && h.count[w] > 0
      ensures Sum(Shares(h, cnt, w)) == h.count[w]
    {
      OwnShare(h, cnt, w);
    }
  }

  lemma OwnShare(h: Huff, cnt: seq<int>, w: int)
    requires Counted(h, cnt) && Growing(h, cnt) && 0 <= w < SLOTS && h.count[w] > 0
    ensures Sum(Shares(h, cnt, w)) == h.count[w]
  {
    hide Growing, SlotOk, KidsOk, Share;
    var r := Shares(h, cnt, w);
    var k := w - MAXNODE;
    assert h.count[k + MAXNODE] == cnt[k];
    forall s | 0 <= s < MAXLEAF
      ensures r[s] == if s == k then cnt[k] else 0
    {
      ShareAt(h, cnt, w, s);
    }
    SumZero(r[k := 0]);
    SumChange(r, k, 0);
  }

  lemma ShareAt(h: Huff, cnt: seq<int>, w: int, s: int)
    requires Counted(h, cnt) && Growing(h, cnt) && 0 <= s < MAXLEAF
    ensures Share(h, cnt, w, s) == if s + MAXNODE == w then cnt[s] else 0
  {
    assert h.count[s + MAXNODE] == cnt[s] >= 0;
    if cnt[s] > 0 { SymbolTop(h, cnt, s); }
  }

  /** In the finished tree the code of a slot has one bit for every level it lies below the root. */
  lemma {:induction false} ChainDepth(h: Huff, cnt: seq<int>, i: int)
    requires Growing(h, cnt) && Finished(h, cnt) && Waiting(h) == 1 && h.count[Root(h)] > 0
    requires Hangs(h, cnt, i)
    ensures 0 <= i < SLOTS && Used(h, cnt, i) && |Chain(h, cnt, i)| == Depth(h, cnt, i)
    decreases i
  {
    HangFacts(h, cnt, i);
    hide Finished, SlotOk, KidsOk, EdgeOk;
    HangUsed(h, cnt, i);
    if Up(h, i) != Root(h) {
      ChainDepth(h, cnt, Up(h, i));
    }
  }

  lemma HangUsed(h: Huff, cnt: seq<int>, i: int)
    requires Growing(h, cnt) && Finished(h, cnt) && Waiting(h) == 1 && h.count[Root(h)] > 0
    requires Hangs(h, cnt, i)
    ensures 0 <= i < SLOTS && Used(h, cnt, i) && h.count[i] == 0
  {
    hide KidsOk, EdgeOk;
    assert SlotOk(h, cnt, i);
    if h.count[i] > 0 { OneWaiting(h, i, Root(h)); }
  }

  /** Bits per symbol. */
  ghost function Lengths(h: Huff, cnt: seq<int>, times: seq<int>): (r: seq<int>)
    requires Finished(h, cnt) && |times| == MAXLEAF
    ensures |r| == MAXLEAF
  {
    seq(MAXLEAF, s requires 0 <= s < MAXLEAF =>
      if cnt[s] > 0 then Times(|Code(h, cnt, s)|, times[s]) else 0)
  }

  /** The length of the bit string is the sum over the symbols of occurrences times code length. */
  lemma {:induction false} CodesLength(h: Huff, cnt: seq<int>, syms: seq<int>)
    requires Finished(h, cnt) && AllCounted(cnt, syms)
    ensures |Codes(h, cnt, syms)| == Sum(Lengths(h, cnt, Tally(syms)))
    decreases |syms|
  {
    hide Finished, Code;
    CntSize(h, cnt);
    if syms == [] {
      assert forall s :: 0 <= s < MAXLEAF ==> Lengths(h, cnt, Tally(syms))[s] == 0;
      SumZero(Lengths(h, cnt, Tally(syms)));
    } else {
      var init, s := syms[..|syms| - 1], syms[|syms| - 1];
      assert syms == init + [s];
      CodesLength(h, cnt, init);
      CodesSplit(h, cnt, init, [s]);
      assert Codes(h, cnt, [s]) == Code(h, cnt, s) + Codes(h, cnt, []);
      LengthsStep(h, cnt, Tally(init), s);
    }
  }

  lemma LengthsStep(h: Huff, cnt: seq<int>, times: seq<int>, s: int)
    requires Finished(h, cnt) && |times| == MAXLEAF && 0 <= s < MAXLEAF && cnt[s] > 0
    ensures Sum(Lengths(h, cnt, times[s := times[s] + 1])) == Sum(Lengths(h, cnt, times)) + |Code(h, cnt, s)|
  {
    hide Finished, Code;
    CntSize(h, cnt);
    var l := Lengths(h, cnt, times);
    var v := l[s] + |Code(h, cnt, s)|;
    assert Lengths(h, cnt, times[s := times[s] + 1]) == l[s := v];
    SumChange(l, s, v);
  }

  /** The codes spend exactly what the merges of analyze cost. */
  lemma CodesCost(h0: Huff, syms: seq<int>)
    requires forall i :: 0 <= i < |syms| ==> 0 <= syms[i] < MAXLEAF
    requires Counted(h0, Tally(syms)) && Growing(h0, Tally(syms)) && Waiting(h0) >= 2 && h0.cur >= Waiting(h0) + 256
    ensures var cnt := Tally(syms); var h := Analyze(h0, cnt);
      && Finished(h, cnt) && AllCounted(cnt, syms) && |Codes(h, cnt, syms)| == BuildCost(h0, cnt)
  {
    var cnt := Tally(syms);
    hide Finished, Growing, Counted, Positive, Tally, Codes;
    TallyCounts(syms);
    AnalyzeFinished(h0, cnt);
    BuildFinished(h0, cnt);
    BuildRoot(h0, cnt);
    var h := Build(h0, cnt);
    AnalyzeIsBuild(h0, cnt);
    CountedWeighed(h0, cnt);
    BuildSpends(h0, cnt);
    CodesLength(h, cnt, syms);
    LengthsAreSpends(h, cnt);
  }

  lemma AnalyzeIsBuild(h0: Huff, cnt: seq<int>)
    requires Counted(h0, cnt) && Growing(h0, cnt) && Waiting(h0) >= 2 && h0.cur >= Waiting(h0) + 256
    ensures Analyze(h0, cnt) == Build(h0, cnt)
  {
  }

  lemma {:induction false} BuildRoot(h: Huff, cnt: seq<int>)
    requires Growing(h, cnt) && h.cur >= Waiting(h) + 256 && Waiting(h) > 0
    requires Waiting(h) > 1 || (h.cur < MAXNODE - 1 && h.count[Root(h)] > 0)
    ensures var r := Build(h, cnt); Sized(r) && r.cur < MAXNODE - 1 && r.count[Root(r)] > 0
    decreases Waiting(h)
  {
    hide SlotOk, KidsOk, Positive;
    if Waiting(h) > 1 {
      TwoSmallest(h, cnt);
      var a := Best(h.count, -1, SLOTS);
      var b := Best(h.count, a, SLOTS);
      MergeGrows(h, cnt, a, b);
      MergeWaiting(h, cnt, a, b);
      MergeRoot(h, cnt, a, b);
      BuildRoot(Merge(h, a, b), cnt);
    }
  }

  lemma LengthsAreSpends(h: Huff, cnt: seq<int>)
    requires Growing(h, cnt) && Finished(h, cnt) && Waiting(h) == 1 && h.count[Root(h)] > 0
    ensures Lengths(h, cnt, cnt) == Spends(h, cnt)
  {
    hide Growing, Finished, Positive, Chain, Depth;
    CntSize(h, cnt);
    forall s | 0 <= s < MAXLEAF
      ensures Lengths(h, cnt, cnt)[s] == Spends(h, cnt)[s]
    {
      if cnt[s] > 0 {
        SymbolHangs(h, cnt, s);
        ChainDepth(h, cnt, s + MAXNODE);
      }
    }
  }

  lemma SymbolHangs(h: Huff, cnt: seq<int>, s: int)
    requires Finished(h, cnt) && 0 <= s < MAXLEAF && cnt[s] > 0
    ensures Hangs(h, cnt, s + MAXNODE)
  {
  }

  /** The optimality of the Squeeze codes: when at least two symbols occur, the bit string is as short
      as any full binary tree over the symbol counts could make it, and some such tree attains it. */
  lemma CodesAreLeast(h0: Huff, syms: seq<int>)
    requires forall i :: 0 <= i < |syms| ==> 0 <= syms[i] < MAXLEAF
    requires Counted(h0, Tally(syms)) && Waiting(h0) >= 2
    ensures var cnt := Tally(syms); var h := Analyze(h0, cnt);
      && Finished(h, cnt) && AllCounted(cnt, syms)
      && (forall t: Tree :: Leaves(t) == Positive(h0.count) ==> |Codes(h, cnt, syms)| <= DepthCost(t, 0))
      && (exists t: Tree :: Leaves(t) == Positive(h0.count) && |Codes(h, cnt, syms)| == DepthCost(t, 0))
  {
    var cnt := Tally(syms);
    CountedGrowing(h0, cnt);
    CountedWaiting(h0, cnt);
    hide Growing, Tally, Codes, Positive, BuildCost, Leaves, Cost, DepthCost, Weight;
    CodesCost(h0, syms);
    forall t: Tree | Leaves(t) == Positive(h0.count)
      ensures |Codes(Analyze(h0, cnt), cnt, syms)| <= DepthCost(t, 0)
    {
      GreedyIsLeast(h0, cnt, t);
      CostIsDepths(t, 0);
    }
    var t := GreedyIsAttained(h0, cnt);
    CostIsDepths(t, 0);
  }
}
