/** Building the LZHUF tree at the start (StartHuff), rebuilding it when the root weight reaches
    MAX_FREQ (reconst), and the whole of update (lib/libdsk/comptlzh.c). */
module TlzhReconst {
  import opened Sums
  import opened TlzhTree

  // ---------------------------------------------------------------- the root weighs all leaves

  /** The weights of the symbols, in symbol order. */
  ghost function Weights(t: Tree): (w: seq<int>)
    requires Sized(t) && Linked(t)
    ensures |w| == NCHAR && forall s :: 0 <= s < NCHAR ==> w[s] == Weight(t, s)
  {
    seq(NCHAR, s requires 0 <= s < NCHAR => Weight(t, s))
  }

  /** The weights of the leaf slots, in slot order, with 0 at the internal slots. */
  ghost function LeafFreqs(t: Tree): (w: seq<int>)
    requires Sized(t)
    ensures |w| == T && forall i :: 0 <= i < T ==> w[i] == if t.son[i] >= T then t.freq[i] else 0
  {
    seq(T, i requires 0 <= i < T => if t.son[i] >= T then t.freq[i] else 0)
  }

  ghost function LeafMarks(t: Tree): (w: seq<int>)
    requires Sized(t)
    ensures |w| == T && forall i :: 0 <= i < T ==> w[i] == if t.son[i] >= T then 1 else 0
  {
    seq(T, i requires 0 <= i < T => if t.son[i] >= T then 1 else 0)
  }

  /** Each symbol has one leaf slot, so a sum over leaf slots is a sum over symbols. */
  lemma LeafSum(t: Tree, h: seq<int>, g: seq<int>)
    requires Sized(t) && Linked(t) && |h| == T && |g| == NCHAR
    requires forall i :: 0 <= i < T ==> h[i] == if t.son[i] >= T then g[t.son[i] - T] else 0
    ensures Sum(h) == Sum(g)
  {
    var key := seq(T, i requires 0 <= i < T => t.son[i] - T);
    var pos := t.prnt[T..];
    assert forall k :: 0 <= k < NCHAR ==> pos[k] == t.prnt[k + T];
    assert forall i :: 0 <= i < T && t.son[i] >= T ==> t.prnt[t.son[i]] == i;
    SumByKey(h, key, pos, g);
  }

  lemma LeafCount(t: Tree)
    requires Sized(t) && Linked(t)
    ensures Sum(LeafMarks(t)) == NCHAR
  {
    var ones := seq(NCHAR, s => 1);
    LeafSum(t, LeafMarks(t), ones);
    SumOnes(ones);
  }

  /** The weights of the internal slots, in slot order, with 0 at the leaf slots. */
  ghost function InnerFreqs(t: Tree): (w: seq<int>)
    requires Sized(t)
    ensures |w| == T && forall i :: 0 <= i < T ==> w[i] == if t.son[i] < T then t.freq[i] else 0
  {
    seq(T, i requires 0 <= i < T => if t.son[i] < T then t.freq[i] else 0)
  }

  /** The sum of each pair of siblings. */
  ghost function PairFreqs(t: Tree): (w: seq<int>)
    requires Sized(t)
    ensures |w| == NCHAR - 1
    ensures forall m :: 0 <= m < NCHAR - 1 ==> w[m] == t.freq[2 * m] + t.freq[2 * m + 1]
  {
    seq(NCHAR - 1, m requires 0 <= m < NCHAR - 1 => t.freq[2 * m] + t.freq[2 * m + 1])
  }

  /** Each pair of siblings belongs to one internal slot, which weighs what they weigh. */
  lemma InnerSum(t: Tree)
    requires Sized(t) && Linked(t) && Balanced(t, -1)
    ensures Sum(InnerFreqs(t)) == Sum(PairFreqs(t))
  {
    var key := seq(T, i requires 0 <= i < T => if t.son[i] < T then t.son[i] / 2 else -1);
    var pos := seq(NCHAR - 1, m requires 0 <= m < NCHAR - 1 => t.prnt[2 * m]);
    forall m | 0 <= m < NCHAR - 1
      ensures 0 <= pos[m] < T && key[pos[m]] == m
    {
      assert t.son[t.prnt[2 * m]] == 2 * m;
    }
    forall i | 0 <= i < T
      ensures if 0 <= key[i] < NCHAR - 1 then pos[key[i]] == i && InnerFreqs(t)[i] == PairFreqs(t)[key[i]]
              else InnerFreqs(t)[i] == 0
    {
      if t.son[i] < T {
        assert t.son[i] == 2 * key[i] && t.prnt[t.son[i]] == i;
      }
    }
    SumByKey(InnerFreqs(t), key, pos, PairFreqs(t));
  }

  /** Counting every slot but the root once as a child shows what the leaf slots weigh together. */
  lemma LeafFreqSum(t: Tree)
    requires Sized(t) && Linked(t) && Balanced(t, -1)
    ensures Sum(LeafFreqs(t)) == t.freq[R]
  {
    InnerSum(t);
    SumPairs(t.freq[..R], PairFreqs(t));
    assert t.freq[..T][..R] == t.freq[..R];
    SumAdd(LeafFreqs(t), InnerFreqs(t), t.freq[..T]);
  }

  /** The weight of the root is the sum of the weights of all symbols. */
  lemma RootIsSum(t: Tree)
    requires Sized(t) && Linked(t) && Balanced(t, -1)
    ensures t.freq[R] == Sum(Weights(t))
  {
    LeafFreqSum(t);
    assert forall i :: 0 <= i < T && t.son[i] >= T ==> t.prnt[t.son[i]] == i;
    LeafSum(t, LeafFreqs(t), Weights(t));
  }

  // ---------------------------------------------------------------- halving the leaves

  /** The halved weights of the leaf slots below n, in slot order. */
  function HalfFreqs(t: Tree, n: nat): (f: seq<int>)
    requires Sized(t) && n <= T
  {
    if n == 0 then []
    else HalfFreqs(t, n - 1) + (if t.son[n - 1] >= T then [(t.freq[n - 1] + 1) / 2] else [])
  }

  /** The symbols of the leaf slots below n, in slot order. */
  function HalfSons(t: Tree, n: nat): (s: seq<int>)
    requires Sized(t) && n <= T
    ensures |s| == |HalfFreqs(t, n)| <= n
  {
    if n == 0 then []
    else HalfSons(t, n - 1) + (if t.son[n - 1] >= T then [t.son[n - 1]] else [])
  }

  /** Every entry of the halved list comes from one leaf slot, in order. */
  ghost predicate FromSlots(t: Tree, n: nat, f: seq<int>, s: seq<int>)
    requires Sized(t) && Linked(t) && n <= T && |f| == |s|
  {
    && (forall y :: 0 <= y < |s| ==>
          T <= s[y] < T + NCHAR && t.prnt[s[y]] < n && f[y] == (t.freq[t.prnt[s[y]]] + 1) / 2)
    && (forall y, z :: 0 <= y < z < |s| ==> t.prnt[s[y]] < t.prnt[s[z]])
    && (forall v :: T <= v < T + NCHAR && t.prnt[v] < n ==> v in s)
  }

  lemma HalvedAppend(t: Tree, n: nat, f: seq<int>, s: seq<int>)
    requires Sized(t) && Linked(t) && n < T && |f| == |s| && t.son[n] >= T
    requires FromSlots(t, n, f, s)
    ensures FromSlots(t, n + 1, f + [(t.freq[n] + 1) / 2], s + [t.son[n]])
  {
    assert t.prnt[t.son[n]] == n;
    var s' := s + [t.son[n]];
    forall v | T <= v < T + NCHAR && t.prnt[v] < n + 1
      ensures v in s'
    {
      if t.prnt[v] == n {
        assert t.son[t.prnt[v]] == v && s'[|s|] == v;
      } else {
        assert v in s;
      }
    }
  }

  lemma HalvedSkip(t: Tree, n: nat, f: seq<int>, s: seq<int>)
    requires Sized(t) && Linked(t) && n < T && |f| == |s| && t.son[n] < T
    requires FromSlots(t, n, f, s)
    ensures FromSlots(t, n + 1, f, s)
  {
    forall v | T <= v < T + NCHAR && t.prnt[v] < n + 1
      ensures v in s
    {
      assert t.son[t.prnt[v]] == v;
    }
  }

  lemma NoneHalved(t: Tree)
    requires Sized(t) && Linked(t)
    ensures FromSlots(t, 0, [], [])
  {
  }

  lemma {:induction false} HalvedSlots(t: Tree, n: nat)
    requires Sized(t) && Linked(t) && n <= T
    ensures FromSlots(t, n, HalfFreqs(t, n), HalfSons(t, n))
  {
    hide FromSlots, Linked;
    if n == 0 {
      NoneHalved(t);
    } else {
      HalvedSlots(t, n - 1);
      HalvedStep(t, n - 1, HalfFreqs(t, n - 1), HalfSons(t, n - 1), HalfFreqs(t, n), HalfSons(t, n));
    }
  }

  lemma HalvedStep(t: Tree, n: nat, f: seq<int>, s: seq<int>, f': seq<int>, s': seq<int>)
    requires Sized(t) && Linked(t) && n < T && |f| == |s| && FromSlots(t, n, f, s)
    requires f' == f + (if t.son[n] >= T then [(t.freq[n] + 1) / 2] else [])
    requires s' == s + (if t.son[n] >= T then [t.son[n]] else [])
    ensures FromSlots(t, n + 1, f', s')
  {
    hide FromSlots, Linked;
    if t.son[n] >= T {
      HalvedAppend(t, n, f, s);
    } else {
      HalvedSkip(t, n, f, s);
      assert f' == f && s' == s;
    }
  }

  lemma {:induction false} HalvedLength(t: Tree, n: nat)
    requires Sized(t) && n <= T
    ensures |HalfFreqs(t, n)| == Sum(LeafMarks(t)[..n])
    ensures 2 * Sum(HalfFreqs(t, n)) <= Sum(LeafFreqs(t)[..n]) + |HalfFreqs(t, n)|
  {
    if n > 0 {
      HalvedLength(t, n - 1);
      assert LeafMarks(t)[..n][..n - 1] == LeafMarks(t)[..n - 1];
      assert LeafFreqs(t)[..n][..n - 1] == LeafFreqs(t)[..n - 1];
      if t.son[n - 1] >= T {
        assert HalfFreqs(t, n)[..|HalfFreqs(t, n - 1)|] == HalfFreqs(t, n - 1);
      } else {
        assert HalfFreqs(t, n) == HalfFreqs(t, n - 1);
      }
    }
  }

  // ---------------------------------------------------------------- joining nodes

  /** The node at slot y has the joined slots x and x + 1 as its children. */
  ghost predicate Joined(f: seq<int>, x: int, y: int, i: int)
    requires 0 <= y < |f|
  {
    0 <= x < i && x % 2 == 0 && x + 1 < y && f[y] == f[x] + f[x + 1]
  }

  /** A partly built tree: slots 0..i have been given parents, the others are roots. */
  ghost predicate Grove(f: seq<int>, s: seq<int>, i: int) {
    && NCHAR <= |f| <= T && |s| == |f| && i == 2 * (|f| - NCHAR)
    && (forall y :: 0 <= y < |f| ==> 0 < f[y])
    && (forall y, z :: 0 <= y < z < |f| ==> f[y] <= f[z])
    && (forall y :: 0 <= y < |s| ==> 0 <= s[y] < T + NCHAR && (s[y] >= T || Joined(f, s[y], y, i)))
    && (forall y, z :: 0 <= y < z < |s| ==> s[y] != s[z])
    && (forall v :: T <= v < T + NCHAR || (0 <= v < i && v % 2 == 0) ==> v in s)
  }

  /** Where a node of weight w goes: after the last node, from y down, that is not heavier. */
  function SlotFor(f: seq<int>, w: int, lo: nat, y: nat): (k: nat)
    requires lo <= y < |f| && f[lo] <= w
    ensures lo < k <= y + 1 && f[k - 1] <= w
    ensures forall m :: k <= m <= y ==> w < f[m]
  {
    if w < f[y] then SlotFor(f, w, lo, y - 1) else y + 1
  }

  function InsertAt(s: seq<int>, k: nat, v: int): (r: seq<int>)
    requires k <= |s|
    ensures |r| == |s| + 1
  {
    seq(|s| + 1, m requires 0 <= m <= |s| => if m < k then s[m] else if m == k then v else s[m - 1])
  }

  /** Join slots i and i + 1: the insertion point of the new node, always above both. */
  function JoinSlot(f: seq<int>, i: nat): (k: nat)
    requires i + 1 < |f| && 0 <= f[i]
    ensures i + 1 < k <= |f|
  {
    SlotFor(f, f[i] + f[i + 1], i + 1, |f| - 1)
  }

  lemma JoinOrdered(f: seq<int>, s: seq<int>, i: nat)
    requires Grove(f, s, i) && |f| < T
    ensures var g := InsertAt(f, JoinSlot(f, i), f[i] + f[i + 1]);
      && (forall y :: 0 <= y < |g| ==> 0 < g[y])
      && (forall y, z :: 0 <= y < z < |g| ==> g[y] <= g[z])
  {
  }

  lemma JoinNodes(f: seq<int>, s: seq<int>, i: nat, k: nat, y: nat)
    requires Grove(f, s, i) && |f| < T && k == JoinSlot(f, i) && y <= |f|
    ensures var f', s' := InsertAt(f, k, f[i] + f[i + 1]), InsertAt(s, k, i);
      0 <= s'[y] < T + NCHAR && (s'[y] >= T || Joined(f', s'[y], y, i + 2))
  {
    if y != k {
      var o := if y < k then y else y - 1;
      assert s[o] >= T || Joined(f, s[o], o, i);
    } else {
      assert i % 2 == 0;
    }
  }

  lemma JoinCovers(f: seq<int>, s: seq<int>, i: nat, k: nat, v: int)
    requires Grove(f, s, i) && |f| < T && k == JoinSlot(f, i)
    requires T <= v < T + NCHAR || (0 <= v < i + 2 && v % 2 == 0)
    ensures v in InsertAt(s, k, i)
  {
    var s' := InsertAt(s, k, i);
    if v == i {
      assert s'[k] == v;
    } else {
      assert i % 2 == 0;
      assert v in s;
      var y :| 0 <= y < |s| && s[y] == v;
      assert s'[if y < k then y else y + 1] == v;
    }
  }

  lemma JoinDistinct(f: seq<int>, s: seq<int>, i: nat, k: nat, y: nat, z: nat)
    requires Grove(f, s, i) && |f| < T && k == JoinSlot(f, i) && y < z <= |s|
    ensures InsertAt(s, k, i)[y] != InsertAt(s, k, i)[z]
  {
    assert forall m :: 0 <= m < |s| && s[m] < T ==> Joined(f, s[m], m, i);
  }

  lemma JoinGrove(f: seq<int>, s: seq<int>, i: nat)
    requires Grove(f, s, i) && |f| < T
    ensures Grove(InsertAt(f, JoinSlot(f, i), f[i] + f[i + 1]), InsertAt(s, JoinSlot(f, i), i), i + 2)
  {
    var k := JoinSlot(f, i);
    var f', s' := InsertAt(f, k, f[i] + f[i + 1]), InsertAt(s, k, i);
    JoinOrdered(f, s, i);
    forall y | 0 <= y < |s'|
      ensures 0 <= s'[y] < T + NCHAR && (s'[y] >= T || Joined(f', s'[y], y, i + 2))
    {
      JoinNodes(f, s, i, k, y);
    }
    forall v | T <= v < T + NCHAR || (0 <= v < i + 2 && v % 2 == 0)
      ensures v in s'
    {
      JoinCovers(f, s, i, k, v);
    }
    forall y, z | 0 <= y < z < |s'|
      ensures s'[y] != s'[z]
    {
      JoinDistinct(f, s, i, k, y, z);
    }
  }

  /** Joining changes neither the total weight of the roots nor the weight of any leaf. */
  lemma JoinTotal(f: seq<int>, i: nat)
    requires i + 1 < |f| && 0 <= f[i]
    ensures var k := JoinSlot(f, i);
      Sum(InsertAt(f, k, f[i] + f[i + 1])[i + 2..]) == Sum(f[i..])
  {
    var k := JoinSlot(f, i);
    var w := f[i] + f[i + 1];
    assert InsertAt(f, k, w)[i + 2..] == f[i + 2..k] + ([w] + f[k..]);
    assert f[i..] == [f[i], f[i + 1]] + (f[i + 2..k] + f[k..]);
    SumConcat(f[i + 2..k], [w] + f[k..]);
    SumConcat([w], f[k..]);
    SumConcat([f[i], f[i + 1]], f[i + 2..k] + f[k..]);
    SumConcat(f[i + 2..k], f[k..]);
    assert Sum([w]) == w;
    assert [f[i], f[i + 1]][..1] == [f[i]];
    assert Sum([f[i]]) == f[i];
  }

  ghost predicate Joinable(f: seq<int>, s: seq<int>, i: int) {
    NCHAR <= |f| <= T && |s| == |f| && i == 2 * (|f| - NCHAR) && forall y :: 0 <= y < |f| ==> 0 < f[y]
  }

  /** The joining loop of reconst. */
  ghost function JoinAll(f: seq<int>, s: seq<int>, i: nat): (r: (seq<int>, seq<int>))
    requires Joinable(f, s, i)
    ensures |r.0| == |r.1| == T
    decreases T - |f|
  {
    if |f| == T then (f, s)
    else
      var k := JoinSlot(f, i);
      JoinAll(InsertAt(f, k, f[i] + f[i + 1]), InsertAt(s, k, i), i + 2)
  }

  lemma JoinStep(f: seq<int>, s: seq<int>, i: nat)
    requires Joinable(f, s, i) && |f| < T
    ensures var k := JoinSlot(f, i);
      && Joinable(InsertAt(f, k, f[i] + f[i + 1]), InsertAt(s, k, i), i + 2)
      && JoinAll(f, s, i) == JoinAll(InsertAt(f, k, f[i] + f[i + 1]), InsertAt(s, k, i), i + 2)
  {
    hide JoinSlot;
  }

  lemma GroveJoinable(f: seq<int>, s: seq<int>, i: int)
    requires Grove(f, s, i)
    ensures Joinable(f, s, i) && 0 <= i
    ensures |f| == T ==> i == R
  {
  }

  lemma {:induction false} JoinAllGrove(f: seq<int>, s: seq<int>, i: nat)
    requires Grove(f, s, i)
    ensures Joinable(f, s, i) && Grove(JoinAll(f, s, i).0, JoinAll(f, s, i).1, R)
    decreases T - |f|
  {
    hide Grove, JoinSlot, InsertAt;
    GroveJoinable(f, s, i);
    if |f| < T {
      JoinGrove(f, s, i);
      var k := JoinSlot(f, i);
      JoinAllGrove(InsertAt(f, k, f[i] + f[i + 1]), InsertAt(s, k, i), i + 2);
    }
  }

  ghost predicate CarriesLeaves(w: seq<int>, f: seq<int>, s: seq<int>)
    requires |w| == NCHAR && |f| == |s|
  {
    forall y :: 0 <= y < |s| && T <= s[y] < T + NCHAR ==> f[y] == w[s[y] - T]
  }

  lemma InsertKeepsLeaves(f: seq<int>, s: seq<int>, k: nat, v: int, i: nat, w: seq<int>)
    requires |f| == |s| && k <= |s| && |w| == NCHAR && i < T && CarriesLeaves(w, f, s)
    ensures CarriesLeaves(w, InsertAt(f, k, v), InsertAt(s, k, i))
  {
  }

  lemma {:induction false} JoinKeepsLeaves(f: seq<int>, s: seq<int>, i: nat, w: seq<int>)
    requires Joinable(f, s, i) && |w| == NCHAR && CarriesLeaves(w, f, s)
    ensures CarriesLeaves(w, JoinAll(f, s, i).0, JoinAll(f, s, i).1)
    decreases T - |f|
  {
    hide JoinSlot, InsertAt, CarriesLeaves;
    if |f| < T {
      JoinStep(f, s, i);
      var k := JoinSlot(f, i);
      InsertKeepsLeaves(f, s, k, f[i] + f[i + 1], i, w);
      JoinKeepsLeaves(InsertAt(f, k, f[i] + f[i + 1]), InsertAt(s, k, i), i + 2, w);
    }
  }

  lemma {:induction false} JoinKeepsTotal(f: seq<int>, s: seq<int>, i: nat)
    requires Joinable(f, s, i)
    ensures Sum(JoinAll(f, s, i).0[R..]) == Sum(f[i..])
    decreases T - |f|
  {
    hide JoinSlot, InsertAt, Sum;
    if |f| < T {
      JoinStep(f, s, i);
      JoinTotal(f, i);
      var k := JoinSlot(f, i);
      JoinKeepsTotal(InsertAt(f, k, f[i] + f[i + 1]), InsertAt(s, k, i), i + 2);
    }
  }

  // ---------------------------------------------------------------- linking parents

  /** The last loop of reconst: point the children of slots below n at their parents. */
  function Connect(s: seq<int>, prnt: seq<int>, n: nat): (p: seq<int>)
    requires n <= |s| && |prnt| == T + NCHAR
    requires forall y :: 0 <= y < n ==> 0 <= s[y] < T + NCHAR
    ensures |p| == |prnt|
  {
    if n == 0 then prnt
    else
      var p, k := Connect(s, prnt, n - 1), s[n - 1];
      if k >= T then p[k := n - 1] else p[k := n - 1][k + 1 := n - 1]
  }

  /** The children of slot y get y as their parent, and no link of an earlier slot is lost. */
  lemma ConnectStep(f: seq<int>, s: seq<int>, p: seq<int>, n: nat, y: nat)
    requires Grove(f, s, R) && y <= n < T && |p| == T + NCHAR
    requires y < n ==> p[s[y]] == y && (s[y] < T ==> p[s[y] + 1] == y)
    ensures var q := if s[n] >= T then p[s[n] := n] else p[s[n] := n][s[n] + 1 := n];
      q[s[y]] == y && (s[y] < T ==> q[s[y] + 1] == y) && q[R] == p[R]
  {
    assert s[n] < T ==> Joined(f, s[n], n, R);
    assert s[y] < T ==> Joined(f, s[y], y, R);
    assert y < n ==> s[y] != s[n];
  }

  lemma {:induction false} ConnectLinks(f: seq<int>, s: seq<int>, prnt: seq<int>, n: nat)
    requires Grove(f, s, R) && n <= T && |prnt| == T + NCHAR && prnt[R] == 0
    ensures var p := Connect(s, prnt, n);
      && p[R] == 0
      && forall y :: 0 <= y < n ==> p[s[y]] == y && (s[y] < T ==> p[s[y] + 1] == y)
  {
    if n > 0 {
      ConnectLinks(f, s, prnt, n - 1);
      forall y | 0 <= y < n
        ensures var p := Connect(s, prnt, n);
          p[s[y]] == y && (s[y] < T ==> p[s[y] + 1] == y) && p[R] == 0
      {
        ConnectStep(f, s, Connect(s, prnt, n - 1), n - 1, y);
      }
    }
  }

  lemma GroveParents(f: seq<int>, s: seq<int>, prnt: seq<int>, x: int)
    requires Grove(f, s, R) && |prnt| == T + NCHAR && prnt[R] == 0
    requires 0 <= x < T + NCHAR && x != R
    ensures var p := Connect(s, prnt, T);
      0 <= p[x] < T && s[p[x]] == (if x < T then x - x % 2 else x)
  {
    ConnectLinks(f, s, prnt, T);
    var v := if x < T then x - x % 2 else x;
    assert v in s;
    var y :| 0 <= y < |s| && s[y] == v;
  }

  lemma GroveSons(f: seq<int>, s: seq<int>, i: nat)
    requires Grove(f, s, R) && i < T
    ensures 0 <= s[i] < T + NCHAR && s[i] != R
    ensures s[i] < T ==> s[i] % 2 == 0 && s[i] + 1 < i && f[i] == f[s[i]] + f[s[i] + 1]
  {
    assert s[i] >= T || Joined(f, s[i], i, R);
  }

  lemma GroveLinked(f: seq<int>, s: seq<int>, prnt: seq<int>)
    requires Grove(f, s, R) && |prnt| == T + NCHAR && prnt[R] == 0
    ensures var t := Tree(f + [0xffff], s, Connect(s, prnt, T)); Sized(t) && Linked(t)
  {
    ConnectLinks(f, s, prnt, T);
    hide Grove, Connect;
    var p := Connect(s, prnt, T);
    forall x | 0 <= x < T + NCHAR && x != R
      ensures 0 <= p[x] < T && s[p[x]] == (if x < T then x - x % 2 else x)
    {
      GroveParents(f, s, prnt, x);
    }
    forall i | 0 <= i < T
      ensures 0 <= s[i] < T + NCHAR && s[i] != R
      ensures s[i] < T ==> s[i] % 2 == 0 && s[i] + 1 < i
    {
      GroveSons(f, s, i);
    }
  }

  lemma GroveBalanced(f: seq<int>, s: seq<int>, prnt: seq<int>)
    requires Grove(f, s, R) && |prnt| == T + NCHAR && prnt[R] == 0
    ensures var t := Tree(f + [0xffff], s, Connect(s, prnt, T));
      Sized(t) && Linked(t) && Ordered(t) && Balanced(t, -1)
  {
    GroveLinked(f, s, prnt);
    hide Linked;
    var t := Tree(f + [0xffff], s, Connect(s, prnt, T));
    forall i | 0 <= i < T && s[i] < T
      ensures 0 <= s[i] && t.freq[i] == t.freq[s[i]] + t.freq[s[i] + 1]
    {
      GroveSons(f, s, i);
    }
  }

  // ---------------------------------------------------------------- reconst

  /** reconst as a function of the tree: halve the leaves, join from the lightest up, link. */
  ghost function Reconst(t: Tree): (u: Tree)
    requires Valid(t)
  {
    HalvedGrove(t);
    var r := JoinAll(HalfFreqs(t, T), HalfSons(t, T), 0);
    JoinAllGrove(HalfFreqs(t, T), HalfSons(t, T), 0);
    Tree(r.0 + [0xffff], r.1, Connect(r.1, t.prnt, T))
  }

  /** Halving keeps the order of the leaves. */
  lemma HalvedOrdered(t: Tree, f: seq<int>, s: seq<int>)
    requires Sized(t) && Linked(t) && Ordered(t) && |f| == |s| && FromSlots(t, T, f, s)
    ensures forall y :: 0 <= y < |f| ==> 0 < f[y]
    ensures forall y, z :: 0 <= y < z < |f| ==> f[y] <= f[z] && s[y] != s[z]
  {
    forall y | 0 <= y < |f|
      ensures 0 < f[y]
    {
      assert T <= s[y] < T + NCHAR;
      assert 0 < t.freq[t.prnt[s[y]]];
    }
    forall y, z | 0 <= y < z < |f|
      ensures f[y] <= f[z] && s[y] != s[z]
    {
      assert t.prnt[s[y]] < t.prnt[s[z]];
      assert t.freq[t.prnt[s[y]]] <= t.freq[t.prnt[s[z]]];
    }
  }

  lemma HalvedSize(t: Tree)
    requires Sized(t) && Linked(t)
    ensures |HalfFreqs(t, T)| == NCHAR
  {
    HalvedLength(t, T);
    LeafCount(t);
    assert LeafMarks(t)[..T] == LeafMarks(t);
  }

  lemma SlotsGrove(t: Tree, f: seq<int>, s: seq<int>)
    requires Sized(t) && Linked(t) && Ordered(t) && |f| == |s| == NCHAR && FromSlots(t, T, f, s)
    ensures Grove(f, s, 0)
  {
    HalvedOrdered(t, f, s);
    forall v | T <= v < T + NCHAR
      ensures v in s
    {
      assert t.prnt[v] < T;
    }
  }

  lemma HalvedGrove(t: Tree)
    requires Valid(t)
    ensures Grove(HalfFreqs(t, T), HalfSons(t, T), 0)
  {
    hide Linked, Ordered, Balanced, FromSlots, Grove, HalfFreqs, HalfSons;
    HalvedSlots(t, T);
    HalvedSize(t);
    SlotsGrove(t, HalfFreqs(t, T), HalfSons(t, T));
  }

  /** The halved weights, in symbol order. */
  ghost function HalvedWeights(t: Tree): (w: seq<int>)
    requires Sized(t) && Linked(t)
    ensures |w| == NCHAR && forall s :: 0 <= s < NCHAR ==> w[s] == (Weight(t, s) + 1) / 2
  {
    seq(NCHAR, s requires 0 <= s < NCHAR => (Weight(t, s) + 1) / 2)
  }

  lemma ReconstShape(t: Tree)
    requires Valid(t)
    ensures var u := Reconst(t); Sized(u) && Linked(u) && Ordered(u) && Balanced(u, -1)
  {
    HalvedGrove(t);
    JoinAllGrove(HalfFreqs(t, T), HalfSons(t, T), 0);
    var r := JoinAll(HalfFreqs(t, T), HalfSons(t, T), 0);
    GroveBalanced(r.0, r.1, t.prnt);
  }

  /** No weight ever grows past the total of the halved leaves, which is far below 16 bits. */
  lemma HalvedTotal(t: Tree)
    requires Valid(t)
    ensures Sum(HalfFreqs(t, T)) <= (MAX_FREQ + NCHAR) / 2
  {
    HalvedGrove(t);
    HalvedLength(t, T);
    LeafFreqSum(t);
    assert LeafFreqs(t)[..T] == LeafFreqs(t);
  }

  lemma ReconstTotal(t: Tree)
    requires Valid(t)
    ensures Reconst(t).freq[R] <= (MAX_FREQ + NCHAR) / 2
  {
    HalvedGrove(t);
    HalvedTotal(t);
    var f, s := HalfFreqs(t, T), HalfSons(t, T);
    GroveJoinable(f, s, 0);
    hide Linked, Ordered, Balanced, Grove;
    var r := JoinAll(f, s, 0);
    JoinKeepsTotal(f, s, 0);
    assert f[0..] == f;
    assert r.0[R..] == [r.0[R]];
    assert [r.0[R]][..0] == [];
  }

  lemma HalvedCarry(t: Tree, f: seq<int>, s: seq<int>)
    requires Sized(t) && Linked(t) && |f| == |s| && FromSlots(t, T, f, s)
    ensures CarriesLeaves(HalvedWeights(t), f, s)
  {
    forall y | 0 <= y < |s|
      ensures T <= s[y] < T + NCHAR && f[y] == HalvedWeights(t)[s[y] - T]
    {
      assert Weight(t, s[y] - T) == t.freq[t.prnt[s[y]]];
    }
  }

  lemma ReconstWeight(t: Tree, c: int)
    requires Valid(t) && 0 <= c < NCHAR
    ensures Sized(Reconst(t)) && Linked(Reconst(t))
    ensures Weight(Reconst(t), c) == (Weight(t, c) + 1) / 2
  {
    var u := Reconst(t);
    assert CarriesLeaves(HalvedWeights(t), u.freq[..T], u.son) by {
      hide Linked, Ordered, Balanced, FromSlots, CarriesLeaves, Grove, Connect, JoinAll;
      HalvedGrove(t);
      HalvedSlots(t, T);
      var f, s := HalfFreqs(t, T), HalfSons(t, T);
      HalvedCarry(t, f, s);
      GroveJoinable(f, s, 0);
      JoinKeepsLeaves(f, s, 0, HalvedWeights(t));
    }
    ReconstShape(t);
    hide Reconst, Ordered, Balanced;
    assert u.son[u.prnt[c + T]] == c + T;
  }

  /** reconst gives a valid tree over the same symbols, each weight w replaced by (w + 1) / 2. */
  lemma ReconstCorrect(t: Tree)
    requires Valid(t)
    ensures Valid(Reconst(t))
    ensures Reconst(t).freq[R] <= (MAX_FREQ + NCHAR) / 2
    ensures forall s :: 0 <= s < NCHAR ==> Weight(Reconst(t), s) == (Weight(t, s) + 1) / 2
  {
    ReconstShape(t);
    ReconstTotal(t);
    forall c | 0 <= c < NCHAR
      ensures Weight(Reconst(t), c) == (Weight(t, c) + 1) / 2
    {
      ReconstWeight(t, c);
    }
  }

  // ---------------------------------------------------------------- StartHuff

  /** The first n weights StartHuff stores. */
  function StartFreqs(n: nat): (f: seq<int>)
    requires n <= T
    ensures |f| == n
  {
    if n == 0 then []
    else
      var f := StartFreqs(n - 1);
      f + [if n <= NCHAR then 1 else f[2 * (n - 1 - NCHAR)] + f[2 * (n - 1 - NCHAR) + 1]]
  }

  function StartTree(): Tree {
    Tree(
      StartFreqs(T) + [0xffff],
      seq(T, i => if i < NCHAR then i + T else 2 * (i - NCHAR)),
      seq(T + NCHAR, x => if x >= T then x - T else if x == R then 0 else NCHAR + x / 2))
  }

  /** Later rounds do not touch earlier weights. */
  lemma {:induction false} StartPrefix(n: nat, y: nat)
    requires y < n <= T
    ensures StartFreqs(n)[y] == StartFreqs(y + 1)[y]
  {
    if y < n - 1 {
      StartPrefix(n - 1, y);
    }
  }

  lemma StartFreqAt(y: nat)
    requires y < T
    ensures var f := StartFreqs(T);
      f[y] == if y < NCHAR then 1 else f[2 * (y - NCHAR)] + f[2 * (y - NCHAR) + 1]
  {
    StartPrefix(T, y);
    if y >= NCHAR {
      var a := 2 * (y - NCHAR);
      StartPrefix(T, a);
      StartPrefix(T, a + 1);
      StartPrefix(y, a);
      StartPrefix(y, a + 1);
    }
  }

  lemma {:induction false} StartPositive(y: nat)
    requires y < T
    ensures 0 < StartFreqs(T)[y]
  {
    StartFreqAt(y);
    if y >= NCHAR {
      StartPositive(2 * (y - NCHAR));
      StartPositive(2 * (y - NCHAR) + 1);
    }
  }

  lemma {:induction false} StartOrdered(y: nat, z: nat)
    requires y <= z < T
    ensures StartFreqs(T)[y] <= StartFreqs(T)[z]
    decreases z
  {
    if y < z {
      StartOrdered(y, z - 1);
      StartFreqAt(z - 1);
      StartFreqAt(z);
      if z > NCHAR {
        StartOrdered(2 * (z - 1 - NCHAR), 2 * (z - NCHAR));
        StartOrdered(2 * (z - 1 - NCHAR) + 1, 2 * (z - NCHAR) + 1);
      } else if z == NCHAR {
        StartFreqAt(0);
        StartFreqAt(1);
      }
    }
  }

  lemma StartLinked()
    ensures Sized(StartTree()) && Linked(StartTree())
  {
  }

  lemma StartSorted()
    ensures Ordered(StartTree())
  {
    var f := StartFreqs(T);
    forall y | 0 <= y < T
      ensures 0 < f[y]
    {
      StartPositive(y);
    }
    forall y, z | 0 <= y < z < T
      ensures f[y] <= f[z]
    {
      StartOrdered(y, z);
    }
  }

  lemma StartBalanced()
    ensures Sized(StartTree()) && Linked(StartTree()) && Balanced(StartTree(), -1)
  {
    StartLinked();
    var t := StartTree();
    forall i | 0 <= i < T && t.son[i] < T
      ensures t.freq[i] == t.freq[t.son[i]] + t.freq[t.son[i] + 1]
    {
      StartFreqAt(i);
    }
  }

  /** StartHuff's tree is valid and gives every symbol the weight one. */
  lemma StartCorrect()
    ensures Valid(StartTree())
    ensures forall s :: 0 <= s < NCHAR ==> Weight(StartTree(), s) == 1
  {
    StartBalanced();
    StartSorted();
    var t := StartTree();
    forall s | 0 <= s < NCHAR
      ensures Weight(t, s) == 1
    {
      StartFreqAt(s);
    }
    RootIsSum(t);
    SumOnes(Weights(t));
  }

  // ---------------------------------------------------------------- update

  /** The tree update works on: rebuilt first if the root weight has reached the limit. */
  ghost function Rescaled(t: Tree): (u: Tree)
    requires Valid(t)
    ensures Valid(u) && u.freq[R] < MAX_FREQ
  {
    ReconstCorrect(t);
    if t.freq[R] == MAX_FREQ then Reconst(t) else t
  }

  ghost function Update(t: Tree, c: int): (u: Tree)
    requires Valid(t) && 0 <= c < NCHAR
    ensures Valid(u)
  {
    var v := Rescaled(t);
    LeafOwed(v, c);
    Climb(v, v.prnt[c + T])
  }

  lemma LeafOwed(t: Tree, c: int)
    requires Valid(t) && t.freq[R] < MAX_FREQ && 0 <= c < NCHAR
    ensures Owed(t, t.prnt[c + T]) && t.son[t.prnt[c + T]] == c + T
  {
  }

  /** update keeps the tree valid, and adds one to the weight of its symbol and of no other;
      when the root has reached the limit, every weight is first halved, rounding up. */
  lemma UpdateWeight(t: Tree, c: int, s: int)
    requires Valid(t) && 0 <= c < NCHAR && 0 <= s < NCHAR
    ensures Valid(Update(t, c))
    ensures Weight(Update(t, c), s) ==
      (if t.freq[R] == MAX_FREQ then (Weight(t, s) + 1) / 2 else Weight(t, s)) + (if s == c then 1 else 0)
  {
    ReconstCorrect(t);
    var v := Rescaled(t);
    LeafOwed(v, c);
    ClimbWeight(v, v.prnt[c + T], s);
  }

  /** The tree after a run of symbols. */
  ghost function TreeAfter(t: Tree, cs: seq<int>): (u: Tree)
    requires Valid(t) && forall i :: 0 <= i < |cs| ==> 0 <= cs[i] < NCHAR
    ensures Valid(u)
    decreases |cs|
  {
    if cs == [] then t else Update(TreeAfter(t, cs[..|cs| - 1]), cs[|cs| - 1])
  }

  /** Over every run from the start, the root weighs exactly the sum of the symbol weights and never
      passes MAX_FREQ, so the equality test for rebuilding cannot be jumped over, no weight needs
      more than 16 bits, and the sentinel in slot T stops every scan. */
  lemma RunBounded(cs: seq<int>)
    requires forall i :: 0 <= i < |cs| ==> 0 <= cs[i] < NCHAR
    ensures Valid(StartTree())
    ensures var u := TreeAfter(StartTree(), cs);
      && u.freq[R] == Sum(Weights(u)) <= MAX_FREQ
      && (forall i :: 0 <= i < T ==> 0 < u.freq[i] <= MAX_FREQ < u.freq[T] == 0xffff)
  {
    StartCorrect();
    TreeBounded(TreeAfter(StartTree(), cs));
  }

  lemma TreeBounded(u: Tree)
    requires Valid(u)
    ensures u.freq[R] == Sum(Weights(u)) <= MAX_FREQ
    ensures forall i :: 0 <= i < T ==> 0 < u.freq[i] <= MAX_FREQ < u.freq[T] == 0xffff
  {
    RootIsSum(u);
  }
}
