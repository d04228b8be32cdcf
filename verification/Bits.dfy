/** Bit strings: numbers and files as most-significant-first sequences of bits. */
module Bits {
  type byte = x: int | 0 <= x < 256

  datatype Option<+A> = None | Some(value: A)

  function Pow2(n: nat): (p: nat)
    ensures p > 0
  {
    if n == 0 then 1 else 2 * Pow2(n - 1)
  }

  /** n copies of v. */
  function Repeat<A>(v: A, n: nat): (r: seq<A>)
    ensures |r| == n
  {
    if n == 0 then [] else [v] + Repeat(v, n - 1)
  }

  lemma {:induction false} RepeatSnoc<A>(v: A, n: nat)
    ensures Repeat(v, n + 1) == Repeat(v, n) + [v]
  {
    if n > 0 {
      RepeatSnoc(v, n - 1);
    }
  }

  /** b with x written over the part from at on. */
  function Overwrite<A>(b: seq<A>, at: nat, x: seq<A>): (r: seq<A>)
    requires at + |x| <= |b|
    ensures |r| == |b|
  {
    b[..at] + x + b[at + |x|..]
  }

  lemma Assoc<A>(a: seq<A>, b: seq<A>, c: seq<A>)
    ensures a + (b + c) == (a + b) + c
  {
  }

  lemma SubSlice<A>(s: seq<A>, a: nat, n: nat, m: nat)
    requires a + n + m <= |s|
    ensures s[a..a + n + m][..n] == s[a..a + n] && s[a..a + n + m][n..] == s[a + n..a + n + m]
  {
  }

  /** If x + y is what s holds from a on, x comes first and y follows it. */
  lemma SliceParts<A>(s: seq<A>, a: nat, x: seq<A>, y: seq<A>)
    requires a + |x| + |y| <= |s| && s[a..a + (|x| + |y|)] == x + y
    ensures s[a..a + |x|] == x && s[a + |x|..a + |x| + |y|] == y
  {
    var w := s[a..a + (|x| + |y|)];
    assert w[..|x|] == x && w[|x|..] == y;
  }

  lemma JoinSlices<A>(s: seq<A>, a: nat, b: nat, c: nat)
    requires a <= b <= c <= |s|
    ensures s[a..c] == s[a..b] + s[b..c]
  {
  }

  /** The value of a bit string, first bit most significant. */
  function Val(b: seq<bool>): (v: nat)
    ensures v < Pow2(|b|)
  {
    if b == [] then 0 else 2 * Val(b[..|b| - 1]) + (if b[|b| - 1] then 1 else 0)
  }

  /** The n low bits of v, most significant first. */
  function ToBits(v: nat, n: nat): (b: seq<bool>)
    ensures |b| == n
  {
    if n == 0 then [] else ToBits(v / 2, n - 1) + [v % 2 == 1]
  }

  lemma {:induction false} ValToBits(v: nat, n: nat)
    requires v < Pow2(n)
    ensures Val(ToBits(v, n)) == v
  {
    if n > 0 {
      ValToBits(v / 2, n - 1);
      assert ToBits(v, n)[..n - 1] == ToBits(v / 2, n - 1);
    }
  }

  lemma {:induction false} ToBitsVal(b: seq<bool>)
    ensures ToBits(Val(b), |b|) == b
  {
    if b != [] {
      ToBitsVal(b[..|b| - 1]);
      assert Val(b) / 2 == Val(b[..|b| - 1]);
      assert b == b[..|b| - 1] + [b[|b| - 1]];
    }
  }

  lemma ValStep(b: seq<bool>)
    requires b != []
    ensures Val(b) == 2 * Val(b[..|b| - 1]) + (if b[|b| - 1] then 1 else 0)
  {
  }

  lemma Doubling(x: int, y: int, v: int, w: int)
    requires v == x * y + w
    ensures 2 * v == x * (2 * y) + 2 * w
  {
  }

  lemma {:induction false} ValConcat(a: seq<bool>, b: seq<bool>)
    ensures Val(a + b) == Val(a) * Pow2(|b|) + Val(b)
  {
    if b == [] {
      assert a + b == a;
    } else {
      hide Val;
      var c := b[..|b| - 1];
      ValConcat(a, c);
      Doubling(Val(a), Pow2(|c|), Val(a + c), Val(c));
      ValStep(b);
      assert Val(a + b) == 2 * Val(a + c) + (if b[|b| - 1] then 1 else 0) by {
        ValStep(a + b);
        assert (a + b)[..|a| + |c|] == a + c;
      }
    }
  }

  /** The bits of a file, most significant bit of each byte first. */
  function FileBits(f: seq<byte>): (b: seq<bool>)
    ensures |b| == 8 * |f|
  {
    if f == [] then [] else FileBits(f[..|f| - 1]) + ToBits(f[|f| - 1], 8)
  }

  lemma {:induction false} FileBitsAt(f: seq<byte>, k: nat)
    requires k < |f|
    ensures FileBits(f)[8 * k..8 * k + 8] == ToBits(f[k], 8)
  {
    var n := |f| - 1;
    if k < n {
      FileBitsAt(f[..n], k);
      assert FileBits(f)[8 * k..8 * k + 8] == FileBits(f[..n])[8 * k..8 * k + 8];
    } else {
      assert 8 * k == |FileBits(f[..n])|;
    }
  }
}
