/** What several components share: options, a few facts about sequences and multiples,
    and powers of two. */
module Common {

  datatype Option<+T> = Some(value: T) | None

  const TWO_64 := 0x1_0000_0000_0000_0000

  // ---------------------------------------------------------------------
  // Sequences.

  lemma TakeDrop<T>(a: seq<T>, b: seq<T>)
    ensures (a + b)[..|a|] == a && (a + b)[|a|..] == b
  {
  }

  lemma InConcat<T>(a: seq<T>, b: seq<T>, x: T)
    ensures x in a + b <==> x in a || x in b
  {
  }

  lemma AppendOne<T>(a: seq<T>, s: seq<T>)
    requires s != []
    ensures a + [s[0]] + s[1..] == a + s
  {
  }

  lemma Assoc<T>(a: seq<T>, b: seq<T>, c: seq<T>)
    ensures a + b + c == a + (b + c)
  {
  }

  lemma AssocLong<T>(a: seq<T>, b: seq<T>, c: seq<T>, d: seq<T>)
    ensures a + b + c + d == a + (b + c + d)
  {
  }

  lemma EmptyLeft<T>(a: seq<T>)
    ensures [] + a == a && a + [] == a
  {
  }

  lemma GrowPrefix<T>(before: seq<T>, s: seq<T>, i: nat)
    requires i < |s|
    ensures before + s[..i] + [s[i]] == before + s[..i + 1]
  {
  }

  lemma JoinSlices<T>(s: seq<T>, i: nat, j: nat, end: nat, rest: seq<T>)
    requires i <= j <= end <= |s|
    ensures s[i..j] + (s[j..end] + rest) == s[i..end] + rest
  {
  }

  function Reversed<T>(s: seq<T>): (r: seq<T>)
    ensures |r| == |s|
  {
    seq(|s|, i requires 0 <= i < |s| => s[|s| - 1 - i])
  }

  lemma ReversedAt<T>(s: seq<T>, k: nat)
    requires k < |s|
    ensures Reversed(s)[k] == s[|s| - 1 - k]
  {
  }

  lemma ReversedConcat<T>(a: seq<T>, b: seq<T>)
    ensures Reversed(a + b) == Reversed(b) + Reversed(a)
  {
  }

  lemma ReversedFirst<T>(s: seq<T>)
    requires s != []
    ensures Reversed(s) == Reversed(s[1..]) + [s[0]]
  {
  }

  // ---------------------------------------------------------------------
  // Multiples.

  lemma MultipleBeyond(d: nat, t: int)
    ensures t >= 1 ==> d * t >= d
    ensures t <= -1 ==> d * t <= 0 - d
  {
    if t >= 1 {
      assert d * t == d + d * (t - 1);
    } else if t <= -1 {
      assert d * t == 0 - d - d * (-t - 1);
    }
  }

  lemma SmallMod(v: nat, m: nat)
    requires v < m
    ensures v % m == v
  {
  }

  lemma UniqueMod(x: nat, d: nat, q: nat, r: nat)
    requires x == d * q + r && r < d
    ensures x % d == r
  {
    var t := q - x / d;
    assert d * t == d * q - d * (x / d);
    assert d * t == x % d - r;
    MultipleBeyond(d, t);
  }

  /** x - x % d is the last multiple of d that is not above x. */
  lemma RoundDown(x: nat, d: nat)
    requires d > 0
    ensures (x - x % d) % d == 0 && x - d < x - x % d <= x
  {
    assert x - x % d == d * (x / d) + 0;
    UniqueMod(x - x % d, d, x / d, 0);
  }

  lemma MultipleOfMultiple(x: nat, d: nat, e: nat)
    requires d > 0 && d * e > 0 && x % (d * e) == 0
    ensures x % d == 0
  {
    var q := x / (d * e);
    assert x == (d * e) * q;
    assert (d * e) * q == d * (e * q);
    UniqueMod(x, d, e * q, 0);
  }

  // ---------------------------------------------------------------------
  // Powers of two and masks.

  function Pow2(k: nat): (p: nat)
    ensures p > 0
  {
    if k == 0 then 1 else 2 * Pow2(k - 1)
  }

  lemma Reassociate(a: nat, b: nat)
    ensures 2 * (a * b) == (2 * a) * b
  {
  }

  lemma {:induction false} Pow2Sum(j: nat, k: nat)
    ensures Pow2(j + k) == Pow2(j) * Pow2(k)
  {
    if j > 0 {
      Pow2Sum(j - 1, k);
      Reassociate(Pow2(j - 1), Pow2(k));
    }
  }

  lemma Pow2Of64()
    ensures Pow2(64) == TWO_64
  {
    assert Pow2(4) == 16;
    Pow2Sum(4, 4);
    Pow2Sum(8, 8);
    Pow2Sum(16, 16);
    Pow2Sum(32, 32);
  }

  lemma Pow2Eight(k: nat)
    requires k >= 3
    ensures Pow2(k) == 8 * Pow2(k - 3)
  {
    assert Pow2(k) == 2 * Pow2(k - 1) && Pow2(k - 1) == 2 * Pow2(k - 2) && Pow2(k - 2) == 2 * Pow2(k - 3);
  }

  lemma {:induction false} Pow2Grows(j: nat, k: nat)
    requires j <= k
    ensures Pow2(j) <= Pow2(k)
  {
    if j < k {
      Pow2Grows(j, k - 1);
    }
  }

  /** Bitwise and of the lowest `bits` bits. */
  function And(x: nat, y: nat, bits: nat): nat {
    if bits == 0 then 0
    else (if x % 2 == 1 && y % 2 == 1 then 1 else 0) + 2 * And(x / 2, y / 2, bits - 1)
  }

  lemma HalfOfMod(x: nat, p: nat)
    requires p > 0
    ensures x % (2 * p) == 2 * (x / 2 % p) + x % 2
  {
    var h := x / 2;
    var q, r := h / p, h % p;
    assert h == p * q + r;
    assert x == 2 * h + x % 2;
    assert x == (2 * p) * q + (2 * r + x % 2);
    UniqueMod(x, 2 * p, q, 2 * r + x % 2);
  }

  lemma HalfOfMask(p: nat, q: nat)
    requires q <= p
    ensures (2 * p - 2 * q) / 2 == p - q && (2 * p - 2 * q) % 2 == 0
    ensures p > 0 ==> (2 * p - 1) / 2 == p - 1 && (2 * p - 1) % 2 == 1
  {
  }

  /** The mask with all bits but the lowest `k` clears just these. */
  lemma {:induction false} MaskClears(x: nat, bits: nat, k: nat)
    requires x < Pow2(bits) && k <= bits
    ensures Pow2(k) <= Pow2(bits) && And(x, Pow2(bits) - Pow2(k), bits) == x - x % Pow2(k)
    decreases bits
  {
    Pow2Grows(k, bits);
    if k > 0 {
      MaskClears(x / 2, bits - 1, k - 1);
      HalfOfMask(Pow2(bits - 1), Pow2(k - 1));
      HalfOfMod(x, Pow2(k - 1));
    } else if bits > 0 {
      MaskClears(x / 2, bits - 1, 0);
      HalfOfMask(Pow2(bits - 1), 0);
    }
  }
}
