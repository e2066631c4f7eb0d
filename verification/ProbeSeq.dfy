// The probe sequence of dict_lookup (lsd/dict.c): i -> 5i + perturb + 1 masked to
// a power-of-two table, with perturb shifted right by 5 at each step.
module ProbeSeq {
  import opened Base

  const WORD: nat := 0x1_0000_0000   // unsigned wraps here
  type Word = x: nat | x < WORD

  // The value of perturb used for probe n + 1.
  function Perturb(h: nat, n: nat): nat {
    if n == 0 then h else Perturb(h, n - 1) / 32
  }

  // The index of the slot inspected by probe n.
  function Probe(h: nat, size: nat, n: nat): (i: nat)
    requires size > 0
    ensures i < size
  {
    if n == 0 then h % size else (5 * Probe(h, size, n - 1) + Perturb(h, n - 1) + 1) % size
  }

  const SHIFTS: nat := 7             // enough to shift 32 bits out

  lemma PerturbGone(h: Word)
    ensures Perturb(h, SHIFTS) == 0
  {
    assert Perturb(h, 1) < 0x800_0000;
    assert Perturb(h, 2) < 0x40_0000;
    assert Perturb(h, 3) < 0x2_0000;
    assert Perturb(h, 4) < 0x1000;
    assert Perturb(h, 5) < 0x80;
    assert Perturb(h, 6) < 4;
  }

  lemma {:induction false} PerturbStaysGone(h: nat, n: nat, m: nat)
    requires Perturb(h, n) == 0 && n <= m
    ensures Perturb(h, m) == 0
    decreases m
  {
    if n < m {
      PerturbStaysGone(h, n, m - 1);
    }
  }

  // Without the mask.
  function Iter(x: nat, n: nat): nat {
    if n == 0 then x else 5 * Iter(x, n - 1) + 1
  }

  lemma {:induction false} IterAdd(x: nat, m: nat, n: nat)
    ensures Iter(x, m + n) == Iter(Iter(x, m), n)
  {
    if n > 0 {
      IterAdd(x, m, n - 1);
      assert Iter(x, m + n) == 5 * Iter(x, m + n - 1) + 1;
    }
  }

  // 5^(2^k) == 1 + 4 * 2^k * CoefA(k), and the constant part is 2^k * (2 * CoefB(k) + 1).
  function CoefA(k: nat): int {
    if k == 0 then 1 else CoefA(k - 1) + 2 * Pow2(k - 1) * CoefA(k - 1) * CoefA(k - 1)
  }

  function CoefB(k: nat): int {
    if k == 0 then 0 else CoefB(k - 1) + Pow2(k - 1) * CoefA(k - 1) * (2 * CoefB(k - 1) + 1)
  }

  function Odd(k: nat, x: nat): int {
    1 + 2 * (2 * CoefA(k) * x + CoefB(k))
  }

  // 2^k steps add an odd multiple of 2^k.
  lemma {:induction false} IterPow(x: nat, k: nat)
    ensures Iter(x, Pow2(k)) == x + Pow2(k) * Odd(k, x)
    decreases k
  {
    if k == 0 {
      assert Iter(x, 1) == 5 * Iter(x, 0) + 1;
    } else {
      var p := Pow2(k - 1);
      IterAdd(x, p, p);
      IterPow(x, k - 1);
      IterPow(Iter(x, p), k - 1);
      OddStep(k, x, Iter(x, p));
    }
  }

  lemma OddStep(k: nat, x: nat, y: nat)
    requires k > 0 && y == x + Pow2(k - 1) * Odd(k - 1, x)
    ensures y + Pow2(k - 1) * Odd(k - 1, y) == x + Pow2(k) * Odd(k, x)
  {
    OddDoubles(Pow2(k - 1), CoefA(k - 1), CoefB(k - 1), x, y);
  }

  lemma OddDoubles(p: int, a: int, b: int, x: int, y: int)
    requires y == x + p * (1 + 2 * (2 * a * x + b))
    ensures y + p * (1 + 2 * (2 * a * y + b))
         == x + 2 * p * (1 + 2 * (2 * (a + 2 * p * a * a) * x + (b + p * a * (2 * b + 1))))
  {
    var u := 1 + 2 * (2 * a * x + b);
    SecondHalf(p, a, b, x, u);
    NextOdd(p * a, a, b, x, u);
    MulAssoc(p, p * a, u);
    assert p * (u + 2 * ((p * a) * u)) == p * u + 2 * (p * ((p * a) * u));
  }

  lemma SecondHalf(p: int, a: int, b: int, x: int, u: int)
    requires u == 1 + 2 * (2 * a * x + b)
    ensures var y := x + p * u;
      y + p * (1 + 2 * (2 * a * y + b)) == x + 2 * (p * u) + 4 * (p * ((p * a) * u))
  {
    var y := x + p * u;
    assert a * y == a * x + a * (p * u);
    MulAssoc(a, p, u);
    assert 1 + 2 * (2 * a * y + b) == u + 4 * ((p * a) * u);
  }

  lemma NextOdd(pa: int, a: int, b: int, x: int, u: int)
    requires u == 1 + 2 * (2 * a * x + b)
    ensures 1 + 2 * (2 * (a + 2 * pa * a) * x + (b + pa * (2 * b + 1))) == u + 2 * (pa * u)
  {
    assert pa * u == pa + 4 * (pa * (a * x)) + 2 * (pa * b);
    MulAssoc(pa, a, x);
    assert (a + 2 * pa * a) * x == a * x + 2 * ((pa * a) * x);
  }

  // The low k bits.
  function Low(x: nat, k: nat): (r: nat)
    ensures r < Pow2(k)
  {
    x % Pow2(k)
  }

  // Modulo 2^(k+1), 2^k steps add exactly 2^k.
  lemma HalfTurn(x: nat, k: nat)
    ensures Low(Iter(x, Pow2(k)), k + 1) == Low(x + Pow2(k), k + 1)
  {
    hide Pow2, CoefA, CoefB, Iter;
    IterPow(x, k);
    var p, w := Pow2(k), 2 * CoefA(k) * x + CoefB(k);
    OddTimes(p, w);
    assert Pow2(k + 1) == 2 * p by {
      NextPow2(k);
    }
    AddMultiple(x + p, 2 * p, w);
  }

  lemma NextPow2(k: nat)
    ensures Pow2(k + 1) == 2 * Pow2(k)
  {
  }

  lemma OddTimes(p: int, w: int)
    ensures p * (1 + 2 * w) == p + (2 * p) * w
  {
  }

  lemma MulAssoc(a: int, b: int, c: int)
    ensures a * (b * c) == (a * b) * c
  {
  }

  lemma MulSub(m: int, a: int, b: int)
    ensures m * (a - b) == m * a - m * b
  {
  }

  lemma MultipleBounds(m: int, d: int)
    requires m > 0
    ensures d >= 1 ==> m * d >= m
    ensures d <= -1 ==> m * d <= -m
  {
    MulSub(m, d, 1);
    MulSub(m, -1, d);
    assert d >= 1 ==> m * (d - 1) >= 0;
    assert d <= -1 ==> m * (-1 - d) >= 0;
  }

  lemma AddMultiple(x: int, m: int, w: int)
    requires m > 0
    ensures (x + m * w) % m == x % m
  {
    var q, r := x / m, x % m;
    assert x + m * w == m * (q + w) + r;
    DivUnique(x + m * w, m, q + w, r);
  }

  lemma DivUnique(x: int, m: int, q: int, r: int)
    requires 0 <= r < m && x == m * q + r
    ensures x % m == r && x / m == q
  {
    var q', r' := x / m, x % m;
    assert x == m * q' + r';
    MulSub(m, q', q);
    MultipleBounds(m, q' - q);
  }

  // The low k bits of x are those of x mod 2^(k+1).
  lemma ModHalf(x: nat, p: nat)
    requires p > 0
    ensures x % (2 * p) == x % p || x % (2 * p) == x % p + p
  {
    var q, r := x / (2 * p), x % (2 * p);
    if r < p {
      assert x == p * (2 * q) + r;
      DivUnique(x, p, 2 * q, r);
    } else {
      assert x == p * (2 * q + 1) + (r - p);
      DivUnique(x, p, 2 * q + 1, r - p);
    }
  }

  // Full cycle: from any start every residue modulo 2^k is met within 2^k steps.
  lemma {:induction false} FullCycle(x: nat, t: nat, k: nat) returns (n: nat)
    requires t < Pow2(k)
    ensures n < Pow2(k) && Low(Iter(x, n), k) == t
    decreases k
  {
    if k == 0 {
      n := 0;
    } else {
      n := FullCycle(x, if t < Pow2(k - 1) then t else t - Pow2(k - 1), k - 1);
      n := LongerCycle(x, t, k - 1, n);
    }
  }

  lemma LongerCycle(x: nat, t: nat, k: nat, m: nat) returns (n: nat)
    requires t < Pow2(k + 1) && m < Pow2(k)
    requires Low(Iter(x, m), k) == if t < Pow2(k) then t else t - Pow2(k)
    ensures n < Pow2(k + 1) && Low(Iter(x, n), k + 1) == t
  {
    hide Low, Iter, Pow2;
    NextPow2(k);
    var z := Iter(x, m);
    CycleStep(z, k, t);
    if Low(z, k + 1) == t {
      n := m;
    } else {
      n := m + Pow2(k);
      IterAdd(x, m, Pow2(k));
      HalfTurn(z, k);
    }
  }

  lemma CycleStep(z: nat, k: nat, t: nat)
    requires t < Pow2(k + 1) && Low(z, k) == if t < Pow2(k) then t else t - Pow2(k)
    ensures Low(z, k + 1) == t || Low(z + Pow2(k), k + 1) == t
  {
    var p := Pow2(k);
    ModHalf(z, p);
    if z % (2 * p) != t {
      ShiftHalf(z, p, t);
    }
  }

  lemma ShiftHalf(z: nat, p: nat, t: nat)
    requires p > 0 && t < 2 * p && z % (2 * p) != t
    requires z % (2 * p) == t + p || z % (2 * p) == t - p
    ensures (z + p) % (2 * p) == t
  {
    var q, r := z / (2 * p), z % (2 * p);
    assert z == (2 * p) * q + r;
    if r == t - p {
      DivUnique(z + p, 2 * p, q, t);
    } else {
      assert z + p == (2 * p) * (q + 1) + t;
      DivUnique(z + p, 2 * p, q + 1, t);
    }
  }

  lemma StepMod(y: int, c: int, size: nat)
    requires size > 0
    ensures (5 * (y % size) + c) % size == (5 * y + c) % size
  {
    var q, r := y / size, y % size;
    assert y == size * q + r;
    assert size * (5 * q) == 5 * (size * q);
    AddMultiple(5 * r + c, size, 5 * q);
  }

  // Once perturb is gone, the probes follow Iter.
  lemma {:induction false} ProbeIter(h: Word, size: nat, n: nat)
    requires size > 0
    ensures Probe(h, size, SHIFTS + n) == Iter(Probe(h, size, SHIFTS), n) % size
  {
    var x := Probe(h, size, SHIFTS);
    if n == 0 {
      DivUnique(x, size, 0, x);
    } else {
      ProbeIter(h, size, n - 1);
      PerturbGone(h);
      PerturbStaysGone(h, SHIFTS, SHIFTS + n - 1);
      StepMod(Iter(x, n - 1), 1, size);
    }
  }

  // ------------------------------------------------------------ the sequence in closed form

  lemma DivDiv(x: nat, p: nat, q: nat)
    requires p > 0 && q > 0
    ensures p * q > 0 && x / p / q == x / (p * q)
  {
    var r, v, t := x % p, x / p / q, x / p % q;
    MultipleBounds(p, q - t);
    MultipleBounds(p, q);
    SplitTwice(x, p, q);
    MulSub(p, q, t);
    DivUnique(x, p * q, v, p * t + r);
  }

  lemma SplitTwice(x: nat, p: nat, q: nat)
    requires p > 0 && q > 0
    ensures x == (p * q) * (x / p / q) + (p * (x / p % q) + x % p) && p * (x / p % q) >= 0
  {
    var u, v, t := x / p, x / p / q, x / p % q;
    assert u == q * v + t;
    MulAssoc(p, q, v);
    assert p * u == p * (q * v) + p * t;
  }

  lemma {:induction false} PerturbIs(h: nat, n: nat)
    ensures Perturb(h, n) == h / Pow2(5 * n)
  {
    if n > 0 {
      PerturbIs(h, n - 1);
      Pow2Add(5 * (n - 1), 5);
      assert Pow2(5) == 32;
      DivDiv(h, Pow2(5 * (n - 1)), 32);
    }
  }

  function Pow5(n: nat): nat {
    if n == 0 then 1 else 5 * Pow5(n - 1)
  }

  // What probes j to n - 1 add up to by probe n, each weighted by the turns that follow.
  function Added(h: nat, j: nat, n: nat): int
    decreases n - j
  {
    if j >= n then 0 else Pow5(n - 1 - j) * (h / Pow2(5 * j) + 1) + Added(h, j + 1, n)
  }

  lemma {:induction false} AddedStep(h: nat, j: nat, n: nat)
    requires j <= n
    ensures Added(h, j, n + 1) == 5 * Added(h, j, n) + h / Pow2(5 * n) + 1
    decreases n - j
  {
    var x := h / Pow2(5 * j) + 1;
    if j == n {
      assert Added(h, j + 1, n + 1) == 0 && Pow5(0) * x == x;
    } else {
      AddedStep(h, j + 1, n);
      assert Pow5(n - j) == 5 * Pow5(n - 1 - j);
      MulAssoc(5, Pow5(n - 1 - j), x);
    }
  }

  function Gathered(h: nat, n: nat): int {
    Pow5(n) * h + Added(h, 0, n)
  }

  lemma GatheredStep(h: nat, n: nat)
    ensures Gathered(h, n + 1) == 5 * Gathered(h, n) + (h / Pow2(5 * n) + 1)
  {
    AddedStep(h, 0, n);
    MulAssoc(5, Pow5(n), h);
  }

  // Probe n is at 5^n h and the shifted hashes it has met, masked only at the end.
  lemma {:induction false} ProbeIs(h: nat, size: nat, n: nat)
    requires size > 0
    ensures Probe(h, size, n) == Gathered(h, n) % size
  {
    if n == 0 {
      assert Gathered(h, 0) == h;
    } else {
      hide Gathered;
      ProbeIs(h, size, n - 1);
      PerturbIs(h, n - 1);
      GatheredStep(h, n - 1);
      ProbeStep(h, size, n, Gathered(h, n - 1), h / Pow2(5 * (n - 1)));
    }
  }

  lemma ProbeStep(h: nat, size: nat, n: nat, y: int, c: int)
    requires size > 0 && n > 0 && Probe(h, size, n - 1) == y % size && Perturb(h, n - 1) == c
    ensures Probe(h, size, n) == (5 * y + (c + 1)) % size
  {
    StepMod(y, c + 1, size);
  }

  // Every slot of a power-of-two table is inspected within SHIFTS + size probes.
  lemma ReachesAll(h: Word, k: nat, t: nat) returns (n: nat)
    requires t < Pow2(k)
    ensures n < SHIFTS + Pow2(k) && Probe(h, Pow2(k), n) == t
  {
    var x := Probe(h, Pow2(k), SHIFTS);
    var m := FullCycle(x, t, k);
    ProbeIter(h, Pow2(k), m);
    n := SHIFTS + m;
  }

  // Masking after the 32-bit wrap gives the same slot, since the size divides
  // the word.
  lemma MaskAfterWrap(x: nat, k: nat)
    requires k <= 32
    ensures (x % WORD) % Pow2(k) == x % Pow2(k)
  {
    Pow2Add(k, 32 - k);
    WordIsPow2();
    MaskFactor(x, Pow2(k), Pow2(32 - k));
  }

  lemma MaskFactor(x: nat, p: nat, c: nat)
    requires p > 0 && p * c == WORD
    ensures (x % WORD) % p == x % p
  {
    var q, r := x / WORD, x % WORD;
    assert x == r + WORD * q;
    MulAssoc(p, c, q);
    AddMultiple(r, p, c * q);
  }

  // One turn of the probing loop, as written.
  function Turn(i: nat, perturb: nat, size: nat): (j: nat)
    requires size > 0
    ensures j < size
  {
    (i * 4 + i + perturb + 1) % WORD % size
  }

  lemma TurnIsProbe(h: nat, bits: nat, n: nat)
    requires bits <= 32
    ensures Turn(Probe(h, Pow2(bits), n), Perturb(h, n), Pow2(bits)) == Probe(h, Pow2(bits), n + 1)
  {
    MaskAfterWrap(5 * Probe(h, Pow2(bits), n) + Perturb(h, n) + 1, bits);
  }

  lemma WordIsPow2()
    ensures Pow2(32) == WORD
  {
    assert Pow2(8) == 256;
    Pow2Add(8, 8);
    Pow2Add(16, 16);
  }
}
