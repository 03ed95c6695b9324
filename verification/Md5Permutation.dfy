/** Every MD5 step can be undone, so for a fixed block the 64 steps permute the 128-bit states. */
module Md5Permutation {
  import opened Words
  import opened Md5Rounds

  /** Undoes step i: rotate right, subtract, and give back the registers their roles. */
  function Unstep(i: nat, x: Block, q: Quad): Quad
    requires i < 64
  {
    var b, c, d := q.c, q.d, q.a;
    var sum := RotateLeft(Sub(q.b, b), 32 - Shift(i));
    var known: Word := (Mix(i, Quad(0, b, c, d)) + x[WordIndex(i)] + Sine(i)) % WORD;
    Quad(Sub(sum, known), b, c, d)
  }

  function Unsteps(n: nat, x: Block, q: Quad): Quad
    requires n <= 64
    decreases n
  {
    if n == 0 then q else Unsteps(n - 1, x, Unstep(n - 1, x, q))
  }

  /** The p-fold low part and the high part of x change places. */
  function Swapped(x: nat, p: nat, q: nat): nat
    requires q > 0
  {
    x % q * p + x / q
  }

  lemma SwappedBack(x: nat, p: nat, q: nat)
    requires p > 0 && q > 0 && x < p * q
    ensures Swapped(Swapped(x, p, q), q, p) == x
  {
    var h, l := x / q, x % q;
    DivideBelow(x, p, q);
    ModUnique(l * p + h, p, l, h);
  }

  /** A rotation swaps the n high digits with the 32 - n low ones. */
  lemma RotateSwaps(x: Word, n: nat)
    requires 0 < n < 32
    ensures RotateLeft(x, n) == Swapped(x, Pow2(n), Pow2(32 - n))
    ensures Pow2(n) * Pow2(32 - n) == WORD
  {
    hide Pow2, BitOr;
    Complement(n);
    DivideBelow(x, Pow2(n), Pow2(32 - n));
    ShiftKeepsLow(x, Pow2(n), Pow2(32 - n));
    OrDisjoint(x % Pow2(32 - n), x / Pow2(32 - n), n);
  }

  lemma ShiftKeepsLow(x: nat, p: nat, q: nat)
    requires p > 0 && q > 0
    ensures p * q > 0 && x * p % (p * q) == x % q * p
  {
    DivMod(x, q);
    KeepsLow(x, p, q, x / q, x % q);
  }

  lemma KeepsLow(x: nat, p: nat, q: nat, h: nat, l: nat)
    requires p > 0 && l < q && x == h * q + l
    ensures p * q > 0 && x * p % (p * q) == l * p
  {
    var y, pq, low := x * p, p * q, l * p;
    MulAtLeast(p, q);
    Expand(h, q, l, p);
    MulMonotone(l + 1, q, p);
    ModUnique(y, pq, h, low);
  }

  /** Rotating left by n and then by 32 - n changes nothing. */
  lemma RotateBack(x: Word, n: nat)
    requires 0 < n < 32
    ensures RotateLeft(RotateLeft(x, n), 32 - n) == x
  {
    hide RotateLeft, Pow2, Swapped;
    RotateSwaps(x, n);
    RotateSwaps(RotateLeft(x, n), 32 - n);
    SwappedBack(x, Pow2(n), Pow2(32 - n));
  }

  lemma UnstepStep(i: nat, x: Block, q: Quad)
    requires i < 64
    ensures Unstep(i, x, Step(i, x, q)) == q
  {
    hide RotateLeft, Mix, Sine;
    assert Mix(i, q) == Mix(i, q.(a := 0)) by { MixIgnoresA(i, q); }
    var m, t := Mix(i, q), x[WordIndex(i)] + Sine(i);
    var sum: Word := (q.a + m + x[WordIndex(i)] + Sine(i)) % WORD;
    AddSub(q.b, RotateLeft(sum, Shift(i)));
    SubAdd(q.b, RotateLeft(sum, Shift(i)));
    RotateBack(sum, Shift(i));
    SumBack(q.a, m + t);
  }

  lemma StepUnstep(i: nat, x: Block, q: Quad)
    requires i < 64
    ensures Step(i, x, Unstep(i, x, q)) == q
  {
    hide RotateLeft, Mix, Sine;
    var p := Unstep(i, x, q);
    assert Mix(i, p) == Mix(i, p.(a := 0)) by { MixIgnoresA(i, p); }
    RotateBack(Sub(q.b, q.c), 32 - Shift(i));
    SumForth(RotateLeft(Sub(q.b, q.c), 32 - Shift(i)), Mix(i, p) + x[WordIndex(i)] + Sine(i));
    SubAdd(q.c, q.b);
  }

  lemma MixIgnoresA(i: nat, q: Quad)
    ensures Mix(i, q) == Mix(i, q.(a := 0))
  {
    hide F, G, H, I;
  }

  lemma SubAdd(x: Word, y: Word)
    ensures Sub(Add(x, y), x) == y && Add(x, Sub(y, x)) == y
  {
  }

  lemma SumBack(a: Word, t: nat)
    ensures Sub((a + t) % WORD, t % WORD) == a
  {
    ModUnique((a + t) % WORD - t % WORD, WORD, t / WORD - (a + t) / WORD, a);
  }

  lemma SumForth(y: Word, t: nat)
    ensures (Sub(y, t % WORD) + t) % WORD == y
  {
    var s := Sub(y, t % WORD);
    ModUnique(s + t, WORD, t / WORD - (y - t % WORD) / WORD, y);
  }

  /** The 64 steps are one-to-one: each final state determines its initial one ... */
  lemma {:induction false} UnstepsSteps(n: nat, x: Block, q: Quad)
    requires n <= 64
    ensures Unsteps(n, x, Steps(n, x, q)) == q
    decreases n
  {
    hide Step, Unstep;
    if n == 0 {
    } else {
      UnstepStep(n - 1, x, Steps(n - 1, x, q));
      UnstepsSteps(n - 1, x, q);
    }
  }

  /** ... and onto: every state is the result of 64 steps from some state. */
  lemma {:induction false} StepsUnsteps(n: nat, x: Block, q: Quad)
    requires n <= 64
    ensures Steps(n, x, Unsteps(n, x, q)) == q
    decreases n
  {
    hide Step, Unstep;
    if n == 0 {
    } else {
      StepsUnsteps(n - 1, x, Unstep(n - 1, x, q));
      StepUnstep(n - 1, x, q);
    }
  }
}
