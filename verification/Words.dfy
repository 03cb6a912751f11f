/** 32-bit unsigned arithmetic as the C++ code performs it, and the few facts
    about products that the offset arithmetic of the ring needs. */
module Words {

  const U32: nat := 0x1_0000_0000

  function Add32(a: int, b: int): nat { (a + b) % U32 }

  function Sub32(a: int, b: int): nat { (a - b) % U32 }

  function Mul32(a: int, b: int): nat { (a * b) % U32 }

  /** Sums and differences of words wrap around once, at 2^32. */
  lemma WordsWrap(a: nat, b: nat)
    requires a < 4294967296 && b < 4294967296
    ensures Add32(a, b) == if a + b < 4294967296 then a + b else a + b - 4294967296
    ensures Sub32(a, b) == if b <= a then a - b else a - b + 4294967296
    ensures Mul32(a, 1) == a && Mul32(65536, 65536) == 0
  {
  }

  /** i * size, unfolded one step at a time so that proofs about offsets need
      no non-linear arithmetic. */
  function Times(i: nat, size: nat): nat
  {
    if i == 0 then 0 else Times(i - 1, size) + size
  }

  lemma {:induction false} TimesIsProduct(i: nat, size: nat)
    ensures Times(i, size) == i * size
  {
    if i > 0 {
      TimesIsProduct(i - 1, size);
      assert i * size == (i - 1) * size + size;
    }
  }

  lemma {:induction false} TimesMono(i: nat, j: nat, size: nat)
    requires i <= j
    ensures Times(i, size) <= Times(j, size)
    ensures i < j ==> Times(i, size) + size <= Times(j, size)
  {
    if i < j {
      TimesMono(i, j - 1, size);
    }
  }

  lemma {:induction false} TimesSum(i: nat, j: nat, size: nat)
    ensures Times(i + j, size) == Times(i, size) + Times(j, size)
  {
    if j > 0 {
      TimesSum(i, j - 1, size);
    }
  }

  lemma DivBounds(m: nat, size: nat)
    requires size >= 1
    ensures (m / size) * size <= m < (m / size) * size + size
  {
  }

  lemma TimesDiv(i: nat, size: nat)
    requires size >= 1
    ensures Times(i, size) / size == i
  {
    var q := Times(i, size) / size;
    TimesIsProduct(q, size);
    TimesIsProduct(i, size);
    DivBounds(i * size, size);
    assert Times(q, size) <= Times(i, size) < Times(q, size) + size;
    if i < q {
      TimesMono(i, q, size);
    } else {
      TimesMono(q, i, size);
    }
  }

  lemma {:induction false} TimesAtLeast(n: nat, size: nat)
    requires size >= 1
    ensures n <= Times(n, size)
  {
    if n > 0 {
      TimesAtLeast(n - 1, size);
    }
  }
}
