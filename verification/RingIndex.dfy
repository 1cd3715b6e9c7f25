/** Positions in a ring of cells, counted from the first item ever put in. */
module RingIndex {

  lemma {:induction false} Multiples(a: nat, b: nat, size: nat)
    requires a < b
    ensures a * size + size <= b * size
    decreases b
  {
    if a + 1 < b {
      Multiples(a, b - 1, size);
    }
    assert b * size == (b - 1) * size + size;
  }

  // A quotient and a remainder are known by their sum.
  lemma {:induction false} RemainderUnique(q: nat, r: nat, d: nat, m: nat, size: nat)
    requires r < size && m < size && q * size + r == d * size + m
    ensures r == m
  {
    if d < q {
      Multiples(d, q, size);
    } else if q < d {
      Multiples(q, d, size);
    }
  }

  lemma {:induction false} RemainderIs(x: nat, q: nat, r: nat, size: nat)
    requires r < size && x == q * size + r
    ensures x % size == r
  {
    RemainderUnique(q, r, x / size, x % size, size);
  }

  /** Stepping to the next cell is counting one item more. */
  lemma {:induction false} NextMod(n: nat, size: nat)
    requires 0 < size
    ensures (n % size + 1) % size == (n + 1) % size
  {
    var q, r := n / size, n % size;
    assert n == q * size + r;
    if r + 1 < size {
      RemainderIs(n + 1, q, r + 1, size);
      RemainderIs(r + 1, 0, r + 1, size);
    } else {
      assert n + 1 == (q + 1) * size;
      RemainderIs(n + 1, q + 1, 0, size);
      RemainderIs(r + 1, 1, 0, size);
    }
  }

  /** Items less than a ring apart have cells of their own. */
  lemma {:induction false} CellsApart(i: nat, j: nat, size: nat)
    requires i < j < i + size
    ensures i % size != j % size
  {
    Apart(i / size, i % size, j / size, j % size, size);
  }

  lemma {:induction false} Apart(q: nat, r: nat, d: nat, m: nat, size: nat)
    requires q * size + r < d * size + m < q * size + r + size && r < size && m < size
    ensures r != m
  {
    if d < q {
      Multiples(d, q, size);
    } else if q < d {
      Multiples(q, d, size);
    }
  }
}
