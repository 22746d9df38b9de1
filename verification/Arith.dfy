/** The little nonlinear arithmetic that block and cluster numbers need. */
module Arith {
  lemma Monotone(a: nat, b: nat, c: nat)
    ensures a <= b ==> a * c <= b * c && c * a <= c * b
  {
    if a <= b { assert (b - a) * c >= 0; }
  }

  lemma Factor(h: nat, i: nat, s: nat, b: nat)
    ensures (h + i * s) * b == h * b + i * (s * b)
  {
    assert (i * s) * b == i * (s * b);
  }

  lemma OneMore(i: nat, c: nat)
    ensures (i + 1) * c == i * c + c
  {
  }

  /** Item `k` of group `i`, in groups of `size`. */
  lemma InGroup(i: nat, k: nat, size: nat)
    requires k < size
    ensures (i * size + k) / size == i && (i * size + k) % size == k
  {
    var q := (i * size + k) / size;
    assert q * size <= i * size + k < q * size + size;
    Monotone(q + 1, i, size);
    Monotone(i + 1, q, size);
  }

  /** Item `j` of the groups is item `j - size` of those behind the first. */
  lemma NextGroup(j: nat, size: nat)
    requires 0 < size <= j
    ensures j / size > 0 && (j - size) / size == j / size - 1 && (j - size) % size == j % size
  {
    var q, r := j / size, j % size;
    assert j == q * size + r;
    assert q > 0;
    OneMore(q - 1, size);
    InGroup(q - 1, r, size);
  }

  /** Multiples of `size` bound a number exactly as they bound its quotient. */
  lemma Below(y: nat, bound: nat, size: nat)
    requires size > 0
    ensures y < bound * size <==> y / size < bound
  {
    var q := y / size;
    assert q * size <= y < q * size + size;
    OneMore(q, size);
    Monotone(q + 1, bound, size);
    Monotone(bound, q, size);
  }
}
