/** Small functions on whole numbers that several modules use. */
module Numbers {
  /** 1.0 with twelve fraction bits. */
  const ONE_Q12: int := 4096

  function Min(a: int, b: int): int { if a < b then a else b }

  function Max(a: int, b: int): int { if a < b then b else a }

  /** v is the floor of a / b. */
  ghost predicate IsFloor(v: int, a: int, b: int) {
    b > 0 && v * b <= a < (v + 1) * b
  }

  lemma FloorIs(a: int, b: int)
    requires b > 0
    ensures IsFloor(a / b, a, b)
  {
    assert a == b * (a / b) + a % b;
  }

  /** r is the floored square root of n. */
  ghost predicate IsRoot(n: int, r: int) {
    0 <= r && r * r <= n < (r + 1) * (r + 1)
  }

  /** The root int_sqrt64 returns. */
  function Root(n: nat): (r: nat)
    ensures IsRoot(n, r)
  {
    if n == 0 then 0
    else
      var half := Root(n / 4);
      RootStep(half, n);
      if (2 * half + 1) * (2 * half + 1) <= n then 2 * half + 1 else 2 * half
  }

  lemma RootStep(half: nat, n: nat)
    requires IsRoot(n / 4, half)
    ensures IsRoot(n, if (2 * half + 1) * (2 * half + 1) <= n then 2 * half + 1 else 2 * half)
  {
    var r := 2 * half;
    assert r * r == 4 * (half * half) && (r + 2) * (r + 2) == 4 * ((half + 1) * (half + 1));
  }

  lemma RootMono(a: int, b: int, p: int, q: int)
    requires a <= b && IsRoot(a, p) && IsRoot(b, q)
    ensures p <= q
  {}

  lemma RootRange(x: int, r: int, top: int)
    requires IsRoot(x, r) && 0 <= top && x < top * top
    ensures r < top
  {}
}
