/** Integer multiplication and division facts used by coarsening,
    refinement and chunking.  Dafny's `/` and `%` are Euclidean, which for
    the positive divisors used here is floor division, as the index
    arithmetic of coarsening uses. */
module Arith {
  lemma MulMono(a: int, b: int, r: int)
    requires a <= b && r >= 0
    ensures a * r <= b * r
  {
    assert b * r - a * r == (b - a) * r;
  }

  lemma DivUnique(a: int, r: int, q: int, m: int)
    requires r >= 1 && 0 <= m < r && a == q * r + m
    ensures a / r == q && a % r == m
  {
    var q0, m0 := a / r, a % r;
    assert a == q0 * r + m0;
    if q0 < q {
      MulMono(q0 + 1, q, r);
    } else if q0 > q {
      MulMono(q + 1, q0, r);
    }
  }

  /** Floor division is monotone. */
  lemma DivMono(a: int, b: int, r: int)
    requires a <= b && r >= 1
    ensures a / r <= b / r
  {
    assert a == (a / r) * r + a % r;
    assert b == (b / r) * r + b % r;
    if a / r > b / r {
      MulMono(b / r + 1, a / r, r);
    }
  }

  /** A multiple of `r` lies at or below `x` exactly when the floor
      quotient of `x` reaches its factor. */
  lemma FloorLower(lo: int, r: int, x: int)
    requires r >= 1
    ensures lo * r <= x <==> lo <= x / r
  {
    assert x == (x / r) * r + x % r;
    if lo <= x / r {
      MulMono(lo, x / r, r);
    } else {
      MulMono(x / r + 1, lo, r);
    }
  }

  /** Scaling the floor quotient back does not pass `x`, and gives `x` back
      when `r` divides it. */
  lemma FloorScale(x: int, r: int)
    requires r >= 1
    ensures (x / r) * r <= x
    ensures x % r == 0 ==> (x / r) * r == x
  {
    assert x == (x / r) * r + x % r;
  }

  /** The last fine cell of the coarse cell holding `x` is at or above `x`,
      and is `x` itself when `x` ends a coarse cell. */
  lemma CellTop(x: int, r: int)
    requires r >= 1
    ensures (x / r + 1) * r - 1 >= x
    ensures (x + 1) % r == 0 ==> (x / r + 1) * r - 1 == x
  {
    assert x == (x / r) * r + x % r;
    assert (x / r + 1) * r == (x / r) * r + r;
    if (x + 1) % r == 0 {
      var k := (x + 1) / r;
      assert x + 1 == k * r;
      assert x == (k - 1) * r + (r - 1);
      DivUnique(x, r, k - 1, r - 1);
    }
  }

  /** `n = ceil(len / chunk)` chunks reach `len` and one chunk fewer does not. */
  lemma CeilCount(len: int, chunk: int, n: int)
    requires chunk >= 1 && n == (len + chunk - 1) / chunk
    ensures n * chunk >= len && (n - 1) * chunk < len
  {
    var t := len + chunk - 1;
    assert t == n * chunk + t % chunk;
    assert (n - 1) * chunk == n * chunk - chunk;
  }

  lemma CountBetween(len: int, chunk: int, n: int)
    requires chunk >= 1 && len > chunk
    requires n * chunk >= len && (n - 1) * chunk < len
    ensures 2 <= n <= len
  {
    if n <= 1 {
      MulMono(n, 1, chunk);
    }
    if n > len {
      MulMono(len, n - 1, chunk);
      MulMono(1, chunk, len);
    }
  }

  lemma BalancedFits(len: int, chunk: int, n: int)
    requires chunk >= 1 && n >= 1 && n * chunk >= len
    ensures len / n <= chunk
    ensures len % n != 0 ==> len / n + 1 <= chunk
  {
    var q := len / n;
    var e := len % n;
    assert len == q * n + e;
    if q > chunk {
      MulMono(chunk + 1, q, n);
    }
  }

  /** Cutting `len` indices into `n = ceil(len / chunk)` balanced pieces, as
      `maxSize` does for a side longer than `chunk`: there are between two
      and `len` pieces, and neither the short pieces (`len / n`) nor the
      long ones (`len / n + 1`, present when `n` does not divide `len`)
      exceed `chunk`. */
  lemma ChunkCount(len: int, chunk: int)
    requires chunk >= 1 && len > chunk
    ensures 2 <= (len + chunk - 1) / chunk <= len
    ensures len / ((len + chunk - 1) / chunk) <= chunk
    ensures len % ((len + chunk - 1) / chunk) != 0 ==> len / ((len + chunk - 1) / chunk) + 1 <= chunk
  {
    var n := (len + chunk - 1) / chunk;
    CeilCount(len, chunk, n);
    CountBetween(len, chunk, n);
    BalancedFits(len, chunk, n);
  }

  /** `a * k` by repeated addition.  Unfolding it one step exposes only
      linear terms, which keeps definitions built on it cheap to reason
      about where their arguments are not constants. */
  function Times(a: nat, k: nat): nat
    decreases k
  {
    if k == 0 then 0 else a + Times(a, k - 1)
  }

  lemma {:induction false} TimesIsMul(a: nat, k: nat)
    ensures Times(a, k) == a * k
    decreases k
  {
    if k > 0 {
      TimesIsMul(a, k - 1);
      assert a * k == a + a * (k - 1);
    }
  }

  /** `a / n` by repeated subtraction, for the same reason as `Times`. */
  function Quot(a: nat, n: nat): nat
    requires n >= 1
    decreases a
  {
    if a < n then 0 else 1 + Quot(a - n, n)
  }

  lemma {:induction false} QuotIsDiv(a: nat, n: nat)
    requires n >= 1
    ensures Quot(a, n) == a / n
    decreases a
  {
    if a >= n {
      QuotIsDiv(a - n, n);
      DivUnique(a, n, (a - n) / n + 1, (a - n) % n);
    } else {
      DivUnique(a, n, 0, a);
    }
  }
}
