/** The optimised matrix-multiplication driver: the size chosen from the
    command-line label, the square product of two row-major matrices written
    into a third, the initialisation of the three buffers, and the value the
    result check prints. Elements are integers, so every sum is exact. */
module OptimizedMatrix {
  import opened Wrappers

  /** The matrix side for the optional first command-line argument
      (`None` when there is none). */
  function SizeFor(arg: Option<string>): (n: nat)
    ensures arg == Some("micro") ==> n == 64
    ensures arg == Some("small") ==> n == 512
    ensures arg == Some("medium") ==> n == 2048
    ensures arg == Some("large") ==> n == 8192
    ensures arg.None? || arg.value !in {"micro", "small", "medium", "large"} ==> n == 512
  {
    if arg.None? then 512
    else if arg.value == "micro" then 64
    else if arg.value == "small" then 512
    else if arg.value == "medium" then 2048
    else if arg.value == "large" then 8192
    else 512
  }

  /** Every selectable side is positive, and `N * N` fits in a 32-bit signed
      `int`, so no index expression of the C code overflows. */
  lemma SizeFits(arg: Option<string>)
    ensures var n := SizeFor(arg); 0 < n && n * n < 0x8000_0000
  {
  }

  /** A row-major index with row and column below `N` lies inside the
      `N * N` buffer. */
  lemma {:induction false} IndexInRange(n: nat, r: nat, c: nat)
    requires r < n && c < n
    ensures r * n + c < n * n
    decreases n - r
  {
    assert (r + 1) * n == r * n + n;
    if r + 1 < n {
      IndexInRange(n, r + 1, c);
    }
  }

  /** Row and column of a flat index are recovered by division and remainder. */
  lemma RowCol(n: nat, r: nat, c: nat)
    requires c < n
    ensures (r * n + c) / n == r && (r * n + c) % n == c
  {
    var q := r * n + c;
    var d, m := q / n, q % n;
    assert d * n + m == q;
    assert (d - r) * n == c - m;
    NoMultipleBetween(d - r, n);
  }

  /** The only multiple of `n` strictly between `-n` and `n` is zero. */
  lemma NoMultipleBetween(x: int, n: int)
    requires n > 0 && -n < x * n < n
    ensures x == 0
  {
    assert x * n == (x - 1) * n + n == (x + 1) * n - n;
    assert x >= 1 ==> (x - 1) * n >= 0;
    assert x <= -1 ==> (x + 1) * n <= 0;
  }

  /** The row of a flat index inside the buffer is below `N`. */
  lemma RowInRange(n: nat, q: nat)
    requires q < n * n
    ensures q / n < n && q % n < n
  {
    var d, m := q / n, q % n;
    assert d * n + m == q;
    assert (d - n) * n == q - m - n * n;
    assert d >= n ==> (d - n) * n >= 0;
  }

  /** The first `k` terms of the dot product of row `i` of `a` with column
      `j` of `b`: the value `sum` holds after `k` inner iterations. */
  function Dot(a: seq<int>, b: seq<int>, n: nat, i: nat, j: nat, k: nat): int
    requires |a| == n * n && |b| == n * n
    requires i < n && j < n && k <= n
  {
    if k == 0 then 0
    else
      IndexInRange(n, i, k - 1);
      IndexInRange(n, k - 1, j);
      Dot(a, b, n, i, j, k - 1) + a[i * n + k - 1] * b[(k - 1) * n + j]
  }

  /** The cell at flat index `q` of the product. */
  function Cell(a: seq<int>, b: seq<int>, n: nat, q: nat): int
    requires |a| == n * n && |b| == n * n && q < n * n
  {
    RowInRange(n, q);
    Dot(a, b, n, q / n, q % n, n)
  }

  /** The product of two `N x N` row-major matrices, in row-major order. */
  function Product(a: seq<int>, b: seq<int>, n: nat): (c: seq<int>)
    requires |a| == n * n && |b| == n * n
    ensures |c| == n * n
  {
    seq(n * n, q requires 0 <= q < n * n => Cell(a, b, n, q))
  }

  /** Cell `(i, j)` of the product is the full dot product of row `i` with
      column `j`. */
  lemma ProductCell(a: seq<int>, b: seq<int>, n: nat, i: nat, j: nat)
    requires |a| == n * n && |b| == n * n && i < n && j < n
    ensures i * n + j < n * n
    ensures Product(a, b, n)[i * n + j] == Dot(a, b, n, i, j, n)
  {
    IndexInRange(n, i, j);
    RowCol(n, i, j);
  }

  /** The innermost loop of `matrix_multiply_optimized`: `sum` accumulates
      the products of row `i` of `A` with column `j` of `B`. */
  method RowTimesColumn(A: array<int>, B: array<int>, n: nat, i: nat, j: nat) returns (sum: int)
    requires A.Length == n * n && B.Length == n * n && i < n && j < n
    ensures sum == Dot(A[..], B[..], n, i, j, n)
  {
    ghost var a, b := A[..], B[..];
    sum := 0;
    var k := 0;
    while k < n
      invariant 0 <= k <= n
      invariant sum == Dot(a, b, n, i, j, k)
    {
      IndexInRange(n, i, k);
      IndexInRange(n, k, j);
      assert Dot(a, b, n, i, j, k + 1) == Dot(a, b, n, i, j, k) + a[i * n + k] * b[k * n + j];
      sum := sum + A[i * n + k] * B[k * n + j];
      k := k + 1;
    }
  }

  /** `matrix_multiply_optimized`: every cell of `C` is overwritten with the
      dot product of a row of `A` and a column of `B`, whatever `C` held. */
  method MatrixMultiply(A: array<int>, B: array<int>, C: array<int>, n: nat)
    requires A.Length == n * n && B.Length == n * n && C.Length == n * n
    requires C != A && C != B
    modifies C
    ensures C[..] == Product(A[..], B[..], n)
    ensures A[..] == old(A[..]) && B[..] == old(B[..])
  {
    ghost var a, b := A[..], B[..];
    ghost var p := Product(a, b, n);
    var i := 0;
    ghost var row := 0;
    while i < n
      invariant 0 <= i <= n && row == i * n <= n * n
      invariant A[..] == a && B[..] == b
      invariant forall q :: 0 <= q < row ==> C[q] == p[q]
    {
      var j := 0;
      while j < n
        invariant 0 <= j <= n && row + j <= n * n
        invariant A[..] == a && B[..] == b
        invariant forall q :: 0 <= q < row + j ==> C[q] == p[q]
      {
        var sum := RowTimesColumn(A, B, n, i, j);
        ProductCell(a, b, n, i, j);
        C[i * n + j] := sum;
        j := j + 1;
      }
      IndexInRange(n, i, n - 1);
      i, row := i + 1, row + n;
    }
    assert C[..] == p;
  }

  /** The initialisation loop of `main`: `A` all ones, `B` all twos, `C` all zeros. */
  method Initialize(A: array<int>, B: array<int>, C: array<int>, n: nat)
    requires A.Length == n * n && B.Length == n * n && C.Length == n * n
    requires A != B && B != C && A != C
    modifies A, B, C
    ensures forall q :: 0 <= q < n * n ==> A[q] == 1 && B[q] == 2 && C[q] == 0
  {
    var i := 0;
    while i < n * n
      invariant 0 <= i <= n * n
      invariant forall q :: 0 <= q < i ==> A[q] == 1 && B[q] == 2 && C[q] == 0
    {
      A[i] := 1;
      B[i] := 2;
      C[i] := 0;
      i := i + 1;
    }
  }

  /** With every entry of `a` equal to 1 and every entry of `b` equal to 2,
      `k` terms of a dot product add up to `2 * k`. */
  lemma {:induction false} DotOfConstants(a: seq<int>, b: seq<int>, n: nat, i: nat, j: nat, k: nat)
    requires |a| == n * n && |b| == n * n && i < n && j < n && k <= n
    requires forall q :: 0 <= q < n * n ==> a[q] == 1 && b[q] == 2
    ensures Dot(a, b, n, i, j, k) == 2 * k
    decreases k
  {
    if k > 0 {
      DotOfConstants(a, b, n, i, j, k - 1);
      IndexInRange(n, i, k - 1);
      IndexInRange(n, k - 1, j);
    }
  }

  /** Every cell of the product of the initialised matrices is `2 * N`. */
  lemma ProductOfConstants(a: seq<int>, b: seq<int>, n: nat, q: nat)
    requires |a| == n * n && |b| == n * n && q < n * n
    requires forall p :: 0 <= p < n * n ==> a[p] == 1 && b[p] == 2
    ensures Product(a, b, n)[q] == 2 * n
  {
    RowInRange(n, q);
    DotOfConstants(a, b, n, q / n, q % n, n);
  }

  /** `main` without its timing and printing: choose the size, allocate and
      initialise the matrices, multiply twice (warm-up and timed run), and
      return the side and the value of `C[0]` that the result check prints,
      which is the expected `2 * N`. */
  method RunCheck(arg: Option<string>) returns (n: nat, c0: int)
    ensures n == SizeFor(arg)
    ensures c0 == 2 * n
  {
    n := SizeFor(arg);
    SizeFits(arg);
    var A := new int[n * n];
    var B := new int[n * n];
    var C := new int[n * n];
    Initialize(A, B, C, n);
    MatrixMultiply(A, B, C, n);
    MatrixMultiply(A, B, C, n);
    ProductOfConstants(A[..], B[..], n, 0);
    c0 := C[0];
  }
}
