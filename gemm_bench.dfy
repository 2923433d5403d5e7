/** The arithmetic of the GEMM benchmark's set-up: leading dimensions chosen
    from the transposition flags, the operand buffer extents, the flop and
    byte counters, and the benchmark's registered name. The source computes
    the counters in `double` only to avoid integer overflow; here they are
    unbounded integers. */
module GemmBench {
  import opened ScalarTypes
  import opened BenchUtils

  datatype LeadingDims = LeadingDims(lda: int, ldb: int, ldc: int)

  /** `run` turns each flag back into its one-letter string and tests its
      first character: a column-major operand that is not transposed has as
      many rows as its leading dimension. */
  function LeadingDimensions(t1: Transposition, t2: Transposition, m: int, k: int, n: int): (ld: LeadingDims)
    ensures ld.lda == (if t1 == Normal then m else k)
    ensures ld.ldb == (if t2 == Normal then k else n)
    ensures ld.ldc == m
  {
    var tA := FromTransposeEnum(t1);
    var tB := FromTransposeEnum(t2);
    LeadingDims(if tA[0] == 'n' then m else k, if tB[0] == 'n' then k else n, m)
  }

  /** Seen from the parameter file: the flags are read by `to_transpose_enum`,
      so only "t" and "c" change the leading dimension, and "c" acts
      exactly like "t". */
  lemma LeadingDimensionsFromFlags(t1s: string, t2s: string, m: int, k: int, n: int)
    ensures var ld := LeadingDimensions(ToTransposeEnum(t1s), ToTransposeEnum(t2s), m, k, n);
            ld.lda == (if t1s == "t" || t1s == "c" then k else m) &&
            ld.ldb == (if t2s == "t" || t2s == "c" then n else k) &&
            ld.ldc == m
  {
  }

  /** Element counts of the buffers for A (m x k), B (k x n) and C (m x n). */
  datatype OperandSizes = OperandSizes(a: int, b: int, c: int)

  function OperandExtents(m: int, k: int, n: int): OperandSizes
  {
    OperandSizes(m * k, k * n, m * n)
  }

  /** Each leading dimension times the other extent of its stored matrix is
      exactly that operand's buffer size, for either flag. */
  lemma LeadingDimensionsSpanBuffers(t1: Transposition, t2: Transposition, m: int, k: int, n: int)
    ensures var ld := LeadingDimensions(t1, t2, m, k, n);
            var sizes := OperandExtents(m, k, n);
            ld.lda * (if t1 == Normal then k else m) == sizes.a &&
            ld.ldb * (if t2 == Normal then n else k) == sizes.b &&
            ld.ldc * n == sizes.c
  {
    var ld := LeadingDimensions(t1, t2, m, k, n);
    if t1 != Normal {
      assert ld.lda * m == m * k;
    }
    if t2 == Normal {
      assert ld.ldb * n == k * n;
    } else {
      assert ld.ldb * k == k * n;
    }
  }

  /** What `const_data(m * n, 0)` yields: a buffer, or the length error
      that `std::vector` raises when the requested size exceeds its maximum. */
  datatype OutputBuffer = Buffer(elems: seq<real>) | LengthError

  /** The output buffer. The `index_t` product `m * n` is converted to
      `size_t`: a negative product becomes a value of at least 2^63, more
      than any vector can hold, so the construction fails; otherwise the
      buffer has `m * n` elements, all zero. */
  method MakeOutputBuffer(m: int, n: int) returns (c: OutputBuffer)
    ensures c.Buffer? <==> m * n >= 0
    ensures c.Buffer? ==> |c.elems| == m * n
    ensures c.Buffer? ==> forall i :: 0 <= i < |c.elems| ==> c.elems[i] == 0.0
  {
    if m * n < 0 {
      return LengthError;
    }
    var v := ConstData(m * n, 0.0);
    c := Buffer(v);
  }

  /** Operations per entry of C: a dot product of length `k` (k products,
      k sums), the scaling by alpha and, unless beta is zero, the scaling of
      the old entry by beta and the final sum. */
  function FlopsPerEntry(k: int, betaIsZero: bool): int
  {
    2 * k + 1 + (if betaIsZero then 0 else 2)
  }

  function FlopCount(m: int, n: int, k: int, betaIsZero: bool): int
  {
    m * n * FlopsPerEntry(k, betaIsZero)
  }

  /** Bytes moved: A and B read once, C written once and, unless beta is
      zero, read once as well. */
  function BytesMoved(sizes: OperandSizes, betaIsZero: bool, scalarBytes: nat): int
  {
    (sizes.a + sizes.b + sizes.c + (if betaIsZero then 0 else sizes.c)) * scalarBytes
  }

  /** The `n_fl_ops` and `bytes_processed` counters: assigned for the general
      case, then reduced when beta is zero. `scalarBytes` is
      `sizeof(scalar_t)`. */
  method GemmCounters(m: int, k: int, n: int, beta: real, scalarBytes: nat)
    returns (nFlOps: int, bytesProcessed: int)
    ensures nFlOps == FlopCount(m, n, k, beta == 0.0)
    ensures bytesProcessed == BytesMoved(OperandExtents(m, k, n), beta == 0.0, scalarBytes)
  {
    nFlOps := 2 * (m * n * k) + 3 * (m * n);
    bytesProcessed := (m * k + k * n + 2 * m * n) * scalarBytes;
    if beta == 0.0 {
      nFlOps := nFlOps - 2 * m * n;
      bytesProcessed := bytesProcessed - m * n * scalarBytes;
    }
    ghost var mn := m * n;
    assert m * n * k == mn * k;
    assert FlopCount(m, n, k, beta == 0.0) == mn * (2 * k) + mn * (1 + (if beta == 0.0 then 0 else 2));
    assert 2 * m * n == 2 * mn;
    ghost var sizes := OperandExtents(m, k, n);
    assert (m * k + k * n + 2 * m * n) * scalarBytes
        == (sizes.a + sizes.b + sizes.c + sizes.c) * scalarBytes;
    assert (sizes.a + sizes.b + sizes.c + sizes.c) * scalarBytes - mn * scalarBytes
        == (sizes.a + sizes.b + sizes.c) * scalarBytes;
  }

  /** Decimal digit `d` as a character. */
  function DigitChar(d: nat): char
    requires d < 10
  {
    "0123456789"[d]
  }

  predicate IsDigits(s: string)
  {
    forall j :: 0 <= j < |s| ==> '0' <= s[j] <= '9'
  }

  /** The number a string of decimal digits denotes, most significant digit
      first. */
  function DecimalValue(s: string): nat
    requires IsDigits(s)
  {
    if s == [] then 0 else 10 * DecimalValue(s[..|s| - 1]) + (s[|s| - 1] as int - '0' as int)
  }

  /** The decimal text `operator<<` writes for a natural number: digits
      only, no leading zero, and denoting exactly `n`. */
  function NatToString(n: nat): (s: string)
    ensures |s| > 0 && IsDigits(s)
    ensures DecimalValue(s) == n
    ensures s[0] == '0' <==> n == 0
    ensures n == 0 ==> s == "0"
  {
    if n < 10 then [DigitChar(n)]
    else
      var hi, lo := NatToString(n / 10), DigitChar(n % 10);
      assert (hi + [lo])[..|hi|] == hi;
      hi + [lo]
  }

  /** The decimal text `operator<<` writes for an `int`: a minus sign and
      the magnitude's digits for negative values, the digits alone
      otherwise. */
  function IntToString(i: int): (s: string)
    ensures |s| > 0 && '/' !in s
    ensures i >= 0 ==> (s[0] == '0' <==> i == 0)
    ensures i == 0 ==> s == "0"
    ensures i < 0 ==> |s| > 1 && s[1] != '0'
    ensures i < 0 ==> |s| > 1 && s[0] == '-' && IsDigits(s[1..]) && DecimalValue(s[1..]) == -i
    ensures i >= 0 ==> IsDigits(s) && DecimalValue(s) == i
  {
    if i < 0 then
      var m := NatToString(-i);
      assert ("-" + m)[1..] == m;
      "-" + m
    else NatToString(i)
  }

  /** `get_name<scalar_t>(t1, t2, m, k, n)`: the family name `BM_Gemm`,
      the type name in angle brackets, then the flags and the extents, each
      after a '/' (see `GetNameFields`). Besides the fields it holds exactly
      the 14 characters of `BM_Gemm<`, `>` and five '/'. */
  function GetName(t: ScalarType, t1: string, t2: string, m: int, k: int, n: int): (name: string)
    ensures |name| == 14 + |GetTypeName(t)| + |t1| + |t2|
                     + |IntToString(m)| + |IntToString(k)| + |IntToString(n)|
  {
    "BM_Gemm<" + GetTypeName(t) + ">/" + t1 + "/" + t2 + "/"
      + IntToString(m) + "/" + IntToString(k) + "/" + IntToString(n)
  }

  /** Six '/'-free fields joined with '/' split back into those fields. */
  lemma SlashSeparatedFields(head: string, t1: string, t2: string, sm: string, sk: string, sn: string)
    requires '/' !in head && '/' !in t1 && '/' !in t2
    requires '/' !in sm && '/' !in sk && '/' !in sn
    ensures Cells(head + "/" + t1 + "/" + t2 + "/" + sm + "/" + sk + "/" + sn, '/') ==
            [head, t1, t2, sm, sk, sn]
  {
    var a1 := head + "/" + t1;
    var a2 := a1 + "/" + t2;
    var a3 := a2 + "/" + sm;
    var a4 := a3 + "/" + sk;
    CellsOfField(head, '/');
    CellsSnoc(head, '/', t1);
    assert Cells(a1, '/') == [head, t1];
    CellsSnoc(a1, '/', t2);
    assert Cells(a2, '/') == [head, t1, t2];
    CellsSnoc(a2, '/', sm);
    assert Cells(a3, '/') == [head, t1, t2, sm];
    CellsSnoc(a3, '/', sk);
    assert Cells(a4, '/') == [head, t1, t2, sm, sk];
    CellsSnoc(a4, '/', sn);
  }

  /** The name lists the type, the two flags and m, k, n in that order:
      cutting it at '/' gives back exactly those fields, provided the type
      name and the flags contain no '/' themselves. */
  lemma GetNameFields(t: ScalarType, t1: string, t2: string, m: int, k: int, n: int)
    requires '/' !in GetTypeName(t) && '/' !in t1 && '/' !in t2
    ensures Cells(GetName(t, t1, t2, m, k, n), '/') ==
            ["BM_Gemm<" + GetTypeName(t) + ">", t1, t2, IntToString(m), IntToString(k), IntToString(n)]
  {
    var x := "BM_Gemm<" + GetTypeName(t);
    var head := x + ">";
    var sm, sk, sn := IntToString(m), IntToString(k), IntToString(n);
    assert '/' !in "BM_Gemm<" && '/' !in ">";
    assert x + ">/" == head + "/";
    assert GetName(t, t1, t2, m, k, n) == head + "/" + t1 + "/" + t2 + "/" + sm + "/" + sk + "/" + sn;
    SlashSeparatedFields(head, t1, t2, sm, sk, sn);
  }
}
