/**
  The size a volume is created with or expanded to, in 64-bit integer and floating-point arithmetic.

  Floating point appears as any rounding function that leaves the numbers with a 53-bit
  significand alone, which is all IEEE 754 promises that the calculation needs.
*/
module VolumeSize {
  import opened CsiTypes

  const BYTES_IN_KIB := 1024
  const KIB_IN_GIB := 1024 * 1024
  const BYTES_IN_GIB := KIB_IN_GIB * BYTES_IN_KIB
  const DEFAULT_SIZE_KIB := 16 * KIB_IN_GIB
  const MULTIPLE_GIB := 8
  const MULTIPLE_KIB := MULTIPLE_GIB * KIB_IN_GIB

  const TWO_TO_53 := 0x20_0000_0000_0000
  const TWO_TO_63 := 0x8000_0000_0000_0000
  const TWO_TO_64 := 0x1_0000_0000_0000_0000

  type int64 = x: int | -TWO_TO_63 <= x < TWO_TO_63

  /** Two's-complement wrap-around of a product. */
  function Wrap64(x: int): int64 {
    (x + TWO_TO_63) % TWO_TO_64 - TWO_TO_63
  }

  // ---------------------------------------------------------------- floating point

  function Pow2(k: nat): (p: int)
    ensures p > 0
  {
    if k == 0 then 1 else 2 * Pow2(k - 1)
  }

  function Dyadic(m: int, k: nat): real {
    m as real / Pow2(k) as real
  }

  /** A rounding keeps every number with a significand of at most 53 bits. */
  ghost predicate Rounding(rnd: real -> real) {
    forall m: int, k: nat {:trigger Dyadic(m, k)} ::
      -TWO_TO_53 <= m <= TWO_TO_53 && k <= 1022 ==> rnd(Dyadic(m, k)) == Dyadic(m, k)
  }

  function Ceil(x: real): int {
    -(-x).Floor
  }

  // ---------------------------------------------------------------- the calculation

  datatype Sized = SizeKiB(kib: int) | Refused(status: Status)

  function RequestedKiB(required: int64): int {
    if required == 0 then DEFAULT_SIZE_KIB else required / BYTES_IN_KIB
  }

  /** A whole number of GiB, at least one, rounded up to a multiple of eight. */
  function RoundGiB(gib: int): int {
    var atLeastOne := if gib < 1 then 1 else gib;
    var mod := atLeastOne % MULTIPLE_GIB;
    if mod > 0 then atLeastOne - mod + MULTIPLE_GIB else atLeastOne
  }

  function ValidateVolSize(rnd: real -> real, required: int64, limit: int64): Sized {
    if required < 0 || limit < 0 then Refused(OutOfRange)
    else
      var sizeGiBFloat := rnd(rnd(RequestedKiB(required) as real) / KIB_IN_GIB as real);
      var sizeGiB := RoundGiB(Ceil(sizeGiBFloat));
      var sizeB := Wrap64(sizeGiB * BYTES_IN_GIB);
      if limit != 0 && sizeB > limit then Refused(OutOfRange)
      else SizeKiB(Wrap64(sizeGiB * KIB_IN_GIB))
  }

  // ---------------------------------------------------------------- what it computes

  predicate IsVolumeSize(kib: int) {
    kib >= MULTIPLE_KIB && kib % MULTIPLE_KIB == 0
  }

  /** The least volume size that covers the request. */
  ghost predicate LeastSize(required: int64, kib: int) {
    && IsVolumeSize(kib) && RequestedKiB(required) <= kib
    && forall other :: IsVolumeSize(other) && RequestedKiB(required) <= other ==> kib <= other
  }

  function CeilDiv(a: nat, b: nat): nat
    requires b > 0
  {
    (a + b - 1) / b
  }

  function RoundedKiB(required: int64): int
    requires required >= 0
  {
    RoundGiB(CeilDiv(RequestedKiB(required), KIB_IN_GIB)) * KIB_IN_GIB
  }

  lemma CeilOfDyadic(n: nat)
    ensures Ceil(Dyadic(n, 20)) == CeilDiv(n, KIB_IN_GIB)
  {
    PowersUsed();
    var q := CeilDiv(n, KIB_IN_GIB);
    assert (q - 1) * KIB_IN_GIB < n <= q * KIB_IN_GIB;
    var x := Dyadic(n, 20);
    assert x * (KIB_IN_GIB as real) == n as real;
    assert (q - 1) as real < x <= q as real;
  }

  lemma PowersUsed()
    ensures Pow2(20) == KIB_IN_GIB && Pow2(0) == 1
  {
    assert Pow2(5) == 32;
    assert Pow2(10) == 1024;
    assert Pow2(15) == 32 * 1024;
  }

  /** Every intermediate number has a 53-bit significand, so the floating-point ceiling is the integer one. */
  lemma FloatIsExact(rnd: real -> real, n: nat)
    requires Rounding(rnd) && n <= TWO_TO_53
    ensures Ceil(rnd(rnd(n as real) / KIB_IN_GIB as real)) == CeilDiv(n, KIB_IN_GIB)
  {
    PowersUsed();
    assert Dyadic(n, 0) == n as real;
    assert Dyadic(n, 20) == n as real / KIB_IN_GIB as real;
    CeilOfDyadic(n);
  }

  lemma RoundedIsLeast(required: int64)
    requires required >= 0
    ensures LeastSize(required, RoundedKiB(required))
    ensures RoundedKiB(required) <= TWO_TO_53
  {
    var wanted := RequestedKiB(required);
    var gib := CeilDiv(wanted, KIB_IN_GIB);
    var kib := RoundedKiB(required);
    assert RoundGiB(gib) % MULTIPLE_GIB == 0;
    MultipleScales(RoundGiB(gib));
    forall other | IsVolumeSize(other) && wanted <= other
      ensures kib <= other
    {
      var k := other / MULTIPLE_KIB;
      assert other == k * MULTIPLE_GIB * KIB_IN_GIB;
      assert gib <= k * MULTIPLE_GIB;
    }
  }

  lemma MultipleScales(g: int)
    requires g % MULTIPLE_GIB == 0
    ensures (g * KIB_IN_GIB) % MULTIPLE_KIB == 0
  {
    var k := g / MULTIPLE_GIB;
    assert g * KIB_IN_GIB == k * MULTIPLE_KIB;
  }

  /** The largest request, in KiB, whose size in bytes still fits into 64 bits. */
  const LARGEST_KIB := (TWO_TO_63 - MULTIPLE_GIB * BYTES_IN_GIB) / BYTES_IN_KIB

  /**
    For every request: negative values are refused; otherwise the result is the least volume size
    covering the request, refused only if it exceeds a nonzero limit. The limit test is lost
    exactly when the rounded size no longer fits into 64 bits.
  */
  lemma ValidSize(rnd: real -> real, required: int64, limit: int64)
    requires Rounding(rnd)
    ensures var r := ValidateVolSize(rnd, required, limit);
            if required < 0 || limit < 0 then r == Refused(OutOfRange)
            else if limit != 0 && RequestedKiB(required) <= LARGEST_KIB
                    && RoundedKiB(required) * BYTES_IN_KIB > limit then r == Refused(OutOfRange)
            else r == SizeKiB(RoundedKiB(required)) && LeastSize(required, r.kib)
  {
    if required >= 0 && limit >= 0 {
      FloatIsExact(rnd, RequestedKiB(required));
      RoundedIsLeast(required);
      SizeInBytes(required);
    }
  }

  lemma SizeInBytes(required: int64)
    requires required >= 0
    ensures var bytes := RoundedKiB(required) * BYTES_IN_KIB;
            if RequestedKiB(required) <= LARGEST_KIB then 0 <= bytes < TWO_TO_63 && Wrap64(bytes) == bytes
            else bytes == TWO_TO_63 && Wrap64(bytes) == -TWO_TO_63
  {
  }

  /** An accepted size respects a nonzero limit exactly when the request is small enough; requests of
      up to 2^63 - 2^33 bytes always are. */
  lemma LimitRespectedIff(rnd: real -> real, required: int64, limit: int64)
    requires Rounding(rnd) && required >= 0 && limit > 0 && ValidateVolSize(rnd, required, limit).SizeKiB?
    ensures ValidateVolSize(rnd, required, limit).kib * BYTES_IN_KIB <= limit <==> RequestedKiB(required) <= LARGEST_KIB
    ensures required <= TWO_TO_63 - MULTIPLE_GIB * BYTES_IN_GIB ==> RequestedKiB(required) <= LARGEST_KIB
  {
    ValidSize(rnd, required, limit);
    SizeInBytes(required);
  }

  /** The largest 64-bit request passes any limit, however small. */
  lemma HugeRequestIgnoresLimit(rnd: real -> real, limit: int64)
    requires Rounding(rnd) && limit > 0
    ensures ValidateVolSize(rnd, TWO_TO_63 - 1, limit) == SizeKiB(TWO_TO_53)
    ensures TWO_TO_53 * BYTES_IN_KIB > limit
  {
    ValidSize(rnd, TWO_TO_63 - 1, limit);
    SizeInBytes(TWO_TO_63 - 1);
  }

  /** A larger positive request never gets a smaller volume. */
  lemma SizeIsMonotone(rnd: real -> real, a: int64, b: int64)
    requires Rounding(rnd) && 0 < a <= b
    ensures ValidateVolSize(rnd, a, 0).SizeKiB? && ValidateVolSize(rnd, b, 0).SizeKiB?
    ensures ValidateVolSize(rnd, a, 0).kib <= ValidateVolSize(rnd, b, 0).kib
  {
    ValidSize(rnd, a, 0);
    ValidSize(rnd, b, 0);
  }

  /** A volume size, asked for again in bytes, is kept. */
  lemma SizeIsIdempotent(rnd: real -> real, required: int64, limit: int64)
    requires Rounding(rnd) && required >= 0 && limit >= 0 && RequestedKiB(required) <= LARGEST_KIB
    requires ValidateVolSize(rnd, required, limit).SizeKiB?
    ensures var kib := ValidateVolSize(rnd, required, limit).kib;
            0 <= kib * BYTES_IN_KIB < TWO_TO_63 && ValidateVolSize(rnd, kib * BYTES_IN_KIB, limit) == SizeKiB(kib)
  {
    ValidSize(rnd, required, limit);
    SizeInBytes(required);
    var kib := RoundedKiB(required);
    ValidSize(rnd, kib * BYTES_IN_KIB, limit);
    RoundedIsLeast(kib * BYTES_IN_KIB);
    assert IsVolumeSize(kib) && RequestedKiB(kib * BYTES_IN_KIB) == kib;
  }

  // ---------------------------------------------------------------- in bytes

  /** k times 8 GiB is the least size for a request in bytes, whose last 1023 bytes do not count; a request
      of 0 bytes stands for 16 GiB. */
  ghost predicate LeastEights(required: int64, k: nat) {
    if required == 0 then k == 2
    else
      && k >= 1 && required < k * 8589934592 + 1024
      && (k > 1 ==> (k - 1) * 8589934592 + 1024 <= required)
  }

  lemma EightsExist(required: int64)
    requires required >= 0
    ensures exists k: nat :: LeastEights(required, k)
  {
    if required == 0 {
      assert LeastEights(required, 2);
    } else if required < 1024 {
      assert LeastEights(required, 1);
    } else {
      var k: nat := (required - 1024) / 8589934592 + 1;
      assert LeastEights(required, k);
    }
  }

  lemma EightsAreRounded(required: int64, k: nat)
    requires required >= 0 && LeastEights(required, k)
    ensures RoundedKiB(required) == k * 8388608
  {
    var wanted := RequestedKiB(required);
    var kib := RoundedKiB(required);
    RoundedIsLeast(required);
    MultipleScales(k * MULTIPLE_GIB);
    assert k * MULTIPLE_GIB * KIB_IN_GIB == k * MULTIPLE_KIB;
    assert wanted <= k * MULTIPLE_KIB;
    assert IsVolumeSize(k * MULTIPLE_KIB);
    var j := kib / MULTIPLE_KIB;
    assert kib == j * MULTIPLE_KIB;
  }

  /**
    The size in bytes, for every request and limit that are not negative: the least multiple of 8 GiB, and
    refused exactly if it exceeds a limit and fits into 64 bits.
  */
  lemma SizeIsLeastEights(rnd: real -> real, required: int64, limit: int64, k: nat)
    requires Rounding(rnd) && required >= 0 && limit >= 0 && LeastEights(required, k)
    ensures ValidateVolSize(rnd, required, limit) ==
            if 0 < limit < k * 8589934592 < 9223372036854775808 then Refused(OutOfRange) else SizeKiB(k * 8388608)
  {
    EightsAreRounded(required, k);
    ValidSize(rnd, required, limit);
    SizeInBytes(required);
  }

  /** Wrap-around keeps what fits into 64 bits and shifts the rest by a multiple of 2^64. */
  lemma WrapMeans(x: int)
    ensures -9223372036854775808 <= x < 9223372036854775808 ==> Wrap64(x) == x
    ensures exists k: int :: Wrap64(x) == x + k * 18446744073709551616
  {
    var q := (x + TWO_TO_63) / TWO_TO_64;
    assert x + TWO_TO_63 == TWO_TO_64 * q + (x + TWO_TO_63) % TWO_TO_64;
    assert Wrap64(x) == x + (-q) * 18446744073709551616;
  }
}
