/** Tree quotas of NFS filesystems: set from a percentage at creation, scaled at expansion. */
module Quota {
  import opened CsiTypes
  import opened VolumeSize

  datatype TreeQuota = TreeQuota(soft: int, hard: int)

  datatype Filesystem = Filesystem(size: int, quota: Option<TreeQuota>)

  /** Go divides towards zero. */
  function TruncDiv(a: int, b: int): int
    requires b != 0
  {
    if a >= 0 then a / b else -(-a / b)
  }

  /** The quota a filesystem of the given size is created with; None with status OK when there is none. */
  function CreateQuota(size: int, percent: int64): (Option<TreeQuota>, Status) {
    var soft := TruncDiv(Wrap64(percent * size), 100);
    if size <= 0 then (None, OK)
    else if soft >= size then (None, InvalidArgument)
    else if soft == 0 then (None, InvalidArgument)
    else (Some(TreeQuota(soft, size)), OK)
  }

  datatype ExpandEnv = ExpandEnv(systemFound: bool, resized: bool, quotaEnabled: bool, quotaRead: bool, quotaSet: bool)

  /** The source multiplies by a whole quotient. */
  function Scale(q: TreeQuota, requested: int): TreeQuota
    requires q.hard != 0
  {
    TreeQuota(q.soft * TruncDiv(requested, q.hard), requested)
  }

  datatype Outcome = Replied(status: Status) | Crashed

  /** A stored hard limit of zero is divided by, after the filesystem has been resized. */
  function ExpandNfs(fs: Filesystem, requested: int, e: ExpandEnv): (Filesystem, Outcome) {
    if requested <= fs.size then (fs, Replied(OK))
    else if !e.systemFound then (fs, Replied(Unknown))
    else if !e.resized then (fs, Replied(Internal))
    else
      var fs1 := fs.(size := requested);
      if !e.quotaEnabled then (fs1, Replied(OK))
      else if !e.quotaRead || fs.quota.None? then (fs1, Replied(Internal))
      else if fs.quota.value.hard == 0 then (fs1, Crashed)
      else if !e.quotaSet then (fs1, Replied(Internal))
      else (fs1.(quota := Some(Scale(fs.quota.value, requested))), Replied(OK))
  }

  class NfsVolume {
    var size: int
    var quota: Option<TreeQuota>

    function Now(): Filesystem
      reads this
    {
      Filesystem(size, quota)
    }

    /** Sound limits stay sound and never crash it. */
    method Expand(requested: int, e: ExpandEnv) returns (o: Outcome)
      modifies this
      ensures (Now(), o) == ExpandNfs(old(Now()), requested, e)
      ensures old(Sound(Now())) ==> Sound(Now()) && o.Replied?
      ensures old(size) <= size
    {
      ghost var before := Now();
      if Sound(before) {
        ExpandKeepsSound(before, requested, e);
      }
      if requested <= size {
        return Replied(OK);
      }
      if !e.systemFound {
        return Replied(Unknown);
      }
      if !e.resized {
        return Replied(Internal);
      }
      size := requested;
      if e.quotaEnabled {
        if !e.quotaRead || quota.None? {
          return Replied(Internal);
        }
        if quota.value.hard == 0 {
          return Crashed;
        }
        var updatedSoftLimit := quota.value.soft * TruncDiv(requested, quota.value.hard);
        if !e.quotaSet {
          return Replied(Internal);
        }
        quota := Some(TreeQuota(updatedSoftLimit, requested));
      }
      o := Replied(OK);
    }
  }

  // ---------------------------------------------------------------- sound quotas

  /** A quota is sound when its limits are in order and within the filesystem. */
  predicate Sound(fs: Filesystem) {
    fs.quota.Some? ==> 0 < fs.quota.value.soft < fs.quota.value.hard <= fs.size
  }

  /** A quota that creation lets through is sound exactly when the 64-bit product of percentage and size is
      positive; a negative percentage, or a product that wraps below zero, passes both tests. */
  lemma CreatedQuotaIsSoundIff(size: int64, percent: int64)
    requires CreateQuota(size, percent).0.Some?
    ensures Sound(Filesystem(size, CreateQuota(size, percent).0)) <==> Wrap64(percent * size) > 0
    ensures 0 <= percent && percent * size < TWO_TO_63 ==> Sound(Filesystem(size, CreateQuota(size, percent).0))
  {
    if 0 <= percent && percent * size < TWO_TO_63 {
      assert percent * size >= 0;
      assert Wrap64(percent * size) == percent * size;
    }
  }

  /** It happens: a negative percentage is accepted as a negative soft limit. */
  lemma NegativePercentage()
    ensures CreateQuota(100, -1) == (Some(TreeQuota(-1, 100)), OK)
  {
  }

  function Ratio(q: TreeQuota): real
    requires q.hard > 0
  {
    q.soft as real / q.hard as real
  }

  /** With k = requested / hard: soft * k stays below hard * k, which requested reaches. */
  lemma ScaleKeepsOrder(q: TreeQuota, requested: int)
    requires 0 < q.soft < q.hard <= requested
    ensures 0 < Scale(q, requested).soft < Scale(q, requested).hard
    ensures q.hard * (requested / q.hard) <= requested
    ensures q.hard * (requested / q.hard) == requested <==> requested % q.hard == 0
  {
    var k := requested / q.hard;
    QuotientPositive(q.hard, requested);
    assert q.hard * k <= requested;
    assert q.soft * k < q.hard * k;
    assert q.soft * k > 0;
  }

  lemma QuotientPositive(d: int, n: int)
    requires 0 < d <= n
    ensures n / d >= 1 && d * (n / d) <= n && (d * (n / d) == n <==> n % d == 0)
  {
    assert n == d * (n / d) + n % d;
  }

  /** Expansion never raises the share that the soft limit has of the hard limit, and keeps it exactly when
      the new size is a multiple of the old hard limit. */
  lemma ScaleLowersRatio(q: TreeQuota, requested: int)
    requires 0 < q.soft < q.hard <= requested
    ensures Ratio(Scale(q, requested)) <= Ratio(q)
    ensures Ratio(Scale(q, requested)) == Ratio(q) <==> requested % q.hard == 0
  {
    ScaleKeepsOrder(q, requested);
    QuotientPositive(q.hard, requested);
    RatioOrder(q.soft, requested / q.hard, q.hard, requested);
  }

  /** It happens: from 100 to 150 the soft limit stays at 50, and its share falls from a half to a third. */
  lemma SoftLimitStays()
    ensures Scale(TreeQuota(50, 100), 150) == TreeQuota(50, 150)
            && Ratio(TreeQuota(50, 150)) < Ratio(TreeQuota(50, 100))
  {
  }

  lemma RatioOrder(s: int, k: int, h: int, n: int)
    requires 0 < s && 0 < h && 0 < k && h * k <= n
    ensures (s * k) as real / n as real <= s as real / h as real
    ensures (s * k) as real / n as real == s as real / h as real <==> h * k == n
  {
    var a, b := (s * k) as real / n as real, s as real / h as real;
    assert s * k * h <= s * n && (s * k * h == s * n <==> h * k == n) by {
      assert s * k * h == s * (h * k);
      MulOrder(s, h * k, n);
    }
    CrossMultiply(s * k, n, s, h);
  }

  lemma MulOrder(s: int, a: int, b: int)
    requires s > 0 && a <= b
    ensures s * a <= s * b && (s * a == s * b <==> a == b)
  {
    if a < b {
      assert s * (b - a) > 0;
      assert s * b - s * a == s * (b - a);
    }
  }

  lemma CrossMultiply(a: int, b: int, c: int, d: int)
    requires b > 0 && d > 0
    ensures a as real / b as real <= c as real / d as real <==> a * d <= c * b
    ensures a as real / b as real == c as real / d as real <==> a * d == c * b
  {
    var x, y := a as real / b as real, c as real / d as real;
    var bd := b as real * d as real;
    assert x * bd == a as real * d as real by {
      assert x * b as real == a as real;
    }
    assert y * bd == c as real * b as real by {
      assert y * d as real == c as real;
    }
    assert (a * d) as real == a as real * d as real && (c * b) as real == c as real * b as real;
    ScaleReals(x, y, bd);
  }

  lemma ScaleReals(x: real, y: real, k: real)
    requires k > 0.0
    ensures x <= y <==> x * k <= y * k
    ensures x == y <==> x * k == y * k
  {
    if x < y {
      assert (y - x) * k > 0.0;
    } else if x > y {
      assert (x - y) * k > 0.0;
    }
  }

  // ---------------------------------------------------------------- runs

  datatype Expansion = Expansion(requested: int, env: ExpandEnv)

  lemma ExpandKeepsSound(fs: Filesystem, requested: int, e: ExpandEnv)
    requires Sound(fs)
    ensures ExpandNfs(fs, requested, e).1.Replied?
    ensures var fs' := ExpandNfs(fs, requested, e).0;
            && Sound(fs') && fs.size <= fs'.size && (fs'.quota.Some? <==> fs.quota.Some?)
            && (fs.quota.Some? ==> Ratio(fs'.quota.value) <= Ratio(fs.quota.value))
  {
    if requested > fs.size && fs.quota.Some? {
      ScaleKeepsOrder(fs.quota.value, requested);
      ScaleLowersRatio(fs.quota.value, requested);
    }
  }

  ghost function Run(fs: Filesystem, expansions: seq<Expansion>): (fs': Filesystem)
    requires Sound(fs)
    ensures Sound(fs')
  {
    if expansions == [] then fs
    else
      var last := expansions[|expansions| - 1];
      var before := Run(fs, expansions[..|expansions| - 1]);
      ExpandKeepsSound(before, last.requested, last.env);
      ExpandNfs(before, last.requested, last.env).0
  }

  /** Along every run of expansions, the ones included whose quota update failed, the soft limit stays
      positive and below the hard limit, the hard limit within the filesystem, the filesystem never
      shrinks, and the ratio of soft to hard limit never grows. */
  lemma {:induction false} QuotaStaysSound(fs: Filesystem, expansions: seq<Expansion>)
    requires Sound(fs)
    ensures var fs' := Run(fs, expansions);
            && Sound(fs') && fs.size <= fs'.size && (fs'.quota.Some? <==> fs.quota.Some?)
            && (fs.quota.Some? ==> Ratio(fs'.quota.value) <= Ratio(fs.quota.value))
  {
    if expansions != [] {
      var last := expansions[|expansions| - 1];
      QuotaStaysSound(fs, expansions[..|expansions| - 1]);
      ExpandKeepsSound(Run(fs, expansions[..|expansions| - 1]), last.requested, last.env);
    }
  }

  // ---------------------------------------------------------------- what creation and expansion answer

  lemma ShareOf(x: int, size: int)
    requires size > 0 && x >= 0
    ensures x / 100 >= size <==> x >= 100 * size
    ensures x / 100 == 0 <==> x < 100
  {
  }

  /**
    The quota of a new filesystem, if percentage times size fits into 64 bits: the hard limit is the size, the
    soft limit the percentage of it, rounded towards zero. A share that comes to nothing is refused, and so
    is one of the whole size; a negative one is not. A filesystem without a size gets no quota.
  */
  lemma CreateQuotaMeans(size: int64, percent: int64)
    requires -TWO_TO_63 <= percent * size < TWO_TO_63
    ensures var (q, s) := CreateQuota(size, percent);
            var share := percent * size;
            && (q.Some? ==>
                  && s == OK && size > 0 && q.value.hard == size
                  && (if share >= 0 then q.value.soft * 100 <= share < q.value.soft * 100 + 100
                      else q.value.soft * 100 - 100 < share <= q.value.soft * 100))
            && (size <= 0 ==> q == None && s == OK)
            && (size > 0 ==> (q.None? <==> -100 < share < 100 || share >= 100 * size))
            && (q.None? && size > 0 ==> s == InvalidArgument)
  {
    var share := percent * size;
    assert Wrap64(share) == share;
    if size > 0 && share >= 0 {
      ShareOf(share, size);
    } else if size > 0 {
      ShareOf(-share, size);
    }
  }

  /** The scaled soft limit is the old one times the number of times the old hard limit fits into the new size. */
  lemma ScaleMeans(q: TreeQuota, requested: int)
    requires q.hard > 0 && requested >= 0
    ensures var q' := Scale(q, requested);
            && q'.hard == requested
            && exists k: nat :: k * q.hard <= requested < (k + 1) * q.hard && q'.soft == q.soft * k
  {
    var k: nat := requested / q.hard;
    assert requested == q.hard * k + requested % q.hard;
    assert (k + 1) * q.hard == k * q.hard + q.hard;
    assert k * q.hard <= requested < (k + 1) * q.hard;
  }

  /**
    What each answer to an expansion means. Nothing shrinks: a size that is there already is answered with
    success. The filesystem grows before its quota is looked at, so an error may leave it grown with its
    old quota.
  */
  lemma ExpandMeans(fs: Filesystem, requested: int, e: ExpandEnv)
    requires fs.quota.Some? ==> fs.quota.value.hard > 0
    requires requested >= 0
    ensures var (fs', o) := ExpandNfs(fs, requested, e);
            var grows := requested > fs.size;
            var resized := grows && e.systemFound && e.resized;
            var scales := resized && e.quotaEnabled && e.quotaRead && fs.quota.Some? && e.quotaSet;
            && fs'.size == (if resized then requested else fs.size)
            && (fs'.quota != fs.quota ==> scales)
            && (scales ==> fs'.quota == Some(Scale(fs.quota.value, requested)))
            && (o == Replied(OK) <==> !grows || (resized && (e.quotaEnabled ==> scales)))
            && (o == Replied(Unknown) <==> grows && !e.systemFound)
            && (o == Replied(Internal) <==> grows && e.systemFound && !(resized && (e.quotaEnabled ==> scales)))
            && o.Replied?
  {
  }

  /** The crash: a hard limit of zero, met after the filesystem has grown. */
  lemma ExpandCrashesIff(fs: Filesystem, requested: int, e: ExpandEnv)
    ensures ExpandNfs(fs, requested, e).1 == Crashed <==>
              && requested > fs.size && e.systemFound && e.resized && e.quotaEnabled && e.quotaRead
              && fs.quota.Some? && fs.quota.value.hard == 0
    ensures ExpandNfs(fs, requested, e).1 == Crashed ==>
              ExpandNfs(fs, requested, e).0 == Filesystem(requested, fs.quota)
  {
  }
}
