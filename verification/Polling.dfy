/** Poll options and the backoff of the blocking loops. Durations are signed 64-bit nanoseconds. */
module Polling {
  import opened Words

  const MAX_DURATION: int := 0x7fff_ffff_ffff_ffff
  const HALF_RANGE: int := 0x4000_0000_0000_0000
  const DEFAULT_MIN_POLL: int := 50_000
  const DEFAULT_MAX_POLL: int := 2_000_000

  datatype Bounds = Bounds(minPoll: int, maxPoll: int)

  predicate Sensible(b: Bounds) {
    0 < b.minPoll <= b.maxPoll <= MAX_DURATION
  }

  /** What one WithPollInterval(min, max) makes of the bounds: a positive argument replaces its bound,
      and then the larger bound is never below the smaller. */
  function Adjusted(b: Bounds, min: int, max: int): Bounds {
    var lo := if min > 0 then min else b.minPoll;
    var hi := if max > 0 then max else b.maxPoll;
    Bounds(lo, if hi < lo then lo else hi)
  }

  function Max(a: int, b: int): int {
    if a < b then b else a
  }

  /** The options struct that each Option changes in place. */
  class Options {
    var minPoll: int
    var maxPoll: int

    constructor ()
      ensures Current() == Bounds(DEFAULT_MIN_POLL, DEFAULT_MAX_POLL)
    {
      minPoll, maxPoll := DEFAULT_MIN_POLL, DEFAULT_MAX_POLL;
    }

    function Current(): Bounds
      reads this
    {
      Bounds(minPoll, maxPoll)
    }

    method WithPollInterval(minInterval: int, maxInterval: int)
      modifies this
      ensures Current() == Adjusted(old(Current()), minInterval, maxInterval)
      ensures minPoll == if minInterval > 0 then minInterval else old(minPoll)
      ensures maxPoll == Max(minPoll, if maxInterval > 0 then maxInterval else old(maxPoll))
      ensures Sensible(old(Current())) && minInterval <= MAX_DURATION && maxInterval <= MAX_DURATION ==>
                Sensible(Current())
    {
      if minInterval > 0 {
        minPoll := minInterval;
      }
      if maxInterval > 0 {
        maxPoll := maxInterval;
      }
      if maxPoll < minPoll {
        maxPoll := minPoll;
      }
    }
  }

  /** The bounds after a constructor has applied its list of options to the defaults. */
  function Configured(opts: seq<(int, int)>): Bounds {
    if opts == [] then Bounds(DEFAULT_MIN_POLL, DEFAULT_MAX_POLL)
    else
      var last := opts[|opts| - 1];
      Adjusted(Configured(opts[..|opts| - 1]), last.0, last.1)
  }

  /** Whatever options are given, in whatever order, the bounds are positive and ordered. */
  lemma {:induction false} ConfiguredIsSensible(opts: seq<(int, int)>)
    requires forall o :: o in opts ==> o.0 <= MAX_DURATION && o.1 <= MAX_DURATION
    ensures Sensible(Configured(opts))
  {
    if opts != [] {
      ConfiguredIsSensible(opts[..|opts| - 1]);
      assert opts[|opts| - 1] in opts;
    }
  }

  /** The smaller bound is the last positive one given, or the default of 50 microseconds. */
  lemma {:induction false} LastMinimumHolds(opts: seq<(int, int)>, k: int)
    requires -1 <= k < |opts| && (k >= 0 ==> opts[k].0 > 0)
    requires forall j :: k < j < |opts| ==> opts[j].0 <= 0
    ensures Configured(opts).minPoll == if k < 0 then 50_000 else opts[k].0
  {
    if k < |opts| - 1 {
      LastMinimumHolds(opts[..|opts| - 1], k);
    }
  }

  /** The smaller bound in effect right after option `j`. */
  function MinAfter(opts: seq<(int, int)>, j: nat): int
    requires j < |opts|
  {
    Configured(opts[..j + 1]).minPoll
  }

  lemma MaximumGoesOn(opts: seq<(int, int)>)
    requires opts != []
    ensures var front, last := opts[..|opts| - 1], opts[|opts| - 1];
            && Configured(opts).maxPoll
            == Max(MinAfter(opts, |opts| - 1), if last.1 > 0 then last.1 else Configured(front).maxPoll)
            && forall j: nat :: j < |front| ==> MinAfter(front, j) == MinAfter(opts, j)
  {
    assert opts[..|opts| - 1 + 1] == opts;
    var front := opts[..|opts| - 1];
    forall j: nat | j < |front|
      ensures MinAfter(front, j) == MinAfter(opts, j)
    {
      assert front[..j + 1] == opts[..j + 1];
    }
  }

  /** The larger bound is the last positive one given, or the default of 2 milliseconds, unless a smaller
      bound in effect since then lies above it: then it is the largest of those. */
  lemma {:induction false} LastMaximumHolds(opts: seq<(int, int)>, k: int)
    requires -1 <= k < |opts| && (k >= 0 ==> opts[k].1 > 0)
    requires forall j :: k < j < |opts| ==> opts[j].1 <= 0
    ensures Configured(opts).maxPoll >= if k < 0 then 2_000_000 else opts[k].1
    ensures forall j: nat :: k <= j < |opts| ==> Configured(opts).maxPoll >= MinAfter(opts, j)
    ensures || Configured(opts).maxPoll == (if k < 0 then 2_000_000 else opts[k].1)
            || exists j: nat :: k <= j < |opts| && Configured(opts).maxPoll == MinAfter(opts, j)
  {
    if opts != [] {
      MaximumGoesOn(opts);
      var front, n := opts[..|opts| - 1], |opts| - 1;
      if k < n {
        LastMaximumHolds(front, k);
        assert Configured(opts).maxPoll == Max(MinAfter(opts, n), Configured(front).maxPoll);
      }
    }
  }

  /** The loop every constructor runs over its options. */
  method Configure(opts: seq<(int, int)>) returns (b: Bounds)
    ensures b == Configured(opts)
  {
    var o := new Options();
    assert opts[..0] == [];
    for i := 0 to |opts|
      invariant fresh(o) && o.Current() == Configured(opts[..i])
    {
      assert opts[..i + 1][..i] == opts[..i];
      o.WithPollInterval(opts[i].0, opts[i].1);
    }
    assert opts[..|opts|] == opts;
    b := o.Current();
  }

  // ---- Backoff -----------------------------------------------------------------------

  /** Doubling a 64-bit duration, with wrap-around. */
  function Doubled(wait: int): int {
    if 2 * wait > MAX_DURATION then 2 * wait - 0x1_0000_0000_0000_0000
    else if 2 * wait < -MAX_DURATION - 1 then 2 * wait + 0x1_0000_0000_0000_0000
    else 2 * wait
  }

  /** That is the 64-bit product: in range, and equal to the true one modulo 2^64. */
  lemma DoubledWraps(wait: int)
    requires -MAX_DURATION - 1 <= wait <= MAX_DURATION
    ensures -MAX_DURATION - 1 <= Doubled(wait) <= MAX_DURATION
    ensures (Doubled(wait) - 2 * wait) % 0x1_0000_0000_0000_0000 == 0
  {
  }

  /** The statement at the foot of the polling loops. */
  function NextWait(wait: int, b: Bounds): int {
    if Doubled(wait) > b.maxPoll then b.maxPoll else Doubled(wait)
  }

  /** The wait after `k` attempts that moved nothing. */
  function Backoff(b: Bounds, k: nat): int {
    if k == 0 then b.minPoll else NextWait(Backoff(b, k - 1), b)
  }

  /** The wait the documentation describes: it starts at min and doubles up to max. */
  function Documented(b: Bounds, k: nat): int {
    Min(b.minPoll * Pow2(k), b.maxPoll)
  }

  lemma DocumentedDoubles(b: Bounds, k: nat)
    requires Sensible(b)
    ensures 0 < Documented(b, k) <= b.maxPoll
    ensures Documented(b, k + 1) == Min(2 * Documented(b, k), b.maxPoll)
  {
    Pow2Positive(k);
    var x := b.minPoll * Pow2(k);
    assert b.minPoll * Pow2(k + 1) == 2 * x by {
      MulAssoc(b.minPoll, Pow2(k), 2);
      assert Pow2(k + 1) == Pow2(k) * 2;
    }
    assert x >= b.minPoll by {
      MulDistributes(b.minPoll, Pow2(k) - 1, 1);
      MulNonNegative(b.minPoll, Pow2(k) - 1);
    }
  }

  lemma MulNonNegative(a: nat, b: nat)
    ensures a * b >= 0
  {
  }

  lemma NextWaitIs(wait: int, b: Bounds)
    requires 0 < wait <= b.maxPoll <= MAX_DURATION
    ensures wait < HALF_RANGE ==> NextWait(wait, b) == Min(2 * wait, b.maxPoll)
    ensures wait >= HALF_RANGE ==> NextWait(wait, b) < 0
  {
  }

  lemma {:induction false} BackoffIsDocumented(b: Bounds, k: nat)
    requires Sensible(b) && b.maxPoll < HALF_RANGE
    ensures Backoff(b, k) == Documented(b, k)
  {
    if k != 0 {
      BackoffIsDocumented(b, k - 1);
      DocumentedDoubles(b, k - 1);
      NextWaitIs(Documented(b, k - 1), b);
    }
  }

  lemma {:induction false} Pow2Exceeds(k: nat)
    ensures Pow2(k) > k
  {
    if k != 0 {
      Pow2Exceeds(k - 1);
    }
  }

  lemma DocumentedReaches(b: Bounds, k: nat)
    requires Sensible(b) && k <= b.maxPoll
    ensures Documented(b, k) >= k
  {
    Pow2Exceeds(k);
    MulNonNegative(b.minPoll - 1, Pow2(k));
    assert b.minPoll * Pow2(k) == (b.minPoll - 1) * Pow2(k) + Pow2(k);
  }

  /** Once the documented wait reaches 2^62 the doubling wraps to a negative wait. */
  lemma BackoffBreaks(b: Bounds, k: nat)
    requires Sensible(b) && Documented(b, k) >= HALF_RANGE && Backoff(b, k) == Documented(b, k)
    ensures Backoff(b, k + 1) < 0 < Documented(b, k + 1)
  {
    DocumentedDoubles(b, k);
    NextWaitIs(Documented(b, k), b);
  }

  /** The waits are min(minPoll * 2^k, maxPoll) for every k if and only if maxPoll is below 2^62
      nanoseconds. */
  lemma BackoffIsDocumentedIff(b: Bounds)
    requires Sensible(b)
    ensures (forall k: nat :: Backoff(b, k) == Documented(b, k)) <==> b.maxPoll < HALF_RANGE
  {
    if b.maxPoll < HALF_RANGE {
      forall k: nat ensures Backoff(b, k) == Documented(b, k) {
        BackoffIsDocumented(b, k);
      }
    } else {
      var k := HALF_RANGE;
      DocumentedReaches(b, k);
      if Backoff(b, k) == Documented(b, k) {
        BackoffBreaks(b, k);
      }
    }
  }
}
