/**
 * How the position is split across the take-profit targets: equal shares, the
 * front-loaded and back-loaded tables, or custom shares entered one per target with
 * the last target taking what is left.
 */
module Allocation {
  import opened Wrappers

  /** The four choices of the distribution radio button; `Custom` carries the values typed into its inputs. */
  datatype Distribution = Equal | FrontLoaded | BackLoaded | Custom(requested: seq<int>)

  /** A custom input whose allowed range `[1, remaining]` is empty because the budget is spent. */
  datatype AllocationError = BudgetExhausted(index: nat)

  function SumReal(s: seq<real>): real {
    if s == [] then 0.0 else SumReal(s[..|s| - 1]) + s[|s| - 1]
  }

  function SumInt(s: seq<int>): int {
    if s == [] then 0 else SumInt(s[..|s| - 1]) + s[|s| - 1]
  }

  /** `k` copies of `c` add up to `k * c`. */
  lemma {:induction false} SumConstant(c: real, k: nat)
    ensures SumReal(seq(k, _ => c)) == k as real * c
  {
    if k > 0 {
      SumConstant(c, k - 1);
      assert seq(k, _ => c)[..k - 1] == seq(k - 1, _ => c);
    }
  }

  /** `[100/n] * n`: every target gets the same share and the shares add up to exactly 100. */
  function EqualShares(n: nat): (r: seq<real>)
    requires n >= 1
    ensures |r| == n
    ensures forall i, j :: 0 <= i < j < n ==> r[i] == r[j]
    ensures SumReal(r) == 100.0
  {
    var share := 100.0 / n as real;
    SumConstant(share, n);
    seq(n, _ => share)
  }

  lemma SumOfTable(a: real, b: real, c: real, d: real)
    ensures SumReal([a, b]) == a + b
    ensures SumReal([a, b, c]) == a + b + c
    ensures SumReal([a, b, c, d]) == a + b + c + d
  {
    assert [a][..0] == [];
    assert SumReal([a]) == a;
    assert [a, b][..1] == [a];
    assert [a, b, c][..2] == [a, b];
    assert [a, b, c, d][..3] == [a, b, c];
  }

  /** The front-loaded table: keyed by 2 and 3 targets, every other count gets the 4-target table. */
  function FrontTable(n: nat): (r: seq<real>)
    ensures SumReal(r) == 100.0
    ensures |r| == n <==> 2 <= n <= 4
    ensures forall i :: 0 < i < |r| ==> r[i - 1] > r[i]
  {
    SumOfTable(70.0, 30.0, 0.0, 0.0);
    SumOfTable(50.0, 30.0, 20.0, 0.0);
    SumOfTable(40.0, 30.0, 20.0, 10.0);
    if n == 2 then [70.0, 30.0]
    else if n == 3 then [50.0, 30.0, 20.0]
    else [40.0, 30.0, 20.0, 10.0]
  }

  /** The back-loaded table: the front-loaded one reversed, with the same fall-through. */
  function BackTable(n: nat): (r: seq<real>)
    ensures |r| == |FrontTable(n)| && forall i :: 0 <= i < |r| ==> r[i] == FrontTable(n)[|r| - 1 - i]
    ensures SumReal(r) == 100.0
    ensures |r| == n <==> 2 <= n <= 4
    ensures forall i :: 0 < i < |r| ==> r[i - 1] < r[i]
  {
    SumOfTable(30.0, 70.0, 0.0, 0.0);
    SumOfTable(20.0, 30.0, 50.0, 0.0);
    SumOfTable(10.0, 20.0, 30.0, 40.0);
    if n == 2 then [30.0, 70.0]
    else if n == 3 then [20.0, 30.0, 50.0]
    else [10.0, 20.0, 30.0, 40.0]
  }

  /** What a number input bounded by `[lo, hi]` can hand back for a requested value. */
  function Clamp(x: int, lo: int, hi: int): (r: int)
    requires lo <= hi
    ensures lo <= r <= hi
    ensures lo <= x <= hi ==> r == x
    ensures x < lo ==> r == lo
    ensures x > hi ==> r == hi
  {
    if x < lo then lo else if x > hi then hi else x
  }

  /**
   * The custom shares of the first `k` targets, each taken from its input within
   * `[1, remaining]` and subtracted from the remaining budget of 100.
   */
  function CustomPrefix(requested: seq<int>, k: nat): (r: Result<seq<int>, AllocationError>)
    requires k <= |requested|
    ensures r.Ok? ==> |r.value| == k && 0 <= SumInt(r.value) <= 100
    ensures r.Ok? ==> forall i :: 0 <= i < k ==> r.value[i] >= 1
    ensures r.Err? ==> r.error.index < k
  {
    if k == 0 then Ok([])
    else
      var before := CustomPrefix(requested, k - 1);
      if before.Err? then before
      else
        var remaining := 100 - SumInt(before.value);
        if remaining < 1 then Err(BudgetExhausted(k - 1))
        else Ok(before.value + [Clamp(requested[k - 1], 1, remaining)])
  }

  /** One more custom input: an error when nothing remains, otherwise the clamped value appended. */
  lemma CustomPrefixStep(requested: seq<int>, k: nat, before: seq<int>)
    requires 1 <= k <= |requested| && CustomPrefix(requested, k - 1) == Ok(before)
    ensures CustomPrefix(requested, k)
            == if 100 - SumInt(before) < 1 then Err(BudgetExhausted(k - 1))
               else Ok(before + [Clamp(requested[k - 1], 1, 100 - SumInt(before))])
  {
  }

  /** A successful prefix of custom shares extends every shorter one. */
  lemma {:induction false} PrefixOfPrefix(requested: seq<int>, j: nat, k: nat)
    requires j <= k <= |requested| && CustomPrefix(requested, k).Ok?
    ensures CustomPrefix(requested, j) == Ok(CustomPrefix(requested, k).value[..j])
    decreases k
  {
    if j < k {
      var p := CustomPrefix(requested, k).value;
      var before := CustomPrefix(requested, k - 1).value;
      assert p[..k - 1] == before;
      PrefixOfPrefix(requested, j, k - 1);
      assert before[..j] == p[..j];
    } else {
      assert CustomPrefix(requested, k).value[..k] == CustomPrefix(requested, k).value;
    }
  }

  /** Once the budget runs out the custom inputs stop: the same error for every longer prefix. */
  lemma {:induction false} PrefixErrorSticks(requested: seq<int>, j: nat, k: nat)
    requires j <= k <= |requested| && CustomPrefix(requested, j).Err?
    ensures CustomPrefix(requested, k) == CustomPrefix(requested, j)
    decreases k - j
  {
    if j < k {
      PrefixErrorSticks(requested, j, k - 1);
    }
  }

  /** The custom shares of `n` targets: the last one absorbs whatever the others left. */
  function CustomShares(n: nat, requested: seq<int>): (r: Result<seq<int>, AllocationError>)
    requires n >= 1 && |requested| >= n - 1
    ensures r.Ok? ==> |r.value| == n && r.value[n - 1] == 100 - SumInt(r.value[..n - 1])
    ensures r.Err? ==> r.error.index < n - 1
  {
    var before := CustomPrefix(requested, n - 1);
    if before.Err? then Err(before.error)
    else Ok(before.value + [100 - SumInt(before.value)])
  }

  lemma LastShareAbsorbsRemainder(n: nat, requested: seq<int>, before: seq<int>)
    requires n >= 1 && |requested| >= n - 1 && CustomPrefix(requested, n - 1) == Ok(before)
    ensures CustomShares(n, requested) == Ok(before + [100 - SumInt(before)])
  {
  }

  /** The custom-distribution loop: one input per target but the last, whose share is what remains. */
  method CustomAllocation(n: nat, requested: seq<int>) returns (r: Result<seq<int>, AllocationError>)
    requires n >= 1 && |requested| >= n - 1
    ensures r == CustomShares(n, requested)
  {
    var shares: seq<int> := [];
    var remaining := 100;
    var i := 0;
    while i < n
      invariant 0 <= i <= n
      invariant i < n ==> CustomPrefix(requested, i) == Ok(shares)
      invariant i < n ==> remaining == 100 - SumInt(shares)
      invariant i == n ==> CustomShares(n, requested) == Ok(shares)
    {
      var pct;
      if i == n - 1 {
        pct := remaining;
        LastShareAbsorbsRemainder(n, requested, shares);
      } else {
        if remaining < 1 {
          CustomExhausted(n, requested, i, shares);
          return Err(BudgetExhausted(i));
        }
        pct := Clamp(requested[i], 1, remaining);
        CustomStep(requested, i, shares);
        remaining := remaining - pct;
      }
      shares := shares + [pct];
      i := i + 1;
    }
    return Ok(shares);
  }

  /** A step of the custom loop with budget left appends the clamped input and spends it. */
  lemma CustomStep(requested: seq<int>, i: nat, shares: seq<int>)
    requires i < |requested| && CustomPrefix(requested, i) == Ok(shares) && 100 - SumInt(shares) >= 1
    ensures var pct := Clamp(requested[i], 1, 100 - SumInt(shares));
            CustomPrefix(requested, i + 1) == Ok(shares + [pct]) && SumInt(shares + [pct]) == SumInt(shares) + pct
  {
    CustomPrefixStep(requested, i + 1, shares);
    SumIntAppend(shares, Clamp(requested[i], 1, 100 - SumInt(shares)));
  }

  /** A non-final custom input with no budget left fails the whole distribution. */
  lemma CustomExhausted(n: nat, requested: seq<int>, i: nat, shares: seq<int>)
    requires i < n - 1 && |requested| >= n - 1 && CustomPrefix(requested, i) == Ok(shares) && 100 - SumInt(shares) < 1
    ensures CustomShares(n, requested) == Err(BudgetExhausted(i))
  {
    StepFails(requested, i, shares);
    PrefixErrorSticks(requested, i + 1, n - 1);
    PrefixErrorFailsShares(n, requested, BudgetExhausted(i));
  }

  lemma StepFails(requested: seq<int>, i: nat, shares: seq<int>)
    requires i < |requested| && CustomPrefix(requested, i) == Ok(shares) && 100 - SumInt(shares) < 1
    ensures CustomPrefix(requested, i + 1) == Err(BudgetExhausted(i))
  {
    CustomPrefixStep(requested, i + 1, shares);
  }

  lemma PrefixErrorFailsShares(n: nat, requested: seq<int>, e: AllocationError)
    requires n >= 1 && |requested| >= n - 1 && CustomPrefix(requested, n - 1) == Err(e)
    ensures CustomShares(n, requested) == Err(e)
  {
  }

  lemma SumIntAppend(s: seq<int>, x: int)
    ensures SumInt(s + [x]) == SumInt(s) + x
  {
    assert (s + [x])[..|s|] == s;
  }

  function ToReals(s: seq<int>): (r: seq<real>)
    ensures |r| == |s| && forall i :: 0 <= i < |s| ==> r[i] == s[i] as real
  {
    seq(|s|, i requires 0 <= i < |s| => s[i] as real)
  }

  lemma {:induction false} SumToReals(s: seq<int>)
    ensures SumReal(ToReals(s)) == SumInt(s) as real
  {
    if s != [] {
      SumToReals(s[..|s| - 1]);
      assert ToReals(s)[..|s| - 1] == ToReals(s[..|s| - 1]);
    }
  }

  /** `tp_percentages` for `n` targets under distribution `d`. */
  function Shares(d: Distribution, n: nat): (r: Result<seq<real>, AllocationError>)
    requires n >= 1
    requires d.Custom? ==> |d.requested| >= n - 1
    ensures r.Err? <==> d.Custom? && CustomShares(n, d.requested).Err?
    ensures r.Ok? && !d.Custom? ==> SumReal(r.value) == 100.0
    ensures r.Ok? && (d.Equal? || d.Custom?) ==> |r.value| == n
  {
    match d
    case Equal => Ok(EqualShares(n))
    case FrontLoaded => Ok(FrontTable(n))
    case BackLoaded => Ok(BackTable(n))
    case Custom(requested) =>
      var c := CustomShares(n, requested);
      if c.Err? then Err(c.error) else Ok(ToReals(c.value))
  }

  /** The branch on the distribution type, with the custom loop for `Custom`. */
  method Allocate(d: Distribution, n: nat) returns (r: Result<seq<real>, AllocationError>)
    requires n >= 1
    requires d.Custom? ==> |d.requested| >= n - 1
    ensures r == Shares(d, n)
  {
    match d {
      case Equal =>
        r := Ok(EqualShares(n));
      case FrontLoaded =>
        r := Ok(FrontTable(n));
      case BackLoaded =>
        r := Ok(BackTable(n));
      case Custom(requested) =>
        var c := CustomAllocation(n, requested);
        if c.Err? {
          r := Err(c.error);
        } else {
          r := Ok(ToReals(c.value));
        }
    }
  }

  /** The budget left for target `i` once the shares before it are taken. */
  function Remaining(s: seq<int>, i: nat): int
    requires i <= |s|
  {
    100 - SumInt(s[..i])
  }

  /**
   * Each custom share before the last is the input clamped into `[1, remaining]`, where
   * `remaining` is 100 minus the shares before it and is at least 1.
   */
  lemma CustomPrefixClamps(requested: seq<int>, k: nat)
    requires k <= |requested| && CustomPrefix(requested, k).Ok?
    ensures var p := CustomPrefix(requested, k).value;
            forall i :: 0 <= i < k ==> Remaining(p, i) >= 1
                                       && p[i] == Clamp(requested[i], 1, Remaining(p, i))
  {
    var p := CustomPrefix(requested, k).value;
    forall i | 0 <= i < k
      ensures Remaining(p, i) >= 1 && p[i] == Clamp(requested[i], 1, Remaining(p, i))
    {
      ClampAt(requested, k, i);
    }
  }

  lemma ClampAt(requested: seq<int>, k: nat, i: nat)
    requires i < k <= |requested| && CustomPrefix(requested, k).Ok?
    ensures var p := CustomPrefix(requested, k).value;
            Remaining(p, i) >= 1 && p[i] == Clamp(requested[i], 1, Remaining(p, i))
  {
    var p := CustomPrefix(requested, k).value;
    var before := p[..i];
    PrefixOfPrefix(requested, i, k);
    PrefixOfPrefix(requested, i + 1, k);
    assert p[..i + 1] == before + [p[i]];
    ClampFromStep(requested, i, before, p[i]);
  }

  /** The input appended by one step of the custom loop is clamped into what remained. */
  lemma ClampFromStep(requested: seq<int>, i: nat, before: seq<int>, x: int)
    requires i < |requested| && CustomPrefix(requested, i) == Ok(before)
    requires CustomPrefix(requested, i + 1) == Ok(before + [x])
    ensures 100 - SumInt(before) >= 1 && x == Clamp(requested[i], 1, 100 - SumInt(before))
  {
    CustomPrefixStep(requested, i + 1, before);
    assert (before + [x])[i] == x;
  }

  /**
   * The custom distribution as a whole: one share per target, the shares add up to
   * exactly 100, each share but the last lies in `[1, remaining]` and is the value typed
   * in whenever that value is in range, and the last share is what remains (never negative).
   */
  lemma CustomSharesAddUp(n: nat, requested: seq<int>)
    requires n >= 1 && |requested| >= n - 1 && CustomShares(n, requested).Ok?
    ensures var s := CustomShares(n, requested).value;
            |s| == n && SumInt(s) == 100
            && (forall i :: 0 <= i < n - 1 ==> 1 <= s[i] <= Remaining(s, i))
            && (forall i :: 0 <= i < n - 1 && 1 <= requested[i] <= Remaining(s, i) ==> s[i] == requested[i])
            && s[n - 1] == Remaining(s, n - 1) >= 0
  {
    var p := CustomPrefix(requested, n - 1).value;
    var last := 100 - SumInt(p);
    var s := CustomShares(n, requested).value;
    assert s == p + [last];
    CustomPrefixClamps(requested, n - 1);
    SumIntAppend(p, last);
    AppendKeepsRemaining(p, last, n - 1);
    forall i | 0 <= i < n - 1
      ensures 1 <= s[i] <= Remaining(s, i)
      ensures 1 <= requested[i] <= Remaining(s, i) ==> s[i] == requested[i]
    {
      AppendKeepsRemaining(p, last, i);
    }
  }

  lemma AppendKeepsRemaining(p: seq<int>, x: int, i: nat)
    requires i <= |p|
    ensures Remaining(p + [x], i) == Remaining(p, i)
    ensures i < |p| ==> (p + [x])[i] == p[i]
  {
    assert (p + [x])[..i] == p[..i];
  }

  /**
   * The custom inputs fail only when the budget is spent before the last target: the
   * shares before the failing input already add up to 100.
   */
  lemma {:induction false} CustomPrefixFailsOnlyWhenSpent(requested: seq<int>, k: nat)
    requires k <= |requested| && CustomPrefix(requested, k).Err?
    ensures var j := CustomPrefix(requested, k).error.index;
            j < k && CustomPrefix(requested, j).Ok? && SumInt(CustomPrefix(requested, j).value) == 100
  {
    if CustomPrefix(requested, k - 1).Err? {
      CustomPrefixFailsOnlyWhenSpent(requested, k - 1);
    }
  }

  /** Custom inputs of 30, 30 and 30 over three targets: the last target absorbs the remaining 40. */
  lemma CustomRemainderExample()
    ensures CustomShares(3, [30, 30, 30]) == Ok([30, 30, 40])
  {
    var r := [30, 30, 30];
    assert SumInt([30]) == 30 by {
      assert [30][..0] == [];
    }
    assert SumInt([30, 30]) == 60 by {
      assert [30, 30][..1] == [30];
    }
    assert CustomPrefix(r, 0) == Ok([]);
    CustomPrefixStep(r, 1, []);
    assert [] + [Clamp(30, 1, 100)] == [30];
    CustomPrefixStep(r, 2, [30]);
    assert [30] + [Clamp(30, 1, 70)] == [30, 30];
    LastShareAbsorbsRemainder(3, r, [30, 30]);
    assert [30, 30] + [100 - 60] == [30, 30, 40];
  }

  /**
   * Every distribution adds up to 100, but its length matches the number of targets
   * only for Equal, Custom, or the tables with 2, 3 or 4 targets. The tables are too
   * short from 5 targets on, and with a single target they are too long, so that
   * target is given only 40 (front-loaded) or 10 (back-loaded) per cent.
   */
  lemma AllocationFitsIff(d: Distribution, n: nat)
    requires n >= 1 && (d.Custom? ==> |d.requested| >= n - 1) && Shares(d, n).Ok?
    ensures var s := Shares(d, n).value;
            SumReal(s) == 100.0
            && (|s| == n <==> d.Equal? || d.Custom? || 2 <= n <= 4)
            && (|s| < n <==> (d.FrontLoaded? || d.BackLoaded?) && n >= 5)
            && (n == 1 && d.FrontLoaded? ==> s[0] == 40.0)
            && (n == 1 && d.BackLoaded? ==> s[0] == 10.0)
  {
    if d.Custom? {
      CustomSharesAddUp(n, d.requested);
      SumToReals(CustomShares(n, d.requested).value);
    }
  }
}
