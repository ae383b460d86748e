/**
 * The prime table of `_load_primes`: 1 followed by the primes in increasing
 * order, as many as the largest glyph dimension, found by trial division.
 */
module Primes {
  import opened Wrappers
  import opened Symbols
  import opened Tokens

  /** The source's test `all(num % i != 0 for i in range(2, isqrt(num) + 1))`. */
  predicate PassesTrial(n: nat) {
    forall i :: 2 <= i <= n && i * i <= n ==> n % i != 0
  }

  /** Primality by definition. */
  predicate IsPrime(n: nat) {
    n >= 2 && forall d :: 2 <= d < n ==> n % d != 0
  }

  lemma MulLeft(a: nat, b: nat, c: nat)
    requires a <= b
    ensures c * a <= c * b
  {
  }

  /** A multiple of q leaves no remainder (Euclidean division is unique). */
  lemma MultipleMod(n: nat, q: nat, d: nat)
    requires q > 0 && n == q * d
    ensures n % q == 0
  {
    var k := n / q;
    var r := n % q;
    assert n == q * k + r && 0 <= r < q;
    assert q * d - q * k == q * (d - k);
    if d - k >= 1 {
      MulLeft(1, d - k, q);
    } else if d - k <= -1 {
      MulLeft(1, k - d, q);
    }
    assert d - k == 0;
  }

  /** A number with a proper divisor has one no larger than its square root. */
  lemma SmallDivisor(n: nat, d: nat)
    requires 2 <= d < n && n % d == 0
    ensures exists e :: 2 <= e <= n && e * e <= n && n % e == 0
  {
    var q := n / d;
    assert n == d * q;
    assert q >= 2 by {
      if q <= 1 { MulLeft(q, 1, d); }
    }
    MultipleMod(n, d, q);
    if d <= q {
      MulLeft(d, q, d);
      assert 2 <= d <= n && d * d <= n && n % d == 0;
    } else {
      MulLeft(q, d, q);
      assert q * d == d * q;
      MultipleMod(n, q, d);
      assert q <= n by { MulLeft(1, d, q); }
      assert 2 <= q <= n && q * q <= n && n % q == 0;
    }
  }

  lemma CompositeFailsTrial(n: nat)
    requires n >= 2 && !IsPrime(n)
    ensures !PassesTrial(n)
  {
    var d :| 2 <= d < n && n % d == 0;
    SmallDivisor(n, d);
  }

  /** Trial division up to the square root decides primality for every candidate
      the source tests. */
  lemma TrialIsPrimality(n: nat)
    requires n >= 2
    ensures PassesTrial(n) <==> IsPrime(n)
  {
    if IsPrime(n) {
      forall i | 2 <= i <= n && i * i <= n ensures n % i != 0 {
        assert i < n by { assert i * i >= i * 2; }
      }
    } else {
      CompositeFailsTrial(n);
    }
  }

  predicate Increasing(s: seq<nat>) {
    forall i, j :: 0 <= i < j < |s| ==> s[i] < s[j]
  }

  /** The loop `for num in range(2, limit)` of `_load_primes`, from `num` on,
      with the list `acc` built so far: a passing number is appended, and the loop
      breaks once the list holds `count` entries. */
  function Sieve(num: nat, limit: nat, count: nat, acc: seq<nat>): seq<nat>
    decreases limit - num
  {
    if num >= limit then acc
    else if PassesTrial(num) then
      if |acc + [num]| >= count then acc + [num] else Sieve(num + 1, limit, count, acc + [num])
    else Sieve(num + 1, limit, count, acc)
  }

  /** `self.primes` after `_load_primes` with `primes_to_count == count`. */
  function PrimeTable(count: nat): seq<nat> {
    Sieve(2, count * count, count, [1])
  }

  /** What the loop keeps: 1 first, then increasing primes below `num`, every prime below `num` present. */
  predicate SieveState(num: nat, acc: seq<nat>) {
    |acc| >= 1 && acc[0] == 1 && Increasing(acc) &&
    (forall i :: 1 <= i < |acc| ==> IsPrime(acc[i]) && acc[i] < num) &&
    (forall p :: 2 <= p < num && IsPrime(p) ==> p in acc)
  }

  /** A prime appended to the table keeps the loop's state. */
  lemma SieveStatePrime(num: nat, acc: seq<nat>)
    requires 2 <= num && SieveState(num, acc) && IsPrime(num)
    ensures SieveState(num + 1, acc + [num])
  {
    var acc' := acc + [num];
    forall i, j | 0 <= i < j < |acc'| ensures acc'[i] < acc'[j] {
      if j == |acc| && i > 0 { assert acc'[i] == acc[i]; }
    }
    forall p | 2 <= p < num + 1 && IsPrime(p) ensures p in acc' {
      if p < num { assert p in acc; }
    }
  }

  /** A composite number skipped keeps the loop's state. */
  lemma SieveStateComposite(num: nat, acc: seq<nat>)
    requires 2 <= num && SieveState(num, acc) && !IsPrime(num)
    ensures SieveState(num + 1, acc)
  {
    forall p | 2 <= p < num + 1 && IsPrime(p) ensures p in acc {
      if p < num { assert p in acc; }
    }
  }

  /** The table the loop returns: all of it below the limit, and no prime
      skipped below its last entry (or below the limit when it is short). */
  predicate SieveResult(limit: nat, count: nat, acc: seq<nat>, r: seq<nat>) {
    |r| >= 1 && |r| >= |acc| && r[0] == 1 && Increasing(r) &&
    (forall i :: 1 <= i < |r| ==> IsPrime(r[i]) && r[i] < limit) &&
    (|r| <= count || r == acc) &&
    (forall p :: 2 <= p < r[|r| - 1] && IsPrime(p) ==> p in r) &&
    (|r| < count ==> forall p :: 2 <= p < limit && IsPrime(p) ==> p in r)
  }

  /** The state at the end of the loop is its result. */
  lemma SieveDone(num: nat, limit: nat, count: nat, acc: seq<nat>)
    requires 2 <= num && SieveState(num, acc) && num >= limit
    requires forall i :: 1 <= i < |acc| ==> acc[i] < limit
    ensures SieveResult(limit, count, acc, acc)
  {
    forall p | 2 <= p < acc[|acc| - 1] && IsPrime(p) ensures p in acc {
      assert |acc| > 1;
    }
  }

  /** The state when the table fills up on a prime is the result. */
  lemma SieveFull(num: nat, limit: nat, count: nat, acc: seq<nat>)
    requires 2 <= num < limit && SieveState(num + 1, acc + [num]) && |acc| < count <= |acc| + 1
    requires forall i :: 1 <= i < |acc| ==> acc[i] < limit
    ensures SieveResult(limit, count, acc, acc + [num])
  {
    var acc' := acc + [num];
    forall p | 2 <= p < num && IsPrime(p) ensures p in acc' {
      assert p < num + 1;
    }
  }

  /** A result from a longer table, short of the count, is a result from a shorter one. */
  lemma SieveResultFrom(limit: nat, count: nat, acc: seq<nat>, acc': seq<nat>, r: seq<nat>)
    requires |acc| < |acc'| < count && SieveResult(limit, count, acc', r)
    ensures SieveResult(limit, count, acc, r)
  {
  }

  lemma {:induction false} SieveSpec(num: nat, limit: nat, count: nat, acc: seq<nat>)
    requires 2 <= num && SieveState(num, acc)
    requires |acc| < count || num >= limit
    requires forall i :: 1 <= i < |acc| ==> acc[i] < limit
    ensures SieveResult(limit, count, acc, Sieve(num, limit, count, acc))
    decreases limit - num
  {
    if num >= limit {
      SieveDone(num, limit, count, acc);
    } else {
      TrialIsPrimality(num);
      if PassesTrial(num) {
        var acc' := acc + [num];
        SieveStatePrime(num, acc);
        if |acc'| < count {
          assert Sieve(num, limit, count, acc) == Sieve(num + 1, limit, count, acc');
          assert forall i :: 1 <= i < |acc'| ==> acc'[i] < limit;
          SieveSpec(num + 1, limit, count, acc');
          SieveResultFrom(limit, count, acc, acc', Sieve(num + 1, limit, count, acc'));
        } else {
          SieveFull(num, limit, count, acc);
        }
      } else {
        SieveStateComposite(num, acc);
        assert Sieve(num, limit, count, acc) == Sieve(num + 1, limit, count, acc);
        SieveSpec(num + 1, limit, count, acc);
      }
    }
  }

  /**
   * The prime table starts with 1, is strictly increasing, holds only primes
   * after that (all below count squared), skips no prime below its last entry,
   * has at most `count` entries (one when count is at most 1), and is short of
   * `count` only when every prime below count squared is in it.
   */
  lemma PrimeTableSpec(count: nat)
    ensures var t := PrimeTable(count);
            |t| >= 1 && t[0] == 1 && Increasing(t) &&
            (forall i :: 1 <= i < |t| ==> IsPrime(t[i]) && t[i] < count * count) &&
            |t| <= (if count <= 1 then 1 else count) &&
            (forall p :: 2 <= p < t[|t| - 1] && IsPrime(p) ==> p in t) &&
            (|t| < count ==> forall p :: 2 <= p < count * count && IsPrime(p) ==> p in t)
  {
    if count <= 1 {
      assert count * count <= 1;
    }
    SieveSpec(2, count * count, count, [1]);
  }

  /** `max(*[len(g) ...], *[len(g[0]) ...])`: the largest height and first-row width of
      any glyph: an IndexError for a glyph with no rows, a TypeError for no glyphs. */
  function PrimeCount(glyphs: seq<Glyph>): (r: Result<nat, Error>)
    ensures r.Ok? <==> |glyphs| > 0 && forall i :: 0 <= i < |glyphs| ==> |glyphs[i].grid| > 0
    ensures r.Ok? ==> (forall i :: 0 <= i < |glyphs| ==>
                         |glyphs[i].grid| <= r.value && |glyphs[i].grid[0]| <= r.value) &&
                      exists i :: 0 <= i < |glyphs| && (|glyphs[i].grid| == r.value || |glyphs[i].grid[0]| == r.value)
    ensures r.Err? && |glyphs| == 0 ==> r.error.PythonErr? && r.error.fault.TypeError?
    ensures r.Err? && |glyphs| > 0 ==> r.error.PythonErr? && r.error.fault.IndexError?
  {
    if exists i :: 0 <= i < |glyphs| && |glyphs[i].grid| == 0 then Err(PythonErr(IndexError("list index out of range")))
    else if |glyphs| == 0 then Err(PythonErr(TypeError("max expected at least 1 argument, got 0")))
    else Ok(MaxDim(glyphs))
  }

  function MaxDim(glyphs: seq<Glyph>): (m: nat)
    requires |glyphs| > 0 && forall i :: 0 <= i < |glyphs| ==> |glyphs[i].grid| > 0
    ensures forall i :: 0 <= i < |glyphs| ==> |glyphs[i].grid| <= m && |glyphs[i].grid[0]| <= m
    ensures exists i :: 0 <= i < |glyphs| && (|glyphs[i].grid| == m || |glyphs[i].grid[0]| == m)
  {
    var g := glyphs[0].grid;
    var here := if |g| >= |g[0]| then |g| else |g[0]|;
    if |glyphs| == 1 then here
    else
      var rest := glyphs[1..];
      assert forall i :: 1 <= i < |glyphs| ==> glyphs[i] == rest[i - 1];
      var m := MaxDim(rest);
      if here >= m then here else m
  }
}
