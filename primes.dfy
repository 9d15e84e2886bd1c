/** The stand-alone program in A.java: trial division finds and prints the
    first ten primes. Printing is replaced by returning the printed numbers. */
module PrimeLoop {

  /** How many primes the program prints. */
  const N: nat := 10

  predicate Divides(d: int, n: int) {
    d != 0 && n % d == 0
  }

  /** The mathematical notion the program is after. */
  ghost predicate IsPrime(n: int) {
    n >= 2 && forall d :: 2 <= d < n ==> !Divides(d, n)
  }

  /** The inner loop's verdict when it starts at divisor `i`: no `j` with
      `i <= j` and `j * j <= num` divides `num`. */
  function NoDivisorFrom(num: nat, i: nat): (b: bool)
    requires i >= 2
    ensures b <==> forall j :: i <= j && j * j <= num ==> !Divides(j, num)
    decreases num - i
  {
    if i * i > num then
      assert forall j :: i <= j ==> i * i <= j * j by {
        forall j | i <= j ensures i * i <= j * j { MulLeq(i, j); }
      }
      true
    else !Divides(i, num) && NoDivisorFrom(num, i + 1)
  }

  /** The test the program applies to each candidate. */
  predicate PassesTrialDivision(num: nat) {
    NoDivisorFrom(num, 2)
  }

  lemma MulLeq(a: nat, b: nat)
    requires a <= b
    ensures a * a <= b * b
  {
    MulMono(a, a, b);
    MulMono(b, a, b);
  }

  lemma MulMono(a: nat, b: nat, c: nat)
    requires b <= c
    ensures a * b <= a * c
  {
  }

  lemma {:induction false} PrimeHasNoDivisorFrom(num: nat, i: nat)
    requires i >= 2 && IsPrime(num)
    ensures NoDivisorFrom(num, i)
    decreases num - i
  {
    if i * i <= num {
      assert i < num by { MulMono(i, 2, i); }
      PrimeHasNoDivisorFrom(num, i + 1);
    }
  }

  lemma Cofactor(num: nat, d: nat) returns (q: nat)
    requires 2 <= d < num && Divides(d, num)
    ensures 2 <= q && d * q == num && q * d == num && Divides(q, num)
  {
    q := num / d;
    assert num == d * q + num % d;
    if q < 2 {
      MulMono(d, q, 1);
    }
    assert num % q == 0 by { DivisibleByCofactor(num, d, q); }
  }

  lemma DivisibleByCofactor(num: nat, d: nat, q: nat)
    requires q > 0 && num == d * q
    ensures num % q == 0
  {
    var k := num / q;
    var r := num % q;
    assert num == q * k + r;
    assert k <= d by {
      if k > d {
        assert q * (d + 1) == q * d + q;
        MulMono(q, d + 1, k);
      }
    }
    MulMono(q, k, d);
    assert q * d - q * k == q * (d - k);
    if k < d {
      MulMono(q, 1, d - k);
    }
  }

  /** A composite number has a divisor no larger than its square root. */
  lemma DivisorBelowRoot(num: nat, d: nat) returns (m: nat)
    requires 2 <= d < num && Divides(d, num)
    ensures 2 <= m && m * m <= num && Divides(m, num)
  {
    var q := Cofactor(num, d);
    if d <= q {
      MulMono(d, d, q);
      m := d;
    } else {
      MulMono(q, q, d);
      m := q;
    }
  }

  /** Trial division up to the square root decides primality. */
  lemma {:induction false} TrialDivisionDecidesPrimality(num: nat)
    requires num >= 2
    ensures PassesTrialDivision(num) <==> IsPrime(num)
  {
    if IsPrime(num) {
      PrimeHasNoDivisorFrom(num, 2);
    } else {
      var d :| 2 <= d < num && Divides(d, num);
      var m := DivisorBelowRoot(num, d);
    }
  }

  /** The numbers below `k` that pass the test, in increasing order: what the
      program has printed once its candidate has reached `k`. */
  function PrimesBelow(k: nat): seq<nat> {
    if k <= 2 then []
    else PrimesBelow(k - 1) + (if PassesTrialDivision(k - 1) then [k - 1] else [])
  }

  /** What has been printed below `k` is exactly the candidates that pass, in
      increasing order: none is skipped and none is repeated. */
  lemma {:induction false} PrimesBelowExactly(k: nat)
    ensures forall j :: 0 <= j < |PrimesBelow(k)| ==> 2 <= PrimesBelow(k)[j] < k && PassesTrialDivision(PrimesBelow(k)[j])
    ensures forall p: nat :: 2 <= p < k && PassesTrialDivision(p) ==> p in PrimesBelow(k)
    ensures forall j, l :: 0 <= j < l < |PrimesBelow(k)| ==> PrimesBelow(k)[j] < PrimesBelow(k)[l]
  {
    if k > 2 {
      PrimesBelowExactly(k - 1);
    }
  }

  lemma {:induction false} FewerThanNBelow(k: nat)
    requires 2 <= k < 30
    ensures |PrimesBelow(k)| < N
    decreases 30 - k
  {
    if k < 29 {
      FewerThanNBelow(k + 1);
    } else {
      CountBelowThirty();
    }
  }

  lemma CountBelowThirty()
    ensures |PrimesBelow(29)| == N - 1 && |PrimesBelow(30)| == N
  {
    PrimesBelowThirty();
  }

  /** The candidates below 30 that pass, worked out number by number. */
  lemma PrimesBelowThirty()
    ensures PrimesBelow(29) == [2, 3, 5, 7, 11, 13, 17, 19, 23]
    ensures PrimesBelow(30) == [2, 3, 5, 7, 11, 13, 17, 19, 23, 29]
  {
    assert PrimesBelow(8) == [2, 3, 5, 7];
    assert PrimesBelow(12) == [2, 3, 5, 7, 11];
    assert PrimesBelow(16) == [2, 3, 5, 7, 11, 13];
    assert PrimesBelow(20) == [2, 3, 5, 7, 11, 13, 17, 19];
    assert PrimesBelow(24) == [2, 3, 5, 7, 11, 13, 17, 19, 23];
    assert PrimesBelow(27) == [2, 3, 5, 7, 11, 13, 17, 19, 23];
  }

  /** The numbers printed by the time the candidate reaches 30 are the first
      ten primes: each is prime, they increase, and no prime up to the last of
      them is missing. */
  lemma {:induction false} FirstTenPrimes()
    ensures |PrimesBelow(30)| == N && PrimesBelow(30)[0] == 2
    ensures forall j, l :: 0 <= j < l < |PrimesBelow(30)| ==> PrimesBelow(30)[j] < PrimesBelow(30)[l]
    ensures forall j :: 0 <= j < |PrimesBelow(30)| ==> IsPrime(PrimesBelow(30)[j])
    ensures forall p :: 2 <= p <= 29 && IsPrime(p) ==> p in PrimesBelow(30)
  {
    PrimesBelowThirty();
    PrimesBelowExactly(30);
    var ps := PrimesBelow(30);
    forall j | 0 <= j < |ps|
      ensures IsPrime(ps[j])
    {
      TrialDivisionDecidesPrimality(ps[j]);
    }
    forall p | 2 <= p <= 29 && IsPrime(p)
      ensures p in ps
    {
      TrialDivisionDecidesPrimality(p);
    }
  }

  /** The loop of `A.main`: candidates from 2 upward, each checked by an inner
      loop that stops at the first divisor `i` with `i * i <= num`. */
  method FirstPrimes() returns (printed: seq<int>)
    ensures |printed| == N
    ensures printed[0] == 2
    ensures forall j, l :: 0 <= j < l < |printed| ==> printed[j] < printed[l]
    ensures forall j :: 0 <= j < |printed| ==> IsPrime(printed[j])
    ensures forall p :: 2 <= p <= printed[|printed| - 1] && IsPrime(p) ==> p in printed
    ensures printed == [2, 3, 5, 7, 11, 13, 17, 19, 23, 29]
  {
    var n := N;
    var count := 0;
    var num := 2;
    printed := [];
    while count < n
      invariant 2 <= num <= 30
      invariant printed == PrimesBelow(num)
      invariant count == |printed|
      invariant num < 30 || count == n
      decreases 30 - num
    {
      var isPrime := true;
      var i := 2;
      while i * i <= num
        invariant 2 <= i
        invariant isPrime
        invariant NoDivisorFrom(num, 2) == NoDivisorFrom(num, i)
        decreases num - i
      {
        if num % i == 0 {
          isPrime := false;
          break;
        }
        MulMono(i, 2, i);
        i := i + 1;
      }
      if isPrime {
        printed := printed + [num];
        count := count + 1;
      }
      num := num + 1;
      if num == 30 {
        CountBelowThirty();
      }
    }
    if num < 30 {
      FewerThanNBelow(num);
      assert false;
    }
    assert printed == PrimesBelow(30);
    PrimesBelowThirty();
    FirstTenPrimes();
  }
}
