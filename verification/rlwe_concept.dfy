/**
 A model of the Ring-LWE-style toy engine `RingLWECrypto`.

 All arithmetic is on unbounded integers. The vectors that the engine draws at
 random (the two key parts, the public polynomial `a` and the noise) are
 parameters; their ranges are preconditions. The floating-point FFT product is
 modelled as the exact integer cyclic convolution that it approximates.
 */
module RingLWE {

  datatype Option<T> = None | Some(value: T)

  /** Decrypted entries at or above this bound are taken to have wrapped around. */
  const PlaintextBound: int := 256

  /** The noise per entry is drawn from [(-q) div 150, q div 150] (floor division). */
  const NoiseDivisor: int := 150

  // ---------------------------------------------------------------------------
  // Modular arithmetic helpers

  lemma MulAtLeast(q: int, k: int)
    requires q > 0 && k >= 1
    ensures q * k >= q
  {
  }

  /** Euclidean division is unique: any decomposition y == q*t + r with 0 <= r < q gives y % q. */
  lemma ModUnique(y: int, q: int, t: int, r: int)
    requires q > 0 && 0 <= r < q && y == q * t + r
    ensures y % q == r
  {
    var t', r' := y / q, y % q;
    assert q * (t - t') == r' - r;
    if t - t' >= 1 {
      MulAtLeast(q, t - t');
    } else if t' - t >= 1 {
      MulAtLeast(q, t' - t);
    }
  }

  /** Adding a multiple of q does not change the residue. */
  lemma ModAddMultiple(y: int, k: int, q: int)
    requires q > 0
    ensures (y + q * k) % q == y % q
  {
    assert y + q * k == q * (y / q + k) + y % q;
    ModUnique(y + q * k, q, y / q + k, y % q);
  }

  /** A value within one modulus of [0, q) is reduced by at most one addition or subtraction of q. */
  lemma ModNear(v: int, q: int)
    requires q > 0 && -q <= v < 2 * q
    ensures v % q == if v < 0 then v + q else if v < q then v else v - q
  {
  }

  // ---------------------------------------------------------------------------
  // Sums and the cyclic convolution

  /** The sum of a sequence of integers. */
  function Sum(s: seq<int>): int
  {
    if s == [] then 0 else s[0] + Sum(s[1..])
  }

  lemma {:induction false} SumAppend(s: seq<int>, t: seq<int>)
    ensures Sum(s + t) == Sum(s) + Sum(t)
  {
    if s == [] {
      assert s + t == t;
    } else {
      assert (s + t)[0] == s[0];
      assert (s + t)[1..] == s[1..] + t;
      SumAppend(s[1..], t);
    }
  }

  function Reverse(s: seq<int>): seq<int>
  {
    seq(|s|, i requires 0 <= i < |s| => s[|s| - 1 - i])
  }

  /** Summing in the opposite order gives the same total. */
  lemma {:induction false} SumReverse(s: seq<int>)
    ensures Sum(Reverse(s)) == Sum(s)
  {
    if s != [] {
      var init, last := s[..|s| - 1], s[|s| - 1];
      assert Reverse(s) == [last] + Reverse(init);
      assert s == init + [last];
      SumReverse(init);
      SumAppend(init, [last]);
      assert ([last] + Reverse(init))[1..] == Reverse(init);
    }
  }

  /**
   The n products a[i] * b[(k - i) mod n], one for each i: the terms whose sum
   is entry k of the cyclic convolution of a and b.
   */
  function Terms(a: seq<int>, b: seq<int>, k: int): seq<int>
    requires |a| == |b|
  {
    seq(|a|, i requires 0 <= i < |a| => a[i] * b[(k - i) % |a|])
  }

  /**
   Each pair of indices (i, j) with i + j == k (mod n) is counted exactly once by
   Terms: for a given i, j == (k - i) mod n is its only partner. So Sum(Terms(a, b, k))
   is the sum over all i + j == k (mod n) of a[i] * b[j].
   */
  lemma ConvolutionPairs(n: int, k: int, i: int, j: int)
    requires 0 <= i < n && 0 <= j < n && 0 <= k < n
    ensures (i + j) % n == k <==> j == (k - i) % n
  {
    ModNear(i + j, n);
    ModNear(k - i, n);
  }

  /**
   The exact product of two length-n polynomials modulo X^n - 1 (the cyclic
   convolution), with every coefficient reduced into [0, q).
   */
  function PolyMul(a: seq<int>, b: seq<int>, q: int): (r: seq<int>)
    requires |a| == |b| && q > 0
    ensures |r| == |a|
    ensures forall k :: 0 <= k < |r| ==> 0 <= r[k] < q
  {
    seq(|a|, k requires 0 <= k < |a| => Sum(Terms(a, b, k)) % q)
  }

  /** A sequence of zeros sums to zero. */
  lemma {:induction false} SumOfZeros(s: seq<int>)
    requires forall i :: 0 <= i < |s| ==> s[i] == 0
    ensures Sum(s) == 0
  {
    if s != [] {
      SumOfZeros(s[1..]);
    }
  }

  /** A sequence that is zero everywhere except at index j sums to its entry at j. */
  lemma SumOfSingleEntry(s: seq<int>, j: int)
    requires 0 <= j < |s|
    requires forall i :: 0 <= i < |s| && i != j ==> s[i] == 0
    ensures Sum(s) == s[j]
  {
    assert s == s[..j] + [s[j]] + s[j + 1..];
    SumAppend(s[..j] + [s[j]], s[j + 1..]);
    SumAppend(s[..j], [s[j]]);
    SumOfZeros(s[..j]);
    SumOfZeros(s[j + 1..]);
    assert [s[j]][1..] == [];
  }

  /** Row i of the table of all products a[i] * b[j], keeping only the pairs with i + j == k (mod n). */
  function PairRow(a: seq<int>, b: seq<int>, k: int, i: int): seq<int>
    requires |a| == |b| && 0 <= i < |a|
  {
    seq(|b|, j requires 0 <= j < |b| => if (i + j) % |a| == k then a[i] * b[j] else 0)
  }

  /**
   The reference definition of entry k of a cyclic convolution: the sum, over all
   n * n index pairs (i, j) with i + j == k (mod n), of a[i] * b[j].
   */
  function PairSum(a: seq<int>, b: seq<int>, k: int): int
    requires |a| == |b|
  {
    Sum(seq(|a|, i requires 0 <= i < |a| => Sum(PairRow(a, b, k, i))))
  }

  /** Each row of the pair table holds exactly one pair, so it sums to the term of Terms at i. */
  lemma PairRowSum(a: seq<int>, b: seq<int>, k: int, i: int)
    requires |a| == |b| && 0 <= i < |a| && 0 <= k < |a|
    ensures Sum(PairRow(a, b, k, i)) == Terms(a, b, k)[i]
  {
    var n, row := |a|, PairRow(a, b, k, i);
    var j := (k - i) % n;
    forall j' | 0 <= j' < n
      ensures row[j'] != 0 ==> j' == j
    {
      ConvolutionPairs(n, k, i, j');
    }
    ConvolutionPairs(n, k, i, j);
    SumOfSingleEntry(row, j);
  }

  /**
   Entry k of PolyMul is the reference pair sum reduced mod q: the sum of a[i] * b[j]
   over all pairs i + j == k (mod n), which is the cyclic convolution the FFT product computes.
   */
  lemma PolyMulIsPairSum(a: seq<int>, b: seq<int>, q: int)
    requires |a| == |b| && q > 0
    ensures forall k :: 0 <= k < |a| ==> PolyMul(a, b, q)[k] == PairSum(a, b, k) % q
  {
    forall k | 0 <= k < |a|
      ensures Sum(Terms(a, b, k)) == PairSum(a, b, k)
    {
      var rows := seq(|a|, i requires 0 <= i < |a| => Sum(PairRow(a, b, k, i)));
      forall i | 0 <= i < |a|
        ensures rows[i] == Terms(a, b, k)[i]
      {
        PairRowSum(a, b, k, i);
      }
      assert rows == Terms(a, b, k);
    }
  }

  /** The terms for (b, a) are those for (a, b) split after index k, each half reversed. */
  lemma TermsSwap(a: seq<int>, b: seq<int>, k: int)
    requires |a| == |b| && 0 <= k < |a|
    ensures Terms(b, a, k) == Reverse(Terms(a, b, k)[..k + 1]) + Reverse(Terms(a, b, k)[k + 1..])
  {
    var n, t := |a|, Terms(a, b, k);
    var lo, hi := Reverse(t[..k + 1]), Reverse(t[k + 1..]);
    forall j | 0 <= j < n
      ensures Terms(b, a, k)[j] == (lo + hi)[j]
    {
      if j <= k {
        ModNear(k - j, n);
        ModNear(k - (k - j), n);
        assert (lo + hi)[j] == t[k - j];
      } else {
        ModNear(k - j, n);
        ModNear(k - (n + k - j), n);
        assert (lo + hi)[j] == t[n + k - j];
      }
    }
  }

  /** The cyclic convolution is commutative. */
  lemma PolyMulCommutes(a: seq<int>, b: seq<int>, q: int)
    requires |a| == |b| && q > 0
    ensures PolyMul(a, b, q) == PolyMul(b, a, q)
  {
    forall k | 0 <= k < |a|
      ensures Sum(Terms(a, b, k)) == Sum(Terms(b, a, k))
    {
      var t := Terms(a, b, k);
      TermsSwap(a, b, k);
      SumAppend(Reverse(t[..k + 1]), Reverse(t[k + 1..]));
      SumReverse(t[..k + 1]);
      SumReverse(t[k + 1..]);
      SumAppend(t[..k + 1], t[k + 1..]);
      assert t[..k + 1] + t[k + 1..] == t;
    }
  }

  // ---------------------------------------------------------------------------
  // Element-wise modular vector arithmetic

  /** (x + y) mod q, entry by entry. */
  function AddMod(x: seq<int>, y: seq<int>, q: int): (r: seq<int>)
    requires |x| == |y| && q > 0
    ensures |r| == |x|
    ensures forall i :: 0 <= i < |r| ==> 0 <= r[i] < q
  {
    seq(|x|, i requires 0 <= i < |x| => (x[i] + y[i]) % q)
  }

  /** (c - s + q) mod q, entry by entry. */
  function SubMod(c: seq<int>, s: seq<int>, q: int): (r: seq<int>)
    requires |c| == |s| && q > 0
    ensures |r| == |c|
    ensures forall i :: 0 <= i < |r| ==> 0 <= r[i] < q
  {
    seq(|c|, i requires 0 <= i < |c| => (c[i] - s[i] + q) % q)
  }

  /** Subtracting s undoes adding s: both are taken mod q, and x is already reduced. */
  lemma SubModAddMod(s: seq<int>, x: seq<int>, q: int)
    requires |s| == |x| && q > 0
    requires forall i :: 0 <= i < |s| ==> 0 <= s[i] < q
    requires forall i :: 0 <= i < |x| ==> 0 <= x[i] < q
    ensures SubMod(AddMod(s, x, q), s, q) == x
  {
    var c := AddMod(s, x, q);
    forall i | 0 <= i < |s|
      ensures SubMod(c, s, q)[i] == x[i]
    {
      ModNear(s[i] + x[i], q);
      ModNear(c[i] - s[i] + q, q);
    }
  }

  // ---------------------------------------------------------------------------
  // Key generation, padding and noise

  /** The secret key: the entry-wise sum of two vectors drawn uniformly from [0, q), reduced mod q. */
  function GenerateSecretKey(keyPart1: seq<int>, keyPart2: seq<int>, q: int): (key: seq<int>)
    requires q > 0 && |keyPart1| == |keyPart2|
    requires forall i :: 0 <= i < |keyPart1| ==> 0 <= keyPart1[i] < q
    requires forall i :: 0 <= i < |keyPart2| ==> 0 <= keyPart2[i] < q
    ensures |key| == |keyPart1|
    ensures forall i :: 0 <= i < |key| ==> 0 <= key[i] < q
    ensures forall i :: 0 <= i < |key| ==>
      key[i] == if keyPart1[i] + keyPart2[i] < q then keyPart1[i] + keyPart2[i]
                else keyPart1[i] + keyPart2[i] - q
  {
    var key := AddMod(keyPart1, keyPart2, q);
    assert forall i :: 0 <= i < |key| ==>
      key[i] == if keyPart1[i] + keyPart2[i] < q then keyPart1[i] + keyPart2[i]
                else keyPart1[i] + keyPart2[i] - q
    by {
      forall i | 0 <= i < |key| {
        ModNear(keyPart1[i] + keyPart2[i], q);
      }
    }
    key
  }

  /** A vector of n zeros: the padding of a short message, or the noise of an encryption that adds none. */
  function Zeros(n: nat): (z: seq<int>)
    ensures |z| == n && forall i :: 0 <= i < n ==> z[i] == 0
  {
    seq(n, _ => 0)
  }

  /** A message of length at most n, followed by zeros up to length n. */
  function Pad(m: seq<int>, n: nat): (p: seq<int>)
    requires |m| <= n
    ensures |p| == n
    ensures p[..|m|] == m
    ensures forall i :: |m| <= i < n ==> p[i] == 0
  {
    m + Zeros(n - |m|)
  }

  /** Padding as the source writes it: the two-axis pad width raises on a one-axis row (None). */
  function PadAsWritten(m: seq<int>, n: nat): (r: Option<seq<int>>)
    ensures r.Some? <==> n <= |m|
    ensures r.Some? ==> r.value == m
  {
    if |m| < n then None else Some(m)
  }

  /** A two-entry message for a ring of degree 4 is rejected as written, though padding it is well defined. */
  lemma PadAsWrittenRejectsShortRow()
    ensures PadAsWritten([72, 105], 4) == None
    ensures Pad([72, 105], 4) == [72, 105, 0, 0]
  {
    assert Pad([72, 105], 4)[..2] == [72, 105];
  }

  /** Every entry of the noise vector lies within the inclusive bounds of the integer draw. */
  predicate NoiseInRange(e: seq<int>, q: int)
  {
    forall i :: 0 <= i < |e| ==> (-q) / NoiseDivisor <= e[i] <= q / NoiseDivisor
  }

  /** The padded message plus the noise, reduced mod q. */
  function AddNoise(m: seq<int>, e: seq<int>, n: nat, q: int): (noisy: seq<int>)
    requires q > 0 && |m| <= n && |e| == n && NoiseInRange(e, q)
    ensures |noisy| == n
    ensures forall i :: 0 <= i < n ==> 0 <= noisy[i] < q
    ensures forall i :: 0 <= i < |m| ==> noisy[i] == (m[i] + e[i]) % q
    ensures forall i :: |m| <= i < n ==> noisy[i] == e[i] % q
  {
    var p := Pad(m, n);
    assert forall i :: 0 <= i < |m| ==> p[i] == m[i] by {
      forall i | 0 <= i < |m| ensures p[i] == m[i] {
        assert p[i] == p[..|m|][i];
      }
    }
    AddMod(p, e, q)
  }

  // ---------------------------------------------------------------------------
  // Decoding threshold

  /** Entries below the plaintext bound stay; the others are taken to have wrapped and lose q. */
  function Recenter(d: seq<int>, q: int): seq<int>
  {
    seq(|d|, i requires 0 <= i < |d| => if d[i] < PlaintextBound then d[i] else d[i] - q)
  }

  /**
   On reduced input, Recenter keeps each entry's residue and lands in the window
   [256 - q, 256) when q >= 256 (in [0, q) for a smaller q), the one representative
   of the residue class in that window.
   */
  lemma RecenterWindow(d: seq<int>, q: int)
    requires q > 0
    requires forall i :: 0 <= i < |d| ==> 0 <= d[i] < q
    ensures |Recenter(d, q)| == |d|
    ensures forall i :: 0 <= i < |d| ==> Recenter(d, q)[i] % q == d[i]
    ensures forall i :: 0 <= i < |d| ==>
      if q >= PlaintextBound then PlaintextBound - q <= Recenter(d, q)[i] < PlaintextBound
      else 0 <= Recenter(d, q)[i] < q
  {
    forall i | 0 <= i < |d|
      ensures Recenter(d, q)[i] % q == d[i]
    {
      ModNear(Recenter(d, q)[i], q);
    }
  }

  // ---------------------------------------------------------------------------
  // The engine

  /**
   An engine with a fixed ring degree n, modulus q and secret key; all three are
   set once, by the constructor, and never change.
   */
  class RingLWECrypto {
    const n: nat
    const q: int
    const secretKey: seq<int>

    ghost predicate Valid()
    {
      q > 0 && |secretKey| == n && forall i :: 0 <= i < n ==> 0 <= secretKey[i] < q
    }

    /** keyPart1 and keyPart2 are the two vectors drawn uniformly from [0, q). */
    constructor (n: nat, q: int, keyPart1: seq<int>, keyPart2: seq<int>)
      requires q > 0 && |keyPart1| == n && |keyPart2| == n
      requires forall i :: 0 <= i < n ==> 0 <= keyPart1[i] < q
      requires forall i :: 0 <= i < n ==> 0 <= keyPart2[i] < q
      ensures Valid()
      ensures this.n == n && this.q == q
      ensures secretKey == GenerateSecretKey(keyPart1, keyPart2, q)
    {
      this.n := n;
      this.q := q;
      secretKey := GenerateSecretKey(keyPart1, keyPart2, q);
    }

    /**
     Encrypts a message with public polynomial a (drawn from [0, q)^n) and noise e;
     returns a and the ciphertext c = (a * s + noisy message) mod q. The ciphertext
     is the unique vector in [0, q)^n from which removing the key term gives back
     the noisy, padded message.
     */
    function Encrypt(message: seq<int>, a: seq<int>, e: seq<int>): (r: (seq<int>, seq<int>))
      requires Valid()
      requires |message| <= n
      requires |a| == n && forall i :: 0 <= i < n ==> 0 <= a[i] < q
      requires |e| == n && NoiseInRange(e, q)
      ensures r.0 == a
      ensures |r.1| == n && forall i :: 0 <= i < n ==> 0 <= r.1[i] < q
      ensures SubMod(r.1, PolyMul(a, secretKey, q), q) == AddNoise(message, e, n, q)
    {
      var keyTerm := PolyMul(a, secretKey, q);
      var noisy := AddNoise(message, e, n, q);
      SubModAddMod(keyTerm, noisy, q);
      (a, AddMod(keyTerm, noisy, q))
    }

    /**
     Removes the key term a * s from c and maps each entry into the plaintext
     window: the result is congruent to c - a * s mod q, entry by entry, and lies in
     [256 - q, 256) when q >= 256 (in [0, q) otherwise).
     */
    function Decrypt(a: seq<int>, c: seq<int>): (m: seq<int>)
      requires Valid()
      requires |a| == n && |c| == n
      ensures |m| == n
      ensures forall i :: 0 <= i < n ==>
        m[i] % q == (c[i] - PolyMul(a, secretKey, q)[i]) % q
      ensures forall i :: 0 <= i < n ==>
        if q >= PlaintextBound then PlaintextBound - q <= m[i] < PlaintextBound
        else 0 <= m[i] < q
    {
      var keyTerm := PolyMul(a, secretKey, q);
      var d := SubMod(c, keyTerm, q);
      RecenterWindow(d, q);
      assert forall i :: 0 <= i < n ==> d[i] == (c[i] - keyTerm[i]) % q by {
        forall i | 0 <= i < n {
          ModAddMultiple(c[i] - keyTerm[i], 1, q);
        }
      }
      Recenter(d, q)
    }
  }

  // ---------------------------------------------------------------------------
  // Round trips

  /** Decrypting an encryption gives the noisy padded message, passed through the threshold. */
  lemma DecryptEncrypt(engine: RingLWECrypto, m: seq<int>, a: seq<int>, e: seq<int>)
    requires engine.Valid()
    requires |m| <= engine.n
    requires |a| == engine.n && forall i :: 0 <= i < engine.n ==> 0 <= a[i] < engine.q
    requires |e| == engine.n && NoiseInRange(e, engine.q)
    ensures engine.Decrypt(a, engine.Encrypt(m, a, e).1) == Recenter(AddNoise(m, e, engine.n, engine.q), engine.q)
  {
  }

  /**
   The noise is never removed: every entry whose noisy value v = padded message + noise
   lies in [256 - q, 256) decrypts to exactly v, and any other v in [256, q) decrypts to v - q.
   */
  lemma {:induction false} DecryptRecoversNoisyEntry(engine: RingLWECrypto, m: seq<int>, a: seq<int>, e: seq<int>, i: nat)
    requires engine.Valid() && engine.q >= PlaintextBound
    requires |m| <= engine.n && i < engine.n
    requires |a| == engine.n && forall j :: 0 <= j < engine.n ==> 0 <= a[j] < engine.q
    requires |e| == engine.n && NoiseInRange(e, engine.q)
    requires PlaintextBound - engine.q <= Pad(m, engine.n)[i] + e[i] < engine.q
    ensures var v := Pad(m, engine.n)[i] + e[i];
      engine.Decrypt(a, engine.Encrypt(m, a, e).1)[i] == if v < PlaintextBound then v else v - engine.q
  {
    var p, q := Pad(m, engine.n), engine.q;
    DecryptEncrypt(engine, m, a, e);
    if i < |m| {
      assert p[i] == p[..|m|][i];
    }
    ModNear(p[i] + e[i], q);
  }

  /**
   With zero noise, q >= 256 and every message entry a byte value, decryption
   returns the message exactly, zero-padded to length n.
   */
  lemma {:induction false} RoundTripWithoutNoise(engine: RingLWECrypto, m: seq<int>, a: seq<int>)
    requires engine.Valid() && engine.q >= PlaintextBound
    requires |m| <= engine.n
    requires forall i :: 0 <= i < |m| ==> 0 <= m[i] < PlaintextBound
    requires |a| == engine.n && forall i :: 0 <= i < engine.n ==> 0 <= a[i] < engine.q
    ensures NoiseInRange(Zeros(engine.n), engine.q)
    ensures engine.Decrypt(a, engine.Encrypt(m, a, Zeros(engine.n)).1) == Pad(m, engine.n)
  {
    var n, z, p := engine.n, Zeros(engine.n), Pad(m, engine.n);
    var r := engine.Decrypt(a, engine.Encrypt(m, a, z).1);
    forall i | 0 <= i < n
      ensures r[i] == p[i]
    {
      if i < |m| {
        assert p[i] == p[..|m|][i];
      }
      DecryptRecoversNoisyEntry(engine, m, a, z, i);
    }
  }

  /**
   Conversely, any nonzero noise entry spoils the round trip: with q >= 256, a
   byte-valued message and noise e[i] != 0, decryption does not return the padded message.
   */
  lemma NoisyRoundTripFails(engine: RingLWECrypto, m: seq<int>, a: seq<int>, e: seq<int>, i: nat)
    requires engine.Valid() && engine.q >= PlaintextBound
    requires |m| <= engine.n
    requires forall j :: 0 <= j < |m| ==> 0 <= m[j] < PlaintextBound
    requires |a| == engine.n && forall j :: 0 <= j < engine.n ==> 0 <= a[j] < engine.q
    requires |e| == engine.n && NoiseInRange(e, engine.q)
    requires i < engine.n && e[i] != 0
    ensures engine.Decrypt(a, engine.Encrypt(m, a, e).1)[i] != Pad(m, engine.n)[i]
    ensures engine.Decrypt(a, engine.Encrypt(m, a, e).1) != Pad(m, engine.n)
  {
    var p, q := Pad(m, engine.n), engine.q;
    DecryptEncrypt(engine, m, a, e);
    if i < |m| {
      assert p[i] == p[..|m|][i];
    }
    assert 0 <= p[i] < PlaintextBound;
    ModNear(p[i] + e[i], q);
  }
}
