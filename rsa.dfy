/** The textbook RSA helpers: trial-division primality and factoring, random
    prime and key generation, fixed-width chunked encryption and decryption
    (the unpadded RSAEP/RSADP primitives of section 5.1 of RFC 8017 applied
    to big-endian chunks), and decryption after factoring the modulus.
    Messages and ciphertexts are byte strings; Base64 and UTF-8 are not
    modelled. */
module Rsa {
  import opened Wrappers
  import opened Arith
  import opened Bytes
  import opened Fermat

  // ---------------------------------------------------------------------
  // Trial division
  // ---------------------------------------------------------------------

  /** A divisor in `[2, n)` has a partner divisor no larger than `isqrt(n)`. */
  lemma SmallDivisor(n: nat, d: nat) returns (k: nat)
    requires 2 <= d < n && n % d == 0
    ensures 2 <= k <= ISqrt(n) && n % k == 0
  {
    var r := ISqrt(n);
    if d <= r {
      return d;
    }
    var q := n / d;
    ExactQuotient(n, d);
    PartnerBounds(n, d, q, r);
    DividesMultiple(q, d);
    return q;
  }

  /** The partner `q = n / d` of a divisor `d` above `isqrt(n)` lies in
      `[2, isqrt(n)]`. */
  lemma PartnerBounds(n: nat, d: nat, q: nat, r: nat)
    requires n == q * d && 2 <= d < n && r < d && n < (r + 1) * (r + 1)
    ensures 2 <= q <= r
  {
    if q <= 1 {
      MulMonotone(q, 1, d);
    }
    if q > r {
      MulMonotone(r + 1, d, r + 1);
      MulMonotone(r + 1, q, d);
    }
  }

  /** No number in `[2, isqrt(n)]` divides a prime `n`. */
  lemma PrimeNoSmallDivisor(n: nat, k: nat)
    requires IsPrime(n) && 2 <= k <= ISqrt(n)
    ensures n % k != 0
  {
    var r := ISqrt(n);
    assert k < n by {
      MulMonotone(k, r, k);
      MulMonotone(k, r, r);
      MulStrict(1, k, k);
    }
  }

  /** `n >= 2` is prime exactly when nothing in `[2, isqrt(n)]` divides it. */
  lemma TrialDivision(n: nat)
    requires n >= 2
    ensures IsPrime(n) <==> forall k :: 2 <= k <= ISqrt(n) ==> n % k != 0
  {
    if !IsPrime(n) {
      var d :| 2 <= d < n && n % d == 0;
      var k := SmallDivisor(n, d);
    } else {
      forall k | 2 <= k <= ISqrt(n)
        ensures n % k != 0
      {
        PrimeNoSmallDivisor(n, k);
      }
    }
  }

  /** `is_prime`: false below 2, otherwise trial division up to
      `int(math.sqrt(n))`. */
  method IsPrimeTrial(n: int) returns (prime: bool)
    ensures prime <==> n >= 2 && IsPrime(n)
  {
    if n < 2 {
      return false;
    }
    var root := ISqrt(n);
    for i := 2 to root + 1
      invariant forall k :: 2 <= k < i ==> n % k != 0
    {
      if n % i == 0 {
        TrialDivision(n);
        return false;
      }
    }
    TrialDivision(n);
    return true;
  }

  /** The least divisor of `n` in `[k, isqrt(n)]`, if any. */
  function LeastDivisorFrom(n: nat, k: nat): (r: Option<nat>)
    requires k >= 2
    ensures r.Some? ==>
      k <= r.value <= ISqrt(n) && n % r.value == 0 &&
      forall j :: k <= j < r.value ==> n % j != 0
    ensures r.None? ==> forall j :: k <= j <= ISqrt(n) ==> n % j != 0
    decreases ISqrt(n) + 1 - k
  {
    if k > ISqrt(n) then None
    else if n % k == 0 then Some(k)
    else LeastDivisorFrom(n, k + 1)
  }

  /** What `factor_n` computes: the least divisor `i` in `[2, isqrt(n)]` and
      its cofactor. */
  function TrialFactor(n: nat): (r: Option<(nat, nat)>)
    ensures r.Some? ==> 2 <= r.value.0 <= r.value.1 && r.value.0 * r.value.1 == n
  {
    match LeastDivisorFrom(n, 2)
    case None => None
    case Some(i) =>
      DivisorSplit(n, i);
      Some((i, n / i))
  }

  /** A divisor up to `isqrt(n)` is at most its cofactor. */
  lemma DivisorSplit(n: nat, i: nat)
    requires 2 <= i <= ISqrt(n) && n % i == 0
    ensures i <= n / i && i * (n / i) == n
  {
    var r, j := ISqrt(n), n / i;
    assert n == j * i by {
      ExactQuotient(n, i);
    }
    assert i * i <= n by {
      MulMonotone(i, r, i);
      MulMonotone(i, r, r);
    }
    if j < i {
      MulStrict(j, i, i);
    }
  }

  /** `factor_n`: trial division with an early return. */
  method FactorN(n: nat) returns (r: Option<(nat, nat)>)
    ensures r == TrialFactor(n)
  {
    var root := ISqrt(n);
    var i := 2;
    while i <= root
      invariant 2 <= i <= root + 2
      invariant LeastDivisorFrom(n, 2) == LeastDivisorFrom(n, i)
      decreases root + 2 - i
    {
      if n % i == 0 {
        return Some((i, n / i));
      }
      i := i + 1;
    }
    return None;
  }

  /** The split `factor_n` returns is a factorisation whose first part is
      the least divisor above 1, hence a prime. */
  lemma TrialFactorSound(n: nat)
    requires TrialFactor(n).Some?
    ensures var (i, j) := TrialFactor(n).value;
      IsPrime(i) && forall k :: 2 <= k < i ==> n % k != 0
  {
    var i := LeastDivisorFrom(n, 2).value;
    forall k | 2 <= k < i
      ensures i % k != 0
    {
      if i % k == 0 {
        assert Divides(k, i) && Divides(i, n);
        DividesTransitive(k, i, n);
      }
    }
  }

  /** `factor_n` fails exactly on numbers below 2 and on primes. */
  lemma TrialFactorNone(n: nat)
    ensures TrialFactor(n).None? <==> n < 2 || IsPrime(n)
  {
    if n >= 2 {
      TrialDivision(n);
    } else {
      assert ISqrt(n) <= 1 by {
        if ISqrt(n) >= 2 {
          MulMonotone(2, ISqrt(n), ISqrt(n));
        }
      }
    }
  }

  /** On a product of two distinct primes, `factor_n` recovers the two
      primes, smaller first. */
  lemma TrialFactorSemiprime(p: nat, q: nat)
    requires IsPrime(p) && IsPrime(q) && p != q
    ensures var r := TrialFactor(p * q);
      r.Some? && ((r.value.0 == p && r.value.1 == q) || (r.value.0 == q && r.value.1 == p))
  {
    var n := p * q;
    assert !IsPrime(n) by {
      assert n % p == 0 by {
        DividesMultiple(p, q);
      }
      MulStrict(1, q, p);
    }
    TrialFactorNone(n);
    TrialFactorSound(n);
    var (i, j) := TrialFactor(n).value;
    DividesMultiple(i, j);
    EuclidLemma(i, p, q);
    if Divides(i, p) {
      PrimeDivisors(p, i);
      CancelFactor(p, q, j);
    } else {
      PrimeDivisors(q, i);
      CancelFactor(q, p, j);
    }
  }

  lemma CancelFactor(a: nat, b: nat, c: nat)
    requires a >= 1 && (a * c == a * b || a * c == b * a)
    ensures c == b
  {
    if c < b {
      MulStrict(c, b, a);
    } else if c > b {
      MulStrict(b, c, a);
    }
  }

  // ---------------------------------------------------------------------
  // Prime and key generation
  // ---------------------------------------------------------------------

  /** The candidate `generate_prime` tests at cursor `k`:
      `getrandbits(bits)`, bumped to the next odd number when even. */
  function Candidate(source: nat -> nat, bits: nat, k: nat): (c: nat)
    ensures c % 2 == 1
  {
    PowPositive(2, bits);
    var r := source(k) % Pow(2, bits);
    if r % 2 == 0 then r + 1 else r
  }

  /** A prime candidate is an odd prime below `2^bits`. */
  lemma CandidateBound(source: nat -> nat, bits: nat, k: nat)
    requires IsPrime(Candidate(source, bits, k))
    ensures Candidate(source, bits, k) < Pow(2, bits)
  {
    var r := source(k) % Pow(2, bits);
    if r % 2 == 0 && r + 1 == Pow(2, bits) && bits > 0 {
      assert Pow(2, bits) == 2 * Pow(2, bits - 1);
    }
  }

  /** `generate_prime`: draws until a candidate passes `is_prime`. The
      source must eventually yield a prime candidate; the result is the
      first one from cursor `pos` on. */
  method GeneratePrime(bits: nat, source: nat -> nat, pos: nat) returns (p: nat, next: nat)
    requires exists k :: k >= pos && IsPrime(Candidate(source, bits, k))
    ensures pos < next && p == Candidate(source, bits, next - 1)
    ensures IsPrime(p) && p % 2 == 1 && p < Pow(2, bits)
    ensures forall k :: pos <= k < next - 1 ==> !IsPrime(Candidate(source, bits, k))
  {
    ghost var w :| w >= pos && IsPrime(Candidate(source, bits, w));
    PowPositive(2, bits);
    next := pos;
    while true
      invariant pos <= next <= w
      invariant forall k :: pos <= k < next ==> !IsPrime(Candidate(source, bits, k))
      decreases w - next
    {
      p := Candidate(source, bits, next);
      var prime := IsPrimeTrial(p);
      next := next + 1;
      if prime {
        CandidateBound(source, bits, next - 1);
        return;
      }
    }
  }

  /** From cursor `k` on, the source yields two different prime candidates. */
  ghost predicate TwoPrimesAfter(source: nat -> nat, bits: nat, k: nat)
  {
    exists j, j' :: k <= j && k <= j' &&
      IsPrime(Candidate(source, bits, j)) && IsPrime(Candidate(source, bits, j')) &&
      Candidate(source, bits, j) != Candidate(source, bits, j')
  }

  /** The primes of a key pair are 16-bit draws. */
  const PrimeBits: nat := 16

  /** The first public exponent tried. */
  const DefaultExponent: nat := 65537

  /** `phi = (p - 1) * (q - 1)`, Euler's totient of `p * q` for distinct
      primes. */
  function Totient(p: nat, q: nat): nat
    requires p >= 1 && q >= 1
  {
    var a: nat := p - 1;
    var b: nat := q - 1;
    a * b
  }

  /** What a key pair promises: `n` is the product of two distinct primes and
      `e * d == 1` modulo `phi = (p - 1) * (q - 1)`. */
  ghost predicate RsaKey(p: nat, q: nat, n: nat, e: nat, d: nat)
  {
    IsPrime(p) && IsPrime(q) && p != q && n == p * q &&
    Totient(p, q) >= 2 && (e * d) % Totient(p, q) == 1
  }

  /** `generate_rsa_keypair`: two different 16-bit primes, `e` bumped from
      65537 until coprime to `phi`, and `d` its inverse modulo `phi`. */
  method GenerateRsaKeypair(source: nat -> nat, pos: nat)
    returns (n: nat, e: nat, d: nat, next: nat, ghost p: nat, ghost q: nat)
    requires forall k :: k >= pos ==> TwoPrimesAfter(source, PrimeBits, k)
    ensures RsaKey(p, q, n, e, d)
    ensures p < Pow(2, PrimeBits) && q < Pow(2, PrimeBits) && n < Pow(2, 2 * PrimeBits)
    ensures var phi := Totient(p, q);
      e >= DefaultExponent && Gcd(e, phi) == 1 &&
      (forall e' :: DefaultExponent <= e' < e ==> Gcd(e', phi) != 1) && d < phi
    ensures next > pos
  {
    var first, second;
    first, second, next := DrawTwoPrimes(source, pos);
    p, q := first, second;
    n := Product(first, second);
    var phi := Totient(first, second);
    assert phi >= 4 by {
      OddPrimeAtLeastThree(first);
      OddPrimeAtLeastThree(second);
      TotientOfOddPrimes(first, second);
    }
    e := DefaultExponent;
    ghost var bound := CoprimeAbove(phi, DefaultExponent);
    while Gcd(e, phi) != 1
      invariant DefaultExponent <= e <= bound
      invariant forall e' :: DefaultExponent <= e' < e ==> Gcd(e', phi) != 1
      decreases bound - e
    {
      e := e + 1;
    }
    d := ModInverse(e, phi).value;
    KeySize(p, q, PrimeBits);
  }

  /** The two primes of `generate_rsa_keypair`: `q` is redrawn while it
      equals `p`. */
  method DrawTwoPrimes(source: nat -> nat, pos: nat) returns (p: nat, q: nat, next: nat)
    requires forall k :: k >= pos ==> TwoPrimesAfter(source, PrimeBits, k)
    ensures IsPrime(p) && IsPrime(q) && p != q && p % 2 == 1 && q % 2 == 1
    ensures p < Pow(2, PrimeBits) && q < Pow(2, PrimeBits)
    ensures next > pos
  {
    assert TwoPrimesAfter(source, PrimeBits, pos);
    p, next := GeneratePrime(PrimeBits, source, pos);
    assert TwoPrimesAfter(source, PrimeBits, next);
    ghost var w := OtherPrime(source, next, p);
    q, next := DrawBefore(source, next, w);
    while q == p
      invariant next > pos && IsPrime(q) && q < Pow(2, PrimeBits) && q % 2 == 1
      invariant q == p ==> next <= w
      decreases w - next
    {
      q, next := DrawBefore(source, next, w);
    }
  }

  /** A draw from cursor `pos` stops no later than a known prime candidate
      at `w`, and strictly before it when it yields a different prime. */
  method DrawBefore(source: nat -> nat, pos: nat, ghost w: nat) returns (q: nat, next: nat)
    requires w >= pos && IsPrime(Candidate(source, PrimeBits, w))
    ensures IsPrime(q) && q % 2 == 1 && q < Pow(2, PrimeBits)
    ensures pos < next <= w + 1
    ensures q != Candidate(source, PrimeBits, w) ==> next <= w
  {
    q, next := GeneratePrime(PrimeBits, source, pos);
  }

  /** Some number above `lo` is coprime to `m`: `m * (lo / m + 1) + 1`. */
  lemma CoprimeAbove(m: nat, lo: nat) returns (b: nat)
    requires m >= 1
    ensures b > lo && Gcd(b, m) == 1
  {
    var t := lo / m + 1;
    b := m * t + 1;
    assert m * t > lo by {
      assert lo == m * (lo / m) + lo % m;
      assert m * t == m * (lo / m) + m;
    }
    CoprimeByCombination(b, m, 1, -t);
  }

  /** A prime candidate from cursor `k` on that differs from `p`. */
  lemma OtherPrime(source: nat -> nat, k: nat, p: nat) returns (w: nat)
    requires TwoPrimesAfter(source, PrimeBits, k)
    ensures w >= k && IsPrime(Candidate(source, PrimeBits, w)) && Candidate(source, PrimeBits, w) != p
  {
    var j, j' :| k <= j && k <= j' &&
      IsPrime(Candidate(source, PrimeBits, j)) && IsPrime(Candidate(source, PrimeBits, j')) &&
      Candidate(source, PrimeBits, j) != Candidate(source, PrimeBits, j');
    w := if Candidate(source, PrimeBits, j) != p then j else j';
  }

  /** Two `bits`-bit primes make a modulus below `2^(2 * bits)`. */
  lemma KeySize(p: nat, q: nat, bits: nat)
    requires p < Pow(2, bits) && q < Pow(2, bits)
    ensures p * q < Pow(2, 2 * bits)
  {
    var b := Pow(2, bits);
    PowAdd(2, bits, bits);
    PowPositive(2, bits);
    MulMonotone(p, b, q);
    MulStrict(q, b, b);
  }

  // ---------------------------------------------------------------------
  // Chunked encryption and decryption
  // ---------------------------------------------------------------------

  /** `(n.bit_length() - 1) // 8`: plaintext bytes per chunk, so that every
      chunk's value is below `n`. Negative only for `n == 0`. */
  function ChunkSize(n: nat): int
  {
    (BitLength(n) - 1) / 8
  }

  /** `(n.bit_length() + 7) // 8`: bytes per cipher block. */
  function BlockSize(n: nat): nat
  {
    (BitLength(n) + 7) / 8
  }

  function Min(a: nat, b: nat): nat
  {
    if a <= b then a else b
  }

  /** A chunk of at most `ChunkSize(n)` bytes encodes a value below `n`. */
  lemma ChunkBelowModulus(chunk: seq<Byte>, n: nat)
    requires n >= 1 && |chunk| <= ChunkSize(n)
    ensures FromBytes(chunk) < n
  {
    var c := |chunk|;
    assert FromBytes(chunk) < Pow(2, 8 * c) by {
      ByteWeight(c);
    }
    ChunkWeight(n, c);
  }

  /** A chunk's weight `2^(8c)` is at most `n`. */
  lemma ChunkWeight(n: nat, c: nat)
    requires n >= 1 && c <= ChunkSize(n)
    ensures Pow(2, 8 * c) <= n
  {
    var k := BitLength(n) - 1;
    assert Pow(2, k) <= n;
    assert 8 * c <= k by {
      ChunkBits(BitLength(n), c);
    }
    PowMonotoneExponent(8 * c, k);
  }

  lemma PowMonotoneExponent(i: nat, j: nat)
    requires i <= j
    ensures Pow(2, i) <= Pow(2, j)
  {
    if i < j {
      PowStrictExponent(2, i, j);
    }
  }

  lemma ChunkBits(l: nat, c: nat)
    requires l >= 1 && c <= (l - 1) / 8
    ensures 8 * c <= l - 1
  {
  }

  /** Every value below `n` fits in a block. */
  lemma BlockFits(c: nat, n: nat)
    requires c < n
    ensures c < Pow(256, BlockSize(n))
  {
    WidthFits(n, BlockSize(n));
  }

  /** The RSAEP of one chunk value, `pow(m, e, n)`, converted by `to_bytes`
      to a block of `BlockSize(n)` bytes; the conversion never overflows. */
  function CipherBlock(m: nat, e: nat, n: nat): (block: seq<Byte>)
    requires n >= 1
    ensures |block| == BlockSize(n) && FromBytes(block) == ModPow(m, e, n)
  {
    BlockFits(ModPow(m, e, n), n);
    Encode(ModPow(m, e, n), BlockSize(n))
  }

  /** The ciphertext `encrypt_message` produces before Base64: one block per
      chunk of `ChunkSize(n)` bytes, the last chunk possibly shorter. */
  function EncryptBlocks(message: seq<Byte>, e: nat, n: nat): (c: seq<Byte>)
    requires ChunkSize(n) >= 1
    decreases |message|
  {
    if |message| == 0 then []
    else
      var k := Min(ChunkSize(n), |message|);
      CipherBlock(FromBytes(message[..k]), e, n) + EncryptBlocks(message[k..], e, n)
  }

  /** The plaintext `decrypt_message` produces before UTF-8 decoding: each
      block of `BlockSize(n)` bytes (the last possibly shorter) becomes the
      minimal encoding of its RSADP value. */
  function DecryptBlocks(c: seq<Byte>, d: nat, n: nat): (m: seq<Byte>)
    requires n >= 1
    decreases |c|
  {
    if |c| == 0 then []
    else
      var k := Min(BlockSize(n), |c|);
      PlainBlock(c[..k], d, n) + DecryptBlocks(c[k..], d, n)
  }

  /** The RSADP of one block, in its minimal big-endian encoding. */
  function PlainBlock(block: seq<Byte>, d: nat, n: nat): seq<Byte>
    requires n >= 1
  {
    MinimalBytes(ModPow(FromBytes(block), d, n))
  }

  /** Why chunking fails: `range` with a zero step. */
  datatype ChunkError = ZeroStep

  /** `encrypt_message` on the message bytes, before Base64. A modulus below
      256 gives a zero chunk size, on which `range` raises. */
  method EncryptMessage(message: seq<Byte>, e: nat, n: nat) returns (r: Result<seq<Byte>, ChunkError>)
    ensures r.Err? <==> ChunkSize(n) == 0
    ensures ChunkSize(n) < 0 ==> r == Ok([])
    ensures ChunkSize(n) >= 1 ==> r == Ok(EncryptBlocks(message, e, n))
  {
    var chunkSize := ChunkSize(n);
    if chunkSize == 0 {
      return Err(ZeroStep);
    }
    if chunkSize < 0 {
      return Ok([]);
    }
    var out: seq<Byte> := [];
    var i := 0;
    while i < |message|
      invariant 0 <= i <= |message|
      invariant out + EncryptBlocks(message[i..], e, n) == EncryptBlocks(message, e, n)
      decreases |message| - i
    {
      var k := if i + chunkSize <= |message| then i + chunkSize else |message|;
      var encrypted := CipherBlock(FromBytes(message[i..k]), e, n);
      EncryptBlocksStep(message, i, k, e, n, out);
      out := out + encrypted;
      i := k;
    }
    assert out == EncryptBlocks(message, e, n) by {
      assert EncryptBlocks(message[i..], e, n) == [];
      assert out + [] == out;
    }
    return Ok(out);
  }

  /** Only the zero modulus has zero-byte blocks. */
  lemma BlockSizeZero(n: nat)
    ensures BlockSize(n) == 0 <==> n == 0
  {
  }

  /** `decrypt_message` on the ciphertext bytes, before UTF-8 decoding. A
      zero modulus gives a zero block size, on which `range` raises. */
  method DecryptMessage(cipher: seq<Byte>, d: nat, n: nat) returns (r: Result<seq<Byte>, ChunkError>)
    ensures r.Err? <==> n == 0
    ensures n >= 1 ==> r == Ok(DecryptBlocks(cipher, d, n))
  {
    var chunkSize := BlockSize(n);
    BlockSizeZero(n);
    if chunkSize == 0 {
      return Err(ZeroStep);
    }
    var out: seq<Byte> := [];
    var i := 0;
    while i < |cipher|
      invariant 0 <= i <= |cipher|
      invariant out + DecryptBlocks(cipher[i..], d, n) == DecryptBlocks(cipher, d, n)
      decreases |cipher| - i
    {
      var k := if i + chunkSize <= |cipher| then i + chunkSize else |cipher|;
      var decrypted := PlainBlock(cipher[i..k], d, n);
      DecryptBlocksStep(cipher, i, k, d, n, out);
      out := out + decrypted;
      i := k;
    }
    assert out == DecryptBlocks(cipher, d, n) by {
      assert DecryptBlocks(cipher[i..], d, n) == [];
      assert out + [] == out;
    }
    return Ok(out);
  }

  /** Encrypting from position `i` is the chunk at `i` then the rest, so
      appending that chunk's block to the output so far keeps the loop's
      invariant. */
  lemma EncryptBlocksStep(message: seq<Byte>, i: nat, k: nat, e: nat, n: nat, out: seq<Byte>)
    requires ChunkSize(n) >= 1 && i < |message|
    requires k == if i + ChunkSize(n) <= |message| then i + ChunkSize(n) else |message|
    requires out + EncryptBlocks(message[i..], e, n) == EncryptBlocks(message, e, n)
    ensures (out + CipherBlock(FromBytes(message[i..k]), e, n)) + EncryptBlocks(message[k..], e, n) ==
      EncryptBlocks(message, e, n)
  {
    var m, j := message[i..], k - i;
    assert j == Min(ChunkSize(n), |m|);
    var head, tail := m[..j], m[j..];
    assert head == message[i..k] by { SliceOfSuffix(message, i, k); }
    assert tail == message[k..] by { SuffixOfSuffix(message, i, k); }
    var block, rest := CipherBlock(FromBytes(head), e, n), EncryptBlocks(tail, e, n);
    assert EncryptBlocks(m, e, n) == block + rest;
    AppendAssoc(out, block, rest);
  }

  /** Decrypting from position `i` is the block at `i` then the rest, so
      appending that block's plaintext to the output so far keeps the
      loop's invariant. */
  lemma DecryptBlocksStep(cipher: seq<Byte>, i: nat, k: nat, d: nat, n: nat, out: seq<Byte>)
    requires n >= 1 && i < |cipher|
    requires k == if i + BlockSize(n) <= |cipher| then i + BlockSize(n) else |cipher|
    requires out + DecryptBlocks(cipher[i..], d, n) == DecryptBlocks(cipher, d, n)
    ensures (out + PlainBlock(cipher[i..k], d, n)) + DecryptBlocks(cipher[k..], d, n) ==
      DecryptBlocks(cipher, d, n)
  {
    var c, j := cipher[i..], k - i;
    assert j == Min(BlockSize(n), |c|);
    var head, tail := c[..j], c[j..];
    assert head == cipher[i..k] by { SliceOfSuffix(cipher, i, k); }
    assert tail == cipher[k..] by { SuffixOfSuffix(cipher, i, k); }
    var plain, rest := PlainBlock(head, d, n), DecryptBlocks(tail, d, n);
    assert DecryptBlocks(c, d, n) == plain + rest;
    AppendAssoc(out, plain, rest);
  }

  lemma AppendAssoc(a: seq<Byte>, b: seq<Byte>, c: seq<Byte>)
    ensures (a + b) + c == a + (b + c)
  {
  }

  lemma SliceOfSuffix(s: seq<Byte>, i: nat, k: nat)
    requires i <= k <= |s|
    ensures s[i..][..k - i] == s[i..k]
  {
  }

  lemma SuffixOfSuffix(s: seq<Byte>, i: nat, k: nat)
    requires i <= k <= |s|
    ensures s[i..][k - i..] == s[k..]
  {
  }

  /** The number of chunks of `size` bytes a message of `len` bytes makes,
      one chunk at a time. */
  function NumChunks(len: nat, size: nat): nat
    requires size >= 1
    decreases len
  {
    if len == 0 then 0 else 1 + NumChunks(len - Min(size, len), size)
  }

  /** The count of chunks is `ceil(len / size)`, as
      `range(0, len, size)` makes them. */
  lemma {:induction false} NumChunksCeil(len: nat, size: nat)
    requires size >= 1
    ensures NumChunks(len, size) == (len + size - 1) / size
    decreases len
  {
    if len == 0 {
      ModUnique(size - 1, size, 0, size - 1);
    } else {
      NumChunksCeil(len - Min(size, len), size);
      CeilStep(len, size);
    }
  }

  /** The ciphertext has one fixed-width block per chunk. */
  lemma {:induction false} EncryptLength(message: seq<Byte>, e: nat, n: nat)
    requires ChunkSize(n) >= 1
    ensures |EncryptBlocks(message, e, n)| == NumChunks(|message|, ChunkSize(n)) * BlockSize(n)
    decreases |message|
  {
    var size, b := ChunkSize(n), BlockSize(n);
    var total, chunks := |EncryptBlocks(message, e, n)|, NumChunks(|message|, size);
    if |message| == 0 {
      assert total == 0 && chunks == 0;
      MulZero(total, chunks, b);
    } else {
      var k := Min(size, |message|);
      var rest := message[k..];
      var tail := |EncryptBlocks(rest, e, n)|;
      var c := NumChunks(|rest|, size);
      assert total == b + tail by {
        assert |CipherBlock(FromBytes(message[..k]), e, n)| == b;
      }
      assert tail == c * b by {
        EncryptLength(rest, e, n);
      }
      assert chunks == c + 1;
      MulSucc(total, tail, c, chunks, b);
    }
  }

  lemma MulZero(total: nat, c: nat, b: nat)
    requires total == 0 && c == 0
    ensures total == c * b
  {
  }

  lemma MulSucc(total: nat, rest: nat, c: nat, c': nat, b: nat)
    requires total == b + rest && rest == c * b && c' == c + 1
    ensures total == c' * b
  {
  }

  /** Taking one chunk off a non-empty message lowers the ceiling by one. */
  lemma CeilStep(len: nat, size: nat)
    requires len >= 1 && size >= 1
    ensures (len + size - 1) / size == 1 + (len - Min(size, len) + size - 1) / size
  {
    if len <= size {
      ModUnique(len + size - 1, size, 1, len - 1);
      ModUnique(size - 1, size, 0, size - 1);
    } else {
      var x := len - size + size - 1;
      var q, r := x / size, x % size;
      assert x == q * size + r;
      ModUnique(x + size, size, q + 1, r);
    }
  }


  /** Every chunk of `size` bytes starts with a non-zero byte, chunk by
      chunk. */
  predicate ChunksStartNonzero(message: seq<Byte>, size: nat)
    requires size >= 1
    decreases |message|
  {
    |message| == 0 ||
    (message[0] != 0 && ChunksStartNonzero(message[Min(size, |message|)..], size))
  }

  /** The same condition by position: every byte at a multiple of `size`
      is non-zero. */
  predicate NonzeroAtMultiples(message: seq<Byte>, size: nat)
    requires size >= 1
  {
    forall i :: 0 <= i < |message| && i % size == 0 ==> message[i] != 0
  }

  /** The chunk-by-chunk and the positional conditions agree. */
  lemma {:induction false} ChunksStartNonzeroAtMultiples(message: seq<Byte>, size: nat)
    requires size >= 1
    ensures ChunksStartNonzero(message, size) <==> NonzeroAtMultiples(message, size)
    decreases |message|
  {
    if |message| > 0 {
      var k := Min(size, |message|);
      ChunksStartNonzeroAtMultiples(message[k..], size);
      ChunksSplit(message, size, k);
    }
  }

  /** Decrypting a full block followed by more ciphertext. */
  lemma DecryptBlocksSplit(block: seq<Byte>, rest: seq<Byte>, d: nat, n: nat)
    requires n >= 1 && |block| == BlockSize(n) && |block| >= 1
    ensures DecryptBlocks(block + rest, d, n) ==
      PlainBlock(block, d, n) + DecryptBlocks(rest, d, n)
  {
    var c := block + rest;
    assert c[..|block|] == block && c[|block|..] == rest;
  }

  /** What decrypting an encryption yields: every chunk of `size` bytes in
      its minimal encoding, that is without its leading zero bytes. */
  function StripChunks(message: seq<Byte>, size: nat): seq<Byte>
    requires size >= 1
    decreases |message|
  {
    if |message| == 0 then []
    else
      var k := Min(size, |message|);
      DropLeadingZeros(message[..k]) + StripChunks(message[k..], size)
  }

  /** For a key from `generate_rsa_keypair`, decryption undoes encryption up
      to the leading zero bytes of each chunk. */
  lemma {:induction false} DecryptEncrypt(p: nat, q: nat, n: nat, e: nat, d: nat, message: seq<Byte>)
    requires RsaKey(p, q, n, e, d) && ChunkSize(n) >= 1
    ensures DecryptBlocks(EncryptBlocks(message, e, n), d, n) == StripChunks(message, ChunkSize(n))
    decreases |message|
  {
    if |message| > 0 {
      var k := Min(ChunkSize(n), |message|);
      RoundTripChunk(p, q, n, e, d, message);
      DecryptEncrypt(p, q, n, e, d, message[k..]);
    }
  }

  /** Stripping never lengthens a message, and leaves it unchanged exactly
      when no chunk starts with a zero byte. */
  lemma {:induction false} StripChunksIdentity(message: seq<Byte>, size: nat)
    requires size >= 1
    ensures |StripChunks(message, size)| <= |message|
    ensures StripChunks(message, size) == message <==> ChunksStartNonzero(message, size)
    decreases |message|
  {
    if |message| > 0 {
      var k := Min(size, |message|);
      var chunk, rest := message[..k], message[k..];
      var head := DropLeadingZeros(chunk);
      var tail := StripChunks(rest, size);
      assert StripChunks(message, size) == head + tail;
      assert ChunksStartNonzero(message, size) <==> message[0] != 0 && ChunksStartNonzero(rest, size);
      StripChunksIdentity(rest, size);
      StripCombine(message, chunk, rest, head, tail, ChunksStartNonzero(rest, size));
    }
  }

  /** Joining the stripped first chunk to the stripped rest. */
  lemma StripCombine(message: seq<Byte>, chunk: seq<Byte>, rest: seq<Byte>,
                     head: seq<Byte>, tail: seq<Byte>, restOk: bool)
    requires |chunk| >= 1 && message == chunk + rest
    requires |head| <= |chunk| && (head == chunk <==> chunk[0] != 0)
    requires |tail| <= |rest| && (tail == rest <==> restOk)
    ensures |head + tail| <= |message|
    ensures head + tail == message <==> message[0] != 0 && restOk
  {
    assert message[0] == chunk[0];
    ConcatEqual(head + tail, message, head, tail, chunk, rest);
  }

  /** The round trip promised for keys from `generate_rsa_keypair`:
      decrypting the ciphertext gives back the message exactly when no
      chunk starts with a zero byte; otherwise the result is shorter. */
  lemma RoundTrip(p: nat, q: nat, n: nat, e: nat, d: nat, message: seq<Byte>)
    requires RsaKey(p, q, n, e, d) && ChunkSize(n) >= 1
    ensures var m := DecryptBlocks(EncryptBlocks(message, e, n), d, n);
      |m| <= |message| && (m == message <==> ChunksStartNonzero(message, ChunkSize(n)))
  {
    DecryptEncrypt(p, q, n, e, d, message);
    StripChunksIdentity(message, ChunkSize(n));
  }



  /** Two concatenations whose parts are no longer than the other's agree
      exactly when their parts do. */
  lemma ConcatEqual<T>(x: seq<T>, y: seq<T>, a: seq<T>, b: seq<T>, c: seq<T>, d: seq<T>)
    requires x == a + b && y == c + d && |a| <= |c| && |b| <= |d|
    ensures |x| <= |y|
    ensures x == y <==> a == c && b == d
  {
    if x == y {
      assert |a| == |c|;
      assert a == x[..|a|] && c == y[..|a|];
      assert b == x[|a|..] && d == y[|a|..];
    }
  }

  /** Encrypting and decrypting the first chunk gives its minimal encoding,
      that is the chunk without its leading zero bytes. */
  lemma RoundTripChunk(p: nat, q: nat, n: nat, e: nat, d: nat, message: seq<Byte>)
    requires RsaKey(p, q, n, e, d) && ChunkSize(n) >= 1 && |message| > 0
    ensures var k := Min(ChunkSize(n), |message|);
      DecryptBlocks(EncryptBlocks(message, e, n), d, n) ==
      DropLeadingZeros(message[..k]) + DecryptBlocks(EncryptBlocks(message[k..], e, n), d, n)
  {
    var k := Min(ChunkSize(n), |message|);
    var v := FromBytes(message[..k]);
    MinimalBytesDropsZeros(message[..k]);
    ChunkBelowModulus(message[..k], n);
    assert BlockSize(n) >= 1;
    DecryptBlocksSplit(CipherBlock(v, e, n), EncryptBlocks(message[k..], e, n), d, n);
    assert ModPow(ModPow(v, e, n), d, n) == v by {
      ModPowIsPow(v, e, n);
      ModPowIsPow(ModPow(v, e, n), d, n);
      RsaCorrect(p, q, e, d, v);
    }
  }

  /** Every position at a multiple of `size` holds a non-zero byte exactly
      when the first does and so does every such position after the first
      chunk. */
  lemma ChunksSplit(message: seq<Byte>, size: nat, k: nat)
    requires size >= 1 && |message| > 0 && k == Min(size, |message|)
    ensures NonzeroAtMultiples(message, size) <==>
      message[0] != 0 && NonzeroAtMultiples(message[k..], size)
  {
    var rest := message[k..];
    if message[0] != 0 && NonzeroAtMultiples(rest, size) {
      forall i | 0 <= i < |message| && i % size == 0
        ensures message[i] != 0
      {
        if i > 0 {
          MultipleShift(i, size);
          assert rest[i - size] == message[i];
        }
      }
    }
    if NonzeroAtMultiples(message, size) {
      forall i | 0 <= i < |rest| && i % size == 0
        ensures rest[i] != 0
      {
        MultipleShift(i, size);
        assert message[i + size] == rest[i];
      }
    }
    assert 0 % size == 0;
  }

  /** The multiples of `size` next to a multiple of `size`. */
  lemma MultipleShift(i: nat, size: nat)
    requires size >= 1 && i % size == 0
    ensures (i + size) % size == 0
    ensures i > 0 ==> i >= size && (i - size) % size == 0
  {
    var q, r := Divide(i, size);
    ModUnique(i + size, size, q + 1, 0);
    if i > 0 {
      assert q >= 1;
      MulAtLeast(size, q);
      ModUnique(i - size, size, q - 1, 0);
    }
  }

  // ---------------------------------------------------------------------
  // Decryption after factoring
  // ---------------------------------------------------------------------

  datatype DecryptError = FailedToFactor | NotInvertible

  /** What `rsa_decrypt` (and the decryption in the RSA-breaking script)
      computes: factor `n` by trial division, or fail; derive
      `phi = (p - 1)(q - 1)` and `d = e^-1 mod phi`; decrypt. */
  function BreakAndDecrypt(cipher: seq<Byte>, n: nat, e: nat): Result<seq<Byte>, DecryptError>
  {
    match TrialFactor(n)
    case None => Err(FailedToFactor)
    case Some((p, q)) =>
      var phi := Totient(p, q);
      match ModInverse(e, phi)
      case Err(_) => Err(NotInvertible)
      case Ok(d) => Ok(DecryptBlocks(cipher, d, n))
  }

  /** `rsa_decrypt`: answers "Failed to factor n" when trial division finds
      no factor, and otherwise decrypts with the derived private exponent.
      `mod_inverse` raises when `e` is not invertible modulo `phi`. */
  method RsaDecrypt(cipher: seq<Byte>, n: nat, e: nat) returns (r: Result<seq<Byte>, DecryptError>)
    ensures r == BreakAndDecrypt(cipher, n, e)
    ensures r == Err(FailedToFactor) <==> n < 2 || IsPrime(n)
  {
    TrialFactorNone(n);
    var factors := FactorN(n);
    if factors.None? {
      return Err(FailedToFactor);
    }
    var (p, q) := factors.value;
    var phi := Totient(p, q);
    var inverse := ModInverse(e, phi);
    if inverse.Err? {
      return Err(NotInvertible);
    }
    var plain := DecryptMessage(cipher, inverse.value, n);
    return Ok(plain.value);
  }

  /** Factoring breaks textbook RSA: for a modulus made of two distinct
      primes and an exponent invertible modulo `phi`, decrypting after
      factoring recovers every message whose chunks start non-zero. */
  lemma FactoringRecoversMessage(p: nat, q: nat, e: nat, message: seq<Byte>)
    requires IsPrime(p) && IsPrime(q) && p != q
    requires Gcd(e, Totient(p, q)) == 1 && ChunkSize(p * q) >= 1
    requires ChunksStartNonzero(message, ChunkSize(p * q))
    ensures BreakAndDecrypt(EncryptBlocks(message, e, p * q), p * q, e) == Ok(message)
  {
    var n := p * q;
    var d := FactoredKey(p, q, e);
    RoundTrip(p, q, n, e, d, message);
  }

  /** Trial division of `p * q` finds the two primes, so the private
      exponent it derives is the key's. */
  lemma FactoredKey(p: nat, q: nat, e: nat) returns (d: nat)
    requires IsPrime(p) && IsPrime(q) && p != q && Gcd(e, Totient(p, q)) == 1
    ensures TrialFactor(p * q).Some?
    ensures var (i, j) := TrialFactor(p * q).value; ModInverse(e, Totient(i, j)) == Ok(d)
    ensures RsaKey(p, q, p * q, e, d)
  {
    TrialFactorSemiprime(p, q);
    var (i, j) := TrialFactor(p * q).value;
    assert Totient(i, j) == Totient(p, q) by {
      TotientSymmetric(p, q);
    }
    TotientAtLeastTwo(p, q);
    d := ModInverse(e, Totient(p, q)).value;
  }

  lemma TotientSymmetric(p: nat, q: nat)
    requires p >= 1 && q >= 1
    ensures Totient(p, q) == Totient(q, p)
  {
  }

  /** Two distinct primes leave `phi >= 2`. */
  lemma TotientAtLeastTwo(p: nat, q: nat)
    requires IsPrime(p) && IsPrime(q) && p != q
    ensures Totient(p, q) >= 2
  {
    var a: nat, b: nat := p - 1, q - 1;
    assert a >= 1 && b >= 1 && a != b;
    ProductOfDistinctPositives(a, b);
  }

  function Product(a: nat, b: nat): (c: nat)
  {
    a * b
  }

  lemma OddPrimeAtLeastThree(p: nat)
    requires IsPrime(p) && p % 2 == 1
    ensures p >= 3
  {
  }

  lemma TotientOfOddPrimes(p: nat, q: nat)
    requires p >= 3 && q >= 3
    ensures Totient(p, q) >= 4
  {
    var a: nat, b: nat := p - 1, q - 1;
    MulMonotone(2, a, b);
    MulMonotone(2, b, 2);
  }

  lemma ProductOfDistinctPositives(a: nat, b: nat)
    requires a >= 1 && b >= 1 && a != b
    ensures a * b >= 2
  {
    if a < b {
      MulMonotone(1, a, b);
    } else {
      MulMonotone(1, b, a);
    }
  }
}
