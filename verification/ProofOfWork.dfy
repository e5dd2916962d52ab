/** Proof of work (bmchat/crypto/pow/__init__.py): the target a sender must reach, the value a
    receiver computes, and the single-threaded search. */
module ProofOfWork {
  import opened Positional
  import opened Bytes
  import opened Objects

  const MIN_NONCE_TRIALS_PER_BYTE := 1000
  const MIN_PAYLOAD_LENGTH_EXTRA_BYTES := 1000
  const MIN_TTL := 300

  function AtLeast(x: int, floor: nat): (r: nat)
    ensures r >= floor && r >= x && (r == floor || r == x)
  {
    if x < floor then floor else x
  }

  function Denominator(ntpb: nat, eb: nat, objectLen: nat, ttl: nat): nat {
    ntpb * (objectLen + eb + ttl * (objectLen + eb) / MAX_U16)
  }

  lemma DenominatorPositive(ntpb: nat, eb: nat, objectLen: nat, ttl: nat)
    requires ntpb > 0 && eb > 0
    ensures Denominator(ntpb, eb, objectLen, ttl) > 0
  {
    MulMono(1, ntpb, objectLen + eb + ttl * (objectLen + eb) / MAX_U16);
  }

  /** The target for demands that are not below the minimums. */
  function TargetFor(ntpb: nat, eb: nat, objectLen: nat, ttl: nat): (target: nat)
    requires ntpb > 0 && eb > 0
  {
    DenominatorPositive(ntpb, eb, objectLen, ttl);
    MAX_U64 / Denominator(ntpb, eb, objectLen, ttl)
  }

  function CalculateTarget(ntpb: int, eb: int, objectLen: nat, ttl: int): (target: nat) {
    TargetFor(AtLeast(ntpb, MIN_NONCE_TRIALS_PER_BYTE), AtLeast(eb, MIN_PAYLOAD_LENGTH_EXTRA_BYTES), objectLen,
              AtLeast(ttl, MIN_TTL))
  }

  lemma ProductMono(a: nat, b: nat, c: nat, d: nat)
    requires a <= b && c <= d
    ensures a * c <= b * d
  {
    MulMono(a, b, c);
    MulMono(c, d, b);
  }

  lemma DivMono(a: nat, b: nat, d: nat)
    requires d > 0 && a <= b
    ensures a / d <= b / d
  {
    DivModIdentity(a, d);
    DivModIdentity(b, d);
    if a / d > b / d {
      MulMono(b / d + 1, a / d, d);
      assert false;
    }
  }

  lemma DivAntitone(n: nat, a: nat, b: nat)
    requires 0 < a <= b
    ensures n / b <= n / a
  {
    DivModIdentity(n, a);
    DivModIdentity(n, b);
    if n / b > n / a {
      MulMono(n / a + 1, n / b, a);
      ProductMono(a, b, n / b, n / b);
      assert false;
    }
  }

  /** More difficulty, more bytes or more time to live never make the target easier. */
  lemma TargetAntitone(n1: int, e1: int, len1: nat, t1: int, n2: int, e2: int, len2: nat, t2: int)
    requires n1 <= n2 && e1 <= e2 && len1 <= len2 && t1 <= t2
    ensures CalculateTarget(n2, e2, len2, t2) <= CalculateTarget(n1, e1, len1, t1)
  {
    var a, b, t := AtLeast(n1, MIN_NONCE_TRIALS_PER_BYTE), AtLeast(e1, MIN_PAYLOAD_LENGTH_EXTRA_BYTES),
        AtLeast(t1, MIN_TTL);
    var a', b', t' := AtLeast(n2, MIN_NONCE_TRIALS_PER_BYTE), AtLeast(e2, MIN_PAYLOAD_LENGTH_EXTRA_BYTES),
        AtLeast(t2, MIN_TTL);
    var size, size' := len1 + b, len2 + b';
    ProductMono(t, t', size, size');
    DivMono(t * size, t' * size', MAX_U16);
    ProductMono(a, a', size + t * size / MAX_U16, size' + t' * size' / MAX_U16);
    DenominatorPositive(a, b, len1, t);
    DivAntitone(MAX_U64, Denominator(a, b, len1, t), Denominator(a', b', len2, t'));
  }

  /** The target never reaches 0 within the sizes, difficulties and lifetimes the client accepts. */
  lemma TargetPositive(ntpb: int, eb: int, objectLen: nat, ttl: int)
    requires ntpb <= PUBKEY_NTPB_MAX && eb <= PUBKEY_EB_MAX
    requires objectLen <= MAX_OBJECT_LENGTH && ttl <= 1814400
    ensures CalculateTarget(ntpb, eb, objectLen, ttl) >= 1
  {
    TargetAntitone(ntpb, eb, objectLen, ttl, PUBKEY_NTPB_MAX, PUBKEY_EB_MAX, MAX_OBJECT_LENGTH, 1814400);
    var d := Denominator(PUBKEY_NTPB_MAX, PUBKEY_EB_MAX, MAX_OBJECT_LENGTH, 1814400);
    assert d < MAX_U64;
    DivAntitone(MAX_U64, d, MAX_U64);
  }

  /** First eight bytes of a double hash, as a number. */
  function Leading64(sha512: Bytes -> Digest, data: Bytes): nat {
    FromBigEndian(DoubleSha512(sha512, data)[..8])
  }

  function PowValue(sha512: Bytes -> Digest, raw: Bytes): nat
    requires |raw| >= 8
  {
    Leading64(sha512, raw[..8] + sha512(raw[8..]))
  }

  /** The receiver's check. `originalTtl`, when known, replaces the remaining life. */
  predicate IsSufficient(sha512: Bytes -> Digest, raw: Bytes, ntpb: int, eb: int, now: int, originalTtl: Option<int>)
    requires |raw| >= 16
  {
    var ttl := if originalTtl.Some? then originalTtl.value else FromBigEndian(raw[8..16]) - now;
    PowValue(sha512, raw) <= CalculateTarget(ntpb, eb, |raw|, AtLeast(ttl, MIN_TTL))
  }

  /** One trial of a search that only knows the hash of the unsigned object. */
  function TrialValue(sha512: Bytes -> Digest, initial: Digest, nonce: nat): nat {
    Leading64(sha512, BigEndian(nonce, 8) + initial)
  }

  predicate Meets(sha512: Bytes -> Digest, initial: Digest, target: nat, nonce: nat) {
    TrialValue(sha512, initial, nonce) <= target
  }

  /** What the search tries is what the receiver will compute. */
  lemma TrialIsPowValue(sha512: Bytes -> Digest, unsigned: Bytes, nonce: nat)
    ensures PowValue(sha512, Complete(unsigned, nonce)) == TrialValue(sha512, sha512(unsigned), nonce)
  {
    hide BigEndian;
    var raw := Complete(unsigned, nonce);
    assert raw[..8] == BigEndian(nonce, 8) && raw[8..] == unsigned;
  }

  /** Values below the minimums count as the minimums. */
  lemma TargetClamps(ntpb: int, eb: int, objectLen: nat, ttl: int)
    ensures CalculateTarget(ntpb, eb, objectLen, ttl)
            == CalculateTarget(AtLeast(ntpb, 0), AtLeast(eb, 0), objectLen, AtLeast(ttl, MIN_TTL))
  {
  }

  /** The receiver's check, for any demands: an object is let through exactly when its nonce is one the search would
      stop at, for the target of its remaining life or, where it is known, its original one. */
  lemma SufficientIffMeets(sha512: Bytes -> Digest, expires: nat, rest: Bytes, nonce: nat, ntpb: int, eb: int,
                           received: int, originalTtl: Option<int>)
    requires expires < MAX_U64
    ensures var unsigned := BigEndian(expires, 8) + rest;
      var ttl := match originalTtl case Some(t) => t case None => expires - received;
      IsSufficient(sha512, Complete(unsigned, nonce), ntpb, eb, received, originalTtl) <==>
      Meets(sha512, sha512(unsigned), CalculateTarget(ntpb, eb, |unsigned| + 8, ttl), nonce)
  {
    hide BigEndian, FromBigEndian, CalculateTarget, PowValue, TrialValue;
    var unsigned := BigEndian(expires, 8) + rest;
    var raw := Complete(unsigned, nonce);
    assert raw[8..16] == BigEndian(expires, 8);
    Widths();
    BigEndianRoundTrip(expires, 8);
    TrialIsPowValue(sha512, unsigned, nonce);
    var ttl := match originalTtl case Some(t) => t case None => expires - received;
    TargetClamps(ntpb, eb, |raw|, ttl);
    TargetClamps(ntpb, eb, |raw|, AtLeast(ttl, MIN_TTL));
  }

  /** What work is: the first eight bytes of two rounds of SHA-512 over nonce and hash of the rest, as a number, are
      at most the target. */
  lemma WorkIs(sha512: Bytes -> Digest, unsigned: Bytes, target: nat, nonce: nat, value: nat)
    requires value < MAX_U64
    requires BigEndian(value, 8) == sha512(sha512(BigEndian(nonce, 8) + sha512(unsigned)))[..8]
    ensures Meets(sha512, sha512(unsigned), target, nonce) <==> value <= target
  {
    hide BigEndian, FromBigEndian;
    Widths();
    BigEndianRoundTrip(value, 8);
  }

  /** The target without division: the largest number whose product with the difficulty stays within 2^64, where the
      difficulty counts the bytes and, for every 2^16 seconds to live, the bytes again. Smaller demands and lifetimes
      count as 1000, 1000 and five minutes. */
  lemma TargetIs(ntpb: int, eb: int, objectLen: nat, ttl: int, target: nat, share: nat)
    requires var size := objectLen + AtLeast(eb, 1000);
      && share * 0x1_0000 <= AtLeast(ttl, 300) * size < (share + 1) * 0x1_0000
      && var difficulty := AtLeast(ntpb, 1000) * (size + share);
      target * difficulty <= 0x1_0000_0000_0000_0000 < (target + 1) * difficulty
    ensures CalculateTarget(ntpb, eb, objectLen, ttl) == target
  {
    var n, size, t := AtLeast(ntpb, 1000), objectLen + AtLeast(eb, 1000), AtLeast(ttl, 300);
    QuotientIs(t * size, 0x1_0000, share);
    QuotientIs(MAX_U64, n * (size + share), target);
  }

  lemma QuotientIs(n: nat, d: nat, q: nat)
    requires d > 0 && q * d <= n < (q + 1) * d
    ensures n / d == q
  {
    DivModIdentity(n, d);
    if n / d < q {
      MulMono(n / d + 1, q, d);
    } else if n / d > q {
      MulMono(q + 1, n / d, d);
    }
  }

  /** A nonce good enough for any target the sender may have computed, for at least the object's
      remaining life at build time, is accepted by every default receiver from then on. */
  lemma SenderWorkIsSufficient(sha512: Bytes -> Digest, expires: nat, rest: Bytes, nonce: nat,
                               ntpb: int, eb: int, ttl: int, built: int, received: int)
    requires expires < MAX_U64 && ttl >= expires - built && built <= received
    requires var unsigned := BigEndian(expires, 8) + rest;
      Meets(sha512, sha512(unsigned), CalculateTarget(ntpb, eb, |unsigned| + 8, ttl), nonce)
    ensures IsSufficient(sha512, Complete(BigEndian(expires, 8) + rest, nonce), 0, 0, received, None)
  {
    hide BigEndian, FromBigEndian, CalculateTarget, PowValue, TrialValue;
    var unsigned := BigEndian(expires, 8) + rest;
    var raw := Complete(unsigned, nonce);
    assert raw[8..16] == BigEndian(expires, 8);
    Widths();
    BigEndianRoundTrip(expires, 8);
    TrialIsPowValue(sha512, unsigned, nonce);
    var remaining := AtLeast(expires - received, MIN_TTL);
    TargetAntitone(0, 0, |raw|, remaining, AtLeast(ntpb, 0), AtLeast(eb, 0), |raw|, AtLeast(ttl, MIN_TTL));
    TargetClamps(ntpb, eb, |raw|, ttl);
  }

  datatype Search = Found(nonce: nat) | Interrupted | Exhausted

  function Wrap64(n: int): (w: nat)
    ensures w < MAX_U64
  {
    n % MAX_U64
  }

  lemma WrapStep(start: int, tried: nat)
    ensures Wrap64(Wrap64(start + tried) + 1) == Wrap64(start + tried + 1)
  {
  }

  /** Every nonce is some number of steps below 2^64 away from the start. */
  lemma WrapReaches(start: int, nonce: nat) returns (steps: nat)
    requires nonce < MAX_U64
    ensures steps < MAX_U64 && Wrap64(start + steps) == nonce
  {
    steps := Wrap64(nonce - start);
  }

  /** Trial number `u` of a search from `start` succeeds. */
  predicate MeetsAt(sha512: Bytes -> Digest, initial: Digest, target: nat, start: int, u: nat) {
    Meets(sha512, initial, target, Wrap64(start + u))
  }

  /** The trials before number `n` have all failed. */
  ghost predicate AllFailed(sha512: Bytes -> Digest, initial: Digest, target: nat, start: int, n: nat) {
    forall u: nat :: u < n ==> !MeetsAt(sha512, initial, target, start, u)
  }

  lemma AllFailedEverywhere(sha512: Bytes -> Digest, initial: Digest, target: nat, start: int)
    requires AllFailed(sha512, initial, target, start, MAX_U64)
    ensures forall nonce: nat :: nonce < MAX_U64 ==> !Meets(sha512, initial, target, nonce)
  {
    forall n: nat | n < MAX_U64
      ensures !Meets(sha512, initial, target, n)
    {
      var steps := WrapReaches(start, n);
      assert !MeetsAt(sha512, initial, target, start, steps);
    }
  }

  /** Tries nonces from `start` on, wrapping at 64 bits, until one meets the target, the stop event
      is seen set (`stops(t)`: before trial number t), or all of them have failed. */
  method FindNonceSingleThreaded(sha512: Bytes -> Digest, initial: Digest, target: nat, start: int, stops: nat -> bool)
    returns (r: Search)
    ensures r.Found? ==> Meets(sha512, initial, target, r.nonce)
    ensures r.Found? ==> exists t: nat ::
      t < MAX_U64 && r.nonce == Wrap64(start + t) && AllFailed(sha512, initial, target, start, t)
    ensures r.Exhausted? ==> forall nonce: nat :: nonce < MAX_U64 ==> !Meets(sha512, initial, target, nonce)
    ensures r.Interrupted? ==> exists t: nat :: t < MAX_U64 && stops(t) && AllFailed(sha512, initial, target, start, t)
  {
    hide Meets, Wrap64;
    var nonce := Wrap64(start);
    var tried: nat := 0;
    while true
      invariant tried < MAX_U64
      invariant nonce == Wrap64(start + tried)
      invariant AllFailed(sha512, initial, target, start, tried)
      decreases MAX_U64 - tried
    {
      if stops(tried) {
        return Interrupted;
      }
      if Meets(sha512, initial, target, nonce) {
        return Found(nonce);
      }
      WrapStep(start, tried);
      assert !MeetsAt(sha512, initial, target, start, tried);
      nonce := Wrap64(nonce + 1);
      tried := tried + 1;
      if tried >= MAX_U64 {
        AllFailedEverywhere(sha512, initial, target, start);
        return Exhausted;
      }
    }
  }
}
