/**
 The search for primes (example/logging/logging.d:19-50): a sieve that keeps one bit for each odd number,
 eight of them to a byte.
 */
module Sieve {
  import BlockRounding

  /** D's `uint`, which the `int` variables are compared as. */
  const WORD := 0x1_0000_0000

  /** The remainder modulo 2^32. */
  function Wrap(x: nat): (r: nat)
    ensures r < WORD
  {
    if x < WORD then x else Wrap(x - WORD)
  }

  ghost predicate Prime(n: int) {
    n >= 2 && forall d | 1 < d < n :: n % d != 0
  }

  ghost function OddPrimes(n: int): set<int> {
    set p | 3 <= p < n && Prime(p)
  }

  // ---------------------------------------------------------------- divisibility

  lemma DividesTransitively(p: int, d: int, n: int)
    requires p > 0 && d > 0 && d % p == 0 && n % d == 0
    ensures n % p == 0
  {
    var a, b := d / p, n / d;
    assert d == p * a && n == d * b;
    assert n == p * (a * b);
    MultipleHasNoRemainder(p, a * b);
  }

  lemma MultipleHasNoRemainder(p: int, k: int)
    requires p > 0
    ensures (p * k) % p == 0
  {
    var q := (p * k) / p;
    assert p * (k - q) == (p * k) % p;
    ScaledInOrder(p, 1, k - q);
    ScaledInOrder(p, k - q, -1);
  }

  lemma ScaledInOrder(p: int, j: int, k: int)
    requires p > 0
    ensures j <= k ==> p * j <= p * k
  {
  }

  lemma HasPrimeDivisor(n: int) returns (p: int)
    requires n >= 2
    ensures Prime(p) && p <= n && n % p == 0
    decreases n
  {
    if Prime(n) {
      p := n;
    } else {
      var d :| 1 < d < n && n % d == 0;
      p := HasPrimeDivisor(d);
      DividesTransitively(p, d, n);
    }
  }

  lemma EvenIsNotPrime(n: int)
    requires n > 2 && n % 2 == 0
    ensures !Prime(n)
  {
  }

  // ---------------------------------------------------------------- the packed bits

  /** `1 << k` in a byte. */
  function Mask(k: nat): (r: bv8)
    requires k < 8
    ensures r == (1 as bv8) << k
  {
    if k == 0 then 1 else if k == 1 then 2 else if k == 2 then 4 else if k == 3 then 8
    else if k == 4 then 16 else if k == 5 then 32 else if k == 6 then 64 else 128
  }

  predicate Bit(bits: seq<bv8>, x: nat)
    requires x / 16 < |bits|
  {
    bits[x / 16] & Mask(x % 16 / 2) != 0
  }

  function WithBit(bits: seq<bv8>, x: nat): seq<bv8>
    requires x / 16 < |bits|
  {
    bits[x / 16 := bits[x / 16] | Mask(x % 16 / 2)]
  }

  /** An odd number is found again from its byte and its bit. */
  lemma ByteAndBit(x: nat)
    requires x % 2 == 1
    ensures x == 16 * (x / 16) + 2 * (x % 16 / 2) + 1
  {
    LowBits(x / 2, x / 16, x % 16);
  }

  lemma LowBits(y: nat, q: nat, r: nat)
    requires 2 * y + 1 == 16 * q + r
    ensures r == 2 * (r / 2) + 1
  {
    assert r == 2 * (y - 8 * q) + 1;
  }

  lemma SameBitIffEqual(x: nat, y: nat)
    requires x % 2 == 1 && y % 2 == 1
    ensures x == y <==> x / 16 == y / 16 && x % 16 / 2 == y % 16 / 2
  {
    ByteAndBit(x);
    ByteAndBit(y);
  }

  /** Setting the bit of one odd number is seen by no other odd number. */
  lemma SetChangesOneBit(bits: seq<bv8>, x: nat, y: nat)
    requires x / 16 < |bits| && y / 16 < |bits| && x % 2 == 1 && y % 2 == 1
    ensures Bit(WithBit(bits, x), y) <==> x == y || Bit(bits, y)
  {
    SameBitIffEqual(x, y);
  }

  method Set(feld: array<bv8>, x: nat)
    requires x / 16 < feld.Length
    modifies feld
    ensures feld[..] == WithBit(old(feld[..]), x)
  {
    feld[x / 16] := feld[x / 16] | Mask(x % 16 / 2);
  }

  method Test(feld: array<bv8>, x: nat) returns (marked: bool)
    requires x / 16 < feld.Length
    ensures marked <==> Bit(feld[..], x)
  {
    marked := feld[x / 16] & Mask(x % 16 / 2) != 0;
  }

  // ---------------------------------------------------------------- the multiples in 32 bits

  /** What `mom` holds once `teste << 1` has been added `k` times to `c`. */
  function Multiple(c: nat, k: nat): nat {
    if k == 0 then c else Wrap(Multiple(c, k - 1) + 2 * c)
  }

  lemma {:induction false} WrapKeepsParity(x: nat)
    ensures Wrap(x) % 2 == x % 2
  {
    if x >= WORD {
      WrapKeepsParity(x - WORD);
    }
  }

  lemma TwiceKeepsParity(m: nat, c: nat)
    ensures (m + 2 * c) % 2 == m % 2
  {
  }

  lemma {:induction false} WrapTakesOff(x: nat) returns (q: nat)
    ensures x == Wrap(x) + q * WORD
  {
    if x < WORD {
      q := 0;
    } else {
      q := WrapTakesOff(x - WORD);
      q := q + 1;
    }
  }

  lemma {:induction false} MultipleIsOdd(c: nat, k: nat)
    requires c % 2 == 1
    ensures Multiple(c, k) % 2 == 1
  {
    if k > 0 {
      MultipleIsOdd(c, k - 1);
      TwiceKeepsParity(Multiple(c, k - 1), c);
      WrapKeepsParity(Multiple(c, k - 1) + 2 * c);
    }
  }

  lemma OddTimes(c: nat, k: nat)
    requires k >= 1
    ensures (2 * k + 1) * c == (2 * (k - 1) + 1) * c + 2 * c
  {
  }

  /** It is an odd multiple, less what wrapped around. */
  lemma {:induction false} MultipleWraps(c: nat, k: nat) returns (q: nat)
    ensures (2 * k + 1) * c == Multiple(c, k) + q * WORD
  {
    if k == 0 {
      q := 0;
    } else {
      q := MultipleWraps(c, k - 1);
      var more := WrapTakesOff(Multiple(c, k - 1) + 2 * c);
      OddTimes(c, k);
      q := q + more;
    }
  }

  lemma Unwrapped(c: nat, k: nat)
    requires (2 * k + 1) * c < WORD
    ensures Multiple(c, k) == (2 * k + 1) * c
  {
    var q := MultipleWraps(c, k);
    assert q == 0;
  }

  /** `m` times `c` is -1 modulo `p`. */
  predicate IsMinusOne(c: nat, m: nat, q: nat, p: nat) {
    m % 2 == 1 && c * m + 1 == q * p
  }

  /** Modulo a power of two, -1 is an odd multiple of every odd number. */
  lemma {:induction false} MinusOneIsMultiple(c: nat, n: nat) returns (m: nat, q: nat)
    requires c % 2 == 1 && n >= 1
    ensures IsMinusOne(c, m, q, BlockRounding.Pow2(n))
  {
    if n == 1 {
      m, q := 1, c / 2 + 1;
      assert BlockRounding.Pow2(1) == 2 * BlockRounding.Pow2(0) == 2;
    } else {
      m, q := MinusOneIsMultiple(c, n - 1);
      assert BlockRounding.Pow2(n - 1) == 2 * BlockRounding.Pow2(n - 2);
      m, q := MinusOneModuloTwice(c, m, q, BlockRounding.Pow2(n - 2), BlockRounding.Pow2(n - 1));
    }
  }

  lemma MinusOneModuloTwice(c: nat, m: nat, q: nat, h: nat, p: nat) returns (m': nat, q': nat)
    requires c % 2 == 1 && p == 2 * h && IsMinusOne(c, m, q, p)
    ensures IsMinusOne(c, m', q', 2 * p)
  {
    m', q' := m, q;
    if q % 2 == 1 {
      NextTry(c, m, p, q);
      m', q' := m + p, q + c;
      OddPlusEven(m, h, p);
    }
    q' := HalfFactor(q', p);
  }

  lemma OddPlusEven(m: nat, h: nat, p: nat)
    requires m % 2 == 1 && p == 2 * h
    ensures (m + p) % 2 == 1
  {
  }

  lemma NextTry(c: nat, m: nat, p: nat, q: nat)
    requires c * m + 1 == q * p
    ensures c * (m + p) + 1 == (q + c) * p
  {
    assert c * (m + p) == c * m + c * p;
  }

  lemma HalfFactor(q: nat, p: nat) returns (h: nat)
    requires q % 2 == 0
    ensures h * (2 * p) == q * p
  {
    h := q / 2;
    assert q == 2 * h;
  }

  /** So the multiples of an odd number reach the largest word sooner or later, which stops the inner loop. */
  lemma ReachesLargest(c: nat) returns (k: nat)
    requires c % 2 == 1 && c < WORD - 1
    ensures k >= 1 && Multiple(c, k) == WORD - 1
  {
    var m, r := MinusOneIsMultiple(c, 32);
    BlockRounding.Pow31();
    assert BlockRounding.Pow2(32) == WORD;
    k := m / 2;
    var q := MultipleWraps(c, k);
    OddHalf(c, m, k);
    OneBelow(c * m, Multiple(c, k), r, q);
  }

  lemma OddHalf(c: nat, m: nat, k: nat)
    requires m % 2 == 1 && k == m / 2
    ensures c * m == (2 * k + 1) * c
  {
    assert m == 2 * k + 1;
  }

  lemma OneBelow(t: nat, w: nat, r: nat, q: nat)
    requires t + 1 == r * WORD && t == w + q * WORD && w < WORD
    ensures w == WORD - 1
  {
  }

  // ---------------------------------------------------------------- the inner loop

  /** The first `k` multiples from three times `c` on are all below `max`, so the inner loop marks them. */
  predicate InStride(c: nat, max: nat, k: nat) {
    k == 0 || (Multiple(c, k) < max && InStride(c, max, k - 1))
  }

  /** `x` is one of the first `k` multiples. */
  predicate Among(c: nat, x: nat, k: nat) {
    k > 0 && (Multiple(c, k) == x || Among(c, x, k - 1))
  }

  /** The inner loop for `c` marks `x`. */
  ghost predicate Visits(c: nat, max: nat, x: nat) {
    exists k: nat :: k >= 1 && InStride(c, max, k) && Multiple(c, k) == x
  }

  lemma {:induction false} InStrideBefore(c: nat, max: nat, j: nat, k: nat)
    requires j <= k && InStride(c, max, k)
    ensures InStride(c, max, j)
    decreases k
  {
    if j < k {
      InStrideBefore(c, max, j, k - 1);
    }
  }

  lemma {:induction false} AmongHas(c: nat, x: nat, k: nat) returns (j: nat)
    requires Among(c, x, k)
    ensures 1 <= j <= k && Multiple(c, j) == x
  {
    if Multiple(c, k) == x {
      j := k;
    } else {
      j := AmongHas(c, x, k - 1);
    }
  }

  lemma {:induction false} IsAmong(c: nat, x: nat, k: nat, j: nat)
    requires 1 <= j <= k && Multiple(c, j) == x
    ensures Among(c, x, k)
    decreases k
  {
    if j < k {
      IsAmong(c, x, k - 1, j);
    }
  }

  /** Once a multiple is too large, the ones before it are those visited. */
  lemma VisitsIffAmong(c: nat, max: nat, x: nat, k: nat, next: nat)
    requires InStride(c, max, k) && next == k + 1 && Multiple(c, next) >= max
    ensures Visits(c, max, x) <==> Among(c, x, k)
  {
    if Visits(c, max, x) {
      var j: nat :| j >= 1 && InStride(c, max, j) && Multiple(c, j) == x;
      if j > k {
        InStrideBefore(c, max, next, j);
      }
      IsAmong(c, x, k, j);
    }
    if Among(c, x, k) {
      var j := AmongHas(c, x, k);
      InStrideBefore(c, max, j, k);
    }
  }

  /** An odd number below `max`, and the bytes that hold it. */
  predicate Candidate(bits: seq<bv8>, max: nat, x: int) {
    1 <= x < max && x % 2 == 1 && |bits| == max / 16 + 1
  }

  /** The first `k` multiples of `c` have been marked. */
  ghost predicate Marked(was: seq<bv8>, bits: seq<bv8>, max: nat, c: nat, k: nat) {
    && |bits| == |was| == max / 16 + 1 && InStride(c, max, k)
    && forall x: nat | Candidate(bits, max, x) :: Bit(bits, x) <==> Bit(was, x) || Among(c, x, k)
  }

  lemma MarkedNext(was: seq<bv8>, bits: seq<bv8>, max: nat, c: nat, k: nat, mom: nat)
    requires c % 2 == 1 && Marked(was, bits, max, c, k) && mom == Multiple(c, k + 1) && mom < max
    ensures mom / 16 < |bits| && Marked(was, WithBit(bits, mom), max, c, k + 1)
  {
    var after := WithBit(bits, mom);
    MultipleIsOdd(c, k + 1);
    forall x: nat | Candidate(after, max, x) ensures Bit(after, x) <==> Bit(was, x) || Among(c, x, k + 1) {
      assert Candidate(bits, max, x);
      SetChangesOneBit(bits, mom, x);
    }
  }

  /** What is marked besides: what the inner loop for `c` visits. */
  ghost predicate Marks(was: seq<bv8>, bits: seq<bv8>, max: nat, c: nat) {
    && |bits| == |was| == max / 16 + 1
    && forall x: nat | Candidate(bits, max, x) :: Bit(bits, x) <==> Bit(was, x) || Visits(c, max, x)
  }

  lemma MarkedAll(was: seq<bv8>, bits: seq<bv8>, max: nat, c: nat, k: nat)
    requires Marked(was, bits, max, c, k) && Multiple(c, k + 1) >= max
    ensures Marks(was, bits, max, c)
  {
    forall x: nat | Candidate(bits, max, x) ensures Bit(bits, x) <==> Bit(was, x) || Visits(c, max, x) {
      VisitsIffAmong(c, max, x, k, k + 1);
    }
  }

  /** The inner loop, for the odd number `teste`. */
  method Strike(feld: array<bv8>, max: nat, teste: nat)
    requires feld.Length == max / 16 + 1 && max < WORD && teste < max && teste % 2 == 1
    modifies feld
    ensures Marks(old(feld[..]), feld[..], max, teste)
  {
    ghost var was := feld[..];
    ghost var last := ReachesLargest(teste);
    ghost var k := 0;
    var mom := Wrap(3 * teste);
    assert mom == Wrap(Multiple(teste, 0) + 2 * teste);
    while mom < max
      invariant feld.Length == max / 16 + 1 && Marked(was, feld[..], max, teste, k)
      invariant mom == Multiple(teste, k + 1) && k + 1 <= last
      decreases last - k
    {
      MarkedNext(was, feld[..], max, teste, k, mom);
      Set(feld, mom);
      k := k + 1;
      mom := Wrap(mom + 2 * teste);
    }
    MarkedAll(was, feld[..], max, teste, k);
  }

  // ---------------------------------------------------------------- the outer loop

  /** The outer loop finds `c` unmarked, because no smaller number found unmarked visits it. */
  ghost predicate Fires(max: nat, c: nat)
    decreases c, 0
  {
    c >= 3 && c % 2 == 1 && !Crossed(max, c, c - 1)
  }

  /** Some number up to `t` found unmarked visits `x`. */
  ghost predicate Crossed(max: nat, x: nat, t: nat)
    decreases t, 1
  {
    t >= 3 && ((Fires(max, t) && Visits(t, max, x)) || Crossed(max, x, t - 1))
  }

  ghost function Firing(max: nat, n: nat): set<nat> {
    set c: nat | 3 <= c < n && Fires(max, c)
  }

  /** Every sixteenth hit up to `hits` has been announced. */
  predicate Announces(found: seq<nat>, hits: nat) {
    |found| == hits / 16 && forall i | 0 <= i < |found| :: found[i] == 16 * (i + 1)
  }

  method Announce(found: seq<nat>, hits: nat) returns (more: seq<nat>)
    requires hits > 0 && Announces(found, hits - 1)
    ensures Announces(more, hits)
  {
    more := if hits % 16 == 0 then found + [hits] else found;
  }

  /** The marked numbers are those crossed by what was found up to `t`. */
  ghost predicate Sieved(bits: seq<bv8>, max: nat, t: nat) {
    && |bits| == max / 16 + 1
    && forall x: nat | Candidate(bits, max, x) :: Bit(bits, x) <==> Crossed(max, x, t)
  }

  /** All candidates up to the odd number `t` have been dealt with. */
  ghost predicate Progress(bits: seq<bv8>, max: nat, t: nat, hits: nat, found: seq<nat>) {
    && t % 2 == 1 && (t == 1 || t < max)
    && Sieved(bits, max, t) && hits == |Firing(max, t + 1)| && Announces(found, hits)
  }

  lemma OddNext(t: nat, c: nat)
    requires c == t + 2 && t % 2 == 1
    ensures c % 2 == 1 && (t + 1) % 2 == 0
  {
  }

  /** The even number between is never looked at. */
  lemma CrossedToNext(max: nat, x: nat, t: nat, c: nat)
    requires c == t + 2 && t % 2 == 1
    ensures Crossed(max, x, t + 1) <==> Crossed(max, x, t)
    ensures Crossed(max, x, c) <==> Crossed(max, x, t) || (Fires(max, c) && Visits(c, max, x))
  {
    OddNext(t, c);
    assert !Fires(max, t + 1);
    assert c - 1 == t + 1;
  }

  lemma FiringToNext(max: nat, t: nat, c: nat)
    requires c == t + 2 && t % 2 == 1
    ensures |Firing(max, c + 1)| == |Firing(max, t + 1)| + if Fires(max, c) then 1 else 0
  {
    OddNext(t, c);
    assert !Fires(max, t + 1);
    var before := Firing(max, t + 1);
    assert c !in before;
    assert Firing(max, c + 1) == if Fires(max, c) then before + {c} else before;
  }

  lemma UnmarkedIffFires(bits: seq<bv8>, max: nat, c: nat, t: nat)
    requires c == t + 2 && t % 2 == 1 && Candidate(bits, max, c) && Sieved(bits, max, t)
    ensures !Bit(bits, c) <==> Fires(max, c)
  {
    CrossedToNext(max, c, t, c);
  }

  lemma SievedToNext(before: seq<bv8>, after: seq<bv8>, max: nat, c: nat, t: nat)
    requires c == t + 2 && t % 2 == 1 && |after| == |before| && Sieved(before, max, t)
    requires if Fires(max, c) then Marks(before, after, max, c) else after == before
    ensures Sieved(after, max, c)
  {
    forall x: nat | Candidate(after, max, x) ensures Bit(after, x) <==> Crossed(max, x, c) {
      assert Candidate(before, max, x);
      CrossedToNext(max, x, t, c);
    }
  }

  lemma NextProgress(before: seq<bv8>, after: seq<bv8>, max: nat, c: nat, t: nat, hits: nat, found: seq<nat>,
          hits': nat, found': seq<nat>)
    requires Progress(before, max, t, hits, found) && c == t + 2 && c < max && |after| == |before|
    requires c / 16 < |before|
    requires if !Bit(before, c) then Marks(before, after, max, c) && hits' == hits + 1 && Announces(found', hits')
             else after == before && hits' == hits && found' == found
    ensures Progress(after, max, c, hits', found')
  {
    OddNext(t, c);
    UnmarkedIffFires(before, max, c, t);
    FiringToNext(max, t, c);
    SievedToNext(before, after, max, c, t);
  }

  /** One turn of the outer loop. */
  method Consider(feld: array<bv8>, max: nat, teste: nat, hits: nat, found: seq<nat>, ghost t: nat)
    returns (hits': nat, found': seq<nat>)
    requires teste < max < WORD && Progress(feld[..], max, t, hits, found) && teste == t + 2
    modifies feld
    ensures Progress(feld[..], max, teste, hits', found')
  {
    hits', found' := hits, found;
    OddNext(t, teste);
    var marked := Test(feld, teste);
    ghost var before := feld[..];
    if !marked {
      hits' := hits + 1;
      found' := Announce(found, hits');
      Strike(feld, max, teste);
    }
    NextProgress(before, feld[..], max, teste, t, hits, found, hits', found');
  }

  lemma NothingMarkedYet(bits: seq<bv8>, max: nat)
    requires |bits| == max / 16 + 1 && forall i | 0 <= i < |bits| :: bits[i] == 0
    ensures Sieved(bits, max, 1) && |Firing(max, 2)| == 0
  {
  }

  /** The last number looked at is the last odd one below `max`. */
  lemma ProgressAtEnd(bits: seq<bv8>, max: nat, t: nat, hits: nat, found: seq<nat>)
    requires Progress(bits, max, t, hits, found) && max <= t + 2
    ensures hits == |Firing(max, max)|
    ensures forall x: nat | 1 <= x < max && x % 2 == 1 :: Bit(bits, x) <==> Crossed(max, x, max - 1)
  {
    OddNext(t, t + 2);
    forall x: nat | 1 <= x < max && x % 2 == 1 ensures Bit(bits, x) <==> Crossed(max, x, max - 1) {
      assert Candidate(bits, max, x);
      CrossedToNext(max, x, t, t + 2);
    }
    assert !Fires(max, t + 1);
    assert Firing(max, max) == Firing(max, t + 1);
  }

  // ---------------------------------------------------------------- what the marks mean

  lemma {:induction false} CrossedMeans(max: nat, x: nat, t: nat)
    ensures Crossed(max, x, t) <==> exists b: nat :: 3 <= b <= t && Fires(max, b) && Visits(b, max, x)
  {
    if t >= 3 {
      CrossedMeans(max, x, t - 1);
    }
  }

  lemma PrimeDivisorIsOdd(x: int, p: int)
    requires x % 2 == 1 && Prime(p) && x % p == 0
    ensures p >= 3 && p % 2 == 1
  {
    if p > 2 && p % 2 == 0 {
      EvenIsNotPrime(p);
    }
  }

  /** As long as nothing wraps, the multiples are in stride. */
  lemma {:induction false} PlainStride(c: nat, max: nat, k: nat)
    requires (2 * k + 1) * c < max < WORD
    ensures InStride(c, max, k) && Multiple(c, k) == (2 * k + 1) * c
  {
    Unwrapped(c, k);
    if k > 0 {
      assert (2 * (k - 1) + 1) * c == (2 * k + 1) * c - 2 * c;
      PlainStride(c, max, k - 1);
    }
  }

  /** An odd composite is visited by a smaller odd prime. */
  lemma CompositeIsVisited(x: nat, max: nat) returns (p: nat)
    requires 3 <= x < max < WORD && x % 2 == 1 && !Prime(x)
    ensures Prime(p) && 3 <= p < x && p % 2 == 1 && Visits(p, max, x)
  {
    var d :| 1 < d < x && x % d == 0;
    p := HasPrimeDivisor(d);
    DividesTransitively(p, d, x);
    PrimeDivisorIsOdd(x, p);
    var k := OddQuotient(x, p);
    PlainStride(p, max, k);
  }

  lemma OddQuotient(x: nat, p: nat) returns (k: nat)
    requires 0 < p < x && x % p == 0 && x % 2 == 1
    ensures k >= 1 && x == (2 * k + 1) * p
  {
    var a := x / p;
    assert x == a * p;
    OddFactor(a, p);
    k := a / 2;
    assert a == 2 * k + 1;
    assert a != 1;
  }

  lemma OddFactor(a: nat, p: nat)
    requires (a * p) % 2 == 1
    ensures a % 2 == 1
  {
    EvenTimes(a / 2, p);
  }

  lemma EvenTimes(h: nat, p: nat)
    ensures (2 * h * p) % 2 == 0
  {
    assert 2 * h * p == 2 * (h * p);
  }

  /** No odd prime visits a larger prime. */
  ghost predicate NoPrimeVisitsLater(max: nat) {
    forall p: nat, x: nat | 3 <= p < x < max && Prime(p) && Prime(x) :: !Visits(p, max, x)
  }

  /** No odd prime visits a prime. */
  ghost predicate NoPrimeVisitsPrime(max: nat) {
    forall p: nat, x: nat | 3 <= p < max && 3 <= x < max && Prime(p) && Prime(x) :: !Visits(p, max, x)
  }

  /** The numbers found are the odd primes. */
  ghost predicate FindsPrimes(max: nat) {
    forall c: nat | 3 <= c < max :: Fires(max, c) <==> Prime(c)
  }

  /** The crossed numbers are the odd composites. */
  ghost predicate CrossesComposites(max: nat) {
    forall x: nat | 3 <= x < max && x % 2 == 1 :: Crossed(max, x, max - 1) <==> !Prime(x)
  }

  lemma {:induction false} FiresIffPrime(max: nat, c: nat)
    requires NoPrimeVisitsLater(max) && 3 <= c < max < WORD
    ensures Fires(max, c) <==> Prime(c)
  {
    if c % 2 == 0 {
      EvenIsNotPrime(c);
    } else {
      CrossedMeans(max, c, c - 1);
      forall b: nat | 3 <= b < c ensures Fires(max, b) <==> Prime(b) {
        FiresIffPrime(max, b);
      }
      if !Prime(c) {
        var p := CompositeIsVisited(c, max);
      }
    }
  }

  /** The outer loop finds exactly the odd primes if and only if no odd prime visits a larger prime. */
  lemma FindsPrimesIffNoneVisitsLater(max: nat)
    requires max < WORD
    ensures FindsPrimes(max) <==> NoPrimeVisitsLater(max)
    ensures FindsPrimes(max) ==> |Firing(max, max)| == |OddPrimes(max)|
  {
    if NoPrimeVisitsLater(max) {
      forall c: nat | 3 <= c < max ensures Fires(max, c) <==> Prime(c) {
        FiresIffPrime(max, c);
      }
    }
    if FindsPrimes(max) {
      forall p: nat, x: nat | 3 <= p < x < max && Prime(p) && Prime(x) ensures !Visits(p, max, x) {
        CrossedMeans(max, x, x - 1);
        assert Fires(max, p) && Fires(max, x);
      }
      assert Firing(max, max) == OddPrimes(max);
    }
  }

  lemma {:induction false} CrossedLater(max: nat, x: nat, t: nat, u: nat)
    requires t <= u && Crossed(max, x, t)
    ensures Crossed(max, x, u)
    decreases u
  {
    if t < u {
      CrossedLater(max, x, t, u - 1);
    }
  }

  /** The marks are right if and only if no odd prime visits a prime, and then the primes are found. */
  lemma RightIffNoPrimeVisitsPrime(max: nat)
    requires max < WORD
    ensures CrossesComposites(max) <==> NoPrimeVisitsPrime(max)
    ensures CrossesComposites(max) ==> FindsPrimes(max)
  {
    if NoPrimeVisitsPrime(max) {
      FindsPrimesIffNoneVisitsLater(max);
      forall x: nat | 3 <= x < max && x % 2 == 1 ensures Crossed(max, x, max - 1) <==> !Prime(x) {
        CrossedMeans(max, x, max - 1);
        if !Prime(x) {
          var p := CompositeIsVisited(x, max);
        }
      }
    }
    if CrossesComposites(max) {
      forall p: nat, x: nat | 3 <= p < max && 3 <= x < max && Prime(p) && Prime(x) ensures !Visits(p, max, x) {
        OddPrimeFires(max, p);
        OddPrimeFires(max, x);
        CrossedMeans(max, x, max - 1);
      }
    }
  }

  lemma OddPrimeFires(max: nat, p: nat)
    requires 3 <= p < max && Prime(p) && CrossesComposites(max)
    ensures p % 2 == 1 && Fires(max, p)
  {
    if p % 2 == 0 {
      EvenIsNotPrime(p);
    }
    if Crossed(max, p, p - 1) {
      CrossedLater(max, p, p - 1, max - 1);
    }
  }

  /** The marks are right. */
  ghost predicate MarksComposites(bits: seq<bv8>, max: nat)
    requires |bits| == max / 16 + 1
  {
    forall x: nat | 3 <= x < max && x % 2 == 1 :: Bit(bits, x) <==> !Prime(x)
  }

  /**
   For every `max`: the bytes mark what is visited by the numbers found, and `hits` counts these, every
   sixteenth one announced.  The marks are right if and only if no odd prime visits a prime, and `hits` is the
   number of odd primes if none visits a larger one.
   */
  method Compute(max: nat) returns (feld: array<bv8>, hits: nat, found: seq<nat>)
    requires max < WORD
    ensures feld.Length == max / 16 + 1
    ensures forall x: nat | 1 <= x < max && x % 2 == 1 :: Bit(feld[..], x) <==> Crossed(max, x, max - 1)
    ensures hits == |Firing(max, max)|
    ensures MarksComposites(feld[..], max) <==> NoPrimeVisitsPrime(max)
    ensures NoPrimeVisitsLater(max) ==> hits == |OddPrimes(max)|
    ensures Announces(found, hits)
  {
    feld := new bv8[max / 16 + 1](_ => 0);
    hits, found := 0, [];
    NothingMarkedYet(feld[..], max);
    ghost var t := 1;   // the number before `teste`
    var teste := Wrap(1 + 2);
    while teste < max
      invariant feld.Length == max / 16 + 1 && teste == t + 2 && Progress(feld[..], max, t, hits, found)
    {
      hits, found := Consider(feld, max, teste, hits, found, t);
      t := teste;
      teste := Wrap(teste + 2);
    }
    ProgressAtEnd(feld[..], max, t, hits, found);
    FindsPrimesIffNoneVisitsLater(max);
    RightIffNoPrimeVisitsPrime(max);
    assert MarksComposites(feld[..], max) <==> CrossesComposites(max);
  }

  // ---------------------------------------------------------------- when it is right

  /** No odd prime below `max` has a triple that wraps around to a prime. */
  ghost predicate NoTripleWrapsToPrime(max: nat) {
    forall p: nat | 3 <= p < max && Prime(p) :: !Prime(3 * p - WORD)
  }

  /** Up to two fifths of 2^32, a number whose triple does not wrap visits multiples that do not wrap either. */
  lemma {:induction false} SmallStride(c: nat, max: nat, k: nat)
    requires 5 * max <= 2 * WORD && 3 * c < WORD && InStride(c, max, k)
    ensures Multiple(c, k) == (2 * k + 1) * c
    ensures k >= 1 ==> 3 * c < max
  {
    if k >= 1 {
      SmallStride(c, max, k - 1);
      OddTimes(c, k);
    }
  }

  /** And one whose triple wraps visits only what that wraps to. */
  lemma {:induction false} LargeStride(c: nat, max: nat, k: nat)
    requires 5 * max <= 2 * WORD && c < max && 3 * c >= WORD && k >= 1 && InStride(c, max, k)
    ensures k == 1 && Multiple(c, k) == 3 * c - WORD
  {
    TripleWraps(c);
    if k >= 2 {
      InStrideBefore(c, max, 2, k);
    }
  }

  lemma TripleWraps(c: nat)
    requires WORD <= 3 * c && 5 * c < 2 * WORD
    ensures Multiple(c, 1) == 3 * c - WORD && Multiple(c, 2) == 5 * c - WORD
  {
    assert Wrap(3 * c) == Wrap(3 * c - WORD) == 3 * c - WORD;
    assert Multiple(c, 1) == Wrap(Multiple(c, 0) + 2 * c);
  }

  lemma ProperMultipleIsNotPrime(c: nat, k: nat)
    requires c >= 2 && k >= 1
    ensures !Prime((2 * k + 1) * c)
  {
    var x := (2 * k + 1) * c;
    MultipleHasNoRemainder(c, 2 * k + 1);
    assert x == c * (2 * k + 1);
    ScaledInOrder(c, 2, 2 * k + 1);
    assert x % c == 0 && 1 < c < x;
  }

  /**
   Up to two fifths of 2^32 the odd primes are found, and the marks are right if and only if no triple of a
   prime wraps to a prime, as is certain up to a third.
   */
  lemma UpToTwoFifths(max: nat)
    requires 5 * max <= 2 * WORD
    ensures NoPrimeVisitsLater(max)
    ensures NoPrimeVisitsPrime(max) <==> NoTripleWrapsToPrime(max)
    ensures 3 * max <= WORD ==> NoTripleWrapsToPrime(max)
  {
    forall p: nat, x: nat | 3 <= p < max && 3 <= x < max && Prime(p) && Prime(x)
      ensures Visits(p, max, x) <==> 3 * p == x + WORD
    {
      VisitedPrime(p, max, x);
    }
    forall p: nat | 3 <= p < max && Prime(p) && Prime(3 * p - WORD) ensures 3 <= 3 * p - WORD < max {
      if 3 * p - WORD == 2 {
        EvenIsNotPrime(p);
      }
    }
  }

  lemma VisitedPrime(p: nat, max: nat, x: nat)
    requires 5 * max <= 2 * WORD && 3 <= p < max && 3 <= x < max && Prime(p) && Prime(x)
    ensures Visits(p, max, x) <==> 3 * p == x + WORD
  {
    if Visits(p, max, x) {
      var k: nat :| k >= 1 && InStride(p, max, k) && Multiple(p, k) == x;
      if 3 * p < WORD {
        SmallStride(p, max, k);
        ProperMultipleIsNotPrime(p, k);
      } else {
        LargeStride(p, max, k);
      }
    }
    if 3 * p == x + WORD {
      TripleWraps(p);
      assert InStride(p, max, 0) && InStride(p, max, 1);
    }
  }

  /** Some odd prime below `max` has a triple that wraps to `x`. */
  ghost predicate WrappedBelow(x: nat, max: nat) {
    exists p: nat :: 3 <= p < max && Prime(p) && 3 * p == x + WORD
  }

  /** Up to two fifths of 2^32, what triples of primes wrap to is marked besides the odd composites. */
  lemma CrossedUpToTwoFifths(max: nat, x: nat)
    requires 5 * max <= 2 * WORD && 3 <= x < max && x % 2 == 1
    ensures Crossed(max, x, max - 1) <==> !Prime(x) || WrappedBelow(x, max)
  {
    UpToTwoFifths(max);
    FindsPrimesIffNoneVisitsLater(max);
    CrossedMeans(max, x, max - 1);
    if !Prime(x) {
      var p := CompositeIsVisited(x, max);
    } else {
      forall p: nat | 3 <= p < max && Prime(p) ensures Visits(p, max, x) <==> 3 * p == x + WORD {
        VisitedPrime(p, max, x);
      }
      assert Crossed(max, x, max - 1) ==> WrappedBelow(x, max);
      if WrappedBelow(x, max) {
        var p: nat :| 3 <= p < max && Prime(p) && 3 * p == x + WORD;
        assert Fires(max, p) && Visits(p, max, x);
      }
    }
  }

  lemma SmallPrimes()
    ensures Prime(7) && Prime(17)
  {
    forall d | 1 < d < 7 ensures 7 % d != 0 {
      assert d == 2 || d == 3 || d == 4 || d == 5 || d == 6;
    }
    forall d | 1 < d < 17 ensures 17 % d != 0 {
      assert d == 2 || d == 3 || d == 4 || d == 5 || d == 6 || d == 7 || d == 8 || d == 9 || d == 10 || d == 11
          || d == 12 || d == 13 || d == 14 || d == 15 || d == 16;
    }
  }

  /** For the largest `max`, the multiples of 7 wrap around to 3 and go on to 17, which is taken for composite. */
  lemma SeventeenIsCrossed()
    ensures var max := WORD - 1;
      && Prime(7) && Prime(17) && Visits(7, max, 17)
      && !NoPrimeVisitsLater(max) && !NoPrimeVisitsPrime(max) && !FindsPrimes(max)
  {
    SmallPrimes();
    SevenWraps(WORD - 1, 306783377, 306783379);
    FindsPrimesIffNoneVisitsLater(WORD - 1);
  }

  lemma SevenWraps(max: nat, k: nat, n: nat)
    requires max == WORD - 1 && (2 * k + 1) * 7 == WORD - 11 && n == k + 2
    ensures Visits(7, max, 17)
  {
    PlainStride(7, max, k);
    assert Multiple(7, n - 1) == Wrap(WORD - 11 + 14) == 3;
    assert Multiple(7, n) == Wrap(3 + 14) == 17;
    assert InStride(7, max, n - 1) && InStride(7, max, n);
  }
}
