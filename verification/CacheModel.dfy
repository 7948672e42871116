/** What the DNS cache of dns-server/internal/dns_cache.go promises, on values: when an answer is
    kept, until when, and what a hit returns. */
module CacheModel {
  import opened Basics
  import opened Clocks
  import opened Messages

  datatype Stored = Stored(msg: Message, expires: int)

  /** The smallest positive TTL as the code computes it in Go's `int`, or the largest `int`. */
  function MinTTL(w: Width, answer: seq<Record>): nat {
    if answer == [] then MaxInt(w)
    else
      var rest, ttl := MinTTL(w, answer[..|answer| - 1]), ToInt(w, answer[|answer| - 1].ttl);
      if 0 < ttl < rest then ttl else rest
  }

  predicate Cacheable(w: Width, answer: seq<Record>) {
    MinTTL(w, answer) < MaxInt(w)
  }

  /** A TTL the code can count with: positive and, on a 32-bit build, below 2^31 - 1. */
  predicate Usable(w: Width, ttl: uint32) {
    0 < ttl && (w == W32 ==> ttl < MaxInt(W32))
  }

  /** In numbers: an answer is cached if and only if some TTL is positive and, on a 32-bit build, below
      2^31 - 1. */
  lemma CacheableIff(w: Width, answer: seq<Record>)
    ensures Cacheable(w, answer) <==>
              exists i :: 0 <= i < |answer| && 0 < answer[i].ttl && (w == W32 ==> answer[i].ttl < 2_147_483_647)
  {
    hide Cacheable;
    MinTTLIsLeast(w, answer);
    assert forall i :: 0 <= i < |answer| ==>
             (Usable(w, answer[i].ttl) <==> 0 < answer[i].ttl && (w == W32 ==> answer[i].ttl < 2_147_483_647));
  }

  /** An answer is cacheable exactly when some record has a usable TTL, and then the entry lives for
      the smallest positive TTL of all its records. */
  lemma {:induction false} MinTTLIsLeast(w: Width, answer: seq<Record>)
    ensures Cacheable(w, answer) <==> exists i :: 0 <= i < |answer| && Usable(w, answer[i].ttl)
    ensures 0 < MinTTL(w, answer) && (Cacheable(w, answer) ==> MinTTL(w, answer) < TWO_32)
    ensures Cacheable(w, answer) ==> exists i :: 0 <= i < |answer| && answer[i].ttl == MinTTL(w, answer)
    ensures Cacheable(w, answer) ==> forall i :: 0 <= i < |answer| && answer[i].ttl > 0 ==> MinTTL(w, answer) <= answer[i].ttl
  {
    if answer != [] {
      var init, last := answer[..|answer| - 1], answer[|answer| - 1];
      MinTTLIsLeast(w, init);
      assert answer == init + [last];
      assert answer[|answer| - 1] == last;
      assert forall i :: 0 <= i < |init| ==> answer[i] == init[i];
    }
  }

  function PutInto(cache: map<Question, Stored>, w: Width, q: Question, msg: Message, now: int): map<Question, Stored> {
    if Cacheable(w, msg.answer) then cache[q := Stored(msg, now + MinTTL(w, msg.answer) * SECOND)] else cache
  }

  predicate Serves(cache: map<Question, Stored>, q: Question, now: int) {
    q in cache && now <= cache[q].expires
  }

  /** The largest power of two not above the number. */
  function Binade(n: nat): (b: nat)
    ensures b <= n
  {
    if n <= 1 then n else 2 * Binade(n / 2)
  }

  const TWO_53: int := 0x20_0000_0000_0000

  /** Go converts a duration to a double before it cuts the fraction off. The double nearest to the
      duration is the next whole second when the rest to that second is at most half the spacing of
      the doubles there, which is 2^-53 of the binade. */
  predicate RoundsUp(left: nat) {
    (SECOND - left % SECOND) * TWO_53 <= SECOND * Binade(left / SECOND)
  }

  /** Whole seconds of a duration; one that has just run out counts as none. */
  function SecondsLeft(left: int): nat {
    if left < 0 then 0
    else if RoundsUp(left) then left / SECOND + 1
    else left / SECOND
  }

  function HitTTL(expires: int, now: int): (ttl: nat) {
    Max(1, SecondsLeft(expires - now))
  }

  function WithTTL(answer: seq<Record>, ttl: uint32): (r: seq<Record>)
    ensures |r| == |answer|
    ensures forall i :: 0 <= i < |r| ==> r[i] == answer[i].(ttl := ttl)
  {
    seq(|answer|, i requires 0 <= i < |answer| => answer[i].(ttl := ttl))
  }

  function HitWith(msg: Message, ttl: uint32): Message {
    msg.(answer := WithTTL(msg.answer, ttl))
  }

  // ------------------------------------------------------------ whole runs

  /** Writes to the cache. A sweep drops some entries, all of them expired. */
  datatype Op = Put(q: Question, msg: Message, at: int) | Sweep(gone: set<Question>, at: int)

  ghost function Cached(w: Width, ops: seq<Op>): map<Question, Stored> {
    if ops == [] then map[]
    else
      var before := Cached(w, ops[..|ops| - 1]);
      match ops[|ops| - 1]
      case Put(q, msg, at) => PutInto(before, w, q, msg, at)
      case Sweep(gone, _) => before - gone
  }

  ghost predicate Sound(w: Width, ops: seq<Op>) {
    && (forall i, j :: 0 <= i < j < |ops| ==> ops[i].at <= ops[j].at)
    && (forall i, q :: 0 <= i < |ops| && ops[i].Sweep? && q in ops[i].gone ==> !Serves(Cached(w, ops[..i]), q, ops[i].at))
  }

  /** The last cacheable answer put for a question, with its end of life: no reference to the map. */
  ghost function LastPut(w: Width, ops: seq<Op>, q: Question): Option<Stored> {
    if ops == [] then None
    else
      var op := ops[|ops| - 1];
      if op.Put? && op.q == q && Cacheable(w, op.msg.answer)
      then Some(Stored(op.msg, op.at + MinTTL(w, op.msg.answer) * SECOND))
      else LastPut(w, ops[..|ops| - 1], q)
  }

  lemma SoundPrefix(w: Width, ops: seq<Op>)
    requires ops != [] && Sound(w, ops)
    ensures Sound(w, ops[..|ops| - 1])
  {
    var init := ops[..|ops| - 1];
    forall i, q | 0 <= i < |init| && init[i].Sweep? && q in init[i].gone
      ensures !Serves(Cached(w, init[..i]), q, init[i].at)
    {
      assert init[..i] == ops[..i] && init[i] == ops[i];
    }
  }

  /** In every run of puts and sweeps a question is served exactly while its last cacheable put has
      not expired, and what is served is that put: the sweeps cannot be noticed. */
  lemma {:induction false} ServesLastPut(w: Width, ops: seq<Op>, q: Question, now: int)
    requires Sound(w, ops)
    requires ops != [] ==> ops[|ops| - 1].at <= now
    ensures Serves(Cached(w, ops), q, now) <==> LastPut(w, ops, q).Some? && now <= LastPut(w, ops, q).value.expires
    ensures q in Cached(w, ops) ==> LastPut(w, ops, q) == Some(Cached(w, ops)[q])
  {
    if ops != [] {
      var init, op := ops[..|ops| - 1], ops[|ops| - 1];
      SoundPrefix(w, ops);
      ServesLastPut(w, init, q, now);
      if op.Sweep? && q in op.gone {
        assert ops[..|ops| - 1] == init;
        assert !Serves(Cached(w, init), q, op.at);
      }
    }
  }

  lemma {:induction false} BinadeBelow(n: nat, m: nat, k: nat)
    requires m == Power2(k) && n < 2 * m
    ensures Binade(n) <= m
  {
    if n > 1 {
      BinadeBelow(n / 2, m / 2, k - 1);
    }
  }

  function Power2(k: nat): (m: nat)
    ensures m > 0
  {
    if k == 0 then 1 else 2 * Power2(k - 1)
  }

  lemma {:induction false} Power2Sum(a: nat, b: nat)
    ensures Power2(a + b) == Power2(a) * Power2(b)
  {
    if a > 0 {
      Power2Sum(a - 1, b);
    }
  }

  lemma Powers()
    ensures Power2(23) == 0x80_0000 && Power2(24) == 0x100_0000 && Power2(31) == 0x8000_0000
  {
    Power2Sum(3, 3);
    Power2Sum(6, 6);
    Power2Sum(12, 12);
    Power2Sum(24, 6);
  }

  const EXACT_SECONDS: nat := 0x100_0000  // 2^24

  /** A whole number of seconds is exact, any lifetime below 2^24 seconds is cut down to whole seconds,
      and a longer one counts at most 238 nanoseconds more than is left. */
  lemma SecondsLeftBounds(left: nat)
    requires left < TWO_32 * SECOND
    ensures left < (SecondsLeft(left) + 1) * SECOND && SecondsLeft(left) * SECOND <= left + 238
    ensures left % SECOND == 0 || left < EXACT_SECONDS * SECOND ==> SecondsLeft(left) * SECOND <= left
  {
    hide Binade, Power2;
    var s := left / SECOND;
    assert left == s * SECOND + left % SECOND;
    Powers();
    BinadeBelow(s, TWO_31, 31);
    if s < EXACT_SECONDS {
      BinadeBelow(s, 0x80_0000, 23);
    }
  }

  /** One nanosecond less than 2^24 + 1 seconds is rounded up. */
  lemma LongLifetimesRoundUp()
    ensures SecondsLeft((EXACT_SECONDS + 1) * SECOND - 1) == EXACT_SECONDS + 1
  {
    hide Binade;
    Powers();
    BinadeOfPower2(24);
  }

  lemma {:induction false} BinadeOfPower2(k: nat)
    ensures Binade(Power2(k)) == Power2(k)
  {
    if k > 0 {
      BinadeOfPower2(k - 1);
    }
  }

  lemma SecondsLeftFalls(l1: int, l2: int)
    requires l2 <= l1
    ensures SecondsLeft(l2) <= SecondsLeft(l1)
  {
    hide Binade;
    if l2 >= 0 {
      assert l2 / SECOND <= l1 / SECOND;
      assert l1 == l1 / SECOND * SECOND + l1 % SECOND && l2 == l2 / SECOND * SECOND + l2 % SECOND;
    }
  }

  /** Exactly when a count of seconds exceeds what is left. */
  lemma RunsAheadIff(left: nat)
    ensures left < SecondsLeft(left) * SECOND <==> RoundsUp(left)
  {
    hide RoundsUp;
    assert left == left / SECOND * SECOND + left % SECOND;
  }

  /** No lifetime the cache gives is out of the range of TTLs. */
  lemma SecondsFit(left: int)
    requires left <= (TWO_32 - 1) * SECOND
    ensures SecondsLeft(left) < TWO_32
  {
    hide SecondsLeft;
    SecondsLeftFalls((TWO_32 - 1) * SECOND, left);
    SecondsLeftBounds((TWO_32 - 1) * SECOND);
  }

  /** The TTL of a hit counts the whole seconds left, or one when less than a second is left. From 2^24
      seconds on it may run ahead by at most 238 nanoseconds. */
  lemma HitTTLExact(expires: int, now: int)
    requires expires - now < TWO_32 * SECOND
    ensures expires - now >= SECOND ==>
              HitTTL(expires, now) * SECOND - 238 <= expires - now < (HitTTL(expires, now) + 1) * SECOND
    ensures SECOND <= expires - now < EXACT_SECONDS * SECOND ==> HitTTL(expires, now) * SECOND <= expires - now
    ensures expires - now >= SECOND ==> (HitTTL(expires, now) * SECOND <= expires - now <==> !RoundsUp(expires - now))
    ensures expires - now < SECOND ==> HitTTL(expires, now) == 1
  {
    hide RoundsUp;
    var left := expires - now;
    if left >= 0 {
      SecondsLeftBounds(left);
      RunsAheadIff(left);
    }
  }

  /** The TTL of a hit is positive, never rises, and never exceeds any positive TTL of the stored answer. */
  lemma HitTTLBounds(w: Width, answer: seq<Record>, at: int, t1: int, t2: int)
    requires Cacheable(w, answer) && at <= t1 <= t2
    ensures var expires := at + MinTTL(w, answer) * SECOND;
            && 1 <= HitTTL(expires, t2) <= HitTTL(expires, t1) <= MinTTL(w, answer)
            && forall i :: 0 <= i < |answer| && answer[i].ttl > 0 ==> HitTTL(expires, t1) <= answer[i].ttl
  {
    hide SecondsLeft, MinTTL;
    MinTTLIsLeast(w, answer);
    var ttl := MinTTL(w, answer);
    var expires := at + ttl * SECOND;
    SecondsLeftFalls(expires - t1, expires - t2);
    SecondsLeftFalls(ttl * SECOND, expires - t1);
    SecondsLeftBounds(ttl * SECOND);
    assert SecondsLeft(ttl * SECOND) * SECOND <= ttl * SECOND;
  }
}
