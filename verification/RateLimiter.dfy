/** The interceptor's sliding-window rate limiter (src/pi_agent_interceptor/proxy.py). */
module RateLimiter {

  /** The effective settings: max(1, max_events) and max(0.1, window_seconds). */
  datatype Config = Config(maxEvents: nat, window: real) {
    ghost predicate Valid() {
      maxEvents >= 1 && window > 0.0
    }
  }

  function Configure(maxEvents: int, windowSeconds: real): (c: Config)
    ensures c.Valid()
    ensures c.maxEvents == (if maxEvents >= 1 then maxEvents else 1)
    ensures c.window >= windowSeconds && c.window >= 0.1 && (c.window == windowSeconds || c.window == 0.1)
  {
    Config(if maxEvents < 1 then 1 else maxEvents, if windowSeconds < 0.1 then 0.1 else windowSeconds)
  }

  /** Number of times in ts at or after cutoff. */
  function CountSince(ts: seq<real>, cutoff: real): (n: nat)
    ensures n <= |ts|
  {
    if ts == [] then 0 else CountSince(ts[..|ts| - 1], cutoff) + if ts[|ts| - 1] >= cutoff then 1 else 0
  }

  /** Number of times in ts within the closed interval. */
  function CountWithin(ts: seq<real>, lo: real, hi: real): (n: nat)
    ensures n <= |ts|
  {
    if ts == [] then 0 else CountWithin(ts[..|ts| - 1], lo, hi) + if lo <= ts[|ts| - 1] <= hi then 1 else 0
  }

  // ----- eviction

  /** The deque without its leading entries older than the cutoff. */
  function Evict(q: seq<real>, cutoff: real): seq<real> {
    if q != [] && q[0] < cutoff then Evict(q[1..], cutoff) else q
  }

  method PopExpired(queue: seq<real>, cutoff: real) returns (q: seq<real>)
    ensures q == Evict(queue, cutoff)
  {
    q := queue;
    while q != [] && q[0] < cutoff
      invariant Evict(q, cutoff) == Evict(queue, cutoff)
    {
      q := q[1..];
    }
  }

  lemma {:induction false} EvictSuffix(q: seq<real>, cutoff: real) returns (k: nat)
    ensures k <= |q| && Evict(q, cutoff) == q[k..] && forall i :: 0 <= i < k ==> q[i] < cutoff
    ensures k < |q| ==> q[k] >= cutoff
  {
    k := 0;
    if q != [] && q[0] < cutoff {
      var j := EvictSuffix(q[1..], cutoff);
      k := j + 1;
      forall i | 0 <= i < k ensures q[i] < cutoff {
        assert i > 0 ==> q[i] == q[1..][i - 1];
      }
    }
  }

  // ----- the calls for one key, in the order in which they take the lock

  /** The deque of a key and, for reference, all its admissions. */
  datatype Key = Key(bucket: seq<real>, admitted: seq<real>)

  const UNUSED := Key([], [])

  predicate Allows(c: Config, bucket: seq<real>, now: real) {
    |Evict(bucket, now - c.window)| < c.maxEvents
  }

  function BucketAfter(c: Config, bucket: seq<real>, now: real): seq<real> {
    var left := Evict(bucket, now - c.window);
    if Allows(c, bucket, now) then left + [now] else left
  }

  function HitKey(c: Config, k: Key, now: real): Key {
    Key(BucketAfter(c, k.bucket, now), if Allows(c, k.bucket, now) then k.admitted + [now] else k.admitted)
  }

  /** The clock is read before the lock is taken, so the readings need not be in order. */
  function KeyRun(c: Config, readings: seq<real>): Key {
    if readings == [] then UNUSED else HitKey(c, KeyRun(c, readings[..|readings| - 1]), readings[|readings| - 1])
  }

  /** No reading is more than d older than one that took the lock earlier. */
  ghost predicate Skewed(readings: seq<real>, d: real) {
    forall i, j :: 0 <= i < j < |readings| ==> readings[j] >= readings[i] - d
  }

  ghost predicate AtMost(ts: seq<real>, hi: real) {
    forall i :: 0 <= i < |ts| ==> ts[i] <= hi
  }

  /** q is a final part of the admissions h, and what is missing lies before the cutoff. */
  ghost predicate Remembers(q: seq<real>, h: seq<real>, cutoff: real) {
    |q| <= |h| && q == h[|h| - |q|..] && forall i :: 0 <= i < |h| - |q| ==> h[i] < cutoff
  }

  lemma EvictRemembers(q: seq<real>, h: seq<real>, cutoff: real, now: real)
    requires Remembers(q, h, cutoff) && now <= cutoff
    ensures Remembers(Evict(q, now), h, cutoff)
    ensures Evict(q, now) != [] ==> Evict(q, now)[0] >= now
  {
    var k := EvictSuffix(q, now);
    var n := |h| - |q|;
    assert h[n..][k..] == h[n + k..];
    forall i | 0 <= i < n + k ensures h[i] < cutoff {
      assert i >= n ==> h[i] == h[n..][i - n];
    }
  }

  lemma RemembersNew(q: seq<real>, h: seq<real>, cutoff: real, now: real)
    requires Remembers(q, h, cutoff)
    ensures Remembers(q + [now], h + [now], cutoff)
  {
    assert q + [now] == (h + [now])[|h| - |q|..];
  }

  /** What the deque has lost is older than the window before any bound on the readings. */
  lemma {:induction false} KeyRemembers(c: Config, readings: seq<real>, hi: real)
    requires AtMost(readings, hi)
    ensures Remembers(KeyRun(c, readings).bucket, KeyRun(c, readings).admitted, hi - c.window)
  {
    if readings != [] {
      var pre, now := readings[..|readings| - 1], readings[|readings| - 1];
      var k := KeyRun(c, pre);
      KeyRemembers(c, pre, hi);
      EvictRemembers(k.bucket, k.admitted, hi - c.window, now - c.window);
      RemembersNew(Evict(k.bucket, now - c.window), k.admitted, hi - c.window, now);
    } else {
      assert UNUSED.admitted[0..] == UNUSED.bucket;
    }
  }

  lemma {:induction false} AdmittedWereRead(c: Config, readings: seq<real>)
    ensures forall t :: t in KeyRun(c, readings).admitted ==> t in readings
  {
    if readings != [] {
      AdmittedWereRead(c, readings[..|readings| - 1]);
      assert readings == readings[..|readings| - 1] + [readings[|readings| - 1]];
    }
  }

  lemma {:induction false} AdmittedSkewed(c: Config, readings: seq<real>, d: real)
    requires Skewed(readings, d)
    ensures Skewed(KeyRun(c, readings).admitted, d)
  {
    if readings != [] {
      var pre, now := readings[..|readings| - 1], readings[|readings| - 1];
      AdmittedSkewed(c, pre, d);
      AdmittedWereRead(c, pre);
      SkewedNew(KeyRun(c, pre).admitted, pre, now, d);
    }
  }

  lemma SkewedNew(h: seq<real>, pre: seq<real>, now: real, d: real)
    requires Skewed(h, d) && (forall t :: t in h ==> t in pre) && forall i :: 0 <= i < |pre| ==> now >= pre[i] - d
    ensures Skewed(h + [now], d)
  {
    forall i | 0 <= i < |h| ensures now >= h[i] - d {
      assert h[i] in h;
    }
  }

  // ----- counting

  lemma {:induction false} CountConcat(a: seq<real>, b: seq<real>, lo: real, hi: real)
    ensures CountSince(a + b, lo) == CountSince(a, lo) + CountSince(b, lo)
    ensures CountWithin(a + b, lo, hi) == CountWithin(a, lo, hi) + CountWithin(b, lo, hi)
  {
    if b == [] {
      assert a + b == a;
    } else {
      CountConcat(a, b[..|b| - 1], lo, hi);
      assert (a + b)[..|a + b| - 1] == a + b[..|b| - 1];
    }
  }

  lemma {:induction false} CountNone(ts: seq<real>, lo: real, hi: real)
    requires forall i :: 0 <= i < |ts| ==> ts[i] < lo
    ensures CountSince(ts, lo) == CountWithin(ts, lo, hi) == 0
  {
    if ts != [] {
      CountNone(ts[..|ts| - 1], lo, hi);
    }
  }

  lemma {:induction false} CountAll(ts: seq<real>, lo: real)
    requires forall i :: 0 <= i < |ts| ==> ts[i] >= lo
    ensures CountSince(ts, lo) == |ts|
  {
    if ts != [] {
      CountAll(ts[..|ts| - 1], lo);
    }
  }

  lemma RememberedCount(q: seq<real>, h: seq<real>, lo: real, hi: real)
    requires Remembers(q, h, lo)
    ensures CountSince(h, lo) == CountSince(q, lo) && CountWithin(h, lo, hi) == CountWithin(q, lo, hi)
  {
    var n := |h| - |q|;
    assert h == h[..n] + q;
    CountConcat(h[..n], q, lo, hi);
    CountNone(h[..n], lo, hi);
  }

  ghost function EntriesWithin(ts: seq<real>, lo: real, hi: real): set<nat> {
    set i: nat | i < |ts| && lo <= ts[i] <= hi
  }

  /** The counts are the numbers of entries they speak of. */
  lemma {:induction false} WithinIsSize(ts: seq<real>, lo: real, hi: real)
    ensures CountWithin(ts, lo, hi) == |EntriesWithin(ts, lo, hi)|
  {
    if ts == [] {
      assert EntriesWithin(ts, lo, hi) == {};
    } else {
      var n := |ts| - 1;
      WithinIsSize(ts[..n], lo, hi);
      assert EntriesWithin(ts, lo, hi) == EntriesWithin(ts[..n], lo, hi) + if lo <= ts[n] <= hi then {n} else {};
    }
  }

  lemma {:induction false} SinceIsWithin(ts: seq<real>, lo: real, hi: real)
    requires AtMost(ts, hi)
    ensures CountSince(ts, lo) == CountWithin(ts, lo, hi)
  {
    if ts != [] {
      SinceIsWithin(ts[..|ts| - 1], lo, hi);
    }
  }

  // ----- what a call decides

  lemma LatestBound(readings: seq<real>, now: real, d: real)
    requires d >= 0.0 && Skewed(readings + [now], d)
    ensures Skewed(readings, d) && AtMost(readings, now + d)
  {
    var all := readings + [now];
    forall i | 0 <= i < |readings| ensures readings[i] <= now + d {
      assert all[|readings|] >= all[i] - d;
    }
    forall i, j | 0 <= i < j < |readings| ensures readings[j] >= readings[i] - d {
      assert all[j] >= all[i] - d;
    }
  }

  /**
   * With readings at most d out of order, the entries left after eviction are at least the admissions in the window
   * shortened by d and at most those in the window lengthened by d. In order (d = 0) they are those in the window.
   */
  lemma EvictedCount(c: Config, readings: seq<real>, now: real, d: real, lo: real, hi: real)
    requires d >= 0.0 && Skewed(readings, d) && AtMost(readings, now + d)
    requires lo == now - c.window - d && hi == now - c.window + d
    ensures var k := KeyRun(c, readings);
            CountSince(k.admitted, hi) <= |Evict(k.bucket, now - c.window)| <= CountSince(k.admitted, lo)
  {
    var k := KeyRun(c, readings);
    assert Skewed(k.admitted, d) && Remembers(k.bucket, k.admitted, hi) by {
      KeyRemembers(c, readings, now + d);
      AdmittedSkewed(c, readings, d);
    }
    LeftAfterEviction(k.bucket, k.admitted, now - c.window, d, lo, hi);
  }

  lemma LeftAfterEviction(q: seq<real>, h: seq<real>, cutoff: real, d: real, lo: real, hi: real)
    requires d >= 0.0 && Remembers(q, h, hi) && Skewed(h, d) && lo == cutoff - d && hi == cutoff + d
    ensures CountSince(h, hi) <= |Evict(q, cutoff)| <= CountSince(h, lo)
  {
    RecentAreLeft(q, h, cutoff, hi);
    EvictRemembers(q, h, hi, cutoff);
    LeftSinceFront(Evict(q, cutoff), h, cutoff, d, lo);
  }

  lemma RecentAreLeft(q: seq<real>, h: seq<real>, cutoff: real, hi: real)
    requires Remembers(q, h, hi) && cutoff <= hi
    ensures CountSince(h, hi) <= |Evict(q, cutoff)|
  {
    EvictRemembers(q, h, hi, cutoff);
    RememberedCount(Evict(q, cutoff), h, hi, hi);
  }

  lemma LeftSinceFront(e: seq<real>, h: seq<real>, cutoff: real, d: real, lo: real)
    requires |e| <= |h| && e == h[|h| - |e|..] && Skewed(h, d) && d >= 0.0 && lo == cutoff - d
    requires e != [] ==> e[0] >= cutoff
    ensures |e| <= CountSince(h, lo)
  {
    var n := |h| - |e|;
    assert h == h[..n] + e;
    forall i | 0 <= i < |e| ensures e[i] >= lo {
      assert e[0] == h[n] && e[i] == h[n + i];
      assert i > 0 ==> h[n + i] >= h[n] - d;
    }
    CountConcat(h[..n], e, lo, lo);
    CountAll(e, lo);
  }

  /** Fewer than maxEvents of the admissions h lie in the closed window that ends now. */
  predicate Admits(c: Config, h: seq<real>, now: real) {
    CountSince(h, now - c.window) < c.maxEvents
  }

  ghost predicate InOrder(readings: seq<real>) {
    Skewed(readings, 0.0)
  }

  /** With readings in order a call is admitted exactly when fewer than maxEvents admissions lie in its window. */
  lemma AllowsIff(c: Config, readings: seq<real>, k: Key, now: real)
    requires InOrder(readings) && AtMost(readings, now) && k == KeyRun(c, readings)
    ensures Allows(c, k.bucket, now) <==> Admits(c, k.admitted, now)
  {
    var cutoff := now - c.window;
    EvictedCount(c, readings, now, 0.0, cutoff, cutoff);
  }

  // ----- the guarantee

  /** An admission into an interval finds all earlier ones of that interval still in the deque. */
  lemma RoomInInterval(k: Key, c: Config, now: real, d: real, lo: real, hi: real)
    requires d >= 0.0 && Remembers(k.bucket, k.admitted, now + d - c.window)
    requires lo <= now <= hi <= lo + c.window - d && Allows(c, k.bucket, now)
    ensures CountWithin(k.admitted, lo, hi) < c.maxEvents
  {
    var e := Evict(k.bucket, now - c.window);
    EvictRemembers(k.bucket, k.admitted, now + d - c.window, now - c.window);
    assert Remembers(e, k.admitted, lo);
    RememberedCount(e, k.admitted, lo, hi);
  }

  lemma CountSnoc(h: seq<real>, now: real, lo: real, hi: real)
    ensures CountWithin(h + [now], lo, hi) == CountWithin(h, lo, hi) + if lo <= now <= hi then 1 else 0
  {
    assert (h + [now])[..|h|] == h;
  }

  /** With readings at most d out of order, no closed interval of length window - d holds more than maxEvents. */
  lemma {:induction false} SkewedWindow(c: Config, readings: seq<real>, d: real, lo: real, hi: real)
    requires d >= 0.0 && Skewed(readings, d) && hi <= lo + c.window - d
    ensures CountWithin(KeyRun(c, readings).admitted, lo, hi) <= c.maxEvents
  {
    if readings != [] {
      var pre, now := readings[..|readings| - 1], readings[|readings| - 1];
      var k := KeyRun(c, pre);
      assert readings == pre + [now];
      LatestBound(pre, now, d);
      SkewedWindow(c, pre, d, lo, hi);
      if Allows(c, k.bucket, now) {
        CountSnoc(k.admitted, now, lo, hi);
        if lo <= now <= hi {
          KeyRemembers(c, pre, now + d);
          RoomInInterval(k, c, now, d, lo, hi);
        }
      }
    }
  }

  ghost predicate Apart(h: seq<real>, w: real) {
    forall i, j :: 0 <= i < j < |h| ==> h[i] < h[j] - w
  }

  /** The deque holds the last admission only, and admissions are more than a window apart. */
  ghost predicate Single(k: Key, w: real) {
    Apart(k.admitted, w) && k.bucket == if k.admitted == [] then [] else [k.admitted[|k.admitted| - 1]]
  }

  lemma ApartNew(h: seq<real>, w: real, now: real)
    requires Apart(h, w) && w > 0.0 && (h != [] ==> h[|h| - 1] < now - w)
    ensures Apart(h + [now], w)
  {
  }

  lemma SingleStep(c: Config, k: Key, now: real)
    requires c.Valid() && c.maxEvents == 1 && Single(k, c.window)
    ensures Single(HitKey(c, k, now), c.window)
  {
    if k.bucket == [] || k.bucket[0] < now - c.window {
      HitExpired(c, k, now);
      ApartNew(k.admitted, c.window, now);
    } else {
      assert HitKey(c, k, now) == k;
    }
  }

  /** With maxEvents = 1 admissions are more than a window apart, whatever the order of the readings. */
  lemma {:induction false} SingleApart(c: Config, readings: seq<real>)
    requires c.Valid() && c.maxEvents == 1
    ensures Single(KeyRun(c, readings), c.window)
  {
    if readings != [] {
      SingleApart(c, readings[..|readings| - 1]);
      SingleStep(c, KeyRun(c, readings[..|readings| - 1]), readings[|readings| - 1]);
    }
  }

  lemma {:induction false} ApartCount(h: seq<real>, w: real, lo: real, hi: real)
    requires Apart(h, w) && hi <= lo + w
    ensures CountWithin(h, lo, hi) <= 1
  {
    if h != [] {
      ApartCount(h[..|h| - 1], w, lo, hi);
      if lo <= h[|h| - 1] <= hi {
        CountNone(h[..|h| - 1], lo, hi);
      }
    }
  }

  /** No run with readings at most d out of order puts more than maxEvents admissions into such an interval. */
  ghost predicate Safe(c: Config, d: real, length: real) {
    forall readings, lo, hi :: Skewed(readings, d) && hi <= lo + length ==>
      CountWithin(KeyRun(c, readings).admitted, lo, hi) <= c.maxEvents
  }

  function Zeros(n: nat): (z: seq<real>)
    ensures |z| == n && forall i :: 0 <= i < n ==> z[i] == 0.0
  {
    if n == 0 then [] else Zeros(n - 1) + [0.0]
  }

  lemma {:induction false} EvictAll(q: seq<real>, cutoff: real)
    requires forall i :: 0 <= i < |q| ==> q[i] < cutoff
    ensures Evict(q, cutoff) == []
  {
    if q != [] {
      EvictAll(q[1..], cutoff);
    }
  }

  lemma {:induction false} ZerosAdmitted(c: Config, n: nat)
    requires c.Valid() && n <= c.maxEvents
    ensures KeyRun(c, Zeros(n)) == Key(Zeros(n), Zeros(n))
  {
    if n > 0 {
      ZerosAdmitted(c, n - 1);
      assert Zeros(n)[..n - 1] == Zeros(n - 1);
    }
  }

  lemma {:induction false} ZerosCount(n: nat, hi: real)
    requires hi >= 0.0
    ensures CountWithin(Zeros(n), 0.0, hi) == n
  {
    if n > 0 {
      ZerosCount(n - 1, hi);
      CountSnoc(Zeros(n - 1), 0.0, 0.0, hi);
    }
  }

  lemma RunSnoc(c: Config, readings: seq<real>, now: real)
    ensures KeyRun(c, readings + [now]) == HitKey(c, KeyRun(c, readings), now)
  {
    assert (readings + [now])[..|readings|] == readings;
  }

  lemma HitExpired(c: Config, k: Key, now: real)
    requires c.Valid() && forall i :: 0 <= i < |k.bucket| ==> k.bucket[i] < now - c.window
    ensures HitKey(c, k, now) == Key([now], k.admitted + [now])
  {
    EvictAll(k.bucket, now - c.window);
  }

  /** maxEvents calls at 0, then one after the window, which empties the deque. */
  lemma ZerosThenLate(c: Config, late: real)
    requires c.Valid() && late > c.window
    ensures KeyRun(c, Zeros(c.maxEvents) + [late]) == Key([late], Zeros(c.maxEvents) + [late])
  {
    var z := Zeros(c.maxEvents);
    ZerosAdmitted(c, c.maxEvents);
    HitExpired(c, Key(z, z), late);
    RunSnoc(c, z, late);
  }

  /** With nothing out of order one call after the window is one too many for a longer interval. */
  lemma TooLong(c: Config, length: real)
    requires c.Valid() && length > c.window
    ensures CountWithin(KeyRun(c, Zeros(c.maxEvents) + [length]).admitted, 0.0, length) == c.maxEvents + 1
  {
    ZerosThenLate(c, length);
    ZerosCount(c.maxEvents, length);
    CountSnoc(Zeros(c.maxEvents), length, 0.0, length);
  }

  /** A call that read the clock d earlier but takes the lock afterwards still finds room and joins the first ones. */
  lemma Overtaking(c: Config, d: real, length: real)
    requires c.Valid() && c.maxEvents >= 2 && d >= 0.0 && c.window - d < length <= c.window && length >= 0.0
    ensures CountWithin(KeyRun(c, Zeros(c.maxEvents) + [length + d] + [length]).admitted, 0.0, length) > c.maxEvents
  {
    var z, late := Zeros(c.maxEvents), length + d;
    ZerosThenLate(c, late);
    RunSnoc(c, z + [late], length);
    HitBehind(c, Key([late], z + [late]), late, length);
    ZerosCount(c.maxEvents, length);
    CountSnoc(z, late, 0.0, length);
    CountSnoc(z + [late], length, 0.0, length);
  }

  lemma HitBehind(c: Config, k: Key, late: real, now: real)
    requires c.Valid() && c.maxEvents >= 2 && k.bucket == [late] && now - c.window <= late
    ensures HitKey(c, k, now).admitted == k.admitted + [now]
  {
  }

  lemma NearlyInOrder(c: Config, d: real, length: real)
    requires d >= 0.0 && length >= 0.0
    ensures Skewed(Zeros(c.maxEvents) + [length], d)
    ensures Skewed(Zeros(c.maxEvents) + [length + d] + [length], d)
  {
  }

  lemma NotSafe(c: Config, d: real, length: real, readings: seq<real>)
    requires Skewed(readings, d) && CountWithin(KeyRun(c, readings).admitted, 0.0, length) > c.maxEvents
    ensures !Safe(c, d, length)
  {
    assert length <= 0.0 + length;
  }

  /** The longest interval in which the limit holds for readings at most d out of order. */
  function SafeLength(c: Config, d: real): real {
    if c.maxEvents == 1 then c.window else c.window - d
  }

  lemma IsSafe(c: Config, d: real, length: real)
    requires c.Valid() && d >= 0.0 && length <= SafeLength(c, d)
    ensures Safe(c, d, length)
  {
    forall readings, lo, hi | Skewed(readings, d) && hi <= lo + length
      ensures CountWithin(KeyRun(c, readings).admitted, lo, hi) <= c.maxEvents {
      if c.maxEvents == 1 {
        SingleApart(c, readings);
        ApartCount(KeyRun(c, readings).admitted, c.window, lo, hi);
      } else {
        SkewedWindow(c, readings, d, lo, hi);
      }
    }
  }

  /** For readings at most d out of order the limit holds in every interval of a length exactly up to SafeLength. */
  lemma SafeIff(c: Config, d: real, length: real)
    requires c.Valid() && d >= 0.0 && length >= 0.0
    ensures Safe(c, d, length) <==> length <= SafeLength(c, d)
  {
    if length <= SafeLength(c, d) {
      IsSafe(c, d, length);
    } else if length > c.window {
      NearlyInOrder(c, d, length);
      TooLong(c, length);
      NotSafe(c, d, length, Zeros(c.maxEvents) + [length]);
    } else {
      NearlyInOrder(c, d, length);
      Overtaking(c, d, length);
      NotSafe(c, d, length, Zeros(c.maxEvents) + [length + d] + [length]);
    }
  }

  // ----- all keys

  datatype Call = Call(key: string, now: real)

  function Of(keys: map<string, Key>, key: string): Key {
    if key in keys then keys[key] else UNUSED
  }

  /** The state of every key after the calls, in the order in which they took the lock. */
  function Run(c: Config, calls: seq<Call>): map<string, Key> {
    if calls == [] then map[] else
      var pre, last := Run(c, calls[..|calls| - 1]), calls[|calls| - 1];
      pre[last.key := HitKey(c, Of(pre, last.key), last.now)]
  }

  function ReadingsOf(calls: seq<Call>, key: string): seq<real> {
    if calls == [] then [] else
      ReadingsOf(calls[..|calls| - 1], key) + if calls[|calls| - 1].key == key then [calls[|calls| - 1].now] else []
  }

  /** Keys do not affect one another: a key's deque and admissions are those of its own calls alone. */
  lemma {:induction false} KeysAreIndependent(c: Config, calls: seq<Call>, key: string)
    ensures Of(Run(c, calls), key) == KeyRun(c, ReadingsOf(calls, key))
  {
    if calls != [] {
      var pre, last := calls[..|calls| - 1], calls[|calls| - 1];
      KeysAreIndependent(c, pre, key);
      if last.key == key {
        RunSnoc(c, ReadingsOf(pre, key), last.now);
      } else {
        assert ReadingsOf(calls, key) == ReadingsOf(pre, key);
      }
    }
  }

  /** Over every run, a key whose readings arrive in order never exceeds the limit in an interval of window length. */
  lemma RunNeverExceedsWindow(c: Config, calls: seq<Call>, key: string, lo: real)
    requires InOrder(ReadingsOf(calls, key))
    ensures CountWithin(Of(Run(c, calls), key).admitted, lo, lo + c.window) <= c.maxEvents
  {
    KeysAreIndependent(c, calls, key);
    SkewedWindow(c, ReadingsOf(calls, key), 0.0, lo, lo + c.window);
  }

  // ----- the limiter

  function BucketsOf(keys: map<string, Key>): map<string, seq<real>> {
    map k | k in keys :: keys[k].bucket
  }

  lemma BucketsUpdate(keys: map<string, Key>, key: string, k: Key)
    ensures BucketsOf(keys[key := k]) == BucketsOf(keys)[key := k.bucket]
  {
  }

  lemma RunCall(c: Config, calls: seq<Call>, key: string, now: real)
    ensures Run(c, calls + [Call(key, now)]) == Run(c, calls)[key := HitKey(c, Of(Run(c, calls), key), now)]
  {
    assert (calls + [Call(key, now)])[..|calls|] == calls;
  }

  lemma InOrderBefore(calls: seq<Call>, key: string, now: real)
    requires InOrder(ReadingsOf(calls + [Call(key, now)], key))
    ensures InOrder(ReadingsOf(calls, key)) && AtMost(ReadingsOf(calls, key), now)
  {
    assert (calls + [Call(key, now)])[..|calls|] == calls;
    LatestBound(ReadingsOf(calls, key), now, 0.0);
  }

  lemma HitMeaning(c: Config, calls: seq<Call>, key: string, now: real)
    requires InOrder(ReadingsOf(calls + [Call(key, now)], key))
    ensures var k := Of(Run(c, calls), key);
            Allows(c, k.bucket, now) <==> Admits(c, k.admitted, now)
  {
    var readings := ReadingsOf(calls, key);
    InOrderBefore(calls, key, now);
    KeysAreIndependent(c, calls, key);
    AllowsIff(c, readings, Of(Run(c, calls), key), now);
  }

  class Limiter {
    const config: Config
    var buckets: map<string, seq<real>>
    /** The calls so far, in the order in which they took the lock. */
    ghost var history: seq<Call>

    ghost predicate Valid()
      reads this
    {
      config.Valid() && buckets == BucketsOf(Run(config, history))
    }

    constructor (maxEvents: int, windowSeconds: real)
      ensures Valid() && config == Configure(maxEvents, windowSeconds) && history == []
    {
      config := Configure(maxEvents, windowSeconds);
      buckets, history := map[], [];
    }

    /** now is what the monotonic clock showed before the call got the lock. */
    method Hit(key: string, now: real) returns (allowed: bool)
      requires Valid()
      modifies this
      ensures Valid() && history == old(history) + [Call(key, now)]
      ensures allowed <==> Allows(config, Of(Run(config, old(history)), key).bucket, now)
      ensures InOrder(ReadingsOf(history, key)) ==>
        (allowed <==> Admits(config, Of(Run(config, old(history)), key).admitted, now))
    {
      RunCall(config, history, key, now);
      if InOrder(ReadingsOf(history + [Call(key, now)], key)) {
        HitMeaning(config, history, key, now);
      }
      BucketsUpdate(Run(config, history), key, HitKey(config, Of(Run(config, history), key), now));
      var q := if key in buckets then buckets[key] else [];
      q, allowed := UpdateBucket(config, q, now);
      buckets := buckets[key := q];
      history := history + [Call(key, now)];
    }
  }

  /** The part of hit that works on one deque. */
  method UpdateBucket(c: Config, bucket: seq<real>, now: real) returns (q: seq<real>, allowed: bool)
    ensures q == BucketAfter(c, bucket, now)
    ensures allowed <==> Allows(c, bucket, now)
  {
    q := PopExpired(bucket, now - c.window);
    allowed := |q| < c.maxEvents;
    if allowed {
      q := q + [now];
    }
  }
}
