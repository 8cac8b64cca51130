/** Hash-chained replay ledgers (src/pi_interoperability_layer/execution.py). */
module ReplayLedgers {
  import opened Basics
  import opened Hashing

  /** What an emitter supplies; payload is its canonical JSON. */
  datatype Content = Content(eventType: string, payload: string, emittedBy: string)

  /** The generated identifier evt_<ledger>_<number>. */
  datatype EventId = EventId(ledger: string, number: int)

  datatype EventRecord =
    EventRecord(eventId: EventId, content: Content, sequenceNumber: int, previousHash: string, eventHash: string)

  /** The object that is serialised and hashed for an event. */
  datatype HashInput = HashInput(content: Content, sequenceNumber: int, previousHash: string)

  function Input(e: EventRecord): HashInput {
    HashInput(e.content, e.sequenceNumber, e.previousHash)
  }

  function ComputeHash(h: Hasher<HashInput>, e: EventRecord): string {
    h.Of(Input(e))
  }

  function LastHash(events: seq<EventRecord>): string {
    if events == [] then "" else events[|events| - 1].eventHash
  }

  function Joined(events: seq<EventRecord>): string {
    if events == [] then "" else Joined(events[..|events| - 1]) + events[|events| - 1].eventHash
  }

  function Contents(events: seq<EventRecord>): (r: seq<Content>)
    ensures |r| == |events| && forall i :: 0 <= i < |r| ==> r[i] == events[i].content
  {
    seq(|events|, i requires 0 <= i < |events| => events[i].content)
  }

  // ----- integrity

  /** An event in place: numbered n, pointing at hash prev, carrying its own hash. */
  predicate InPlace(h: Hasher<HashInput>, e: EventRecord, n: int, prev: string) {
    e.sequenceNumber == n && e.previousHash == prev && e.eventHash == ComputeHash(h, e)
  }

  /** Sequence numbers run from first, each event points at its predecessor's hash and carries its own. */
  ghost predicate Verifies(h: Hasher<HashInput>, events: seq<EventRecord>, first: int) {
    events == [] ||
    var pre := events[..|events| - 1];
    Verifies(h, pre, first) && InPlace(h, events[|events| - 1], first + |pre|, LastHash(pre))
  }

  lemma {:induction false} VerifiesPrefix(h: Hasher<HashInput>, events: seq<EventRecord>, first: int, n: nat)
    requires Verifies(h, events, first) && n <= |events|
    ensures Verifies(h, events[..n], first)
  {
    if n < |events| {
      VerifiesPrefix(h, events[..|events| - 1], first, n);
      assert events[..|events| - 1][..n] == events[..n];
    } else {
      assert events[..n] == events;
    }
  }

  lemma VerifiesAt(h: Hasher<HashInput>, events: seq<EventRecord>, first: int, i: nat)
    requires Verifies(h, events, first) && i < |events|
    ensures InPlace(h, events[i], first + i, LastHash(events[..i]))
  {
    VerifiesPrefix(h, events, first, i + 1);
    assert events[..i + 1][..i] == events[..i];
  }

  /** What verify_integrity checks, event by event and field by field. */
  lemma VerifiesMeans(h: Hasher<HashInput>, events: seq<EventRecord>, first: int)
    ensures Verifies(h, events, first) <==>
      && (events != [] ==> events[0].previousHash == "")
      && (forall i, j :: 0 <= i && j == i + 1 < |events| ==> events[j].previousHash == events[i].eventHash)
      && forall i :: 0 <= i < |events| ==>
           var e := events[i];
           && e.sequenceNumber == first + i
           && e.eventHash == h.sha(h.canonical(HashInput(e.content, e.sequenceNumber, e.previousHash)))
  {
    if Verifies(h, events, first) {
      forall j | 0 <= j < |events| ensures InPlace(h, events[j], first + j, LastHash(events[..j])) {
        VerifiesAt(h, events, first, j);
      }
    } else {
      var j := NotVerified(h, events, first);
      assert j > 0 ==> LastHash(events[..j]) == events[j - 1].eventHash;
    }
  }

  lemma {:induction false} NotVerified(h: Hasher<HashInput>, events: seq<EventRecord>, first: int) returns (i: nat)
    requires !Verifies(h, events, first)
    ensures i < |events| && !InPlace(h, events[i], first + i, LastHash(events[..i]))
  {
    var pre := events[..|events| - 1];
    if Verifies(h, pre, first) {
      i := |pre|;
    } else {
      i := NotVerified(h, pre, first);
      assert pre[..i] == events[..i] && pre[i] == events[i];
    }
  }

  // ----- ledgers as values

  datatype Ledger =
    Ledger(events: seq<EventRecord>, ledgerHash: string, firstSequence: int, lastSequence: int, eventCount: nat)

  function Linked(h: Hasher<HashInput>, l: Ledger, id: EventId, c: Content): EventRecord {
    var e := EventRecord(id, c, l.lastSequence + 1, LastHash(l.events), "");
    e.(eventHash := ComputeHash(h, e))
  }

  function Appended(h: Hasher<HashInput>, l: Ledger, id: EventId, c: Content): Ledger {
    var events := l.events + [Linked(h, l, id, c)];
    Ledger(events, h.sha(Joined(events)), l.firstSequence, l.lastSequence + 1, |events|)
  }

  /** Appending to a verifying ledger keeps it verifying exactly when last_sequence is in step with first_sequence. */
  lemma AppendVerifiesIff(h: Hasher<HashInput>, l: Ledger, id: EventId, c: Content)
    requires Verifies(h, l.events, l.firstSequence)
    ensures Verifies(h, Appended(h, l, id, c).events, l.firstSequence)
      <==> l.lastSequence + 1 == l.firstSequence + |l.events|
  {
    var events := Appended(h, l, id, c).events;
    assert events[..|l.events|] == l.events;
  }

  /** A ledger built with the defaults (first = last = 0) fails verification after a single append. */
  lemma DefaultLedgerFails(h: Hasher<HashInput>, id: EventId, c: Content)
    ensures var l := Ledger([], "", 0, 0, 0);
            Verifies(h, l.events, l.firstSequence) && !Verifies(h, Appended(h, l, id, c).events, 0)
  {
    AppendVerifiesIff(h, Ledger([], "", 0, 0, 0), id, c);
  }

  /** The state of ledgers opened by the engine. */
  ghost predicate Good(h: Hasher<HashInput>, l: Ledger) {
    && l.firstSequence == 1 && l.lastSequence == |l.events| == l.eventCount
    && Verifies(h, l.events, 1)
    && l.ledgerHash == if l.events == [] then "" else h.sha(Joined(l.events))
  }

  lemma AppendedGood(h: Hasher<HashInput>, l: Ledger, id: EventId, c: Content)
    requires Good(h, l)
    ensures Good(h, Appended(h, l, id, c))
    ensures Contents(Appended(h, l, id, c).events) == Contents(l.events) + [c]
  {
    AppendVerifiesIff(h, l, id, c);
  }

  // ----- replay slices

  /** The events numbered from lo to hi, in order. */
  function Between(events: seq<EventRecord>, lo: int, hi: int): seq<EventRecord> {
    if events == [] then [] else
      var e := events[|events| - 1];
      Between(events[..|events| - 1], lo, hi) + if lo <= e.sequenceNumber <= hi then [e] else []
  }

  /** A bound of None or 0 falls back to the ledger's own. */
  function Bound(bound: Option<int>, default: int): int {
    if bound.Some? && bound.value != 0 then bound.value else default
  }

  function ReplayEvents(l: Ledger, from: Option<int>, to: Option<int>): seq<EventRecord> {
    Between(l.events, Bound(from, l.firstSequence), Bound(to, l.lastSequence))
  }

  function Clamp(x: int, n: nat): nat {
    if x < 0 then 0 else if x > n then n else x
  }

  lemma {:induction false} BetweenIsSlice(h: Hasher<HashInput>, events: seq<EventRecord>, lo: int, hi: int)
    requires Verifies(h, events, 1) && lo - 1 <= hi
    ensures Between(events, lo, hi) == Slice(events, lo, hi)
  {
    if events != [] {
      BetweenIsSlice(h, events[..|events| - 1], lo, hi);
      SliceSnoc(events, lo, hi);
    }
  }

  function Slice(events: seq<EventRecord>, lo: int, hi: int): seq<EventRecord>
    requires lo - 1 <= hi
  {
    events[Clamp(lo - 1, |events|)..Clamp(hi, |events|)]
  }

  lemma SliceSnoc(events: seq<EventRecord>, lo: int, hi: int)
    requires lo - 1 <= hi && events != []
    ensures Slice(events, lo, hi)
      == Slice(events[..|events| - 1], lo, hi) + if lo <= |events| <= hi then [events[|events| - 1]] else []
  {
    var n := |events| - 1;
    if lo <= n + 1 <= hi {
      assert events[Clamp(lo - 1, n + 1)..n + 1] == events[..n][Clamp(lo - 1, n)..n] + [events[n]];
    } else {
      assert events[..n][Clamp(lo - 1, n)..Clamp(hi, n)] == events[Clamp(lo - 1, n)..Clamp(hi, n)];
    }
  }

  lemma SliceConcat(events: seq<EventRecord>, a: int, b: int, c: int)
    requires a - 1 <= b <= c
    ensures Slice(events, a, b) + Slice(events, b + 1, c) == Slice(events, a, c)
  {
  }

  /** Positive replay bounds select a contiguous slice, and adjacent slices concatenate. */
  lemma ReplaySlices(h: Hasher<HashInput>, l: Ledger, a: int, b: int, c: int)
    requires Good(h, l) && 1 <= a <= b < c
    ensures ReplayEvents(l, Some(a), Some(b)) == l.events[Clamp(a - 1, |l.events|)..Clamp(b, |l.events|)]
    ensures ReplayEvents(l, Some(a), Some(b)) + ReplayEvents(l, Some(b + 1), Some(c))
         == ReplayEvents(l, Some(a), Some(c))
  {
    BetweenIsSlice(h, l.events, a, b);
    BetweenIsSlice(h, l.events, b + 1, c);
    BetweenIsSlice(h, l.events, a, c);
    SliceConcat(l.events, a, b, c);
  }

  /** Without bounds everything is replayed; an upper bound of 0 means "to the end" too, rather than nothing. */
  lemma ReplayWhole(h: Hasher<HashInput>, l: Ledger)
    requires Good(h, l)
    ensures ReplayEvents(l, None, None) == ReplayEvents(l, None, Some(0)) == l.events
  {
    BetweenIsSlice(h, l.events, 1, |l.events|);
  }

  ghost predicate SameSelection(events: seq<EventRecord>, a: int, b: int, c: int, d: int) {
    forall i :: 0 <= i < |events| ==> (a <= events[i].sequenceNumber <= b <==> c <= events[i].sequenceNumber <= d)
  }

  lemma {:induction false} BetweenSame(events: seq<EventRecord>, a: int, b: int, c: int, d: int)
    requires SameSelection(events, a, b, c, d)
    ensures Between(events, a, b) == Between(events, c, d)
  {
    if events != [] {
      BetweenSame(events[..|events| - 1], a, b, c, d);
    }
  }

  /**
   * Explicit bounds are honoured exactly when the upper one is not 0 or nothing lies at or above the lower one anyway;
   * an upper bound of 0 replays to the end.
   */
  lemma ReplayHonoursBoundsIff(h: Hasher<HashInput>, l: Ledger, a: int, b: int)
    requires Good(h, l)
    ensures ReplayEvents(l, Some(a), Some(b)) == Between(l.events, a, b) <==> b != 0 || l.events == [] || a > |l.events|
    ensures ReplayEvents(l, Some(a), Some(0)) == Between(l.events, a, |l.events|)
  {
    var events, n := l.events, |l.events|;
    forall i | 0 <= i < n ensures events[i].sequenceNumber == i + 1 {
      VerifiesAt(h, events, 1, i);
    }
    BetweenSame(events, a, n, if a == 0 then 1 else a, n);
    if b != 0 || n == 0 || a > n {
      BetweenSame(events, a, b, if a == 0 then 1 else a, if b == 0 then n else b);
    } else {
      assert Between(events, a, n) != [];
      BetweenSame(events, a, b, 1, 0);
      BetweenIsSlice(h, events, 1, 0);
    }
  }

  // ----- a closed ledger whose event list is extended through the handle it was opened with

  /** l's own fields over a list that has grown since: the state of a completed ledger after later appends. */
  ghost predicate Outgrown(h: Hasher<HashInput>, l: Ledger, items: seq<EventRecord>) {
    Good(h, l) && l.events <= items && Verifies(h, items, 1)
  }

  lemma {:induction false} BetweenGrowth(h: Hasher<HashInput>, items: seq<EventRecord>, n: nat, lo: int, hi: int)
    requires Verifies(h, items, 1) && n <= |items|
    ensures |Between(items[..n], lo, hi)| <= |Between(items, lo, hi)|
    ensures Between(items, lo, hi) == Between(items[..n], lo, hi)
      <==> n == |items| || hi <= n || lo > hi || lo > |items|
  {
    if n == |items| {
      assert items[..n] == items;
    } else {
      var pre := items[..|items| - 1];
      BetweenGrowth(h, pre, n, lo, hi);
      assert pre[..n] == items[..n];
      assert items[|items| - 1].sequenceNumber == |items|;
    }
  }

  /**
   * Later appends show in a replay exactly when the bounds select one of their numbers; without an upper bound they
   * never do, because the completed ledger keeps its own last_sequence.
   */
  lemma OutgrownReplay(h: Hasher<HashInput>, l: Ledger, items: seq<EventRecord>, from: Option<int>, to: Option<int>)
    requires Outgrown(h, l, items)
    ensures var lo, hi := Bound(from, 1), Bound(to, |l.events|);
            ReplayEvents(l.(events := items), from, to) == ReplayEvents(l, from, to)
            <==> items == l.events || hi <= |l.events| || lo > hi || lo > |items|
    ensures ReplayEvents(l.(events := items), None, None) == l.events
  {
    var n := |l.events|;
    assert items[..n] == l.events;
    BetweenGrowth(h, items, n, Bound(from, 1), Bound(to, n));
    BetweenGrowth(h, items, n, 1, n);
    ReplayWhole(h, l);
  }

  // ----- tamper evidence

  /**
   * Two verifying chains with the same last hash start at the same number and carry the same contents, or exhibit a
   * hash collision.
   */
  lemma {:induction false} TamperEvidence(h: Hasher<HashInput>, a: seq<EventRecord>, first: int,
                                          b: seq<EventRecord>, second: int)
    returns (x: string, y: string)
    requires h.Valid() && Verifies(h, a, first) && Verifies(h, b, second)
    requires a != [] && b != [] && LastHash(a) == LastHash(b)
    ensures (first == second && Contents(a) == Contents(b)) || Collision(h.sha, x, y)
    decreases |a|
  {
    var e, f := a[|a| - 1], b[|b| - 1];
    x, y := h.canonical(Input(e)), h.canonical(Input(f));
    if x == y {
      assert Input(e) == Input(f);
      var p, q := a[..|a| - 1], b[..|b| - 1];
      LastHashSize(h, p, first);
      LastHashSize(h, q, second);
      if p != [] {
        x, y := TamperEvidence(h, p, first, q, second);
      }
      ContentsSnoc(a);
      ContentsSnoc(b);
    }
  }

  lemma LastHashSize(h: Hasher<HashInput>, a: seq<EventRecord>, first: int)
    requires h.Valid() && Verifies(h, a, first)
    ensures |LastHash(a)| == if a == [] then 0 else 64
  {
  }

  /** Changing content, number or link of an event while keeping its hash is noticed, or exhibits a collision. */
  lemma EditIsDetected(h: Hasher<HashInput>, a: seq<EventRecord>, first: int, i: nat, edited: EventRecord)
    returns (x: string, y: string)
    requires h.Valid() && Verifies(h, a, first) && i < |a| && edited.eventHash == a[i].eventHash
    requires edited.content != a[i].content || edited.sequenceNumber != a[i].sequenceNumber
          || edited.previousHash != a[i].previousHash
    ensures edited.eventHash != ComputeHash(h, edited) || Collision(h.sha, x, y)
    ensures !Verifies(h, a[i := edited], first) || Collision(h.sha, x, y)
  {
    x := h.canonical(HashInput(a[i].content, a[i].sequenceNumber, a[i].previousHash));
    y := h.canonical(HashInput(edited.content, edited.sequenceNumber, edited.previousHash));
    VerifiesAt(h, a, first, i);
    if Verifies(h, a[i := edited], first) {
      VerifiesAt(h, a[i := edited], first, i);
    }
  }

  lemma ContentsSnoc(a: seq<EventRecord>)
    requires a != []
    ensures Contents(a) == Contents(a[..|a| - 1]) + [a[|a| - 1].content]
  {
  }

  lemma {:induction false} JoinedLength(h: Hasher<HashInput>, a: seq<EventRecord>, first: int)
    requires h.Valid() && Verifies(h, a, first)
    ensures |Joined(a)| == 64 * |a| && (a != [] ==> |LastHash(a)| == 64)
  {
    if a != [] {
      JoinedLength(h, a[..|a| - 1], first);
    }
  }

  /** The hashed text of a ledger is the event hashes in order, 64 characters each. */
  lemma {:induction false} JoinedAt(h: Hasher<HashInput>, a: seq<EventRecord>, first: int, i: nat)
    requires h.Valid() && Verifies(h, a, first) && i < |a|
    ensures |Joined(a)| == 64 * |a| && Joined(a)[64 * i..64 * i + 64] == a[i].eventHash
  {
    JoinedLength(h, a, first);
    var pre := a[..|a| - 1];
    JoinedLength(h, pre, first);
    if i < |pre| {
      JoinedAt(h, pre, first, i);
      assert Joined(a)[..|Joined(pre)|] == Joined(pre);
      assert Joined(a)[64 * i..64 * i + 64] == Joined(pre)[64 * i..64 * i + 64];
    }
  }

  /** Hashes have a fixed length, so their concatenation determines how many there are and the last one. */
  lemma JoinedInjective(h: Hasher<HashInput>, a: seq<EventRecord>, b: seq<EventRecord>, first: int)
    requires h.Valid() && Verifies(h, a, first) && Verifies(h, b, first) && Joined(a) == Joined(b)
    ensures |a| == |b| && LastHash(a) == LastHash(b)
  {
    JoinedLength(h, a, first);
    JoinedLength(h, b, first);
    if a != [] {
      var n := |Joined(a)| - 64;
      assert Joined(a)[n..] == LastHash(a);
      assert Joined(b)[n..] == LastHash(b);
    }
  }

  /** The ledger hash alone pins the whole content: equal ledger hashes mean equal contents or a collision. */
  lemma LedgerHashPinsContents(h: Hasher<HashInput>, a: Ledger, b: Ledger) returns (x: string, y: string)
    requires h.Valid() && Good(h, a) && Good(h, b) && a.ledgerHash == b.ledgerHash
    ensures Contents(a.events) == Contents(b.events) || Collision(h.sha, x, y)
  {
    x, y := Joined(a.events), Joined(b.events);
    if a.events != [] && b.events != [] && x == y {
      JoinedInjective(h, a.events, b.events, 1);
      x, y := TamperEvidence(h, a.events, 1, b.events, 1);
    } else if a.events == [] {
      assert b.events == [] by { assert |h.sha(y)| == 64; }
    } else {
      assert b.events != [] by { assert |h.sha(x)| == 64; }
    }
  }

  // ----- the ledger object

  /** A list object, which several ledgers can share. */
  class EventList {
    /** The id of the ledger it was made for. */
    ghost const ledger: string
    var items: seq<EventRecord>

    constructor (ghost ledger: string)
      ensures items == [] && this.ledger == ledger
    {
      this.ledger, items := ledger, [];
    }
  }

  class ReplayLedger {
    const ledgerId: string
    const firstSequence: int
    /** Whether closed_at is set. */
    const closed: bool
    const events: EventList
    var ledgerHash: string
    var lastSequence: int
    var eventCount: nat

    /** The ledger as a value, as this object last left it. */
    ghost var view: Ledger

    function Current(): Ledger
      reads this, events
    {
      Ledger(events.items, ledgerHash, firstSequence, lastSequence, eventCount)
    }

    ghost predicate Valid()
      reads this, events
    {
      view == Current()
    }

    constructor (ledgerId: string, firstSequence: int, lastSequence: int)
      ensures Valid() && view == Ledger([], "", firstSequence, lastSequence, 0) && this.ledgerId == ledgerId && !closed
      ensures fresh(events) && events.ledger == ledgerId
    {
      this.ledgerId, this.firstSequence, this.lastSequence, closed := ledgerId, firstSequence, lastSequence, false;
      events := new EventList(ledgerId);
      ledgerHash, eventCount := "", 0;
      view := Ledger([], "", firstSequence, lastSequence, 0);
    }

    /** model_copy with closed_at set: a new ledger object over the same list object. */
    constructor ClosedCopy(l: ReplayLedger)
      requires l.Valid()
      ensures Valid() && view == l.view && ledgerId == l.ledgerId && closed && events == l.events
    {
      ledgerId, firstSequence, lastSequence, closed := l.ledgerId, l.firstSequence, l.lastSequence, true;
      events, ledgerHash, eventCount, view := l.events, l.ledgerHash, l.eventCount, l.view;
    }

    method Append(h: Hasher<HashInput>, id: EventId, c: Content) returns (e: EventRecord)
      requires Valid()
      modifies this, events
      ensures Valid() && view == Appended(h, old(view), id, c)
      ensures e == Linked(h, old(view), id, c)
    {
      var n := |events.items|;
      var prevHash := if n > 0 then events.items[n - 1].eventHash else "";
      var number := lastSequence + 1;
      e := EventRecord(id, c, number, prevHash, "");
      e := e.(eventHash := ComputeHash(h, e));
      assert e == Linked(h, view, id, c);
      events.items := events.items + [e];
      lastSequence := number;
      eventCount := |events.items|;
      var combined := JoinHashes(events.items);
      ledgerHash := h.sha(combined);
      view := Appended(h, view, id, c);
    }

    method VerifyIntegrity(h: Hasher<HashInput>) returns (ok: bool)
      ensures ok <==> Verifies(h, events.items, firstSequence)
    {
      var items, running := events.items, "";
      for i := 0 to |items|
        invariant Verifies(h, items[..i], firstSequence) && running == LastHash(items[..i])
      {
        var e := items[i];
        assert items[..i + 1][..i] == items[..i];
        if e.sequenceNumber != firstSequence + i || e.previousHash != running || e.eventHash != ComputeHash(h, e) {
          if Verifies(h, items, firstSequence) {
            VerifiesAt(h, items, firstSequence, i);
          }
          return false;
        }
        running := e.eventHash;
      }
      assert items[..|items|] == items;
      ok := true;
    }

    method Replay(from: Option<int>, to: Option<int>) returns (r: seq<EventRecord>)
      ensures r == ReplayEvents(Current(), from, to)
    {
      var lo := if from.Some? && from.value != 0 then from.value else firstSequence;
      var hi := if to.Some? && to.value != 0 then to.value else lastSequence;
      var items := events.items;
      r := [];
      for i := 0 to |items|
        invariant r == Between(items[..i], lo, hi)
      {
        assert items[..i + 1][..i] == items[..i];
        if lo <= items[i].sequenceNumber <= hi {
          r := r + [items[i]];
        }
      }
      assert items[..|items|] == items;
    }
  }

  method JoinHashes(events: seq<EventRecord>) returns (s: string)
    ensures s == Joined(events)
  {
    s := "";
    for i := 0 to |events|
      invariant s == Joined(events[..i])
    {
      assert events[..i + 1][..i] == events[..i];
      s := s + events[i].eventHash;
    }
    assert events[..|events|] == events;
  }
}
