/** The engine that opens, feeds and closes replay ledgers (src/pi_interoperability_layer/execution.py). */
module ExecutionEngines {
  import opened Basics
  import opened Hashing
  import opened ReplayLedgers

  datatype Limits = Limits(maxEvents: nat, maxLedgers: nat)
  datatype State = State(active: map<string, Ledger>, completed: map<string, Ledger>)
  datatype Op = Open(id: string) | Emit(id: string, content: Content) | Close(id: string)

  /** The calls that do not raise ValueError. */
  predicate Accepts(lim: Limits, s: State, op: Op) {
    match op
    case Open(id) => id !in s.active && |s.active| < lim.maxLedgers
    case Emit(id, _) => id in s.active && s.active[id].eventCount < lim.maxEvents
    case Close(id) => id in s.active
  }

  const FRESH := Ledger([], "", 1, 0, 0)

  function Step(h: Hasher<HashInput>, lim: Limits, s: State, op: Op): State {
    if !Accepts(lim, s, op) then s else
      match op
      case Open(id) => s.(active := s.active[id := FRESH])
      case Emit(id, c) =>
        var l := s.active[id];
        s.(active := s.active[id := Appended(h, l, EventId(id, l.lastSequence + 1), c)])
      case Close(id) => State(s.active - {id}, s.completed[id := s.active[id]])
  }

  function Run(h: Hasher<HashInput>, lim: Limits, ops: seq<Op>): State {
    if ops == [] then State(map[], map[]) else Step(h, lim, Run(h, lim, ops[..|ops| - 1]), ops[|ops| - 1])
  }

  // ----- the specification: plain lists of contents

  datatype Books = Books(open: map<string, seq<Content>>, closed: map<string, seq<Content>>)

  function BookStep(lim: Limits, b: Books, op: Op): Books {
    match op
    case Open(id) => if id !in b.open && |b.open| < lim.maxLedgers then b.(open := b.open[id := []]) else b
    case Emit(id, c) =>
      if id in b.open && |b.open[id]| < lim.maxEvents then b.(open := b.open[id := b.open[id] + [c]]) else b
    case Close(id) => if id in b.open then Books(b.open - {id}, b.closed[id := b.open[id]]) else b
  }

  function BookRun(lim: Limits, ops: seq<Op>): Books {
    if ops == [] then Books(map[], map[]) else BookStep(lim, BookRun(lim, ops[..|ops| - 1]), ops[|ops| - 1])
  }

  ghost function Abstract(m: map<string, Ledger>): map<string, seq<Content>> {
    map id | id in m :: Contents(m[id].events)
  }

  ghost function AbstractState(s: State): Books {
    Books(Abstract(s.active), Abstract(s.completed))
  }

  ghost predicate AllGood(h: Hasher<HashInput>, lim: Limits, m: map<string, Ledger>) {
    forall id :: id in m ==> Good(h, m[id]) && m[id].eventCount <= lim.maxEvents
  }

  ghost predicate GoodState(h: Hasher<HashInput>, lim: Limits, s: State) {
    AllGood(h, lim, s.active) && AllGood(h, lim, s.completed) && |s.active| <= lim.maxLedgers
  }

  lemma UpdateGood(h: Hasher<HashInput>, lim: Limits, m: map<string, Ledger>, id: string, l: Ledger)
    requires AllGood(h, lim, m) && Good(h, l) && l.eventCount <= lim.maxEvents
    ensures AllGood(h, lim, m[id := l])
  {
  }

  lemma UpdateSize(m: map<string, Ledger>, id: string, l: Ledger)
    ensures |m[id := l]| == |m| + if id in m then 0 else 1
  {
    var t := m[id := l];
    assert t.Keys == m.Keys + {id};
  }

  lemma RemoveSize(m: map<string, Ledger>, id: string)
    ensures |m - {id}| <= |m|
  {
    var t := m - {id};
    assert m.Keys == t.Keys + (m.Keys - t.Keys);
  }

  /** The ledger that an accepted emit leaves. */
  lemma EmitResult(h: Hasher<HashInput>, lim: Limits, s: State, id: string, c: Content) returns (after: Ledger)
    requires Accepts(lim, s, Emit(id, c))
    ensures Step(h, lim, s, Emit(id, c)) == State(s.active[id := after], s.completed)
    ensures Contents(after.events) == Contents(s.active[id].events) + [c]
    ensures Good(h, s.active[id]) ==> Good(h, after) && after.eventCount == s.active[id].eventCount + 1
  {
    var l := s.active[id];
    after := Appended(h, l, EventId(id, l.lastSequence + 1), c);
    if Good(h, l) {
      AppendedGood(h, l, EventId(id, l.lastSequence + 1), c);
    }
    AppendedContents(h, l, EventId(id, l.lastSequence + 1), c);
  }

  lemma AppendedContents(h: Hasher<HashInput>, l: Ledger, id: EventId, c: Content)
    ensures Contents(Appended(h, l, id, c).events) == Contents(l.events) + [c]
  {
  }

  lemma EmitGood(h: Hasher<HashInput>, lim: Limits, s: State, t: State, id: string, after: Ledger)
    requires GoodState(h, lim, s) && id in s.active && t == State(s.active[id := after], s.completed)
    requires Good(h, after) && after.eventCount <= lim.maxEvents
    ensures GoodState(h, lim, t)
  {
    UpdateGood(h, lim, s.active, id, after);
    UpdateSize(s.active, id, after);
  }

  lemma CloseGood(h: Hasher<HashInput>, lim: Limits, s: State, id: string)
    requires GoodState(h, lim, s) && id in s.active
    ensures GoodState(h, lim, Step(h, lim, s, Close(id)))
  {
    UpdateGood(h, lim, s.completed, id, s.active[id]);
    RemoveSize(s.active, id);
  }

  lemma StepGood(h: Hasher<HashInput>, lim: Limits, s: State, op: Op)
    requires GoodState(h, lim, s)
    ensures GoodState(h, lim, Step(h, lim, s, op))
  {
    if Accepts(lim, s, op) {
      match op
      case Open(id) =>
        UpdateGood(h, lim, s.active, id, FRESH);
        UpdateSize(s.active, id, FRESH);
      case Emit(id, c) =>
        var after := EmitResult(h, lim, s, id, c);
        EmitGood(h, lim, s, Step(h, lim, s, op), id, after);
      case Close(id) => CloseGood(h, lim, s, id);
    }
  }

  lemma AbstractUpdate(m: map<string, Ledger>, id: string, l: Ledger)
    ensures Abstract(m[id := l]) == Abstract(m)[id := Contents(l.events)]
    ensures Abstract(m - {id}) == Abstract(m) - {id}
    ensures |Abstract(m)| == |m|
  {
    assert Abstract(m).Keys == m.Keys;
  }

  lemma EmitRefines(lim: Limits, s: State, t: State, id: string, c: Content, after: Ledger)
    requires id in s.active && |s.active[id].events| < lim.maxEvents && t == State(s.active[id := after], s.completed)
    requires Contents(after.events) == Contents(s.active[id].events) + [c]
    ensures AbstractState(t) == BookStep(lim, AbstractState(s), Emit(id, c))
  {
    AbstractUpdate(s.active, id, after);
    assert Abstract(s.active)[id] == Contents(s.active[id].events);
  }

  lemma EmitRefused(lim: Limits, s: State, id: string, c: Content)
    requires id in s.active && |s.active[id].events| >= lim.maxEvents
    ensures BookStep(lim, AbstractState(s), Emit(id, c)) == AbstractState(s)
  {
    assert Abstract(s.active)[id] == Contents(s.active[id].events);
  }

  lemma CloseRefines(h: Hasher<HashInput>, lim: Limits, s: State, id: string)
    requires GoodState(h, lim, s) && id in s.active
    ensures AbstractState(Step(h, lim, s, Close(id))) == BookStep(lim, AbstractState(s), Close(id))
  {
    AbstractUpdate(s.active, id, s.active[id]);
    AbstractUpdate(s.completed, id, s.active[id]);
  }

  /** Each step of the engine is the corresponding step on the plain lists. */
  lemma StepRefines(h: Hasher<HashInput>, lim: Limits, s: State, op: Op)
    requires GoodState(h, lim, s)
    ensures AbstractState(Step(h, lim, s, op)) == BookStep(lim, AbstractState(s), op)
  {
    if op.Open? {
      AbstractUpdate(s.active, op.id, FRESH);
    } else if op.id in s.active {
      if op.Emit? {
        if Accepts(lim, s, op) {
          var after := EmitResult(h, lim, s, op.id, op.content);
          EmitRefines(lim, s, Step(h, lim, s, op), op.id, op.content, after);
        } else {
          EmitRefused(lim, s, op.id, op.content);
        }
      } else {
        CloseRefines(h, lim, s, op.id);
      }
    }
  }

  /**
   * Over every run: all ledgers, active or completed, verify and respect the limits, and the engine holds exactly
   * the contents that the plain-list machine holds, so events are numbered 1..n in emission order.
   */
  lemma {:induction false} RunRefines(h: Hasher<HashInput>, lim: Limits, ops: seq<Op>)
    ensures GoodState(h, lim, Run(h, lim, ops))
    ensures AbstractState(Run(h, lim, ops)) == BookRun(lim, ops)
  {
    if ops != [] {
      var pre, op := ops[..|ops| - 1], ops[|ops| - 1];
      RunRefines(h, lim, pre);
      StepGood(h, lim, Run(h, lim, pre), op);
      StepRefines(h, lim, Run(h, lim, pre), op);
    }
  }

  /** Event identifiers name the ledger and count up from 1. */
  ghost predicate NamedAs(l: Ledger, id: string) {
    forall i :: 0 <= i < |l.events| ==> l.events[i].eventId == EventId(id, i + 1)
  }

  ghost predicate Named(m: map<string, Ledger>) {
    forall id :: id in m ==> NamedAs(m[id], id)
  }

  lemma AppendedNamed(h: Hasher<HashInput>, l: Ledger, id: string, c: Content)
    requires NamedAs(l, id) && l.lastSequence == |l.events|
    ensures NamedAs(Appended(h, l, EventId(id, l.lastSequence + 1), c), id)
  {
  }

  lemma StepNamed(h: Hasher<HashInput>, lim: Limits, s: State, op: Op)
    requires Named(s.active) && Named(s.completed) && GoodState(h, lim, s)
    ensures Named(Step(h, lim, s, op).active) && Named(Step(h, lim, s, op).completed)
  {
    if Accepts(lim, s, op) {
      match op
      case Open(id) => OpenStep(h, lim, s, id);
      case Emit(id, c) =>
        EmitStep(h, lim, s, id, c);
        AppendedNamed(h, s.active[id], id, c);
      case Close(id) => CloseStep(h, lim, s, id);
    }
  }

  lemma {:induction false} RunNamed(h: Hasher<HashInput>, lim: Limits, ops: seq<Op>)
    ensures Named(Run(h, lim, ops).active) && Named(Run(h, lim, ops).completed)
  {
    if ops != [] {
      var pre := ops[..|ops| - 1];
      RunNamed(h, lim, pre);
      RunRefines(h, lim, pre);
      StepNamed(h, lim, Run(h, lim, pre), ops[|ops| - 1]);
    }
  }

  /** Emitting the contents cs, in order, to one ledger. */
  function Emits(id: string, cs: seq<Content>): seq<Op> {
    seq(|cs|, i requires 0 <= i < |cs| => Emit(id, cs[i]))
  }

  lemma BookSnoc(lim: Limits, ops: seq<Op>, op: Op)
    ensures BookRun(lim, ops + [op]) == BookStep(lim, BookRun(lim, ops), op)
  {
    assert (ops + [op])[..|ops|] == ops;
  }

  function First(cs: seq<Content>, n: nat): seq<Content> {
    if |cs| <= n then cs else cs[..n]
  }

  lemma FirstSnoc(cs: seq<Content>, c: Content, n: nat)
    ensures First(cs + [c], n) == if |First(cs, n)| < n then First(cs, n) + [c] else First(cs, n)
  {
  }

  /** Room for one more ledger under this id. */
  ghost predicate CanOpen(lim: Limits, b: Books, id: string) {
    id !in b.open && |b.open| < lim.maxLedgers
  }

  lemma EmitMore(lim: Limits, b: Books, id: string, cs: seq<Content>, c: Content)
    ensures BookStep(lim, WithOpen(b, id, First(cs, lim.maxEvents)), Emit(id, c))
      == WithOpen(b, id, First(cs + [c], lim.maxEvents))
  {
    FirstSnoc(cs, c, lim.maxEvents);
  }

  ghost function WithOpen(b: Books, id: string, cs: seq<Content>): Books {
    b.(open := b.open[id := cs])
  }

  lemma {:induction false} EmitsFill(lim: Limits, start: seq<Op>, b: Books, id: string, cs: seq<Content>)
    requires BookRun(lim, start) == WithOpen(b, id, [])
    ensures BookRun(lim, start + Emits(id, cs)) == WithOpen(b, id, First(cs, lim.maxEvents))
  {
    if cs == [] {
      assert start + Emits(id, cs) == start;
    } else {
      var pre, c := cs[..|cs| - 1], cs[|cs| - 1];
      EmitsFill(lim, start, b, id, pre);
      assert cs == pre + [c];
      EmitsSnoc(start, id, pre, c);
      BookSnoc(lim, start + Emits(id, pre), Emit(id, c));
      EmitMore(lim, b, id, pre, c);
    }
  }

  lemma EmitsSnoc(start: seq<Op>, id: string, cs: seq<Content>, c: Content)
    ensures start + Emits(id, cs + [c]) == start + Emits(id, cs) + [Emit(id, c)]
  {
    assert Emits(id, cs + [c]) == Emits(id, cs) + [Emit(id, c)];
  }

  /**
   * In any run, opening, emitting and closing leaves a completed ledger with the contents emitted, up to the event
   * limit, in place of an earlier one of that id, and changes no other ledger.
   */
  lemma SessionIsRecorded(lim: Limits, ops: seq<Op>, id: string, cs: seq<Content>)
    requires CanOpen(lim, BookRun(lim, ops), id)
    ensures var b := BookRun(lim, ops);
            BookRun(lim, ops + [Open(id)] + Emits(id, cs) + [Close(id)])
            == Books(b.open, b.closed[id := First(cs, lim.maxEvents)])
  {
    var b := BookRun(lim, ops);
    BookSnoc(lim, ops, Open(id));
    EmitsFill(lim, ops + [Open(id)], b, id, cs);
    BookSnoc(lim, ops + [Open(id)] + Emits(id, cs), Close(id));
    assert b.open[id := First(cs, lim.maxEvents)] - {id} == b.open;
  }

  function Opens(ids: seq<string>): seq<Op> {
    seq(|ids|, i requires 0 <= i < |ids| => Open(ids[i]))
  }

  function FirstIds(ids: seq<string>, n: nat): seq<string> {
    if |ids| <= n then ids else ids[..n]
  }

  ghost predicate Holds(m: map<string, seq<Content>>, ids: seq<string>) {
    |m| == |ids| && forall id :: id in m <==> id in ids
  }

  lemma HoldsMore(m: map<string, seq<Content>>, ids: seq<string>, id: string)
    requires Holds(m, ids) && id !in ids
    ensures Holds(m[id := []], ids + [id])
  {
    var more := m[id := []];
    assert more.Keys == m.Keys + {id};
    assert |more| == |more.Keys| && |m| == |m.Keys|;
  }

  lemma OpenNext(lim: Limits, b: Books, ids: seq<string>, id: string)
    requires Holds(b.open, FirstIds(ids, lim.maxLedgers)) && id !in ids
    ensures Holds(BookStep(lim, b, Open(id)).open, FirstIds(ids + [id], lim.maxLedgers))
  {
    if |ids| < lim.maxLedgers {
      HoldsMore(b.open, ids, id);
    } else {
      assert FirstIds(ids + [id], lim.maxLedgers) == FirstIds(ids, lim.maxLedgers);
    }
  }

  lemma {:induction false} OpensBook(lim: Limits, ids: seq<string>)
    requires forall i, j :: 0 <= i < j < |ids| ==> ids[i] != ids[j]
    ensures Holds(BookRun(lim, Opens(ids)).open, FirstIds(ids, lim.maxLedgers))
  {
    if ids != [] {
      var pre, id := ids[..|ids| - 1], ids[|ids| - 1];
      OpensBook(lim, pre);
      assert ids == pre + [id] && Opens(ids) == Opens(pre) + [Open(id)];
      BookSnoc(lim, Opens(pre), Open(id));
      OpenNext(lim, BookRun(lim, Opens(pre)), pre, id);
    }
  }

  /** Opening distinct ledgers succeeds until the ledger limit is reached. */
  lemma OpensFill(lim: Limits, ids: seq<string>, i: nat)
    requires (forall i, j :: 0 <= i < j < |ids| ==> ids[i] != ids[j]) && i < |ids|
    ensures ids[i] in BookRun(lim, Opens(ids)).open <==> i < lim.maxLedgers
  {
    OpensBook(lim, ids);
    var first := FirstIds(ids, lim.maxLedgers);
    forall j | 0 <= j < |first| ensures first[j] == ids[j] {
    }
    if i < lim.maxLedgers {
      assert first[i] in first;
    }
  }

  lemma RunSnoc(h: Hasher<HashInput>, lim: Limits, ops: seq<Op>, op: Op)
    ensures Run(h, lim, ops + [op]) == Step(h, lim, Run(h, lim, ops), op)
  {
    assert (ops + [op])[..|ops|] == ops;
  }

  /** While a ledger stays open its events only grow at the end. */
  lemma OpenOnlyGrows(h: Hasher<HashInput>, lim: Limits, s: State, op: Op, id: string)
    requires id in s.active && id in Step(h, lim, s, op).active
    ensures s.active[id].events <= Step(h, lim, s, op).active[id].events
  {
  }

  // ----- accepted calls

  lemma OpenStep(h: Hasher<HashInput>, lim: Limits, s: State, id: string)
    requires Accepts(lim, s, Open(id))
    ensures Step(h, lim, s, Open(id)) == State(s.active[id := FRESH], s.completed)
  {
  }

  lemma EmitStep(h: Hasher<HashInput>, lim: Limits, s: State, id: string, c: Content)
    requires id in s.active && s.active[id].eventCount < lim.maxEvents
    ensures var l := s.active[id];
            var eid := EventId(id, l.lastSequence + 1);
            var after := Appended(h, l, eid, c);
            && Step(h, lim, s, Emit(id, c)) == State(s.active[id := after], s.completed)
            && after.events == l.events + [Linked(h, l, eid, c)] && Linked(h, l, eid, c).content == c
  {
  }

  lemma CloseStep(h: Hasher<HashInput>, lim: Limits, s: State, id: string)
    requires id in s.active
    ensures Step(h, lim, s, Close(id)) == State(s.active - {id}, s.completed[id := s.active[id]])
  {
  }

  lemma OpenIsGood(h: Hasher<HashInput>, lim: Limits, ops: seq<Op>, id: string)
    requires id in Run(h, lim, ops).active
    ensures Good(h, Run(h, lim, ops).active[id])
  {
    RunRefines(h, lim, ops);
  }

  /** Every completed ledger's list has at most grown since it was closed, and verifies. */
  ghost predicate AllOutgrown(h: Hasher<HashInput>, m: map<string, Ledger>, items: map<string, seq<EventRecord>>) {
    m.Keys == items.Keys && forall id :: id in m ==> Outgrown(h, m[id], items[id])
  }

  lemma CloseOutgrown(h: Hasher<HashInput>, m: map<string, Ledger>, items: map<string, seq<EventRecord>>,
                      id: string, l: Ledger)
    requires AllOutgrown(h, m, items) && Good(h, l)
    ensures AllOutgrown(h, m[id := l], items[id := l.events])
  {
  }

  // ----- the engine object

  /** What a run keeps track of besides the two dictionaries. */
  datatype Book = Book(
    /** The values of all ledgers, which the calls move by Step. */
    state: State,
    /** What the lists of the completed ledgers hold now. */
    items: map<string, seq<EventRecord>>,
    /** The calls made so far. */
    history: seq<Op>,
    /** All ledgers and their event lists. */
    repr: set<object>)

  /** An open ledger and its list carry its key, so different keys have different objects. */
  ghost predicate OpenOk(l: ReplayLedger, id: string, v: Ledger)
    reads l, l.events
  {
    l.ledgerId == id && !l.closed && l.events.ledger == id && l.Valid() && l.view == v
  }

  /** A completed ledger keeps its own fields over a list that now holds items. */
  ghost predicate ClosedOk(l: ReplayLedger, v: Ledger, items: seq<EventRecord>)
    reads l, l.events
  {
    l.closed && l.Current() == v.(events := items)
  }

  /** Keys under which the dictionary of open ledgers is out of step with the book. */
  ghost function OpenMisfits(active: map<string, ReplayLedger>, b: Book): set<string>
    reads b.repr
  {
    set i | i in active.Keys + b.state.active.Keys &&
      !(i in active && i in b.state.active && active[i] in b.repr && active[i].events in b.repr
        && OpenOk(active[i], i, b.state.active[i]))
  }

  /** The same for the completed ledgers. */
  ghost function ClosedMisfits(completed: map<string, ReplayLedger>, b: Book): set<string>
    reads b.repr
  {
    set i | i in completed.Keys + b.state.completed.Keys + b.items.Keys &&
      !(i in completed && i in b.state.completed && i in b.items && completed[i] in b.repr
        && completed[i].events in b.repr && ClosedOk(completed[i], b.state.completed[i], b.items[i]))
  }

  /** Open ledgers share no list with completed ones. */
  ghost predicate Apart(active: map<string, ReplayLedger>, completed: map<string, ReplayLedger>) {
    forall i, j :: i in active && j in completed ==> active[i].events != completed[j].events
  }

  ghost predicate Consistent(active: map<string, ReplayLedger>, completed: map<string, ReplayLedger>, b: Book)
    reads b.repr
  {
    OpenMisfits(active, b) == {} && ClosedMisfits(completed, b) == {} && Apart(active, completed)
  }

  ghost function Refused(b: Book, op: Op): Book {
    b.(history := b.history + [op])
  }

  ghost function Opened(b: Book, id: string, l: ReplayLedger): Book {
    Book(State(b.state.active[id := FRESH], b.state.completed), b.items, b.history + [Open(id)], b.repr + {l, l.events})
  }

  ghost function Emitted(b: Book, id: string, c: Content, v: Ledger): Book {
    Book(State(b.state.active[id := v], b.state.completed), b.items, b.history + [Emit(id, c)], b.repr)
  }

  ghost function Closed(b: Book, id: string, l: ReplayLedger): Book
    requires id in b.state.active
  {
    var v := b.state.active[id];
    Book(State(b.state.active - {id}, b.state.completed[id := v]), b.items[id := v.events], b.history + [Close(id)],
         b.repr + {l})
  }

  /** The values are those of the run so far. */
  ghost predicate Follows(h: Hasher<HashInput>, lim: Limits, b: Book) {
    b.state == Run(h, lim, b.history) && AllOutgrown(h, b.state.completed, b.items)
  }

  lemma RefusedFollows(h: Hasher<HashInput>, lim: Limits, b: Book, op: Op)
    requires Follows(h, lim, b) && !Accepts(lim, b.state, op)
    ensures Follows(h, lim, Refused(b, op)) && b.state == Step(h, lim, b.state, op)
  {
    RunSnoc(h, lim, b.history, op);
  }

  lemma OpenedFollows(h: Hasher<HashInput>, lim: Limits, b: Book, id: string, l: ReplayLedger)
    requires Follows(h, lim, b) && Accepts(lim, b.state, Open(id))
    ensures Follows(h, lim, Opened(b, id, l)) && Opened(b, id, l).state == Step(h, lim, b.state, Open(id))
  {
    RunSnoc(h, lim, b.history, Open(id));
    OpenStep(h, lim, b.state, id);
  }

  lemma EmittedFollows(h: Hasher<HashInput>, lim: Limits, b: Book, id: string, c: Content, v: Ledger)
    requires Follows(h, lim, b) && Accepts(lim, b.state, Emit(id, c))
    requires v == Appended(h, b.state.active[id], EventId(id, b.state.active[id].lastSequence + 1), c)
    ensures Follows(h, lim, Emitted(b, id, c, v)) && Emitted(b, id, c, v).state == Step(h, lim, b.state, Emit(id, c))
    ensures v.events == b.state.active[id].events + [v.events[|v.events| - 1]] && v.events[|v.events| - 1].content == c
  {
    RunSnoc(h, lim, b.history, Emit(id, c));
    EmitStep(h, lim, b.state, id, c);
  }

  lemma ClosedFollows(h: Hasher<HashInput>, lim: Limits, b: Book, id: string, l: ReplayLedger)
    requires Follows(h, lim, b) && id in b.state.active
    ensures Follows(h, lim, Closed(b, id, l)) && Closed(b, id, l).state == Step(h, lim, b.state, Close(id))
  {
    RunSnoc(h, lim, b.history, Close(id));
    OpenIsGood(h, lim, b.history, id);
    CloseOutgrown(h, b.state.completed, b.items, id, b.state.active[id]);
    CloseStep(h, lim, b.state, id);
  }

  lemma OpenEntry(active: map<string, ReplayLedger>, b: Book, id: string)
    requires OpenMisfits(active, b) == {}
    ensures id in active <==> id in b.state.active
    ensures id in active ==>
      active[id] in b.repr && active[id].events in b.repr && OpenOk(active[id], id, b.state.active[id])
  {
    assert id !in OpenMisfits(active, b);
  }

  lemma ClosedEntry(completed: map<string, ReplayLedger>, b: Book, id: string)
    requires ClosedMisfits(completed, b) == {}
    ensures id in completed <==> id in b.state.completed
    ensures id in completed <==> id in b.items
    ensures id in completed ==>
      completed[id] in b.repr && completed[id].events in b.repr
      && ClosedOk(completed[id], b.state.completed[id], b.items[id])
  {
    assert id !in ClosedMisfits(completed, b);
  }

  lemma OpenKeys(active: map<string, ReplayLedger>, b: Book)
    requires OpenMisfits(active, b) == {}
    ensures active.Keys == b.state.active.Keys && |active| == |b.state.active|
  {
    forall i ensures i in active <==> i in b.state.active {
      OpenEntry(active, b, i);
    }
    assert active.Keys == b.state.active.Keys;
    assert |active| == |active.Keys| && |b.state.active| == |b.state.active.Keys|;
  }

  lemma RefuseKeeps(active: map<string, ReplayLedger>, completed: map<string, ReplayLedger>, b: Book, op: Op)
    requires Consistent(active, completed, b)
    ensures Consistent(active, completed, Refused(b, op))
  {
    forall i ensures i !in OpenMisfits(active, Refused(b, op)) && i !in ClosedMisfits(completed, Refused(b, op)) {
      OpenEntry(active, b, i);
      ClosedEntry(completed, b, i);
    }
  }

  lemma OpenKeeps(active: map<string, ReplayLedger>, completed: map<string, ReplayLedger>, b: Book,
                  id: string, l: ReplayLedger)
    requires Consistent(active, completed, b) && OpenOk(l, id, FRESH) && l.events !in b.repr
    ensures Consistent(active[id := l], completed, Opened(b, id, l))
  {
    var open, after := active[id := l], Opened(b, id, l);
    forall i ensures i !in OpenMisfits(open, after) {
      OpenEntry(active, b, i);
    }
    forall i ensures i !in ClosedMisfits(completed, after) && (i in completed ==> completed[i].events in b.repr) {
      ClosedEntry(completed, b, i);
    }
  }

  lemma EmitKeeps(active: map<string, ReplayLedger>, completed: map<string, ReplayLedger>, b: Book,
                  id: string, c: Content, v: Ledger)
    requires ClosedMisfits(completed, b) == {} && Apart(active, completed)
    requires OpenMisfits(active, b) <= {id} && id in active && id in b.state.active
    requires active[id] in b.repr && active[id].events in b.repr && OpenOk(active[id], id, v)
    ensures Consistent(active, completed, Emitted(b, id, c, v))
  {
    var after := Emitted(b, id, c, v);
    forall i ensures i !in OpenMisfits(active, after) {
      assert i != id ==> i !in OpenMisfits(active, b);
    }
    forall i ensures i !in ClosedMisfits(completed, after) {
      ClosedEntry(completed, b, i);
    }
  }

  lemma CloseKeepsOpen(active: map<string, ReplayLedger>, b: Book, id: string, l: ReplayLedger)
    requires OpenMisfits(active, b) == {} && id in active && id in b.state.active
    ensures OpenMisfits(active - {id}, Closed(b, id, l)) == {}
    ensures forall i :: i in active && i != id ==> active[i].events != active[id].events
  {
    var open, after := active - {id}, Closed(b, id, l);
    OpenEntry(active, b, id);
    forall i ensures i !in OpenMisfits(open, after) && (i in open ==> active[i].events != active[id].events) {
      OpenEntry(active, b, i);
    }
  }

  lemma CloseKeepsClosed(completed: map<string, ReplayLedger>, b: Book, id: string, l: ReplayLedger)
    requires ClosedMisfits(completed, b) == {} && id in b.state.active && l.events in b.repr
    requires ClosedOk(l, b.state.active[id], b.state.active[id].events)
    ensures ClosedMisfits(completed[id := l], Closed(b, id, l)) == {}
  {
    var done, after := completed[id := l], Closed(b, id, l);
    forall i ensures i !in ClosedMisfits(done, after) {
      ClosedEntry(completed, b, i);
    }
  }

  lemma CloseKeeps(active: map<string, ReplayLedger>, completed: map<string, ReplayLedger>, b: Book,
                   id: string, l: ReplayLedger)
    requires Consistent(active, completed, b) && id in active && id in b.state.active && l.events == active[id].events
    requires ClosedOk(l, b.state.active[id], b.state.active[id].events)
    ensures Consistent(active - {id}, completed[id := l], Closed(b, id, l))
  {
    OpenEntry(active, b, id);
    CloseKeepsOpen(active, b, id, l);
    CloseKeepsClosed(completed, b, id, l);
  }

  /** No other entry shares an object with an open ledger. */
  lemma OthersApart(active: map<string, ReplayLedger>, completed: map<string, ReplayLedger>, b: Book, id: string)
    requires Consistent(active, completed, b) && id in active
    ensures forall i :: i in active && i != id ==> active[i] != active[id] && active[i].events != active[id].events
    ensures forall i :: i in completed ==> completed[i] != active[id] && completed[i].events != active[id].events
  {
    OpenEntry(active, b, id);
    forall i ensures i in active && i != id ==> active[i] != active[id] && active[i].events != active[id].events {
      OpenEntry(active, b, i);
    }
    forall i ensures i in completed ==> completed[i] != active[id] && completed[i].events != active[id].events {
      ClosedEntry(completed, b, i);
    }
  }

  /** A ledger object that was opened by the engine and is no longer in use by it. */
  ghost predicate Retired(h: Hasher<HashInput>, active: map<string, ReplayLedger>, handle: ReplayLedger)
    reads handle, handle.events
  {
    && handle.Valid() && !handle.closed && Good(h, handle.view)
    && forall i :: i in active ==> active[i] != handle && active[i].events != handle.events
  }

  class ExecutionEngine {
    const hasher: Hasher<HashInput>
    const limits: Limits
    var active: map<string, ReplayLedger>
    var completed: map<string, ReplayLedger>
    ghost var book: Book

    ghost predicate Valid()
      reads this, book.repr
    {
      this !in book.repr && Consistent(active, completed, book) && Follows(hasher, limits, book)
    }

    constructor (hasher: Hasher<HashInput>, limits: Limits)
      ensures Valid() && book.history == [] && this.hasher == hasher && this.limits == limits
    {
      this.hasher, this.limits, active, completed := hasher, limits, map[], map[];
      book := Book(State(map[], map[]), map[], [], {});
    }

    /** A rejected call. */
    ghost method Refuse(op: Op)
      requires this !in book.repr && Consistent(active, completed, book)
      modifies this`book
      ensures this !in book.repr && Consistent(active, completed, book) && book == Refused(old(book), op)
    {
      RefuseKeeps(active, completed, book, op);
      Rewrite(Refused(book, op));
    }

    ghost method Rewrite(next: Book)
      requires this !in next.repr && Consistent(active, completed, next)
      modifies this`book
      ensures book == next && Consistent(active, completed, book)
    {
      book := next;
    }

    /** The accepted case of open. */
    method AddLedger(id: string) returns (ledger: ReplayLedger)
      requires this !in book.repr && Consistent(active, completed, book)
      modifies this
      ensures this !in book.repr && Consistent(active, completed, book) && book == Opened(old(book), id, ledger)
      ensures fresh(ledger) && fresh(ledger.events) && active == old(active)[id := ledger]
    {
      ledger := new ReplayLedger(id, 1, 0);
      ghost var next := Opened(book, id, ledger);
      OpenKeeps(active, completed, book, id, ledger);
      assert this !in next.repr;
      var open := active[id := ledger];
      Install(open, completed, next);
    }

    method OpenLedger(id: string) returns (r: Outcome<ReplayLedger>)
      requires Valid()
      modifies this
      ensures Valid() && book.history == old(book.history) + [Open(id)]
      ensures book.state == Step(hasher, limits, old(book.state), Open(id))
      ensures r.Ok? <==> Accepts(limits, old(book.state), Open(id))
      ensures r.Ok? ==> fresh(r.value) && fresh(r.value.events)
      ensures active == if r.Ok? then old(active)[id := r.value] else old(active)
    {
      OpenKeys(active, book);
      if id in active || |active| >= limits.maxLedgers {
        RefusedFollows(hasher, limits, book, Open(id));
        Refuse(Open(id));
        return ValueError;
      }
      ghost var before := book;
      var ledger := AddLedger(id);
      OpenedFollows(hasher, limits, before, id, ledger);
      r := Ok(ledger);
    }

    /** The accepted case of emit. */
    method AppendTo(id: string, c: Content) returns (e: EventRecord)
      requires this !in book.repr && Consistent(active, completed, book) && id in active && id in book.state.active
      modifies this`book, active[id], active[id].events
      ensures this !in book.repr && Consistent(active, completed, book)
      ensures var l := old(book.state.active[id]);
              var eid := EventId(id, l.lastSequence + 1);
              book == Emitted(old(book), id, c, Appended(hasher, l, eid, c)) && e == Linked(hasher, l, eid, c)
    {
      OpenEntry(active, book, id);
      OthersApart(active, completed, book, id);
      var ledger := active[id];
      e := ledger.Append(hasher, EventId(id, ledger.lastSequence + 1), c);
      forall i | i != id ensures i !in OpenMisfits(active, book) {
        assert i !in old(OpenMisfits(active, book));
      }
      forall i ensures i !in ClosedMisfits(completed, book) {
        assert i !in old(ClosedMisfits(completed, book));
      }
      EmitKeeps(active, completed, book, id, c, ledger.view);
      Rewrite(Emitted(book, id, c, ledger.view));
    }

    method EmitEvent(id: string, c: Content) returns (r: Outcome<EventRecord>)
      requires Valid()
      modifies this`book, if id in active then {active[id], active[id].events} else {}
      ensures Valid() && book.history == old(book.history) + [Emit(id, c)]
      ensures book.state == Step(hasher, limits, old(book.state), Emit(id, c))
      ensures r.Ok? <==> Accepts(limits, old(book.state), Emit(id, c))
      ensures r.Ok? ==> r.value.content == c && id in book.state.active && id in old(book.state.active)
      ensures r.Ok? ==> book.state.active[id].events == old(book.state.active[id].events) + [r.value]
    {
      OpenEntry(active, book, id);
      if id !in active || active[id].eventCount >= limits.maxEvents {
        RefusedFollows(hasher, limits, book, Emit(id, c));
        Refuse(Emit(id, c));
        return ValueError;
      }
      ghost var before, l := book, book.state.active[id];
      var e := AppendTo(id, c);
      EmittedFollows(hasher, limits, before, id, c, Appended(hasher, l, EventId(id, l.lastSequence + 1), c));
      r := Ok(e);
    }

    /** The accepted case of close: the completed ledger is a new object over the list of the open one. */
    method MoveToCompleted(id: string) returns (closed: ReplayLedger)
      requires this !in book.repr && Consistent(active, completed, book) && id in active && id in book.state.active
      modifies this
      ensures this !in book.repr && Consistent(active, completed, book) && book == Closed(old(book), id, closed)
      ensures fresh(closed) && id in completed && completed[id] == closed && closed.events == old(active[id]).events
      ensures active == old(active) - {id}
    {
      OpenEntry(active, book, id);
      closed := new ReplayLedger.ClosedCopy(active[id]);
      ghost var next := Closed(book, id, closed);
      CloseKeeps(active, completed, book, id, closed);
      assert this !in next.repr;
      var open, done := active - {id}, completed[id := closed];
      Install(open, done, next);
    }

    /** Writes both dictionaries. */
    method Install(open: map<string, ReplayLedger>, done: map<string, ReplayLedger>, ghost next: Book)
      requires this !in next.repr && Consistent(open, done, next)
      modifies this
      ensures active == open && completed == done && book == next && Consistent(active, completed, book)
    {
      active, completed, book := open, done, next;
    }

    method CloseLedger(id: string) returns (r: Outcome<ReplayLedger>)
      requires Valid()
      modifies this
      ensures Valid() && book.history == old(book.history) + [Close(id)]
      ensures book.state == Step(hasher, limits, old(book.state), Close(id))
      ensures r.Ok? <==> Accepts(limits, old(book.state), Close(id))
      ensures active == if r.Ok? then old(active) - {id} else old(active)
      ensures r.Ok? ==> fresh(r.value) && id in completed && completed[id] == r.value
      ensures r.Ok? ==> id in old(active) && r.value.events == old(active[id]).events
      ensures r.Ok? ==> Retired(hasher, active, old(active[id]))
    {
      OpenEntry(active, book, id);
      if id !in active {
        RefusedFollows(hasher, limits, book, Close(id));
        Refuse(Close(id));
        return ValueError;
      }
      OpenIsGood(hasher, limits, book.history, id);
      OthersApart(active, completed, book, id);
      ghost var before := book;
      var closed := MoveToCompleted(id);
      ClosedFollows(hasher, limits, before, id, closed);
      r := Ok(closed);
    }

    /** Whatever calls were made, every completed ledger verifies. */
    method VerifyLedger(id: string) returns (ok: bool)
      requires Valid()
      ensures ok <==> id in BookRun(limits, book.history).closed
    {
      ClosedEntry(completed, book, id);
      RunRefines(hasher, limits, book.history);
      assert book.state.completed.Keys == BookRun(limits, book.history).closed.Keys;
      if id !in completed {
        return false;
      }
      ok := completed[id].VerifyIntegrity(hasher);
    }

    /** Without bounds a replay returns what was emitted while the ledger was open, even if its list has grown since. */
    method ReplayCompleted(id: string, from: Option<int>, to: Option<int>) returns (r: Outcome<seq<EventRecord>>)
      requires Valid()
      ensures r.Ok? <==> id in BookRun(limits, book.history).closed
      ensures r.Ok? && from == None && to == None ==> Contents(r.value) == BookRun(limits, book.history).closed[id]
      ensures r.Ok? ==> id in book.state.completed && id in book.items
      ensures r.Ok? ==> r.value == ReplayEvents(book.state.completed[id].(events := book.items[id]), from, to)
    {
      ClosedEntry(completed, book, id);
      RunRefines(hasher, limits, book.history);
      assert book.state.completed.Keys == BookRun(limits, book.history).closed.Keys;
      if id !in completed {
        return ValueError;
      }
      OutgrownReplay(hasher, book.state.completed[id], book.items[id], from, to);
      var events := completed[id].Replay(from, to);
      r := Ok(events);
    }
  }

  // ----- handles kept after closing

  /** The book after the shared list has come to hold items. */
  ghost function Grown(completed: map<string, ReplayLedger>, b: Book, list: EventList, items: seq<EventRecord>): Book {
    b.(items := map i | i in b.items :: if i in completed && completed[i].events == list then items else b.items[i])
  }

  lemma GrownOutgrown(h: Hasher<HashInput>, completed: map<string, ReplayLedger>, b: Book, list: EventList,
                      before: seq<EventRecord>, items: seq<EventRecord>)
    requires AllOutgrown(h, b.state.completed, b.items) && before <= items && Verifies(h, items, 1)
    requires forall i :: i in completed && i in b.items && completed[i].events == list ==> b.items[i] == before
    ensures AllOutgrown(h, b.state.completed, Grown(completed, b, list, items).items)
  {
    var after := Grown(completed, b, list, items).items;
    assert after.Keys == b.items.Keys;
    forall i | i in b.state.completed ensures Outgrown(h, b.state.completed[i], after[i]) {
      OutgrowsFurther(h, b.state.completed[i], b.items[i], after[i]);
    }
  }

  lemma OutgrowsFurther(h: Hasher<HashInput>, l: Ledger, before: seq<EventRecord>, items: seq<EventRecord>)
    requires Outgrown(h, l, before) && before <= items && (before == items || Verifies(h, items, 1))
    ensures Outgrown(h, l, items)
  {
  }

  /** The completed ledgers over the list hold what it held before the append. */
  lemma SharedItems(completed: map<string, ReplayLedger>, b: Book, list: EventList)
    requires ClosedMisfits(completed, b) == {}
    ensures forall i :: i in completed && i in b.items && completed[i].events == list ==> b.items[i] == list.items
  {
    forall i ensures i in completed && i in b.items && completed[i].events == list ==> b.items[i] == list.items {
      ClosedEntry(completed, b, i);
    }
  }

  /** The append itself: every other list and every ledger of the engine is as before. */
  method AppendElsewhere(engine: ExecutionEngine, handle: ReplayLedger, id: EventId, c: Content, ghost b: Book)
    returns (e: EventRecord)
    requires Retired(engine.hasher, engine.active, handle) && Consistent(engine.active, engine.completed, b)
    modifies handle, handle.events
    ensures Retired(engine.hasher, engine.active, handle)
    ensures handle.events.items == old(handle.events.items) + [e] && e.content == c
    ensures Consistent(engine.active, engine.completed, Grown(engine.completed, b, handle.events, handle.events.items))
  {
    AppendedGood(engine.hasher, handle.view, id, c);
    e := handle.Append(engine.hasher, id, c);
    ghost var next := Grown(engine.completed, b, handle.events, handle.events.items);
    forall i ensures i !in OpenMisfits(engine.active, next) {
      assert i !in old(OpenMisfits(engine.active, b));
    }
    forall i ensures i !in ClosedMisfits(engine.completed, next) {
      assert i !in old(ClosedMisfits(engine.completed, b));
    }
  }

  /**
   * An append through the handle of a ledger that has been closed: it reaches the completed ledger's list, but the
   * engine stays valid, so the completed ledger still verifies and replays what was emitted while it was open.
   */
  method AppendAfterClose(engine: ExecutionEngine, handle: ReplayLedger, id: EventId, c: Content)
    returns (e: EventRecord)
    requires engine.Valid() && Retired(engine.hasher, engine.active, handle)
    modifies engine`book, handle, handle.events
    ensures engine.Valid() && Retired(engine.hasher, engine.active, handle)
    ensures handle.events.items == old(handle.events.items) + [e] && e.content == c
    ensures engine.book == Grown(engine.completed, old(engine.book), handle.events, handle.events.items)
  {
    ghost var b, list, before := engine.book, handle.events, handle.events.items;
    SharedItems(engine.completed, b, list);
    e := AppendElsewhere(engine, handle, id, c, b);
    ghost var next := Grown(engine.completed, b, list, list.items);
    GrownOutgrown(engine.hasher, engine.completed, b, list, before, list.items);
    engine.Rewrite(next);
  }
}
