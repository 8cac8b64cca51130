/** The interceptor's hash-chained audit table under concurrent writers (src/pi_agent_interceptor/proxy.py). */
module WalLedger {
  import opened Hashing

  /** Columns that are stored beside the payload but do not enter the trace hash. */
  datatype Labels = Labels(requestType: string, riskScore: real, status: string)

  datatype Row = Row(traceHash: string, previousHash: string, payload: string, labels: Labels)

  /** A log_event call: it has read the last hash but not inserted yet, or it has returned a hash. */
  datatype Call = Pending(previousHash: string, payload: string, labels: Labels) | Returned(traceHash: string)

  /** The table in id order and the calls made so far, by caller. */
  datatype Wal = Wal(rows: seq<Row>, calls: map<nat, Call>)

  /** The two steps of a call; other calls may step in between. */
  datatype Step = ReadLast(caller: nat, payload: string, labels: Labels) | Insert(caller: nat)

  function Zeros(n: nat): (z: string)
    ensures |z| == n && forall i :: 0 <= i < n ==> z[i] == '0'
  {
    if n == 0 then "" else Zeros(n - 1) + ['0']
  }

  /** Sixty-four zeros. */
  const GENESIS: string := Zeros(64)

  const EMPTY := Wal([], map[])

  function LastHash(rows: seq<Row>): string {
    if rows == [] then GENESIS else rows[|rows| - 1].traceHash
  }

  ghost predicate Recorded(rows: seq<Row>, hash: string) {
    exists i :: 0 <= i < |rows| && rows[i].traceHash == hash
  }

  predicate Enabled(w: Wal, s: Step) {
    match s
    case ReadLast(c, _, _) => c !in w.calls
    case Insert(c) => c in w.calls && w.calls[c].Pending?
  }

  function RowOf(sha: string -> string, c: Call): Row
    requires c.Pending?
  {
    Row(sha(c.previousHash + c.payload), c.previousHash, c.payload, c.labels)
  }

  /**
   * The UNIQUE constraint rejects a row whose trace hash exists; the error is swallowed and the hash returned anyway.
   * A step its caller cannot take (a second read, an insert without a read) leaves everything as it is.
   */
  ghost function Next(sha: string -> string, w: Wal, s: Step): Wal {
    if !Enabled(w, s) then w else
      match s
      case ReadLast(c, p, l) => w.(calls := w.calls[c := Pending(LastHash(w.rows), p, l)])
      case Insert(c) =>
        var row := RowOf(sha, w.calls[c]);
        var rows := if Recorded(w.rows, row.traceHash) then w.rows else w.rows + [row];
        Wal(rows, w.calls[c := Returned(row.traceHash)])
  }

  /** The state after any interleaving of steps, from the empty table. */
  ghost function Run(sha: string -> string, steps: seq<Step>): Wal {
    if steps == [] then EMPTY else Next(sha, Run(sha, steps[..|steps| - 1]), steps[|steps| - 1])
  }

  // ----- what every interleaving keeps

  ghost predicate Known(rows: seq<Row>, hash: string) {
    hash == GENESIS || Recorded(rows, hash)
  }

  /** Row i carries its own hash and points at genesis or at an earlier row. */
  ghost predicate RowOk(sha: string -> string, rows: seq<Row>, i: nat)
    requires i < |rows|
  {
    rows[i].traceHash == sha(rows[i].previousHash + rows[i].payload) && Known(rows[..i], rows[i].previousHash)
  }

  ghost predicate Unique(rows: seq<Row>) {
    forall i, j :: 0 <= i < j < |rows| ==> rows[i].traceHash != rows[j].traceHash
  }

  ghost predicate CallOk(rows: seq<Row>, c: Call) {
    match c
    case Pending(h, _, _) => Known(rows, h)
    case Returned(h) => Recorded(rows, h)
  }

  ghost predicate Inv(sha: string -> string, w: Wal) {
    && (forall i :: 0 <= i < |w.rows| ==> RowOk(sha, w.rows, i))
    && Unique(w.rows)
    && (forall c :: c in w.calls ==> CallOk(w.rows, w.calls[c]))
  }

  lemma RecordedGrows(rows: seq<Row>, row: Row, hash: string)
    requires Recorded(rows, hash) || row.traceHash == hash
    ensures Recorded(rows + [row], hash)
  {
    var all := rows + [row];
    if Recorded(rows, hash) {
      var i :| 0 <= i < |rows| && rows[i].traceHash == hash;
      assert all[i].traceHash == hash;
    } else {
      assert all[|rows|].traceHash == hash;
    }
  }

  lemma LastIsKnown(rows: seq<Row>)
    ensures Known(rows, LastHash(rows))
  {
    if rows != [] {
      assert rows[|rows| - 1].traceHash == LastHash(rows);
    }
  }

  lemma AppendRow(sha: string -> string, rows: seq<Row>, row: Row)
    requires (forall i :: 0 <= i < |rows| ==> RowOk(sha, rows, i)) && Unique(rows)
    requires row.traceHash == sha(row.previousHash + row.payload) && Known(rows, row.previousHash)
    requires !Recorded(rows, row.traceHash)
    ensures forall i :: 0 <= i < |rows + [row]| ==> RowOk(sha, rows + [row], i)
    ensures Unique(rows + [row])
  {
    var all := rows + [row];
    forall i | 0 <= i < |all| ensures RowOk(sha, all, i) {
      if i < |rows| {
        assert RowOk(sha, rows, i);
        assert all[..i] == rows[..i];
      } else {
        assert all[..i] == rows;
      }
    }
  }

  lemma StepKeepsInv(sha: string -> string, w: Wal, s: Step)
    requires Inv(sha, w)
    ensures Inv(sha, Next(sha, w, s))
  {
    if !Enabled(w, s) {
      return;
    }
    match s
    case ReadLast(c, p, l) =>
      LastIsKnown(w.rows);
    case Insert(c) =>
      assert CallOk(w.rows, w.calls[c]);
      var row := RowOf(sha, w.calls[c]);
      var next := Next(sha, w, s);
      if !Recorded(w.rows, row.traceHash) {
        AppendRow(sha, w.rows, row);
        RecordedGrows(w.rows, row, row.traceHash);
        forall d | d in next.calls ensures CallOk(next.rows, next.calls[d]) {
          if d != c {
            CallStaysOk(w.rows, row, w.calls[d]);
          }
        }
      }
  }

  lemma CallStaysOk(rows: seq<Row>, row: Row, c: Call)
    requires CallOk(rows, c)
    ensures CallOk(rows + [row], c)
  {
    match c
    case Pending(h, _, _) => if h != GENESIS { RecordedGrows(rows, row, h); }
    case Returned(h) => RecordedGrows(rows, row, h);
  }

  /** Every interleaving: rows link to genesis or earlier rows, hashes are unique, every returned hash is in the log. */
  lemma {:induction false} EveryRunKeepsInv(sha: string -> string, steps: seq<Step>)
    ensures Inv(sha, Run(sha, steps))
  {
    if steps != [] {
      EveryRunKeepsInv(sha, steps[..|steps| - 1]);
      StepKeepsInv(sha, Run(sha, steps[..|steps| - 1]), steps[|steps| - 1]);
    }
  }

  /** The table is append-only. */
  lemma {:induction false} RowsOnlyGrow(sha: string -> string, steps: seq<Step>, k: nat)
    requires k <= |steps|
    ensures Run(sha, steps[..k]).rows <= Run(sha, steps).rows
  {
    if k < |steps| {
      RowsOnlyGrow(sha, steps[..|steps| - 1], k);
      assert steps[..|steps| - 1][..k] == steps[..k];
    } else {
      assert steps[..k] == steps;
    }
  }

  // ----- when the rows form one chain

  /** Each row points at the row just before it. */
  ghost predicate Chain(rows: seq<Row>) {
    rows == [] || (Chain(rows[..|rows| - 1]) && rows[|rows| - 1].previousHash == LastHash(rows[..|rows| - 1]))
  }

  lemma {:induction false} ChainAt(rows: seq<Row>, i: nat)
    requires Chain(rows) && i < |rows|
    ensures rows[i].previousHash == LastHash(rows[..i])
    decreases |rows|
  {
    if i < |rows| - 1 {
      ChainAt(rows[..|rows| - 1], i);
      assert rows[..|rows| - 1][..i] == rows[..i];
    }
  }

  lemma {:induction false} BrokenAt(rows: seq<Row>) returns (i: nat)
    requires !Chain(rows)
    ensures i < |rows| && rows[i].previousHash != LastHash(rows[..i])
  {
    var pre := rows[..|rows| - 1];
    if Chain(pre) {
      i := |pre|;
    } else {
      i := BrokenAt(pre);
      assert pre[..i] == rows[..i] && pre[i] == rows[i];
    }
  }

  /** A chain, row by row: the first points at sixty-four zeros, every other one at the hash of the row before. */
  lemma ChainMeans(rows: seq<Row>)
    ensures Chain(rows) <==>
      && (rows != [] ==> rows[0].previousHash == GENESIS)
      && forall i, j :: 0 <= i && j == i + 1 < |rows| ==> rows[j].previousHash == rows[i].traceHash
  {
    if Chain(rows) {
      forall j | 0 <= j < |rows| ensures rows[j].previousHash == LastHash(rows[..j]) {
        ChainAt(rows, j);
      }
    } else {
      var j := BrokenAt(rows);
      assert j > 0 ==> LastHash(rows[..j]) == rows[j - 1].traceHash;
    }
  }

  /** A step that adds a row whose previous hash, read earlier, is no longer the last one. */
  ghost predicate Stale(sha: string -> string, w: Wal, s: Step) {
    s.Insert? && Enabled(w, s) && !Recorded(w.rows, RowOf(sha, w.calls[s.caller]).traceHash)
    && w.calls[s.caller].previousHash != LastHash(w.rows)
  }

  /** Step j of the run is stale in the state it is taken in. */
  ghost predicate StaleAt(sha: string -> string, steps: seq<Step>, j: nat)
    requires j < |steps|
  {
    Stale(sha, Run(sha, steps[..j]), steps[j])
  }

  lemma StaleInPrefix(sha: string -> string, steps: seq<Step>, n: nat, j: nat)
    requires j < n <= |steps|
    ensures StaleAt(sha, steps[..n], j) <==> StaleAt(sha, steps, j)
  {
    PrefixOfPrefix(steps, j, n);
  }

  lemma PrefixOfPrefix(steps: seq<Step>, k: nat, n: nat)
    requires k <= n <= |steps|
    ensures steps[..n][..k] == steps[..k]
  {
  }

  lemma StepKeepsChainIff(sha: string -> string, w: Wal, s: Step)
    ensures Chain(Next(sha, w, s).rows) <==> Chain(w.rows) && !Stale(sha, w, s)
  {
    if s.Insert? && Enabled(w, s) {
      var row := RowOf(sha, w.calls[s.caller]);
      assert (w.rows + [row])[..|w.rows|] == w.rows;
    }
  }

  ghost predicate NoneStale(sha: string -> string, steps: seq<Step>) {
    forall j :: 0 <= j < |steps| ==> !StaleAt(sha, steps, j)
  }

  lemma NoneStaleSnoc(sha: string -> string, steps: seq<Step>, n: nat)
    requires |steps| == n + 1
    ensures NoneStale(sha, steps) <==> NoneStale(sha, steps[..n]) && !Stale(sha, Run(sha, steps[..n]), steps[n])
  {
    forall j | 0 <= j < n ensures StaleAt(sha, steps[..n], j) <==> StaleAt(sha, steps, j) {
      StaleInPrefix(sha, steps, n, j);
    }
    assert StaleAt(sha, steps, n) <==> Stale(sha, Run(sha, steps[..n]), steps[n]);
  }

  /** After any run the rows form a single chain if and only if no insert used an outdated last hash. */
  lemma {:induction false} ChainIffNoneStale(sha: string -> string, steps: seq<Step>)
    ensures Chain(Run(sha, steps).rows) <==> NoneStale(sha, steps)
  {
    if steps != [] {
      var n := |steps| - 1;
      ChainIffNoneStale(sha, steps[..n]);
      StepKeepsChainIff(sha, Run(sha, steps[..n]), steps[n]);
      NoneStaleSnoc(sha, steps, n);
    }
  }

  /** The hash read is outdated exactly when rows were added since (unless a trace hash hits the genesis string). */
  lemma OutdatedIffGrown(sha: string -> string, before: seq<Row>, now: Wal)
    requires Inv(sha, now) && before <= now.rows && !Recorded(now.rows, GENESIS)
    ensures LastHash(before) == LastHash(now.rows) <==> before == now.rows
  {
    if before != now.rows {
      var n := |now.rows| - 1;
      assert now.rows[n].traceHash == LastHash(now.rows);
      if before != [] {
        assert now.rows[|before| - 1] == before[|before| - 1];
      }
    }
  }

  // ----- the same in terms of the schedule

  /** The caller has taken the first step of its call. */
  ghost predicate HasRead(steps: seq<Step>, c: nat) {
    exists i :: 0 <= i < |steps| && steps[i].ReadLast? && steps[i].caller == c
  }

  /** The caller has taken both steps. */
  ghost predicate HasInserted(steps: seq<Step>, c: nat) {
    steps != [] &&
    var pre := steps[..|steps| - 1];
    HasInserted(pre, c) || (steps[|steps| - 1] == Insert(c) && HasRead(pre, c))
  }

  /** Steps i and j of the run are the read and the insert of one call. */
  ghost predicate IsCall(steps: seq<Step>, i: nat, j: nat) {
    && i < j < |steps| && steps[i].ReadLast? && steps[j] == Insert(steps[i].caller)
    && !HasRead(steps[..i], steps[i].caller) && !HasInserted(steps[..j], steps[i].caller)
  }

  lemma HasReadSnoc(steps: seq<Step>, s: Step, c: nat)
    ensures HasRead(steps + [s], c) <==> HasRead(steps, c) || (s.ReadLast? && s.caller == c)
  {
    var all := steps + [s];
    if HasRead(steps, c) {
      var i :| 0 <= i < |steps| && steps[i].ReadLast? && steps[i].caller == c;
      assert all[i] == steps[i];
    }
    if s.ReadLast? && s.caller == c {
      assert all[|steps|] == s;
    }
  }

  /** Which steps have an effect, from the steps before them: one read per caller, then one insert. */
  lemma {:induction false} AcceptedSteps(sha: string -> string, steps: seq<Step>, c: nat, p: string, l: Labels)
    ensures Enabled(Run(sha, steps), ReadLast(c, p, l)) <==> !HasRead(steps, c)
    ensures Enabled(Run(sha, steps), Insert(c)) <==> HasRead(steps, c) && !HasInserted(steps, c)
    ensures HasInserted(steps, c) ==> HasRead(steps, c)
  {
    if steps != [] {
      var pre, s := steps[..|steps| - 1], steps[|steps| - 1];
      AcceptedSteps(sha, pre, c, p, l);
      HasReadSnoc(pre, s, c);
      assert steps == pre + [s];
    }
  }

  lemma CallIsAccepted(sha: string -> string, steps: seq<Step>, i: nat, j: nat)
    requires IsCall(steps, i, j)
    ensures Enabled(Run(sha, steps[..i]), steps[i]) && Enabled(Run(sha, steps[..j]), steps[j])
  {
    var c := steps[i].caller;
    AcceptedSteps(sha, steps[..i], c, steps[i].payload, steps[i].labels);
    AcceptedSteps(sha, steps[..j], c, steps[i].payload, steps[i].labels);
    assert steps[..j][i] == steps[i];
  }

  /**
   * What a call does: it returns the hash of the last hash it read and its payload, and adds a row with just these and
   * its labels, unless that hash is recorded already.
   */
  lemma CallEffect(sha: string -> string, steps: seq<Step>, i: nat, j: nat)
    requires IsCall(steps, i, j)
    ensures var early, rows := Run(sha, steps[..i]).rows, Run(sha, steps[..j]).rows;
            var last := if early == [] then GENESIS else early[|early| - 1].traceHash;
            var hash := sha(last + steps[i].payload);
            var after := Run(sha, steps[..j + 1]);
            && steps[i].caller in after.calls && after.calls[steps[i].caller] == Returned(hash)
            && after.rows == if exists k :: 0 <= k < |rows| && rows[k].traceHash == hash then rows
                             else rows + [Row(hash, last, steps[i].payload, steps[i].labels)]
  {
    CallHoldsRead(sha, steps, i, j);
    CallIsAccepted(sha, steps, i, j);
    RunStep(sha, steps, j);
  }

  ghost predicate AddsRow(sha: string -> string, steps: seq<Step>, j: nat)
    requires j < |steps|
  {
    Run(sha, steps[..j + 1]).rows != Run(sha, steps[..j]).rows
  }

  /** The call read at step i and added its row at step j, and rows were added in between. */
  ghost predicate Overtaken(sha: string -> string, steps: seq<Step>, i: nat, j: nat) {
    IsCall(steps, i, j) && AddsRow(sha, steps, j) && Run(sha, steps[..i]).rows != Run(sha, steps[..j]).rows
  }

  lemma RunStep(sha: string -> string, steps: seq<Step>, j: nat)
    requires j < |steps|
    ensures Run(sha, steps[..j + 1]) == Next(sha, Run(sha, steps[..j]), steps[j])
  {
    PrefixOfPrefix(steps, j, j + 1);
  }

  /** Step i is the accepted read that a pending call holds the result of. */
  ghost predicate ReadBy(sha: string -> string, steps: seq<Step>, i: nat, c: nat, call: Call) {
    && i < |steps| && call.Pending? && steps[i] == ReadLast(c, call.payload, call.labels)
    && Enabled(Run(sha, steps[..i]), steps[i]) && call.previousHash == LastHash(Run(sha, steps[..i]).rows)
  }

  lemma {:induction false} PendingWasRead(sha: string -> string, steps: seq<Step>, c: nat) returns (i: nat)
    requires c in Run(sha, steps).calls && Run(sha, steps).calls[c].Pending?
    ensures ReadBy(sha, steps, i, c, Run(sha, steps).calls[c])
  {
    var pre, last := steps[..|steps| - 1], steps[|steps| - 1];
    var w := Run(sha, pre);
    if c in w.calls && w.calls[c].Pending? {
      i := PendingWasRead(sha, pre, c);
      PrefixOfPrefix(steps, i, |pre|);
    } else {
      i := |pre|;
    }
  }

  /** A caller has at most one accepted read. */
  lemma {:induction false} KnownAfterRead(sha: string -> string, steps: seq<Step>, i: nat, k: nat)
    requires i < k <= |steps| && steps[i].ReadLast? && Enabled(Run(sha, steps[..i]), steps[i])
    ensures steps[i].caller in Run(sha, steps[..k]).calls
    decreases k
  {
    RunStep(sha, steps, k - 1);
    if i < k - 1 {
      KnownAfterRead(sha, steps, i, k - 1);
    }
  }

  /** In an accepted call the pending entry at the insert is what its own read left. */
  lemma CallHoldsRead(sha: string -> string, steps: seq<Step>, i: nat, j: nat)
    requires IsCall(steps, i, j)
    ensures steps[i].caller in Run(sha, steps[..j]).calls
    ensures ReadBy(sha, steps, i, steps[i].caller, Run(sha, steps[..j]).calls[steps[i].caller])
  {
    var c := steps[i].caller;
    CallIsAccepted(sha, steps, i, j);
    var k := PendingWasRead(sha, steps[..j], c);
    PrefixOfPrefix(steps, k, j);
    if k < i {
      KnownAfterRead(sha, steps, k, i);
    } else if i < k {
      KnownAfterRead(sha, steps, i, k);
    }
  }

  lemma CallExists(sha: string -> string, steps: seq<Step>, j: nat) returns (i: nat)
    requires j < |steps| && steps[j].Insert? && Enabled(Run(sha, steps[..j]), steps[j])
    ensures IsCall(steps, i, j)
  {
    var c := steps[j].caller;
    i := PendingWasRead(sha, steps[..j], c);
    PrefixOfPrefix(steps, i, j);
    AcceptedSteps(sha, steps[..i], c, steps[i].payload, steps[i].labels);
    AcceptedSteps(sha, steps[..j], c, steps[i].payload, steps[i].labels);
  }

  /** Unless a trace hash hit the genesis string, the insert of a call is stale exactly when the call was overtaken. */
  lemma StaleIffOvertaken(sha: string -> string, steps: seq<Step>, i: nat, j: nat)
    requires IsCall(steps, i, j) && !Recorded(Run(sha, steps[..j]).rows, GENESIS)
    ensures StaleAt(sha, steps, j) <==> Overtaken(sha, steps, i, j)
  {
    var pre := steps[..j];
    CallHoldsRead(sha, steps, i, j);
    CallIsAccepted(sha, steps, i, j);
    EveryRunKeepsInv(sha, pre);
    RowsOnlyGrow(sha, pre, i);
    PrefixOfPrefix(steps, i, j);
    OutdatedIffGrown(sha, Run(sha, steps[..i]).rows, Run(sha, pre));
    RunStep(sha, steps, j);
  }

  /** A recorded genesis string was hashed from a text. */
  lemma GenesisPreimage(sha: string -> string, steps: seq<Step>, j: nat) returns (x: string)
    requires j <= |steps|
    ensures Recorded(Run(sha, steps[..j]).rows, GENESIS) ==> sha(x) == GENESIS
  {
    x := "";
    var w := Run(sha, steps[..j]);
    EveryRunKeepsInv(sha, steps[..j]);
    if k :| 0 <= k < |w.rows| && w.rows[k].traceHash == GENESIS {
      assert RowOk(sha, w.rows, k);
      x := w.rows[k].previousHash + w.rows[k].payload;
    }
  }

  lemma RecordedLater(sha: string -> string, steps: seq<Step>, j: nat, hash: string)
    requires j <= |steps| && Recorded(Run(sha, steps[..j]).rows, hash)
    ensures Recorded(Run(sha, steps).rows, hash)
  {
    RowsOnlyGrow(sha, steps, j);
    var a, b := Run(sha, steps[..j]).rows, Run(sha, steps).rows;
    var i :| 0 <= i < |a| && a[i].traceHash == hash;
    assert b[i] == a[i];
  }

  /**
   * After any run the rows form a single chain exactly when no call had rows added between its read and the insert of
   * its own row, or a text that hashes to the genesis string is named.
   */
  lemma ChainIffNoneOvertaken(sha: string -> string, steps: seq<Step>) returns (x: string)
    ensures sha(x) == GENESIS
      || (Chain(Run(sha, steps).rows) <==> forall i, j :: !Overtaken(sha, steps, i, j))
  {
    assert steps[..|steps|] == steps;
    x := GenesisPreimage(sha, steps, |steps|);
    if !Recorded(Run(sha, steps).rows, GENESIS) {
      ChainIffNoneStale(sha, steps);
      if i, j :| Overtaken(sha, steps, i, j) {
        NotYetGenesis(sha, steps, j);
        StaleIffOvertaken(sha, steps, i, j);
      }
      if j :| 0 <= j < |steps| && StaleAt(sha, steps, j) {
        var i := CallExists(sha, steps, j);
        NotYetGenesis(sha, steps, j);
        StaleIffOvertaken(sha, steps, i, j);
      }
    }
  }

  lemma NotYetGenesis(sha: string -> string, steps: seq<Step>, j: nat)
    requires j <= |steps| && !Recorded(Run(sha, steps).rows, GENESIS)
    ensures !Recorded(Run(sha, steps[..j]).rows, GENESIS)
  {
    if Recorded(Run(sha, steps[..j]).rows, GENESIS) {
      RecordedLater(sha, steps, j, GENESIS);
    }
  }

  // ----- events that are never recorded

  /** A row at or after index from that points where the call points and holds the call's payload. */
  ghost predicate HasTwin(rows: seq<Row>, from: nat, c: Call)
    requires c.Pending?
  {
    exists k :: from <= k < |rows| && rows[k].previousHash == c.previousHash && rows[k].payload == c.payload
  }

  /**
   * An insert leaves the table as it is when a row with the same previous hash and payload is there, whatever its
   * labels, and only then: otherwise two different texts with the same hash are named.
   */
  lemma EventLostIff(sha: string -> string, w: Wal, c: nat) returns (x: string, y: string)
    requires Inv(sha, w) && (forall s :: |sha(s)| == 64) && Enabled(w, Insert(c))
    ensures HasTwin(w.rows, 0, w.calls[c]) ==> Next(sha, w, Insert(c)).rows == w.rows
    ensures Next(sha, w, Insert(c)).rows == w.rows ==> HasTwin(w.rows, 0, w.calls[c]) || Collision(sha, x, y)
  {
    var call := w.calls[c];
    var hash := sha(call.previousHash + call.payload);
    x, y := "", call.previousHash + call.payload;
    forall k | 0 <= k < |w.rows| && w.rows[k].previousHash == call.previousHash && w.rows[k].payload == call.payload
      ensures Recorded(w.rows, hash) {
      assert RowOk(sha, w.rows, k);
      assert w.rows[k].traceHash == hash;
    }
    if Recorded(w.rows, hash) {
      var k :| 0 <= k < |w.rows| && w.rows[k].traceHash == hash;
      assert RowOk(sha, w.rows, k);
      x := w.rows[k].previousHash + w.rows[k].payload;
      if x == y {
        assert CallOk(w.rows, call);
        KnownSize(sha, w.rows, |w.rows|, call.previousHash);
        KnownSize(sha, w.rows, k, w.rows[k].previousHash);
        SamePrefixes(w.rows[k].previousHash, call.previousHash, w.rows[k].payload, call.payload);
      }
    }
  }

  lemma KnownSize(sha: string -> string, rows: seq<Row>, n: nat, hash: string)
    requires n <= |rows| && (forall i :: 0 <= i < |rows| ==> RowOk(sha, rows, i)) && (forall s :: |sha(s)| == 64)
    requires Known(rows[..n], hash)
    ensures |hash| == 64
  {
    if hash != GENESIS {
      var i :| 0 <= i < n && rows[..n][i].traceHash == hash;
      assert RowOk(sha, rows, i);
    }
  }

  /** Rows present when the last hash was read point elsewhere, unless a trace hash hits the genesis string. */
  lemma OldRowsPointElsewhere(sha: string -> string, rows: seq<Row>, k: nat)
    requires (forall i :: 0 <= i < |rows| ==> RowOk(sha, rows, i)) && Unique(rows) && !Recorded(rows, GENESIS)
    requires k < |rows|
    ensures rows[k].previousHash != LastHash(rows)
  {
    var n := |rows| - 1;
    assert RowOk(sha, rows, k);
    assert rows[n].traceHash != GENESIS;
    if rows[k].previousHash != GENESIS {
      var i :| 0 <= i < k && rows[..k][i].traceHash == rows[k].previousHash;
      assert rows[i].traceHash != rows[n].traceHash;
    }
  }

  /** What the call that reads at step i intends to insert. */
  ghost function Held(sha: string -> string, steps: seq<Step>, i: nat): Call
    requires i < |steps| && steps[i].ReadLast?
  {
    Pending(LastHash(Run(sha, steps[..i]).rows), steps[i].payload, steps[i].labels)
  }

  /**
   * In every run: a call's event is lost exactly when, between its read and its insert, another call recorded the
   * same payload on the same previous hash; otherwise a collision or a text hashing to the genesis string is named.
   */
  lemma LostOnlyByOverlap(sha: string -> string, steps: seq<Step>, i: nat, j: nat) returns (x: string, y: string)
    requires (forall s :: |sha(s)| == 64) && IsCall(steps, i, j)
    ensures Collision(sha, x, y) || sha(x) == GENESIS
      || (!AddsRow(sha, steps, j) <==>
            HasTwin(Run(sha, steps[..j]).rows, |Run(sha, steps[..i]).rows|, Held(sha, steps, i)))
  {
    var w, before := Run(sha, steps[..j]), Run(sha, steps[..i]);
    var call := Held(sha, steps, i);
    CallHoldsRead(sha, steps, i, j);
    CallIsAccepted(sha, steps, i, j);
    assert w.calls[steps[i].caller] == call;
    EveryRunKeepsInv(sha, steps[..j]);
    x, y := EventLostIff(sha, w, steps[i].caller);
    if !Collision(sha, x, y) {
      x := GenesisPreimage(sha, steps, j);
      if sha(x) != GENESIS {
        RunStep(sha, steps, j);
        TwinIsNew(sha, steps, i, j, call);
      }
    }
  }

  lemma TwinIsNew(sha: string -> string, steps: seq<Step>, i: nat, j: nat, call: Call)
    requires i <= j <= |steps| && call.Pending? && call.previousHash == LastHash(Run(sha, steps[..i]).rows)
    requires !Recorded(Run(sha, steps[..j]).rows, GENESIS)
    ensures var rows := Run(sha, steps[..j]).rows;
            HasTwin(rows, 0, call) <==> HasTwin(rows, |Run(sha, steps[..i]).rows|, call)
  {
    var rows, early := Run(sha, steps[..j]).rows, Run(sha, steps[..i]).rows;
    PrefixOfPrefix(steps, i, j);
    RowsOnlyGrow(sha, steps[..j], i);
    EveryRunKeepsInv(sha, steps[..i]);
    NotYetGenesis(sha, steps[..j], i);
    forall k | 0 <= k < |early| ensures rows[k].previousHash != call.previousHash {
      OldRowsPointElsewhere(sha, early, k);
      assert rows[k] == early[k];
    }
  }

  // ----- what a chain pins down

  /** Every row carries the hash of its previous hash and payload. */
  ghost predicate SelfHashed(sha: string -> string, rows: seq<Row>) {
    forall i :: 0 <= i < |rows| ==> rows[i].traceHash == sha(rows[i].previousHash + rows[i].payload)
  }

  ghost predicate SamePayloads(a: seq<Row>, b: seq<Row>) {
    |a| == |b| && forall i :: 0 <= i < |a| ==> a[i].payload == b[i].payload
  }

  lemma LastHashSize(sha: string -> string, rows: seq<Row>)
    requires SelfHashed(sha, rows) && forall s :: |sha(s)| == 64
    ensures |LastHash(rows)| == 64
  {
  }

  lemma SamePrefixes(p: string, q: string, x: string, y: string)
    requires |p| == |q| && p + x == q + y
    ensures p == q && x == y
  {
    assert p == (p + x)[..|p|] && q == (q + y)[..|q|];
    assert x == (p + x)[|p|..] && y == (q + y)[|q|..];
  }

  /**
   * Two chains with the same last hash record the same payloads, or two different texts with the same hash can be
   * named, or a text that hashes to the genesis string.
   */
  lemma {:induction false} ChainPinsPayloads(sha: string -> string, a: seq<Row>, b: seq<Row>)
    returns (x: string, y: string)
    requires Chain(a) && Chain(b) && SelfHashed(sha, a) && SelfHashed(sha, b) && (forall s :: |sha(s)| == 64)
    requires LastHash(a) == LastHash(b)
    ensures SamePayloads(a, b) || Collision(sha, x, y) || sha(x) == GENESIS
    decreases |a|
  {
    x, y := "", "";
    if a == [] && b == [] {
    } else if a == [] {
      x := b[|b| - 1].previousHash + b[|b| - 1].payload;
    } else if b == [] {
      x := a[|a| - 1].previousHash + a[|a| - 1].payload;
    } else {
      var p, q, r, s := a[..|a| - 1], b[..|b| - 1], a[|a| - 1], b[|b| - 1];
      x, y := r.previousHash + r.payload, s.previousHash + s.payload;
      if x == y {
        LastHashSize(sha, p);
        LastHashSize(sha, q);
        SamePrefixes(r.previousHash, s.previousHash, r.payload, s.payload);
        x, y := ChainPinsPayloads(sha, p, q);
        if SamePayloads(p, q) {
          ExtendPayloads(a, b);
        }
      }
    }
  }

  lemma ExtendPayloads(a: seq<Row>, b: seq<Row>)
    requires a != [] && b != [] && SamePayloads(a[..|a| - 1], b[..|b| - 1])
    requires a[|a| - 1].payload == b[|b| - 1].payload
    ensures SamePayloads(a, b)
  {
    forall i | 0 <= i < |a| ensures a[i].payload == b[i].payload {
      if i < |a| - 1 {
        assert a[i] == a[..|a| - 1][i] && b[i] == b[..|b| - 1][i];
      }
    }
  }

  // ----- what the hash does not cover

  ghost predicate SameHashedPart(a: seq<Row>, b: seq<Row>) {
    |a| == |b| && forall i :: 0 <= i < |a| ==> a[i].(labels := b[i].labels) == b[i]
  }

  /** Rewriting request types, risk scores and statuses is invisible in the hashes and in the chain. */
  lemma {:induction false} LabelsAreNotProtected(sha: string -> string, a: seq<Row>, b: seq<Row>)
    requires SameHashedPart(a, b)
    ensures (SelfHashed(sha, a) <==> SelfHashed(sha, b)) && (Chain(a) <==> Chain(b))
  {
    if a != [] {
      var p, q := a[..|a| - 1], b[..|b| - 1];
      LabelsAreNotProtected(sha, p, q);
      assert LastHash(p) == LastHash(q) by {
        assert p != [] ==> p[|p| - 1] == a[|p| - 1] && q[|p| - 1] == b[|p| - 1];
      }
    }
  }

  // ----- calls that do not overlap

  /** Calls one after the other: each read is directly followed by its own insert. */
  ghost predicate Sequential(steps: seq<Step>)
    decreases |steps|
  {
    steps == [] ||
    (|steps| >= 2 && Sequential(steps[..|steps| - 2])
     && steps[|steps| - 2].ReadLast? && steps[|steps| - 1] == Insert(steps[|steps| - 2].caller))
  }

  lemma {:induction false} SequentialIsChain(sha: string -> string, steps: seq<Step>)
    requires Sequential(steps)
    ensures Chain(Run(sha, steps).rows)
    decreases |steps|
  {
    if steps != [] {
      var pre, mid, r, s := steps[..|steps| - 2], steps[..|steps| - 1], steps[|steps| - 2], steps[|steps| - 1];
      assert mid[..|mid| - 1] == pre && mid[|mid| - 1] == r;
      SequentialIsChain(sha, pre);
      StepKeepsChainIff(sha, Run(sha, pre), r);
      StepKeepsChainIff(sha, Run(sha, mid), s);
      SequentialReadIsFresh(sha, pre, r, s);
    }
  }

  /** In a non-overlapping run every earlier caller has returned, so the read is taken and still current. */
  lemma SequentialReadIsFresh(sha: string -> string, pre: seq<Step>, r: Step, s: Step)
    requires Sequential(pre) && r.ReadLast? && s == Insert(r.caller)
    ensures !Stale(sha, Next(sha, Run(sha, pre), r), s)
  {
    AllReturned(sha, pre);
  }

  lemma {:induction false} AllReturned(sha: string -> string, steps: seq<Step>)
    requires Sequential(steps)
    ensures forall c :: c in Run(sha, steps).calls ==> Run(sha, steps).calls[c].Returned?
    decreases |steps|
  {
    if steps != [] {
      var mid := steps[..|steps| - 1];
      assert mid[..|mid| - 1] == steps[..|steps| - 2] && mid[|mid| - 1] == steps[|steps| - 2];
      AllReturned(sha, steps[..|steps| - 2]);
      var u := Run(sha, steps[..|steps| - 2]);
      assert Run(sha, steps) == Next(sha, Next(sha, u, steps[|steps| - 2]), steps[|steps| - 1]);
    }
  }

  /** Two overlapping calls: different payloads fork the chain, equal ones leave the second event unrecorded. */
  lemma OverlapForksOrDrops(sha: string -> string, p: string, l: Labels, q: string, m: Labels)
    ensures var b := Next(sha, Next(sha, EMPTY, ReadLast(1, p, l)), ReadLast(2, q, m));
            var d := Next(sha, Next(sha, b, Insert(1)), Insert(2));
            var f, g := sha(GENESIS + p), sha(GENESIS + q);
            && (p == q ==> d.rows == [Row(f, GENESIS, p, l)] && d.calls == map[1 := Returned(f), 2 := Returned(f)])
            && (f != g && f != GENESIS ==>
                  d.rows == [Row(f, GENESIS, p, l), Row(g, GENESIS, q, m)] && !Chain(d.rows))
  {
    var a := Next(sha, EMPTY, ReadLast(1, p, l));
    var b := Next(sha, a, ReadLast(2, q, m));
    var c := Next(sha, b, Insert(1));
    var d := Next(sha, c, Insert(2));
    var r1, r2 := Row(sha(GENESIS + p), GENESIS, p, l), Row(sha(GENESIS + q), GENESIS, q, m);
    assert c.rows == [r1];
    assert c.rows[0].traceHash == sha(GENESIS + p);
    if sha(GENESIS + p) != sha(GENESIS + q) {
      assert d.rows == [r1, r2];
      assert [r1, r2][..1] == [r1];
    }
  }
}
