/** The extension provenance ledger and its reload from disk (src/pi_extension_governor/provenance.py). */
module Provenance {
  import opened Hashing

  /** details stands for the remaining hashed fields; timestamp and duration are stored but not hashed. */
  datatype Receipt =
    Receipt(id: string, details: string, timestamp: int, durationMs: int, previousHash: string, hash: string)

  /** The object that is serialised and hashed for a receipt. */
  datatype Hashed = Hashed(id: string, details: string, previousHash: string)

  function Input(r: Receipt): Hashed {
    Hashed(r.id, r.details, r.previousHash)
  }

  function LastHash(rs: seq<Receipt>): string {
    if rs == [] then "" else rs[|rs| - 1].hash
  }

  function Linked(h: Hasher<Hashed>, rs: seq<Receipt>, r: Receipt): Receipt {
    var linked := r.(previousHash := LastHash(rs));
    linked.(hash := h.Of(Input(linked)))
  }

  // ----- the chain

  predicate InPlace(h: Hasher<Hashed>, r: Receipt, prev: string) {
    r.previousHash == prev && r.hash == h.Of(Input(r))
  }

  ghost predicate ChainOk(h: Hasher<Hashed>, rs: seq<Receipt>) {
    rs == [] ||
    var pre := rs[..|rs| - 1];
    ChainOk(h, pre) && InPlace(h, rs[|rs| - 1], LastHash(pre))
  }

  lemma AppendKeepsChain(h: Hasher<Hashed>, rs: seq<Receipt>, r: Receipt)
    requires ChainOk(h, rs)
    ensures ChainOk(h, rs + [Linked(h, rs, r)])
  {
    assert (rs + [Linked(h, rs, r)])[..|rs|] == rs;
  }

  lemma {:induction false} ChainAt(h: Hasher<Hashed>, rs: seq<Receipt>, i: nat)
    requires ChainOk(h, rs) && i < |rs|
    ensures InPlace(h, rs[i], LastHash(rs[..i]))
  {
    if i < |rs| - 1 {
      ChainAt(h, rs[..|rs| - 1], i);
      assert rs[..|rs| - 1][..i] == rs[..i];
    }
  }

  /** Each receipt points at its predecessor's hash, the first at nothing, and carries the hash of its fields. */
  ghost predicate FieldsOk(h: Hasher<Hashed>, rs: seq<Receipt>) {
    && (rs != [] ==> rs[0].previousHash == "")
    && (forall i, j :: 0 <= i && j == i + 1 < |rs| ==> rs[j].previousHash == rs[i].hash)
    && forall i :: 0 <= i < |rs| ==>
         rs[i].hash == h.sha(h.canonical(Hashed(rs[i].id, rs[i].details, rs[i].previousHash)))
  }

  /** What verify_chain checks, receipt by receipt and field by field. */
  lemma {:induction false} ChainMeans(h: Hasher<Hashed>, rs: seq<Receipt>)
    ensures ChainOk(h, rs) <==> FieldsOk(h, rs)
  {
    if rs != [] {
      ChainMeans(h, rs[..|rs| - 1]);
      FieldsSnoc(h, rs);
    }
  }

  lemma FieldsSnoc(h: Hasher<Hashed>, rs: seq<Receipt>)
    requires rs != []
    ensures FieldsOk(h, rs) <==> FieldsOk(h, rs[..|rs| - 1]) && InPlace(h, rs[|rs| - 1], LastHash(rs[..|rs| - 1]))
  {
    var n := |rs| - 1;
    var pre := rs[..n];
    assert forall i :: 0 <= i < n ==> pre[i] == rs[i];
  }

  /** Changing the id or the details of a receipt while keeping its hash breaks the chain, or exhibits a collision. */
  lemma EditIsDetected(h: Hasher<Hashed>, rs: seq<Receipt>, i: nat, edited: Receipt) returns (x: string, y: string)
    requires h.Valid() && ChainOk(h, rs) && i < |rs| && edited.hash == rs[i].hash
    requires edited.id != rs[i].id || edited.details != rs[i].details
    ensures !ChainOk(h, rs[i := edited]) || Collision(h.sha, x, y)
  {
    var before := Hashed(rs[i].id, rs[i].details, rs[i].previousHash);
    var after := Hashed(edited.id, edited.details, edited.previousHash);
    x, y := h.canonical(before), h.canonical(after);
    ChainMeans(h, rs);
    ChainMeans(h, rs[i := edited]);
    if ChainOk(h, rs[i := edited]) {
      assert rs[i := edited][i] == edited;
    }
  }

  ghost predicate SameHashedPart(a: seq<Receipt>, b: seq<Receipt>) {
    |a| == |b| && forall i :: 0 <= i < |a| ==>
      && a[i].id == b[i].id && a[i].details == b[i].details
      && a[i].previousHash == b[i].previousHash && a[i].hash == b[i].hash
  }

  /** Rewriting timestamps and durations is invisible to verify_chain. */
  lemma {:induction false} MetadataIsNotProtected(h: Hasher<Hashed>, a: seq<Receipt>, b: seq<Receipt>)
    requires SameHashedPart(a, b)
    ensures ChainOk(h, a) <==> ChainOk(h, b)
  {
    if a != [] {
      var p, q := a[..|a| - 1], b[..|b| - 1];
      MetadataIsNotProtected(h, p, q);
      assert LastHash(p) == LastHash(q) by {
        assert p != [] ==> p[|p| - 1] == a[|p| - 1] && q[|p| - 1] == b[|p| - 1];
      }
    }
  }

  /** Everything else is: verifying chains with the same last hash agree on all hashed parts, or exhibit a collision. */
  lemma {:induction false} TamperEvidence(h: Hasher<Hashed>, a: seq<Receipt>, b: seq<Receipt>)
    returns (x: string, y: string)
    requires h.Valid() && ChainOk(h, a) && ChainOk(h, b) && LastHash(a) == LastHash(b)
    ensures SameHashedPart(a, b) || Collision(h.sha, x, y)
    decreases |a|
  {
    x, y := "", "";
    if a == [] || b == [] {
      LastHashSize(h, a);
      LastHashSize(h, b);
    } else {
      var p, q, r, s := a[..|a| - 1], b[..|b| - 1], a[|a| - 1], b[|b| - 1];
      if h.canonical(Input(r)) == h.canonical(Input(s)) {
        assert Input(r) == Input(s);
        x, y := TamperEvidence(h, p, q);
        if SameHashedPart(p, q) {
          ExtendSame(a, b);
        }
      } else {
        x, y := h.canonical(Input(r)), h.canonical(Input(s));
      }
    }
  }

  lemma ExtendSame(a: seq<Receipt>, b: seq<Receipt>)
    requires a != [] && b != [] && SameHashedPart(a[..|a| - 1], b[..|b| - 1])
    requires Input(a[|a| - 1]) == Input(b[|b| - 1]) && a[|a| - 1].hash == b[|b| - 1].hash
    ensures SameHashedPart(a, b)
  {
    forall i | 0 <= i < |a|
      ensures a[i].id == b[i].id && a[i].details == b[i].details
      ensures a[i].previousHash == b[i].previousHash && a[i].hash == b[i].hash {
      if i < |a| - 1 {
        assert a[i] == a[..|a| - 1][i] && b[i] == b[..|b| - 1][i];
      }
    }
  }

  lemma LastHashSize(h: Hasher<Hashed>, rs: seq<Receipt>)
    requires h.Valid() && ChainOk(h, rs)
    ensures |LastHash(rs)| == if rs == [] then 0 else 64
  {
  }

  // ----- file names and their order

  function FileName(r: Receipt): string {
    r.id + ".json"
  }

  predicate Less(a: string, b: string) {
    b != [] && (a == [] || a[0] < b[0] || (a[0] == b[0] && Less(a[1..], b[1..])))
  }

  /** Less is the lexicographic order: the first difference decides, a proper prefix comes first. */
  lemma {:induction false} LessMeans(a: string, b: string, k: nat)
    requires k <= |a| && k <= |b| && a[..k] == b[..k]
    ensures k == |a| < |b| ==> Less(a, b)
    ensures k < |a| && k < |b| && a[k] < b[k] ==> Less(a, b) && !Less(b, a)
  {
    if k > 0 {
      assert a[0] == a[..k][0] == b[..k][0] == b[0];
      assert a[1..][..k - 1] == a[..k][1..] == b[..k][1..] == b[1..][..k - 1];
      LessMeans(a[1..], b[1..], k - 1);
    }
  }

  lemma {:induction false} LessTotal(a: string, b: string)
    ensures a == b || Less(a, b) || Less(b, a)
    ensures !(Less(a, b) && Less(b, a)) && !Less(a, a)
  {
    if a != [] && b != [] {
      LessTotal(a[1..], b[1..]);
      assert a == [a[0]] + a[1..] && b == [b[0]] + b[1..];
    }
    if a != [] {
      LessIrreflexive(a);
    }
  }

  lemma {:induction false} LessIrreflexive(a: string)
    ensures !Less(a, a)
  {
    if a != [] {
      LessIrreflexive(a[1..]);
    }
  }

  lemma {:induction false} LessTransitive(a: string, b: string, c: string)
    requires Less(a, b) && Less(b, c)
    ensures Less(a, c)
  {
    if a != [] && a[0] == b[0] && b[0] == c[0] {
      LessTransitive(a[1..], b[1..], c[1..]);
    }
  }

  lemma {:induction false} LeastExists(names: set<string>) returns (n: string)
    requires names != {}
    ensures n in names && forall m :: m in names && m != n ==> Less(n, m)
  {
    n :| n in names;
    if names != {n} {
      var rest := names - {n};
      var k := LeastExists(rest);
      LessTotal(n, k);
      if Less(k, n) {
        n := k;
      } else {
        forall m | m in names && m != n ensures Less(n, m) {
          if m != k {
            LessTransitive(n, k, m);
          }
        }
      }
    }
  }

  // ----- the order of a reloaded list: by timestamp, equal timestamps by file name

  predicate Before(a: Receipt, b: Receipt) {
    a.timestamp < b.timestamp || (a.timestamp == b.timestamp && Less(FileName(a), FileName(b)))
  }

  ghost predicate Ordered(rs: seq<Receipt>) {
    forall i, j :: 0 <= i < j < |rs| ==> Before(rs[i], rs[j])
  }

  lemma BeforeIrreflexive(a: Receipt)
    ensures !Before(a, a)
  {
    LessIrreflexive(FileName(a));
  }

  lemma BeforeAsymmetric(a: Receipt, b: Receipt)
    requires Before(a, b)
    ensures !Before(b, a)
  {
    LessTotal(FileName(a), FileName(b));
  }

  ghost predicate SameElements(a: seq<Receipt>, b: seq<Receipt>) {
    forall x :: x in a <==> x in b
  }

  lemma HasMember(b: seq<Receipt>)
    ensures b != [] ==> exists x :: x in b
  {
    if b != [] {
      assert b[0] in b;
    }
  }

  /** Ordered lists with the same elements are equal. */
  lemma {:induction false} OrderedUnique(a: seq<Receipt>, b: seq<Receipt>)
    requires Ordered(a) && Ordered(b) && SameElements(a, b)
    ensures a == b
    decreases |a|
  {
    if a == [] {
      HasMember(b);
    } else {
      assert a[0] in a && b != [];
      FirstIsFirst(a, b);
      forall x ensures x in a[1..] <==> x in b[1..] {
        TailElements(a, x);
        TailElements(b, x);
      }
      OrderedUnique(a[1..], b[1..]);
      assert a == [a[0]] + a[1..] && b == [b[0]] + b[1..];
    }
  }

  lemma FirstIsFirst(a: seq<Receipt>, b: seq<Receipt>)
    requires Ordered(a) && Ordered(b) && SameElements(a, b) && a != [] && b != []
    ensures a[0] == b[0]
  {
    assert a[0] in b && b[0] in a;
    var i :| 0 <= i < |b| && b[i] == a[0];
    var j :| 0 <= j < |a| && a[j] == b[0];
    if i > 0 && j > 0 {
      BeforeAsymmetric(a[0], b[0]);
    }
  }

  lemma TailElements(a: seq<Receipt>, x: Receipt)
    requires Ordered(a) && a != []
    ensures x in a[1..] <==> x in a && x != a[0]
  {
    BeforeIrreflexive(a[0]);
    assert a == [a[0]] + a[1..];
    forall i | 1 <= i < |a| ensures a[i] != a[0] {
      assert Before(a[0], a[i]);
    }
  }

  // ----- the directory

  type Directory = map<string, Receipt>

  /** The files after writing each receipt to <id>.json in turn; a repeated id overwrites. */
  function FilesOf(rs: seq<Receipt>): Directory {
    if rs == [] then map[] else FilesOf(rs[..|rs| - 1])[FileName(rs[|rs| - 1]) := rs[|rs| - 1]]
  }

  ghost predicate Named(files: Directory) {
    forall n :: n in files ==> FileName(files[n]) == n
  }

  lemma {:induction false} FilesAreNamed(rs: seq<Receipt>)
    ensures Named(FilesOf(rs))
    ensures forall n :: n in FilesOf(rs) ==> FilesOf(rs)[n] in rs
  {
    if rs != [] {
      FilesAreNamed(rs[..|rs| - 1]);
      assert rs == rs[..|rs| - 1] + [rs[|rs| - 1]];
    }
  }

  ghost predicate DistinctIds(rs: seq<Receipt>) {
    forall i, j :: 0 <= i < j < |rs| ==> rs[i].id != rs[j].id
  }

  lemma DistinctIdsIff(rs: seq<Receipt>)
    ensures DistinctIds(rs) <==> DistinctNames(rs)
  {
    forall i, j | 0 <= i < j < |rs| ensures rs[i].id == rs[j].id <==> FileName(rs[i]) == FileName(rs[j]) {
      var n, m := FileName(rs[i]), FileName(rs[j]);
      assert n[..|n| - 5] == rs[i].id && m[..|m| - 5] == rs[j].id;
    }
  }

  /** The directory holds, under each id used, the last receipt written with it. */
  lemma {:induction false} LastWriteStays(rs: seq<Receipt>, i: nat)
    requires i < |rs| && forall j :: i < j < |rs| ==> rs[j].id != rs[i].id
    ensures rs[i].id + ".json" in FilesOf(rs) && FilesOf(rs)[rs[i].id + ".json"] == rs[i]
  {
    if i < |rs| - 1 {
      var pre, last := rs[..|rs| - 1], rs[|rs| - 1];
      LastWriteStays(pre, i);
      assert pre[i] == rs[i] && (last.id + ".json")[..|last.id|] == last.id;
      assert (rs[i].id + ".json")[..|rs[i].id|] == rs[i].id;
    }
  }

  ghost predicate DistinctNames(rs: seq<Receipt>) {
    forall i, j :: 0 <= i < j < |rs| ==> FileName(rs[i]) != FileName(rs[j])
  }

  lemma {:induction false} DistinctAllStored(rs: seq<Receipt>, i: nat)
    requires DistinctNames(rs) && i < |rs|
    ensures FileName(rs[i]) in FilesOf(rs) && FilesOf(rs)[FileName(rs[i])] == rs[i]
  {
    if i < |rs| - 1 {
      DistinctAllStored(rs[..|rs| - 1], i);
    }
  }

  /** What load_all yields: every stored receipt once, in order. */
  ghost predicate IsLoaded(files: Directory, rs: seq<Receipt>) {
    Ordered(rs) && forall x :: x in rs <==> FileName(x) in files && files[FileName(x)] == x
  }

  /**
   * Reloading a directory written by appends gives back the list in memory exactly when no id was used twice and the
   * list is already ordered by timestamp, ties by file name.
   */
  lemma ReloadIff(rs: seq<Receipt>, loaded: seq<Receipt>)
    requires IsLoaded(FilesOf(rs), loaded)
    ensures loaded == rs <==> DistinctIds(rs) && Ordered(rs)
  {
    DistinctIdsIff(rs);
    if loaded == rs {
      forall i, j | 0 <= i < j < |rs| ensures FileName(rs[i]) != FileName(rs[j]) {
        assert rs[i] in loaded && rs[j] in loaded;
        if FileName(rs[i]) == FileName(rs[j]) {
          BeforeIrreflexive(rs[i]);
        }
      }
    }
    if DistinctNames(rs) && Ordered(rs) {
      FilesAreNamed(rs);
      forall x ensures x in rs <==> x in loaded {
        if x in rs {
          var i :| 0 <= i < |rs| && rs[i] == x;
          DistinctAllStored(rs, i);
        }
      }
      OrderedUnique(rs, loaded);
    }
  }

  // ----- reading the directory

  /** The file names in ascending order. */
  method SortNames(names: set<string>) returns (order: seq<string>)
    ensures forall n :: n in order <==> n in names
    ensures forall i, j :: 0 <= i < j < |order| ==> Less(order[i], order[j])
  {
    order := [];
    var todo := names;
    while todo != {}
      invariant todo <= names && forall n :: n in order <==> n in names - todo
      invariant forall i, j :: 0 <= i < j < |order| ==> Less(order[i], order[j])
      invariant forall i, m :: 0 <= i < |order| && m in todo ==> Less(order[i], m)
    {
      ghost var least := LeastExists(todo);
      var n :| n in todo && forall m :: m in todo && m != n ==> Less(n, m);
      order, todo := order + [n], todo - {n};
    }
  }

  /** Stable insertion by timestamp: behind everything that is not later. */
  function InsertByTime(rs: seq<Receipt>, r: Receipt): (s: seq<Receipt>)
    ensures forall x :: x in s <==> x in rs || x == r
  {
    if rs == [] || rs[|rs| - 1].timestamp <= r.timestamp then rs + [r]
    else
      assert rs == rs[..|rs| - 1] + [rs[|rs| - 1]];
      InsertByTime(rs[..|rs| - 1], r) + [rs[|rs| - 1]]
  }

  lemma {:induction false} InsertOrdered(rs: seq<Receipt>, r: Receipt)
    requires Ordered(rs) && forall i :: 0 <= i < |rs| ==> Less(FileName(rs[i]), FileName(r))
    ensures Ordered(InsertByTime(rs, r))
  {
    if rs == [] || rs[|rs| - 1].timestamp <= r.timestamp {
      forall i | 0 <= i < |rs| ensures Before(rs[i], r) {
        assert i < |rs| - 1 ==> Before(rs[i], rs[|rs| - 1]);
      }
    } else {
      var pre, last := rs[..|rs| - 1], rs[|rs| - 1];
      InsertOrdered(pre, r);
      var s := InsertByTime(pre, r);
      forall i | 0 <= i < |s| ensures Before(s[i], last) {
        assert s[i] in s;
        if s[i] != r {
          var k :| 0 <= k < |pre| && pre[k] == s[i];
          assert Before(rs[k], rs[|rs| - 1]);
        }
      }
    }
  }

  method ReadDirectory(files: Directory) returns (rs: seq<Receipt>)
    requires Named(files)
    ensures IsLoaded(files, rs)
  {
    var order := SortNames(files.Keys);
    rs := [];
    for i := 0 to |order|
      invariant Ordered(rs)
      invariant forall x :: x in rs <==> exists k :: 0 <= k < i && files[order[k]] == x
    {
      forall k | 0 <= k < |rs| ensures Less(FileName(rs[k]), FileName(files[order[i]])) {
        assert rs[k] in rs;
      }
      InsertOrdered(rs, files[order[i]]);
      rs := InsertByTime(rs, files[order[i]]);
    }
    forall x ensures x in rs <==> FileName(x) in files && files[FileName(x)] == x {
      if FileName(x) in files && files[FileName(x)] == x {
        assert FileName(x) in order;
      }
    }
  }

  // ----- the ledger

  class ProvenanceLedger {
    const hasher: Hasher<Hashed>
    var receipts: seq<Receipt>
    var files: Directory
    /** Every receipt appended so far, as linked. */
    ghost var appended: seq<Receipt>

    /** The directory started empty and is only written by append_receipt. */
    ghost predicate Valid()
      reads this
    {
      files == FilesOf(appended)
    }

    constructor (hasher: Hasher<Hashed>)
      ensures Valid() && receipts == appended == [] && this.hasher == hasher
    {
      this.hasher, receipts, files, appended := hasher, [], map[], [];
    }

    method AppendReceipt(receipt: Receipt) returns (r: Receipt)
      requires Valid()
      modifies this
      ensures Valid() && r == Linked(hasher, old(receipts), receipt)
      ensures receipts == old(receipts) + [r] && appended == old(appended) + [r]
      ensures r == receipt.(previousHash := r.previousHash, hash := r.hash)
      ensures old(ChainOk(hasher, receipts)) ==> ChainOk(hasher, receipts)
    {
      var prevHash := if |receipts| > 0 then receipts[|receipts| - 1].hash else "";
      r := receipt.(previousHash := prevHash);
      r := r.(hash := hasher.Of(Input(r)));
      if ChainOk(hasher, receipts) {
        AppendKeepsChain(hasher, receipts, receipt);
      }
      receipts := receipts + [r];
      files := files[FileName(r) := r];
      appended := appended + [r];
      assert appended[..|appended| - 1] == old(appended);
    }

    method VerifyChain() returns (ok: bool)
      ensures ok <==> ChainOk(hasher, receipts)
    {
      for i := 0 to |receipts|
        invariant ChainOk(hasher, receipts[..i])
      {
        var expectedPrev := if i > 0 then receipts[i - 1].hash else "";
        assert receipts[..i + 1][..i] == receipts[..i];
        assert expectedPrev == LastHash(receipts[..i]);
        if receipts[i].previousHash != expectedPrev || receipts[i].hash != hasher.Of(Input(receipts[i])) {
          if ChainOk(hasher, receipts) {
            ChainAt(hasher, receipts, i);
          }
          return false;
        }
      }
      assert receipts[..|receipts|] == receipts;
      ok := true;
    }

    /** Reloading gives back everything appended exactly under the condition of ReloadIff. */
    method LoadAll()
      requires Valid()
      modifies this
      ensures Valid() && files == old(files) && appended == old(appended) && IsLoaded(files, receipts)
      ensures receipts == appended <==> DistinctIds(appended) && Ordered(appended)
    {
      FilesAreNamed(appended);
      var loaded := ReadDirectory(files);
      ReloadIff(appended, loaded);
      receipts := loaded;
    }
  }

  // ----- whole runs

  /** The list in memory after appending the inputs to an empty ledger. */
  function AppendRun(h: Hasher<Hashed>, inputs: seq<Receipt>): (rs: seq<Receipt>)
    ensures |rs| == |inputs|
    ensures forall i :: 0 <= i < |rs| ==>
      rs[i] == inputs[i].(previousHash := rs[i].previousHash, hash := rs[i].hash)
  {
    if inputs == [] then [] else
      var pre := AppendRun(h, inputs[..|inputs| - 1]);
      pre + [Linked(h, pre, inputs[|inputs| - 1])]
  }

  lemma {:induction false} RunVerifies(h: Hasher<Hashed>, inputs: seq<Receipt>)
    ensures ChainOk(h, AppendRun(h, inputs))
  {
    if inputs != [] {
      RunVerifies(h, inputs[..|inputs| - 1]);
      AppendKeepsChain(h, AppendRun(h, inputs[..|inputs| - 1]), inputs[|inputs| - 1]);
    }
  }

  /**
   * After any run of appends the chain verifies, and a reload rebuilds it exactly when the inputs have distinct ids and
   * come in order of timestamp, ties by file name; strictly increasing timestamps with distinct ids qualify.
   */
  lemma RunReloadsIff(h: Hasher<Hashed>, inputs: seq<Receipt>, loaded: seq<Receipt>)
    requires IsLoaded(FilesOf(AppendRun(h, inputs)), loaded)
    ensures loaded == AppendRun(h, inputs) <==> DistinctIds(inputs) && Ordered(inputs)
    ensures DistinctIds(inputs) && Ordered(inputs) ==> ChainOk(h, loaded)
  {
    var rs := AppendRun(h, inputs);
    RunVerifies(h, inputs);
    ReloadIff(rs, loaded);
    SameOrder(rs, inputs);
    SameOrder(inputs, rs);
  }

  /** Distinct ids and strictly increasing timestamps are enough. */
  lemma IncreasingReloads(h: Hasher<Hashed>, inputs: seq<Receipt>, loaded: seq<Receipt>)
    requires IsLoaded(FilesOf(AppendRun(h, inputs)), loaded)
    requires forall i, j :: 0 <= i < j < |inputs| ==>
      inputs[i].id != inputs[j].id && inputs[i].timestamp < inputs[j].timestamp
    ensures loaded == AppendRun(h, inputs) && ChainOk(h, loaded)
  {
    RunReloadsIff(h, inputs, loaded);
  }

  /** A reloaded list is ordered by timestamp; receipts of the same time stand in the order of their file names. */
  lemma LoadedOrder(files: Directory, loaded: seq<Receipt>, i: nat, j: nat)
    requires IsLoaded(files, loaded) && i < j < |loaded|
    ensures loaded[i].timestamp <= loaded[j].timestamp
    ensures loaded[i].timestamp == loaded[j].timestamp ==> Less(loaded[i].id + ".json", loaded[j].id + ".json")
  {
    assert Before(loaded[i], loaded[j]);
  }

  lemma SameOrder(a: seq<Receipt>, b: seq<Receipt>)
    requires |a| == |b| && forall i :: 0 <= i < |a| ==> a[i].id == b[i].id && a[i].timestamp == b[i].timestamp
    ensures DistinctIds(a) ==> DistinctIds(b)
    ensures Ordered(a) ==> Ordered(b)
  {
    assert forall i :: 0 <= i < |a| ==> FileName(a[i]) == FileName(b[i]);
    if Ordered(a) {
      forall i, j | 0 <= i < j < |b| ensures Before(b[i], b[j]) {
        assert Before(a[i], a[j]);
      }
    }
  }

  lemma LastIsStored(rs: seq<Receipt>)
    requires rs != []
    ensures FileName(rs[|rs| - 1]) in FilesOf(rs) && FilesOf(rs)[FileName(rs[|rs| - 1])] == rs[|rs| - 1]
  {
  }

  lemma LoadedDistinct(files: Directory, loaded: seq<Receipt>)
    requires IsLoaded(files, loaded)
    ensures DistinctNames(loaded)
  {
    forall i, j | 0 <= i < j < |loaded| ensures FileName(loaded[i]) != FileName(loaded[j]) {
      assert loaded[i] in loaded && loaded[j] in loaded;
      if FileName(loaded[i]) == FileName(loaded[j]) {
        BeforeIrreflexive(loaded[i]);
      }
    }
  }

  /** A verifying reload that ends in a receipt of the run repeats the ids of the run up to it, or a hash collides. */
  lemma LoadedFollowsRun(h: Hasher<Hashed>, rs: seq<Receipt>, loaded: seq<Receipt>)
    returns (m: nat, x: string, y: string)
    requires h.Valid() && ChainOk(h, rs) && ChainOk(h, loaded) && IsLoaded(FilesOf(rs), loaded) && loaded != []
    ensures m < |rs| && (SameHashedPart(loaded, rs[..m + 1]) || Collision(h.sha, x, y))
  {
    var last := loaded[|loaded| - 1];
    assert last in loaded;
    FilesAreNamed(rs);
    m :| m < |rs| && rs[m] == last;
    ChainPrefix(h, rs, m + 1);
    x, y := TamperEvidence(h, loaded, rs[..m + 1]);
  }

  lemma {:induction false} ChainPrefix(h: Hasher<Hashed>, rs: seq<Receipt>, n: nat)
    requires ChainOk(h, rs) && n <= |rs|
    ensures ChainOk(h, rs[..n])
  {
    if n < |rs| {
      ChainPrefix(h, rs[..|rs| - 1], n);
      assert rs[..|rs| - 1][..n] == rs[..n];
    } else {
      assert rs[..n] == rs;
    }
  }

  /** If the reload stops short of the run's last receipt, that receipt repeats an earlier hash, so a text collides. */
  lemma StopsShort(h: Hasher<Hashed>, rs: seq<Receipt>, loaded: seq<Receipt>, m: nat) returns (x: string, y: string)
    requires h.Valid() && ChainOk(h, rs) && IsLoaded(FilesOf(rs), loaded)
    requires m + 1 < |rs| && SameHashedPart(loaded, rs[..m + 1])
    ensures Collision(h.sha, x, y)
  {
    LastIsStored(rs);
    var last := rs[|rs| - 1];
    assert last in loaded;
    var k :| 0 <= k < |loaded| && loaded[k] == last;
    assert rs[..m + 1][k] == rs[k] && rs[..k + 1][k] == rs[k];
    ChainPrefix(h, rs, k + 1);
    x, y := TamperEvidence(h, rs, rs[..k + 1]);
  }

  /** If it reaches the last receipt, nothing was overwritten or moved. */
  lemma ReachesEnd(rs: seq<Receipt>, loaded: seq<Receipt>)
    requires IsLoaded(FilesOf(rs), loaded) && SameHashedPart(loaded, rs)
    ensures loaded == rs
  {
    LoadedDistinct(FilesOf(rs), loaded);
    assert forall i :: 0 <= i < |rs| ==> FileName(rs[i]) == FileName(loaded[i]);
    assert DistinctNames(rs);
    forall i | 0 <= i < |rs| ensures loaded[i] == rs[i] {
      DistinctAllStored(rs, i);
      assert loaded[i] in loaded;
    }
  }

  /** A reloaded run verifies exactly when it is the run again, or two different texts with the same hash are named. */
  lemma ReloadVerifiesIff(h: Hasher<Hashed>, inputs: seq<Receipt>, loaded: seq<Receipt>) returns (x: string, y: string)
    requires h.Valid() && IsLoaded(FilesOf(AppendRun(h, inputs)), loaded)
    ensures Collision(h.sha, x, y) || (ChainOk(h, loaded) <==> DistinctIds(inputs) && Ordered(inputs))
  {
    x, y := "", "";
    var rs := AppendRun(h, inputs);
    RunReloadsIff(h, inputs, loaded);
    RunVerifies(h, inputs);
    if ChainOk(h, loaded) {
      if loaded == [] {
        if rs != [] {
          LastIsStored(rs);
        }
      } else {
        var m;
        m, x, y := LoadedFollowsRun(h, rs, loaded);
        if !Collision(h.sha, x, y) {
          if m + 1 < |rs| {
            x, y := StopsShort(h, rs, loaded, m);
          } else {
            assert rs[..m + 1] == rs;
            ReachesEnd(rs, loaded);
          }
        }
      }
    }
  }
}
