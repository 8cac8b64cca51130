/** The console's append-only audit log and its newest-first reader (src/pi_console/services.py). */
module AuditStore {
  import opened Basics
  import opened Splitting

  /** The fields of an audit record that the filters look at; timestamp is None when absent or unparsable. */
  datatype Entry = Entry(tenantId: string, sessionId: string, action: string, timestamp: Option<int>, details: string)

  datatype Filter = Filter(session: Option<string>, action: Option<string>, from: Option<int>, to: Option<int>)

  /** An empty string counts as "no filter"; records without a usable timestamp pass the time bounds. */
  predicate Matches(f: Filter, e: Entry) {
    && (f.session.Some? && f.session.value != "" ==> e.sessionId == f.session.value)
    && (f.action.Some? && f.action.value != "" ==> e.action == f.action.value)
    && (e.timestamp.Some? && f.from.Some? ==> e.timestamp.value >= f.from.value)
    && (e.timestamp.Some? && f.to.Some? ==> e.timestamp.value <= f.to.value)
  }

  const NEWLINE: Byte := 10

  predicate IsSpace(b: Byte) {
    9 <= b <= 13 || b == 32
  }

  /** The bytes without white space at either end. */
  function Strip(s: seq<Byte>): seq<Byte>
    decreases |s|
  {
    if s == [] then []
    else if IsSpace(s[0]) then Strip(s[1..])
    else if IsSpace(s[|s| - 1]) then Strip(s[..|s| - 1])
    else s
  }

  ghost predicate Blank(s: seq<Byte>) {
    forall i :: 0 <= i < |s| ==> s[i] in {9, 10, 11, 12, 13, 32}
  }

  /** Stripping removes a blank part from either end and leaves nothing blank there. */
  lemma {:induction false} StripMeans(s: seq<Byte>) returns (a: seq<Byte>, b: seq<Byte>)
    ensures s == a + Strip(s) + b && Blank(a) && Blank(b)
    ensures Strip(s) != [] ==> !IsSpace(Strip(s)[0]) && !IsSpace(Strip(s)[|Strip(s)| - 1])
    decreases |s|
  {
    a, b := [], [];
    if s == [] {
    } else if IsSpace(s[0]) {
      a, b := StripMeans(s[1..]);
      assert s == [s[0]] + (a + Strip(s) + b) == ([s[0]] + a) + Strip(s) + b;
      a := [s[0]] + a;
    } else if IsSpace(s[|s| - 1]) {
      a, b := StripMeans(s[..|s| - 1]);
      assert s == (a + Strip(s) + b) + [s[|s| - 1]] == a + Strip(s) + (b + [s[|s| - 1]]);
      b := b + [s[|s| - 1]];
    }
  }

  lemma {:induction false} StripPadded(a: seq<Byte>, x: seq<Byte>, b: seq<Byte>)
    requires Blank(a) && Blank(b) && (x != [] ==> !IsSpace(x[0]) && !IsSpace(x[|x| - 1]))
    ensures Strip(a + x + b) == x
    decreases |a| + |b|
  {
    var s := a + x + b;
    if a != [] {
      assert s[0] == a[0] && s[1..] == a[1..] + x + b;
      StripPadded(a[1..], x, b);
    } else if b != [] {
      if x == [] {
        assert s == b && s[1..] == b[1..] + x + [];
        StripPadded(b[1..], x, []);
      } else {
        assert s[0] == x[0] && s[|s| - 1] == b[|b| - 1] && s[..|s| - 1] == a + x + b[..|b| - 1];
        StripPadded(a, x, b[..|b| - 1]);
      }
    } else {
      assert s == x;
    }
  }

  /** Writing a record as a line and parsing a line; None stands for a line that does not parse. */
  datatype Codec = Codec(encode: Entry -> seq<Byte>, decode: seq<Byte> -> Option<Entry>) {
    /** RFC 8259: an object starts and ends with a brace, control characters are escaped, and it parses back. */
    ghost predicate Valid() {
      forall e :: GoodLine(e)
    }
    ghost predicate GoodLine(e: Entry) {
      var s := encode(e);
      |s| >= 1 && !IsSpace(s[0]) && !IsSpace(s[|s| - 1]) && NEWLINE !in s && decode(s) == Some(e)
    }
  }

  // ----- what reading a file newest-first means

  function Reverse<T>(s: seq<T>): (r: seq<T>)
    ensures |r| == |s| && forall i :: 0 <= i < |s| ==> r[i] == s[|s| - 1 - i]
  {
    if s == [] then [] else [s[|s| - 1]] + Reverse(s[..|s| - 1])
  }

  lemma ReverseConcat<T>(a: seq<T>, b: seq<T>)
    ensures Reverse(a + b) == Reverse(b) + Reverse(a)
  {
  }

  /** The records that one raw line yields: one or none. */
  function Yield(c: Codec, f: Filter, line: seq<Byte>): seq<Entry> {
    var raw := Strip(line);
    if raw == [] then [] else
      match c.decode(raw)
      case None => []
      case Some(e) => if Matches(f, e) then [e] else []
  }

  function Matching(c: Codec, f: Filter, lines: seq<seq<Byte>>): seq<Entry> {
    if lines == [] then [] else Yield(c, f, lines[0]) + Matching(c, f, lines[1..])
  }

  lemma ConcatAssoc(a: seq<Entry>, b: seq<Entry>, c: seq<Entry>)
    ensures a + (b + c) == a + b + c
  {
  }

  lemma {:induction false} MatchingConcat(c: Codec, f: Filter, a: seq<seq<Byte>>, b: seq<seq<Byte>>)
    ensures Matching(c, f, a + b) == Matching(c, f, a) + Matching(c, f, b)
  {
    if a == [] {
      assert a + b == b;
    } else {
      MatchingConcat(c, f, a[1..], b);
      assert (a + b)[1..] == a[1..] + b;
      ConcatAssoc(Yield(c, f, a[0]), Matching(c, f, a[1..]), Matching(c, f, b));
    }
  }

  /** Newest first: split the whole file into lines, reverse, keep what parses and matches. */
  function NewestFirst(c: Codec, f: Filter, file: seq<Byte>): seq<Entry> {
    Matching(c, f, Reverse(Split(file, NEWLINE)))
  }

  lemma EmptyFile(c: Codec, f: Filter)
    ensures NewestFirst(c, f, []) == []
  {
    var none: seq<Byte> := [];
    assert Split(none, NEWLINE) == [none] && Reverse([none]) == [none] && [none][1..] == [];
    assert Matching(c, f, [none]) == Yield(c, f, none) + Matching(c, f, []);
  }

  // ----- the backwards chunked reader

  lemma SplitPlain(s: seq<Byte>)
    requires NEWLINE !in s
    ensures Split(s, NEWLINE) == [s]
  {
    SplitInvertsJoin([s], NEWLINE);
  }

  /** Reading a chunk further back only affects the first line of what was read before. */
  lemma ChunkBack(chunk: seq<Byte>, after: seq<Byte>)
    ensures var l := Split(after, NEWLINE);
            Split(chunk + after, NEWLINE) == Split(chunk + l[0], NEWLINE) + l[1..]
  {
    var l := Split(after, NEWLINE);
    JoinInvertsSplit(after, NEWLINE);
    SplitConcat(chunk, after, NEWLINE);
    SplitConcat(chunk, l[0], NEWLINE);
    SplitPlain(l[0]);
    var x := Split(chunk, NEWLINE);
    FuseFirst(x, l);
  }

  lemma FuseFirst(x: seq<seq<Byte>>, l: seq<seq<Byte>>)
    requires |x| >= 1 && |l| >= 1
    ensures Fuse(x, l) == Fuse(x, [l[0]]) + l[1..]
  {
  }

  lemma MatchingFirst(c: Codec, f: Filter, lines: seq<seq<Byte>>)
    requires lines != []
    ensures Matching(c, f, lines) == Yield(c, f, lines[0]) + Matching(c, f, lines[1..])
  {
  }

  lemma AppendNothing(out: seq<Entry>, more: seq<Entry>)
    ensures more == [] ==> out + more == out
  {
  }

  method DrainTail(c: Codec, f: Filter, lines: seq<seq<Byte>>) returns (out: seq<Entry>)
    ensures out == Matching(c, f, lines)
  {
    out := [];
    var tail := lines;
    while tail != []
      invariant out + Matching(c, f, tail) == Matching(c, f, lines)
    {
      var raw := Strip(tail[0]);
      MatchingFirst(c, f, tail);
      ConcatAssoc(out, Yield(c, f, tail[0]), Matching(c, f, tail[1..]));
      AppendNothing(out, Yield(c, f, tail[0]));
      tail := tail[1..];
      if raw == [] {
        continue;
      }
      match c.decode(raw)
      case None => continue;
      case Some(e) =>
        if !Matches(f, e) {
          continue;
        }
        out := out + [e];
    }
  }

  /** State between chunks: file[position..] has been read; its first line is held back in buffer until BOF. */
  ghost predicate ReadFrom(c: Codec, f: Filter, file: seq<Byte>, position: nat, buffer: seq<Byte>, out: seq<Entry>) {
    position <= |file| &&
    var l := Split(file[position..], NEWLINE);
    if position > 0 then buffer == l[0] && out == Matching(c, f, Reverse(l[1..]))
    else out == Matching(c, f, Reverse(l))
  }

  lemma ReadChunk(c: Codec, f: Filter, file: seq<Byte>, position: nat, start: nat, buffer: seq<Byte>, out: seq<Entry>)
    requires ReadFrom(c, f, file, position, buffer, out) && start < position
    ensures var lines := Split(file[start..position] + buffer, NEWLINE);
            var tail := Reverse(if start > 0 then lines[1..] else lines);
            ReadFrom(c, f, file, start, if start > 0 then lines[0] else [], out + Matching(c, f, tail))
  {
    var l := Split(file[position..], NEWLINE);
    var lines := Split(file[start..position] + buffer, NEWLINE);
    assert file[start..] == file[start..position] + file[position..];
    ChunkBack(file[start..position], file[position..]);
    var all := Split(file[start..], NEWLINE);
    assert all == lines + l[1..];
    if start > 0 {
      assert all[1..] == lines[1..] + l[1..];
      ReverseConcat(lines[1..], l[1..]);
      MatchingConcat(c, f, Reverse(l[1..]), Reverse(lines[1..]));
    } else {
      ReverseConcat(lines, l[1..]);
      MatchingConcat(c, f, Reverse(l[1..]), Reverse(lines));
    }
  }

  /** For every chunk size the reader yields exactly the reversed, filtered lines. The source uses 64 KiB. */
  method IterMatching(c: Codec, f: Filter, file: seq<Byte>, chunkSize: nat) returns (out: seq<Entry>)
    requires chunkSize >= 1
    ensures out == NewestFirst(c, f, file)
  {
    out := [];
    if |file| == 0 {
      EmptyFile(c, f);
      return;
    }
    var buffer: seq<Byte>, position := [], |file|;
    assert file[position..] == [];
    while position > 0
      invariant ReadFrom(c, f, file, position, buffer, out)
    {
      var readSize := if chunkSize < position then chunkSize else position;
      var start := position - readSize;
      ReadChunk(c, f, file, position, start, buffer, out);
      var lines := Split(file[start..position] + buffer, NEWLINE);
      buffer := if start > 0 then lines[0] else [];
      var yielded := DrainTail(c, f, Reverse(if start > 0 then lines[1..] else lines));
      out := out + yielded;
      position := start;
    }
    assert file[0..] == file;
  }

  // ----- files written by append

  /** The file after appending es, one line each. */
  ghost function FileOf(c: Codec, es: seq<Entry>): seq<Byte> {
    if es == [] then [] else FileOf(c, es[..|es| - 1]) + (c.encode(es[|es| - 1]) + [NEWLINE])
  }

  ghost function Lines(c: Codec, es: seq<Entry>): seq<seq<Byte>> {
    seq(|es|, i requires 0 <= i < |es| => c.encode(es[i]))
  }

  lemma SplitLine(c: Codec, e: Entry)
    requires c.GoodLine(e)
    ensures Split(c.encode(e) + [NEWLINE], NEWLINE) == [c.encode(e), []]
  {
    SplitInvertsJoin([c.encode(e), []], NEWLINE);
    assert [c.encode(e), []][1..] == [[]];
    assert Join([c.encode(e), []], NEWLINE) == c.encode(e) + [NEWLINE];
  }

  lemma {:induction false} SplitFile(c: Codec, es: seq<Entry>)
    requires c.Valid()
    ensures Split(FileOf(c, es), NEWLINE) == Lines(c, es) + [[]]
  {
    if es != [] {
      var pre, last := es[..|es| - 1], es[|es| - 1];
      SplitFile(c, pre);
      SplitConcat(FileOf(c, pre), c.encode(last) + [NEWLINE], NEWLINE);
      assert c.GoodLine(last);
      SplitLine(c, last);
      assert [] + c.encode(last) == c.encode(last);
      assert (Lines(c, pre) + [[]])[..|es| - 1] == Lines(c, pre);
      assert Lines(c, es) == Lines(c, pre) + [c.encode(last)];
    }
  }

  /** The matching records of a list, in order. */
  function Selected(f: Filter, es: seq<Entry>): seq<Entry> {
    if es == [] then [] else (if Matches(f, es[0]) then [es[0]] else []) + Selected(f, es[1..])
  }

  /** Which records are selected, condition by condition; time bounds are inclusive. */
  lemma {:induction false} SelectedMembers(f: Filter, es: seq<Entry>, e: Entry)
    ensures e in Selected(f, es) <==>
      && e in es
      && (f.session == None || f.session == Some("") || f.session == Some(e.sessionId))
      && (f.action == None || f.action == Some("") || f.action == Some(e.action))
      && (f.from == None || e.timestamp == None || f.from.value <= e.timestamp.value)
      && (f.to == None || e.timestamp == None || e.timestamp.value <= f.to.value)
  {
    if es != [] {
      SelectedMembers(f, es[1..], e);
      assert es == [es[0]] + es[1..];
    }
  }

  /** Without filters everything is selected, in order. */
  lemma {:induction false} SelectedAll(f: Filter, es: seq<Entry>)
    requires f.session in {None, Some("")} && f.action in {None, Some("")} && f.from == None && f.to == None
    ensures Selected(f, es) == es
  {
    if es != [] {
      SelectedAll(f, es[1..]);
    }
  }

  lemma {:induction false} MatchingLines(c: Codec, f: Filter, es: seq<Entry>)
    requires c.Valid()
    ensures Matching(c, f, Lines(c, es)) == Selected(f, es)
  {
    if es != [] {
      assert c.GoodLine(es[0]);
      assert Lines(c, es)[1..] == Lines(c, es[1..]);
      MatchingLines(c, f, es[1..]);
    }
  }

  /** Reading back a log written by append gives its matching records, newest first. */
  lemma ReadBack(c: Codec, f: Filter, es: seq<Entry>)
    requires c.Valid()
    ensures NewestFirst(c, f, FileOf(c, es)) == Selected(f, Reverse(es))
  {
    var last: seq<seq<Byte>> := [[]];
    SplitFile(c, es);
    ReverseConcat(Lines(c, es), last);
    assert Reverse(last) == last;
    assert Reverse(Lines(c, es)) == Lines(c, Reverse(es));
    MatchingConcat(c, f, last, Lines(c, Reverse(es)));
    assert Matching(c, f, last) == [] by { assert last[1..] == []; }
    MatchingLines(c, f, Reverse(es));
  }

  /** A line holds a record when what is left after stripping is its encoding, whatever blanks surround it. */
  lemma PaddedLine(c: Codec, f: Filter, a: seq<Byte>, e: Entry, b: seq<Byte>)
    requires c.Valid() && Blank(a) && Blank(b)
    ensures Yield(c, f, a + c.encode(e) + b) == if Matches(f, e) then [e] else []
  {
    assert c.GoodLine(e);
    StripPadded(a, c.encode(e), b);
  }

  ghost predicate Junk(c: Codec, line: seq<Byte>) {
    NEWLINE !in line && (Blank(line) || c.decode(Strip(line)) == None)
  }

  lemma JunkYieldsNothing(c: Codec, f: Filter, line: seq<Byte>)
    requires Junk(c, line)
    ensures Yield(c, f, line) == []
  {
    if Blank(line) {
      StripPadded(line, [], []);
      assert line + [] + [] == line;
    }
  }

  /** A damaged or blank line between records is passed over; the records before and after it are unaffected. */
  lemma JunkIsSkipped(c: Codec, f: Filter, a: seq<Entry>, junk: seq<Byte>, b: seq<Entry>)
    requires c.Valid() && Junk(c, junk)
    ensures NewestFirst(c, f, FileOf(c, a) + ((junk + [NEWLINE]) + FileOf(c, b)))
      == Selected(f, Reverse(b)) + Selected(f, Reverse(a))
  {
    var rest := (junk + [NEWLINE]) + FileOf(c, b);
    var last: seq<seq<Byte>> := [[]];
    SplitFile(c, a);
    SplitFile(c, b);
    SplitJunk(junk);
    SplitConcat(junk + [NEWLINE], FileOf(c, b), NEWLINE);
    SplitConcat(FileOf(c, a), rest, NEWLINE);
    assert Split(rest, NEWLINE) == [junk] + (Lines(c, b) + last) by {
      FuseEmpty([junk], Lines(c, b) + last);
    }
    var tail := [junk] + (Lines(c, b) + last);
    assert Split(FileOf(c, a) + rest, NEWLINE) == Lines(c, a) + tail by {
      FuseEmpty(Lines(c, a), tail);
    }
    JunkReversed(c, f, Lines(c, a), junk, Lines(c, b) + last);
    ReversedLines(c, f, a);
    ReadBack(c, f, b);
  }

  lemma SplitJunk(junk: seq<Byte>)
    requires NEWLINE !in junk
    ensures Split(junk + [NEWLINE], NEWLINE) == [junk] + [[]]
  {
    SplitInvertsJoin([junk, []], NEWLINE);
    assert [junk, []][1..] == [[]];
    assert Join([junk, []], NEWLINE) == junk + [NEWLINE];
  }

  /** Fusing after a line that has just ended is concatenation. */
  lemma FuseEmpty(x: seq<seq<Byte>>, y: seq<seq<Byte>>)
    requires |y| >= 1
    ensures Fuse(x + [[]], y) == x + y
  {
    assert [] + y[0] == y[0];
    assert (x + [[]])[..|x|] == x;
  }

  lemma JunkReversed(c: Codec, f: Filter, x: seq<seq<Byte>>, junk: seq<Byte>, y: seq<seq<Byte>>)
    requires Junk(c, junk)
    ensures Matching(c, f, Reverse(x + ([junk] + y))) == Matching(c, f, Reverse(y)) + Matching(c, f, Reverse(x))
  {
    ReverseConcat(x, [junk] + y);
    ReverseConcat([junk], y);
    JunkYieldsNothing(c, f, junk);
    assert Reverse([junk]) == [junk] && [junk][1..] == [];
    assert Matching(c, f, [junk]) == [];
    MatchingConcat(c, f, Reverse(y), [junk]);
    MatchingConcat(c, f, Reverse(y) + [junk], Reverse(x));
    assert Matching(c, f, Reverse(y)) + [] == Matching(c, f, Reverse(y));
  }

  lemma ReversedLines(c: Codec, f: Filter, es: seq<Entry>)
    requires c.Valid()
    ensures Matching(c, f, Reverse(Lines(c, es))) == Selected(f, Reverse(es))
  {
    assert Reverse(Lines(c, es)) == Lines(c, Reverse(es));
    MatchingLines(c, f, Reverse(es));
  }

  // ----- the store

  predicate SafeChar(ch: char) {
    'A' <= ch <= 'Z' || 'a' <= ch <= 'z' || '0' <= ch <= '9' || ch == '_' || ch == '-'
  }

  predicate SafeText(t: string) {
    1 <= |t| <= 64 && forall i :: 0 <= i < |t| ==> SafeChar(t[i])
  }

  /** One to 64 letters, digits, underscores or dashes; the source's pattern also lets one final newline through. */
  predicate SafeTenantId(t: string) {
    SafeText(if t != [] && t[|t| - 1] == '\n' then t[..|t| - 1] else t)
  }

  /** Up to 64 safe characters pass, with or without one newline after them; nothing else does. */
  lemma TenantIds(t: string)
    ensures SafeTenantId(t) <==> SafeText(t) || (t != [] && t[|t| - 1] == '\n' && SafeText(t[..|t| - 1]))
    ensures SafeText(t) <==> 1 <= |t| <= 64 && forall ch :: ch in t ==> SafeChar(ch)
  {
    if t != [] && t[|t| - 1] == '\n' {
      assert !SafeText(t) by {
        assert !SafeChar(t[|t| - 1]);
      }
    }
    forall i | 0 <= i < |t| ensures t[i] in t {
    }
  }

  /** The safe characters are these 64. */
  lemma SafeChars(ch: char)
    ensures SafeChar(ch) <==> ch in "ABCDEFGHIJKLMNOPQRSTUVWXYZ" + "abcdefghijklmnopqrstuvwxyz" + "0123456789_-"
  {
  }

  function Least(a: int, b: int): int {
    if a < b then a else b
  }

  /** The page that query returns: a limit below 1 still lets one record through, a negative offset skips none. */
  function Page(xs: seq<Entry>, offset: int, limit: int): (r: seq<Entry>)
    ensures offset >= 0 && limit >= 1 ==> r == xs[Least(offset, |xs|)..Least(offset + limit, |xs|)]
    ensures offset < 0 && limit >= 1 ==> r == xs[..Least(limit, |xs|)]
  {
    var lo := if offset < 0 then 0 else if offset < |xs| then offset else |xs|;
    var n := if limit < 1 then 1 else limit;
    if lo + n <= |xs| then xs[lo..lo + n] else xs[lo..]
  }

  /** With limit 0 or less one match is returned although none was asked for, exactly when there is one. */
  lemma LimitBelowOne(xs: seq<Entry>, offset: int, limit: int)
    requires limit < 1
    ensures Page(xs, offset, limit) == Page(xs, offset, 1)
    ensures Page(xs, offset, limit) != [] <==> xs != [] && offset < |xs|
  {
  }

  /** The pages of a listing, one after the other. */
  function AllPages(xs: seq<Entry>, offset: nat, limit: nat): seq<Entry>
    requires limit >= 1
    decreases |xs| - offset
  {
    if offset >= |xs| then [] else Page(xs, offset, limit) + AllPages(xs, offset + limit, limit)
  }

  /** Consecutive pages of any size concatenate to the whole listing. */
  lemma {:induction false} PagesConcatenate(xs: seq<Entry>, offset: nat, limit: nat)
    requires limit >= 1
    ensures AllPages(xs, offset, limit) == xs[Least(offset, |xs|)..]
    decreases |xs| - offset
  {
    if offset < |xs| {
      PagesConcatenate(xs, offset + limit, limit);
    }
  }

  /** The consuming loop of query over the generated records. */
  method TakePage(xs: seq<Entry>, limit: int, offset: int) returns (results: seq<Entry>)
    ensures results == Page(xs, offset, limit)
  {
    results := [];
    var skipped := 0;
    ghost var lo := if offset < 0 then 0 else offset;
    for i := 0 to |xs|
      invariant skipped == if i < lo then i else lo
      invariant results == if i <= lo then [] else xs[lo..i]
      invariant |results| < limit || results == []
    {
      if skipped < offset {
        skipped := skipped + 1;
        continue;
      }
      assert i >= lo;
      results := results + [xs[i]];
      assert results == xs[lo..i + 1];
      if |results| >= limit {
        return;
      }
    }
  }

  class ConsoleAuditStore {
    const codec: Codec
    const chunkSize: nat
    /** File content per tenant id; a missing key is a missing file. */
    var files: map<string, seq<Byte>>
    /** Every record ever appended, per tenant, oldest first. */
    ghost var log: map<string, seq<Entry>>

    ghost predicate Valid()
      reads this
    {
      && chunkSize >= 1 && codec.Valid() && files.Keys == log.Keys
      && forall t :: t in files ==> files[t] == FileOf(codec, log[t])
    }

    constructor (codec: Codec, chunkSize: nat)
      requires codec.Valid() && chunkSize >= 1
      ensures Valid() && log == map[] && this.codec == codec
    {
      this.codec, this.chunkSize, files, log := codec, chunkSize, map[], map[];
    }

    ghost function Log(t: string): seq<Entry>
      reads this
    {
      if t in log then log[t] else []
    }

    method Append(e: Entry) returns (r: Outcome<()>)
      requires Valid()
      modifies this
      ensures Valid()
      ensures r.ValueError? <==> !SafeTenantId(e.tenantId)
      ensures r.ValueError? ==> files == old(files) && log == old(log)
      ensures r.Ok? ==> log == old(log)[e.tenantId := old(Log(e.tenantId)) + [e]]
    {
      var t := e.tenantId;
      if !SafeTenantId(t) {
        return ValueError;
      }
      ghost var es := Log(t) + [e];
      assert es[..|es| - 1] == Log(t);
      files := files[t := (if t in files then files[t] else []) + (codec.encode(e) + [NEWLINE])];
      log := log[t := es];
      r := Ok(());
    }

    method Matching(tenant: string, f: Filter) returns (r: Outcome<seq<Entry>>)
      requires Valid()
      ensures r.ValueError? <==> !SafeTenantId(tenant)
      ensures r.Ok? ==> r.value == Selected(f, Reverse(Log(tenant)))
    {
      if !SafeTenantId(tenant) {
        return ValueError;
      }
      if tenant !in files {
        return Ok([]);
      }
      var all := IterMatching(codec, f, files[tenant], chunkSize);
      ReadBack(codec, f, log[tenant]);
      r := Ok(all);
    }

    /** After any run of appends: the offset/limit page of the tenant's matching records, newest first. */
    method Query(tenant: string, f: Filter, limit: int, offset: int) returns (r: Outcome<seq<Entry>>)
      requires Valid()
      ensures r.ValueError? <==> !SafeTenantId(tenant)
      ensures r.Ok? && offset >= 0 && limit >= 1 ==>
        var all := Selected(f, Reverse(Log(tenant)));
        r.value == all[Least(offset, |all|)..Least(offset + limit, |all|)]
      ensures r.Ok? ==> r.value == Page(Selected(f, Reverse(Log(tenant))), offset, limit)
    {
      var all := Matching(tenant, f);
      if all.ValueError? {
        return ValueError;
      }
      var page := TakePage(all.value, limit, offset);
      r := Ok(page);
    }

    method Count(tenant: string, f: Filter) returns (r: Outcome<nat>)
      requires Valid()
      ensures r.ValueError? <==> !SafeTenantId(tenant)
      ensures r.Ok? ==> r.value == |Selected(f, Log(tenant))|
    {
      var all := Matching(tenant, f);
      if all.ValueError? {
        return ValueError;
      }
      SelectedReverse(f, Log(tenant));
      r := Ok(|all.value|);
    }
  }

  lemma {:induction false} SelectedConcat(f: Filter, a: seq<Entry>, b: seq<Entry>)
    ensures Selected(f, a + b) == Selected(f, a) + Selected(f, b)
  {
    if a == [] {
      assert a + b == b;
    } else {
      SelectedConcat(f, a[1..], b);
      assert (a + b)[1..] == a[1..] + b;
      ConcatAssoc(if Matches(f, a[0]) then [a[0]] else [], Selected(f, a[1..]), Selected(f, b));
    }
  }

  /** Filtering commutes with reversal, so the newest-first answer lists the same records. */
  lemma {:induction false} SelectedReverse(f: Filter, es: seq<Entry>)
    ensures Selected(f, Reverse(es)) == Reverse(Selected(f, es))
  {
    if es != [] {
      var pre, last := es[..|es| - 1], [es[|es| - 1]];
      assert es == pre + last;
      SelectedReverse(f, pre);
      SelectedConcat(f, pre, last);
      SelectedConcat(f, last, Reverse(pre));
      ReverseConcat(Selected(f, pre), Selected(f, last));
      assert Reverse(es) == last + Reverse(pre);
      assert last[1..] == [] && Reverse(Selected(f, last)) == Selected(f, last);
    }
  }
}
