/** str.split / bytes.split on a one-element separator. */
module Splitting {

  function Split<T(==)>(s: seq<T>, sep: T): (parts: seq<seq<T>>)
    ensures |parts| >= 1
  {
    if s == [] then [[]]
    else if s[0] == sep then [[]] + Split(s[1..], sep)
    else var rest := Split(s[1..], sep); [[s[0]] + rest[0]] + rest[1..]
  }

  function Join<T>(parts: seq<seq<T>>, sep: T): seq<T>
    requires |parts| >= 1
  {
    if |parts| == 1 then parts[0] else parts[0] + [sep] + Join(parts[1..], sep)
  }

  /** Split is the inverse of joining parts that do not contain the separator. */
  lemma {:induction false} SplitInvertsJoin<T>(parts: seq<seq<T>>, sep: T)
    requires |parts| >= 1 && forall k :: 0 <= k < |parts| ==> sep !in parts[k]
    ensures Split(Join(parts, sep), sep) == parts
    decreases |parts|, |parts[0]|
  {
    if parts[0] != [] {
      var shorter := [parts[0][1..]] + parts[1..];
      assert shorter[1..] == parts[1..];
      SplitInvertsJoin(shorter, sep);
      assert Join(parts, sep) == [parts[0][0]] + Join(shorter, sep);
      assert [parts[0][0]] + parts[0][1..] == parts[0];
    } else if |parts| > 1 {
      SplitInvertsJoin(parts[1..], sep);
      assert Join(parts, sep) == [sep] + Join(parts[1..], sep);
    }
  }

  lemma {:induction false} JoinInvertsSplit<T>(s: seq<T>, sep: T)
    ensures Join(Split(s, sep), sep) == s
    ensures forall k :: 0 <= k < |Split(s, sep)| ==> sep !in Split(s, sep)[k]
  {
    if s != [] {
      var rest := Split(s[1..], sep);
      JoinInvertsSplit(s[1..], sep);
      if s[0] == sep {
        assert ([[]] + rest)[1..] == rest;
      } else if |rest| > 1 {
        assert ([[s[0]] + rest[0]] + rest[1..])[1..] == rest[1..];
      }
    }
  }

  /** Concatenation of part lists whose border parts belong together. */
  function Fuse<T>(x: seq<seq<T>>, y: seq<seq<T>>): (m: seq<seq<T>>)
    requires |x| >= 1 && |y| >= 1
    ensures |m| == |x| + |y| - 1
  {
    x[..|x| - 1] + [x[|x| - 1] + y[0]] + y[1..]
  }

  lemma FuseCons<T>(h: seq<T>, x: seq<seq<T>>, y: seq<seq<T>>)
    requires |x| >= 1 && |y| >= 1
    ensures Fuse([h] + x, y) == [h] + Fuse(x, y)
  {
    assert ([h] + x)[..|x|] == [h] + x[..|x| - 1];
  }

  lemma FuseGrow<T>(c: T, x: seq<seq<T>>, y: seq<seq<T>>)
    requires |x| >= 1 && |y| >= 1
    ensures Fuse([[c] + x[0]] + x[1..], y) == [[c] + Fuse(x, y)[0]] + Fuse(x, y)[1..]
  {
    if |x| == 1 {
      assert [c] + (x[0] + y[0]) == [c] + x[0] + y[0];
    } else {
      assert x == [x[0]] + x[1..];
      FuseCons(x[0], x[1..], y);
      FuseCons([c] + x[0], x[1..], y);
    }
  }

  /** Splitting a concatenation: the last part of the left fuses with the first part of the right. */
  lemma {:induction false} SplitConcat<T>(a: seq<T>, b: seq<T>, sep: T)
    ensures Split(a + b, sep) == Fuse(Split(a, sep), Split(b, sep))
  {
    var y := Split(b, sep);
    if a == [] {
      assert a + b == b;
      assert [] + y[0] == y[0];
    } else {
      SplitConcat(a[1..], b, sep);
      assert (a + b)[1..] == a[1..] + b;
      FuseCons([], Split(a[1..], sep), y);
      FuseGrow(a[0], Split(a[1..], sep), y);
    }
  }
}
