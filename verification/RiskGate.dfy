/** Risk scores and the forward / review / block bands of the interceptor (src/pi_agent_interceptor/proxy.py). */
module RiskGate {

  // ----- sums over word vectors

  type Vector = map<string, real>

  ghost function Sum(m: Vector): real {
    if m == map[] then 0.0 else
      var k :| k in m;
      m[k] + Sum(m - {k})
  }

  lemma {:induction false} SumPick(m: Vector, k: string)
    requires k in m
    ensures Sum(m) == m[k] + Sum(m - {k})
    decreases |m|
  {
    var j :| j in m && Sum(m) == m[j] + Sum(m - {j});
    if j != k {
      SumPick(m - {j}, k);
      SumPick(m - {k}, j);
      assert m - {j} - {k} == m - {k} - {j};
    }
  }

  /** A sum over part of the words, pointwise at most a non-negative sum over all of them. */
  lemma {:induction false} SumAtMost(a: Vector, b: Vector)
    requires a.Keys <= b.Keys && (forall k :: k in a ==> a[k] <= b[k]) && forall k :: k in b ==> b[k] >= 0.0
    ensures Sum(a) <= Sum(b)
    decreases |b|
  {
    if b != map[] {
      var k :| k in b;
      SumPick(b, k);
      SumAtMost(a - {k}, b - {k});
      if k in a {
        SumPick(a, k);
      } else {
        assert a - {k} == a;
      }
    } else {
      assert a == map[];
    }
  }

  function Scaled(r: real, x: real): real {
    x * r
  }

  lemma ScaledAdd(r: real, x: real, y: real)
    ensures Scaled(r, x + y) == Scaled(r, x) + Scaled(r, y)
  {
  }

  lemma {:induction false} SumScaled(a: Vector, c: Vector, r: real)
    requires a.Keys == c.Keys && forall k :: k in c ==> c[k] == Scaled(r, a[k])
    ensures Sum(c) == Scaled(r, Sum(a))
    decreases |c|
  {
    if c == map[] {
      assert a == map[];
    } else {
      var k :| k in c;
      SumScaled(a - {k}, c - {k}, r);
      var x, y, z := Sum(c), Sum(c - {k}), Sum(a - {k});
      assert x == c[k] + y && Sum(a) == a[k] + z by {
        SumPick(a, k);
        SumPick(c, k);
      }
      ScaledAdd(r, a[k], z);
    }
  }

  lemma ScaledByInverse(s: real)
    requires s > 0.0
    ensures Scaled(1.0 / s, s) == 1.0
  {
  }

  ghost function Squares(v: Vector): Vector {
    map k | k in v :: v[k] * v[k]
  }

  // ----- cosine similarity

  ghost predicate IsRoot(x: real, r: real) {
    r >= 0.0 && r * r == x
  }

  ghost predicate IsSqrt(sqrt: real -> real) {
    forall x {:trigger IsRoot(x, sqrt(x))} :: x >= 0.0 ==> IsRoot(x, sqrt(x))
  }

  /** Word counts. */
  function Counts(words: seq<string>): (v: Vector)
    ensures forall k :: k in v ==> v[k] >= 1.0
  {
    if words == [] then map[] else
      var v, w := Counts(words[..|words| - 1]), words[|words| - 1];
      v[w := (if w in v then v[w] else 0.0) + 1.0]
  }

  ghost function Places(words: seq<string>, w: string): set<nat> {
    set i: nat | i < |words| && words[i] == w
  }

  /** A word counts as often as it occurs. */
  lemma {:induction false} CountsMeans(words: seq<string>, w: string)
    ensures w in Counts(words) <==> w in words
    ensures w in words ==> Counts(words)[w] == |Places(words, w)| as real
    ensures w !in words ==> Places(words, w) == {}
  {
    if words != [] {
      var pre, last, n := words[..|words| - 1], words[|words| - 1], |words| - 1;
      CountsMeans(pre, w);
      assert words == pre + [last];
      if last == w {
        assert Places(words, w) == Places(pre, w) + {n};
      } else {
        assert Places(words, w) == Places(pre, w);
      }
    }
  }

  /** simple_token_vector: the counts divided by their Euclidean norm, if it is positive. */
  ghost function Normalised(sqrt: real -> real, words: seq<string>): Vector {
    var v := Counts(words);
    Divided(v, sqrt(Sum(Squares(v))))
  }

  function Divided(v: Vector, norm: real): Vector {
    if norm > 0.0 then map k | k in v :: v[k] / norm else v
  }

  ghost function Products(a: Vector, b: Vector): Vector {
    map k | k in a && k in b :: a[k] * b[k]
  }

  ghost function CosineSimilarity(sqrt: real -> real, a: seq<string>, b: seq<string>): real {
    Sum(Products(Normalised(sqrt, a), Normalised(sqrt, b)))
  }

  lemma SquaresAtLeast(v: Vector, k: string)
    requires k in v && forall j :: j in v ==> v[j] >= 1.0
    ensures Sum(Squares(v)) >= 1.0
  {
    var one: Vector := map[k := 1.0];
    forall j | j in v ensures Squares(v)[j] >= 1.0 {
      SquareOfAtLeastOne(v[j]);
    }
    SumAtMost(one, Squares(v));
    SumPick(one, k);
    assert one - {k} == map[];
  }

  lemma SquareOfAtLeastOne(x: real)
    requires x >= 1.0
    ensures x * x >= 1.0
  {
  }

  lemma DividedSquare(x: real, n: real, s: real)
    requires n > 0.0 && s > 0.0 && n * n == s
    ensures (x / n) * (x / n) == Scaled(1.0 / s, x * x)
  {
    var q, r := x / n, 1.0 / s;
    assert x == q * n;
    assert x * x == (q * q) * (n * n) by { Rearrange(q, n); }
    assert s * r == 1.0;
    assert (x * x) * r == (q * q) * (s * r);
  }

  lemma Rearrange(q: real, n: real)
    ensures (q * n) * (q * n) == (q * q) * (n * n)
  {
  }

  lemma EntryScaled(v: Vector, u: Vector, n: real, s: real, k: string)
    requires n > 0.0 && s > 0.0 && n * n == s && k in v && k in u && u[k] == v[k] / n
    ensures Squares(u)[k] == Scaled(1.0 / s, Squares(v)[k])
  {
    DividedSquare(v[k], n, s);
  }

  lemma UnitLength(v: Vector, u: Vector, n: real, s: real)
    requires n > 0.0 && s > 0.0 && n * n == s && s == Sum(Squares(v))
    requires v.Keys == u.Keys && forall k :: k in u ==> u[k] == v[k] / n
    ensures Sum(Squares(u)) == 1.0
  {
    assert Sum(Squares(u)) == Scaled(1.0 / s, s) by {
      forall k | k in Squares(u) ensures Squares(u)[k] == Scaled(1.0 / s, Squares(v)[k]) {
        EntryScaled(v, u, n, s, k);
      }
      SumScaled(Squares(v), Squares(u), 1.0 / s);
    }
    ScaledByInverse(s);
  }

  lemma EntriesNonNegative(v: Vector, u: Vector, n: real)
    requires n > 0.0 && v.Keys == u.Keys && (forall k :: k in u ==> u[k] == v[k] / n)
    requires forall k :: k in v ==> v[k] >= 0.0
    ensures forall k :: k in u ==> u[k] >= 0.0
  {
    forall k | k in u ensures u[k] >= 0.0 {
      QuotientNonNegative(v[k], n);
    }
  }

  lemma PositiveRoot(n: real, s: real)
    requires n >= 0.0 && s >= 1.0 && n * n == s
    ensures n > 0.0
  {
    ZeroSquare(n);
  }

  lemma ZeroSquare(n: real)
    ensures n == 0.0 ==> n * n == 0.0
  {
  }

  ghost predicate IsUnit(u: Vector) {
    0.0 <= Sum(Squares(u)) <= 1.0 && forall k :: k in u ==> u[k] >= 0.0
  }

  /** The squared entries of a normalised vector sum to 1, or to 0 for a text without words. */
  lemma NormIsUnit(v: Vector, n: real)
    requires IsRoot(Sum(Squares(v)), n) && forall k :: k in v ==> v[k] >= 1.0
    ensures IsUnit(Divided(v, n))
  {
    if v == map[] {
      assert Divided(v, n) == map[] && Squares(Divided(v, n)) == map[];
    } else {
      var k :| k in v;
      SquaresAtLeast(v, k);
      PositiveRoot(n, Sum(Squares(v)));
      UnitLength(v, Divided(v, n), n, Sum(Squares(v)));
      EntriesNonNegative(v, Divided(v, n), n);
    }
  }

  lemma {:induction false} SquareSumNonNegative(v: Vector)
    ensures Sum(Squares(v)) >= 0.0
  {
    forall k | k in v ensures Squares(v)[k] >= 0.0 {
      SquareNonNegative(v[k]);
    }
    SumAtMost(map[], Squares(v));
  }

  lemma NormalisedIsUnit(sqrt: real -> real, words: seq<string>)
    requires IsSqrt(sqrt)
    ensures IsUnit(Normalised(sqrt, words))
  {
    var v := Counts(words);
    var s := Sum(Squares(v));
    SquareSumNonNegative(v);
    assert IsRoot(s, sqrt(s));
    NormIsUnit(v, sqrt(s));
  }

  lemma QuotientNonNegative(x: real, n: real)
    requires x >= 0.0 && n > 0.0
    ensures x / n >= 0.0
  {
  }

  lemma {:induction false} SumOfZeros(z: Vector)
    requires forall k :: k in z ==> z[k] == 0.0
    ensures Sum(z) == 0.0
    decreases |z|
  {
    if z != map[] {
      var k :| k in z;
      SumPick(z, k);
      SumOfZeros(z - {k});
    }
  }

  lemma ProductBound(x: real, y: real)
    ensures x * y + x * y <= x * x + y * y
  {
    assert (x - y) * (x - y) >= 0.0;
    assert (x - y) * (x - y) == x * x - 2.0 * (x * y) + y * y;
  }

  lemma ProductNonNegative(x: real, y: real)
    requires x >= 0.0 && y >= 0.0
    ensures x * y >= 0.0
  {
  }

  ghost function Shared(a: Vector, b: Vector): Vector {
    map k | k in a && k in b :: a[k]
  }

  lemma SharedSquares(a: Vector, b: Vector)
    ensures Sum(Squares(Shared(a, b))) <= Sum(Squares(a))
  {
    forall k | k in a ensures Squares(a)[k] >= 0.0 {
      SquareNonNegative(a[k]);
    }
    SumAtMost(Squares(Shared(a, b)), Squares(a));
  }

  lemma SquareNonNegative(x: real)
    ensures x * x >= 0.0
  {
  }

  /** For all texts the similarity lies between 0 and 1 (products are bounded by the mean of the squares). */
  lemma CosineInUnitInterval(sqrt: real -> real, a: seq<string>, b: seq<string>)
    requires IsSqrt(sqrt)
    ensures 0.0 <= CosineSimilarity(sqrt, a, b) <= 1.0
  {
    var u, w := Normalised(sqrt, a), Normalised(sqrt, b);
    NormalisedIsUnit(sqrt, a);
    NormalisedIsUnit(sqrt, b);
    ProductsBound(u, w);
    SharedSquares(u, w);
    SharedSquares(w, u);
  }

  lemma QuotientProduct(x: real, y: real, n: real, m: real, nm: real)
    requires n > 0.0 && m > 0.0 && nm == n * m
    ensures x * y == Scaled(nm, (x / n) * (y / m))
  {
    var q, r := x / n, y / m;
    assert x == q * n && y == r * m;
    Reorder(q, n, r, m);
  }

  lemma Reorder(q: real, n: real, r: real, m: real)
    ensures (q * n) * (r * m) == (q * r) * (n * m)
  {
    assert (q * n) * (r * m) == q * (n * (r * m)) == q * (r * (n * m));
  }

  lemma ProductEntry(u: Vector, n: real, v: Vector, m: real, nm: real, k: string)
    requires n > 0.0 && m > 0.0 && nm == n * m && k in u && k in v
    ensures Products(u, v)[k] == Scaled(nm, Products(Divided(u, n), Divided(v, m))[k])
  {
    assert Divided(u, n)[k] == u[k] / n && Divided(v, m)[k] == v[k] / m;
    QuotientProduct(u[k], v[k], n, m, nm);
  }

  lemma DividedProducts(u: Vector, n: real, v: Vector, m: real, nm: real)
    requires n > 0.0 && m > 0.0 && nm == n * m
    ensures Sum(Products(u, v)) == Scaled(nm, Sum(Products(Divided(u, n), Divided(v, m))))
  {
    var p, c := Products(u, v), Products(Divided(u, n), Divided(v, m));
    forall k | k in p ensures p[k] == Scaled(nm, c[k]) {
      ProductEntry(u, n, v, m, nm, k);
    }
    SumScaled(c, p, nm);
  }

  /** The Euclidean norm of the word counts. */
  ghost function Norm(sqrt: real -> real, words: seq<string>): real {
    sqrt(Sum(Squares(Counts(words))))
  }

  ghost predicate IsNorm(v: Vector, n: real) {
    n > 0.0 && n * n == Sum(Squares(v))
  }

  lemma RootIsNorm(v: Vector, n: real)
    requires Sum(Squares(v)) >= 1.0 && IsRoot(Sum(Squares(v)), n)
    ensures IsNorm(v, n)
  {
    PositiveRoot(n, Sum(Squares(v)));
  }

  lemma CountsSquares(words: seq<string>)
    requires words != []
    ensures Sum(Squares(Counts(words))) >= 1.0
  {
    assert words[0] in words;
    CountsMeans(words, words[0]);
    SquaresAtLeast(Counts(words), words[0]);
  }

  /** The norm of a text with words is positive, and its square is the sum of the squared counts. */
  lemma NormPositive(sqrt: real -> real, words: seq<string>)
    requires IsSqrt(sqrt) && words != []
    ensures IsNorm(Counts(words), Norm(sqrt, words))
  {
    CountsSquares(words);
    var s := Sum(Squares(Counts(words)));
    assert IsRoot(s, sqrt(s));
    RootIsNorm(Counts(words), sqrt(s));
  }

  /** Similarity times the two norms is the dot product of the word counts. */
  lemma CosineMeaning(sqrt: real -> real, a: seq<string>, b: seq<string>, n: real, m: real, nm: real)
    requires n == Norm(sqrt, a) && m == Norm(sqrt, b) && n > 0.0 && m > 0.0 && nm == n * m
    ensures Scaled(nm, CosineSimilarity(sqrt, a, b)) == Sum(Products(Counts(a), Counts(b)))
  {
    DividedProducts(Counts(a), n, Counts(b), m, nm);
  }

  lemma CosineSymmetric(sqrt: real -> real, a: seq<string>, b: seq<string>)
    ensures CosineSimilarity(sqrt, a, b) == CosineSimilarity(sqrt, b, a)
  {
    assert Products(Normalised(sqrt, a), Normalised(sqrt, b)) == Products(Normalised(sqrt, b), Normalised(sqrt, a));
  }

  /** Texts without a shared word, in particular without words, have similarity 0. */
  lemma NothingShared(sqrt: real -> real, a: seq<string>, b: seq<string>)
    requires forall w :: w in a ==> w !in b
    ensures CosineSimilarity(sqrt, a, b) == 0.0
  {
    var p := Products(Normalised(sqrt, a), Normalised(sqrt, b));
    forall k ensures k !in p {
      CountsMeans(a, k);
      CountsMeans(b, k);
    }
    assert p == map[];
  }

  /** Texts with the same word counts, in whatever order, have similarity 1, unless they have no words. */
  lemma SameCountsSimilar(sqrt: real -> real, a: seq<string>, b: seq<string>)
    requires IsSqrt(sqrt) && Counts(a) == Counts(b) && a != [] && b != []
    ensures CosineSimilarity(sqrt, a, b) == 1.0
  {
    NormPositive(sqrt, a);
    SameNormSimilar(sqrt, a, b, Norm(sqrt, a));
  }

  lemma SameNormSimilar(sqrt: real -> real, a: seq<string>, b: seq<string>, n: real)
    requires Counts(a) == Counts(b) && n == Norm(sqrt, a) && IsNorm(Counts(a), n) && a != []
    ensures CosineSimilarity(sqrt, a, b) == 1.0
  {
    var s := Sum(Squares(Counts(a)));
    CosineMeaning(sqrt, a, b, n, n, s);
    assert Products(Counts(a), Counts(b)) == Squares(Counts(a));
    CountsSquares(a);
    OnlyOne(s, CosineSimilarity(sqrt, a, b));
  }

  lemma OnlyOne(s: real, x: real)
    requires s > 0.0 && Scaled(s, x) == s
    ensures x == 1.0
  {
    assert (x - 1.0) * s == 0.0;
  }

  lemma ProductsBound(u: Vector, w: Vector)
    requires (forall k :: k in u ==> u[k] >= 0.0) && forall k :: k in w ==> w[k] >= 0.0
    ensures 0.0 <= 2.0 * Sum(Products(u, w)) <= Sum(Squares(Shared(u, w))) + Sum(Squares(Shared(w, u)))
  {
    var p, x, y := Products(u, w), Squares(Shared(u, w)), Squares(Shared(w, u));
    forall k | k in p ensures 0.0 <= p[k] && p[k] + p[k] <= x[k] + y[k] {
      ProductBound(u[k], w[k]);
      ProductNonNegative(u[k], w[k]);
    }
    SumsBound(p, x, y);
  }

  lemma {:induction false} SumsBound(p: Vector, x: Vector, y: Vector)
    requires p.Keys == x.Keys == y.Keys && forall k :: k in p ==> 0.0 <= p[k] && p[k] + p[k] <= x[k] + y[k]
    ensures 0.0 <= 2.0 * Sum(p) <= Sum(x) + Sum(y)
    decreases |p|
  {
    if p != map[] {
      var k :| k in p;
      SumPick(p, k);
      SumPick(x, k);
      SumPick(y, k);
      SumsBound(p - {k}, x - {k}, y - {k});
    } else {
      assert x == map[] && y == map[];
    }
  }

  // ----- rounding to two decimals

  /** Python's round on the nearest integer, ties to even. */
  function RoundInt(x: real): (r: int)
    ensures x - 0.5 <= r as real <= x + 0.5
    ensures r as real == x - 0.5 || r as real == x + 0.5 ==> r % 2 == 0
  {
    var f := x.Floor;
    var d := x - f as real;
    if d < 0.5 then f else if d > 0.5 then f + 1 else if f % 2 == 0 then f else f + 1
  }

  function Round2(x: real): real {
    RoundInt(x * 100.0) as real / 100.0
  }

  /** Rounding does not cross values that already have two decimals. */
  lemma RoundKeepsSide(x: real, k: int)
    ensures x <= k as real / 100.0 ==> Round2(x) <= k as real / 100.0
    ensures x >= k as real / 100.0 ==> Round2(x) >= k as real / 100.0
  {
    var y := x * 100.0;
    assert x <= k as real / 100.0 ==> y <= k as real;
    assert x >= k as real / 100.0 ==> y >= k as real;
    RoundIntKeepsSide(y, k);
  }

  lemma RoundIntKeepsSide(y: real, k: int)
    ensures y <= k as real ==> RoundInt(y) <= k
    ensures y >= k as real ==> RoundInt(y) >= k
  {
  }

  // ----- the scores of a completion request

  /** words are those of the latest message and of the goal; an empty message list or goal gives 0. */
  ghost function Drift(sqrt: real -> real, noMessages: bool, noGoal: bool, latest: seq<string>, goal: seq<string>): real
  {
    if noMessages || noGoal then 0.0 else Round2((1.0 - CosineSimilarity(sqrt, latest, goal)) * 100.0)
  }

  lemma DriftInRange(sqrt: real -> real, noMessages: bool, noGoal: bool, latest: seq<string>, goal: seq<string>)
    requires IsSqrt(sqrt)
    ensures 0.0 <= Drift(sqrt, noMessages, noGoal, latest, goal) <= 100.0
  {
    CosineInUnitInterval(sqrt, latest, goal);
    var x := (1.0 - CosineSimilarity(sqrt, latest, goal)) * 100.0;
    RoundKeepsSide(x, 0);
    RoundKeepsSide(x, 10000);
  }

  /** Drift is the missing similarity in per cent, to two decimals; 0 without a message or a goal. */
  lemma DriftMeaning(sqrt: real -> real, latest: seq<string>, goal: seq<string>)
    ensures var d, gap := Drift(sqrt, false, false, latest, goal), 1.0 - CosineSimilarity(sqrt, latest, goal);
            -0.5 <= 100.0 * d - 10000.0 * gap <= 0.5
    ensures Drift(sqrt, false, false, latest, goal) == Drift(sqrt, false, false, goal, latest)
    ensures Drift(sqrt, true, false, latest, goal) == Drift(sqrt, false, true, latest, goal) == 0.0
  {
    CosineSymmetric(sqrt, latest, goal);
    Round2Near((1.0 - CosineSimilarity(sqrt, latest, goal)) * 100.0);
  }

  /** The extremes: 100 without a shared word, 0 for the same words equally often. */
  lemma DriftExtremes(sqrt: real -> real, latest: seq<string>, goal: seq<string>)
    requires IsSqrt(sqrt)
    ensures (forall w :: w in latest ==> w !in goal) ==> Drift(sqrt, false, false, latest, goal) == 100.0
    ensures latest != [] && goal != [] && Counts(latest) == Counts(goal) ==>
      Drift(sqrt, false, false, latest, goal) == 0.0
  {
    Round2Fixed(0);
    Round2Fixed(10000);
    if forall w :: w in latest ==> w !in goal {
      NothingShared(sqrt, latest, goal);
    } else if latest != [] && goal != [] && Counts(latest) == Counts(goal) {
      SameCountsSimilar(sqrt, latest, goal);
    }
    if Counts(latest) == Counts(goal) && latest != [] {
      CountsMeans(latest, latest[0]);
      CountsMeans(goal, latest[0]);
    }
  }

  lemma Round2Near(x: real)
    ensures -0.5 <= 100.0 * Round2(x) - 100.0 * x <= 0.5
  {
  }

  lemma Round2Fixed(k: int)
    ensures Round2(k as real / 100.0) == k as real / 100.0
  {
    RoundKeepsSide(k as real / 100.0, k);
  }

  /** Repeats among the last four messages (stripped, lower-cased), scaled to 0..100. */
  function Entropy(contents: seq<string>): real {
    if |contents| < 3 then 0.0 else
      var last := if |contents| < 4 then contents else contents[|contents| - 4..];
      var duplicates := |last| - |set c | c in last|;
      var risk := duplicates as real / 3.0 * 100.0;
      if risk > 100.0 then 100.0 else risk
  }

  lemma {:induction false} AtMostLength(s: seq<string>)
    ensures |set c | c in s| <= |s|
    ensures s != [] ==> |set c | c in s| >= 1
  {
    if s != [] {
      AtMostLength(s[1..]);
      assert s == [s[0]] + s[1..];
      assert (set c | c in s) == {s[0]} + set c | c in s[1..];
    }
  }

  lemma EntropyInRange(contents: seq<string>)
    ensures 0.0 <= Entropy(contents) <= 100.0
  {
    var last := if |contents| < 4 then contents else contents[|contents| - 4..];
    AtMostLength(last);
  }

  /** A third of 100 per repeat among the last four messages, from three messages on. */
  lemma EntropyValues(contents: seq<string>, last: seq<string>, distinct: set<string>)
    requires last == contents[if |contents| < 4 then 0 else |contents| - 4..]
    requires forall c :: c in distinct <==> c in last
    ensures |contents| < 3 ==> Entropy(contents) == 0.0
    ensures |contents| >= 3 ==> 3.0 * Entropy(contents) == 100.0 * (|last| - |distinct|) as real
  {
    AtMostLength(last);
    assert distinct == set c | c in last;
  }

  // ----- the weighted risk and the gate

  datatype Scores = Scores(drift: real, entropy: real, ast: real, command: real, injection: real) {
    ghost predicate InRange() {
      0.0 <= drift <= 100.0 && 0.0 <= entropy <= 100.0 && 0.0 <= ast <= 100.0
      && 0.0 <= command <= 100.0 && 0.0 <= injection <= 100.0
    }
  }

  function Max(a: real, b: real): real {
    if b > a then b else a
  }

  method Compute(s: Scores) returns (risk: real)
    ensures risk == Risk(s)
  {
    var total := 0.25 * s.drift + 0.15 * s.entropy + 0.20 * s.ast + 0.15 * s.command + 0.25 * s.injection;
    var overrides := [s.ast, s.command, s.injection];
    for i := 0 to 3
      invariant total == Escalate(Weighted(s), overrides[..i])
    {
      assert overrides[..i + 1] == overrides[..i] + [overrides[i]];
      if overrides[i] >= 71.0 {
        total := Max(total, overrides[i]);
      }
    }
    assert overrides[..3] == overrides;
    var rounded := Round2(total);
    risk := if rounded < 100.0 then rounded else 100.0;
  }

  function Weighted(s: Scores): real {
    0.25 * s.drift + 0.15 * s.entropy + 0.20 * s.ast + 0.15 * s.command + 0.25 * s.injection
  }

  /** A single score of 71 or more lifts the total at least to itself. */
  function Escalate(total: real, overrides: seq<real>): (r: real)
    ensures r >= total
    ensures forall i :: 0 <= i < |overrides| && overrides[i] >= 71.0 ==> r >= overrides[i]
    ensures r == total || (r >= 71.0 && r in overrides)
  {
    if overrides == [] then total else
      var t, x := Escalate(total, overrides[..|overrides| - 1]), overrides[|overrides| - 1];
      assert overrides == overrides[..|overrides| - 1] + [x];
      if x >= 71.0 then Max(t, x) else t
  }

  function Risk(s: Scores): real {
    var rounded := Round2(Escalate(Weighted(s), [s.ast, s.command, s.injection]));
    if rounded < 100.0 then rounded else 100.0
  }

  /** Without an overriding score: the weighted percentages, to two decimals. */
  lemma RiskFromScores(s: Scores)
    requires s.InRange() && s.ast < 71.0 && s.command < 71.0 && s.injection < 71.0
    ensures var sum := 25.0 * s.drift + 15.0 * s.entropy + 20.0 * s.ast + 15.0 * s.command + 25.0 * s.injection;
            -0.5 <= 100.0 * Risk(s) - sum <= 0.5
  {
    var overrides := [s.ast, s.command, s.injection];
    var total := Escalate(Weighted(s), overrides);
    assert total == Weighted(s) <= 100.0;
    Round2Near(total);
    RoundKeepsSide(total, 10000);
  }

  /** With one: the greatest of that sum and the scores from 71 on, to two decimals. */
  lemma RiskWithOverride(s: Scores, m: real)
    requires s.InRange() && (s.ast >= 71.0 || s.command >= 71.0 || s.injection >= 71.0)
    requires var sum := 0.25 * s.drift + 0.15 * s.entropy + 0.20 * s.ast + 0.15 * s.command + 0.25 * s.injection;
      && m >= sum && (s.ast >= 71.0 ==> m >= s.ast) && (s.command >= 71.0 ==> m >= s.command)
      && (s.injection >= 71.0 ==> m >= s.injection)
      && (m == sum || (m >= 71.0 && (m == s.ast || m == s.command || m == s.injection)))
    ensures Risk(s) == Round2(m)
  {
    var overrides := [s.ast, s.command, s.injection];
    var total := Escalate(Weighted(s), overrides);
    assert overrides[0] == s.ast && overrides[1] == s.command && overrides[2] == s.injection;
    assert total == m;
    RoundKeepsSide(total, 10000);
  }

  /** Drift and repetition alone never reach the review band. */
  lemma QuietCompletion(drift: real, entropy: real)
    requires 0.0 <= drift <= 100.0 && 0.0 <= entropy <= 100.0
    ensures var risk := Risk(Scores(drift, entropy, 0.0, 0.0, 0.0)); risk <= 40.0 && Gate(risk) == Forward
  {
    var s := Scores(drift, entropy, 0.0, 0.0, 0.0);
    assert Escalate(Weighted(s), [s.ast, s.command, s.injection]) == Weighted(s) <= 40.0;
    RoundKeepsSide(Weighted(s), 4000);
  }

  datatype Decision = Forward | Review | Block

  /** Note the gap: a risk strictly between 70 and 71 is neither blocked nor reviewed. */
  function Gate(risk: real): Decision {
    if risk >= 71.0 then Block else if 41.0 <= risk <= 70.0 then Review else Forward
  }

  /**
   * For every completion request the gap is never hit: the request is blocked exactly when its injection score is at
   * least 71, and what is forwarded without review has a risk below 41.
   */
  lemma CompletionBands(drift: real, entropy: real, injection: real)
    requires Scores(drift, entropy, 0.0, 0.0, injection).InRange()
    ensures var risk := Risk(Scores(drift, entropy, 0.0, 0.0, injection));
            && 0.0 <= risk <= 100.0 && !(70.0 < risk < 71.0)
            && (Gate(risk) == Block <==> injection >= 71.0)
            && (Gate(risk) == Forward ==> risk < 41.0)
  {
    var s := Scores(drift, entropy, 0.0, 0.0, injection);
    var overrides := [s.ast, s.command, s.injection];
    var total := Escalate(Weighted(s), overrides);
    RoundKeepsSide(total, 0);
    if injection >= 71.0 {
      assert overrides[2] == injection;
      RoundKeepsSide(total, 7100);
    } else {
      assert total == Weighted(s) <= 57.75;
      RoundKeepsSide(total, 5775);
    }
  }

  /** The same, from the request itself: whatever the messages and the goal, and any injection score up to 100. */
  lemma RequestBands(sqrt: real -> real, contents: seq<string>, noGoal: bool, latest: seq<string>, goal: seq<string>,
                     injection: real)
    requires IsSqrt(sqrt) && 0.0 <= injection <= 100.0
    ensures var drift := Drift(sqrt, contents == [], noGoal, latest, goal);
            var risk := Risk(Scores(drift, Entropy(contents), 0.0, 0.0, injection));
            && !(70.0 < risk < 71.0) && (Gate(risk) == Block <==> injection >= 71.0)
            && (Gate(risk) == Review <==> 41.0 <= risk < 71.0) && (Gate(risk) == Forward <==> risk < 41.0)
  {
    DriftInRange(sqrt, contents == [], noGoal, latest, goal);
    EntropyInRange(contents);
    CompletionBands(Drift(sqrt, contents == [], noGoal, latest, goal), Entropy(contents), injection);
  }

  // ----- shell commands

  /** The path of proxy_command_execution: the weighted risk, lifted to the danger score from 41 on. */
  function CommandRisk(danger: real): real {
    var risk := Risk(Scores(0.0, 0.0, 0.0, danger, 0.0));
    if danger >= 41.0 then Max(risk, danger) else risk
  }

  /** A command goes through without review exactly for danger scores below 41 or inside the gap. */
  lemma CommandBands(danger: real)
    requires 0.0 <= danger <= 100.0
    ensures Gate(CommandRisk(danger)) == Block <==> danger >= 71.0
    ensures Gate(CommandRisk(danger)) == Review <==> 41.0 <= danger <= 70.0
    ensures Gate(CommandRisk(danger)) == Forward <==> danger < 41.0 || 70.0 < danger < 71.0
  {
    var s := Scores(0.0, 0.0, 0.0, danger, 0.0);
    var overrides := [s.ast, s.command, s.injection];
    var total := Escalate(Weighted(s), overrides);
    if danger >= 71.0 {
      assert overrides[1] == danger;
      RoundKeepsSide(total, 7100);
    } else {
      assert total == Weighted(s) <= 15.0;
      RoundKeepsSide(total, 1500);
    }
  }

  datatype Trigger = Trigger(text: string, score: real)

  const TRIGGERS := [
    Trigger("sudo", 80.0), Trigger("rm -rf", 95.0), Trigger("chmod", 50.0), Trigger("curl", 40.0),
    Trigger("wget", 40.0), Trigger("chown", 50.0), Trigger("env", 30.0), Trigger("export", 30.0)]

  const CHAINING := [";", "&&", "||", "`", "$(", "${"]
  const CHAINING_SCORE := 60.0

  predicate Contains(text: string, part: string) {
    exists i :: 0 <= i <= |text| && part <= text[i..]
  }

  /** A text contains a part exactly when it can be cut out of it. */
  lemma ContainsMeans(text: string, part: string)
    ensures Contains(text, part) <==> exists a, b :: text == a + part + b
  {
    if Contains(text, part) {
      var i :| 0 <= i <= |text| && part <= text[i..];
      assert text == text[..i] + part + text[i + |part|..];
    }
    forall a: string, b: string | text == a + part + b ensures Contains(text, part) {
      assert text[|a|..] == part + b;
    }
  }

  predicate Chained(command: string) {
    exists i :: 0 <= i < |CHAINING| && Contains(command, CHAINING[i])
  }

  ghost predicate IsTriggered(triggers: seq<Trigger>, text: string, score: real) {
    && (forall i :: 0 <= i < |triggers| && Contains(text, triggers[i].text) ==> score >= triggers[i].score)
    && (score == 0.0
        || exists i :: 0 <= i < |triggers| && Contains(text, triggers[i].text) && score == triggers[i].score)
  }

  method WorstTrigger(triggers: seq<Trigger>, text: string) returns (score: real)
    requires forall i :: 0 <= i < |triggers| ==> triggers[i].score >= 0.0
    ensures IsTriggered(triggers, text, score)
  {
    score := 0.0;
    for i := 0 to |triggers|
      invariant IsTriggered(triggers[..i], text, score)
    {
      var before := score;
      if Contains(text, triggers[i].text) {
        score := Max(score, triggers[i].score);
      }
      ExtendTriggered(triggers[..i], triggers[i], text, before, score);
      assert triggers[..i + 1] == triggers[..i] + [triggers[i]];
    }
    assert triggers[..|triggers|] == triggers;
  }

  lemma ExtendTriggered(triggers: seq<Trigger>, t: Trigger, text: string, before: real, score: real)
    requires IsTriggered(triggers, text, before)
    requires score == if Contains(text, t.text) then Max(before, t.score) else before
    ensures IsTriggered(triggers + [t], text, score)
  {
    var all := triggers + [t];
    if Contains(text, t.text) && score == t.score {
      assert all[|triggers|] == t;
    } else if before != 0.0 {
      var i :| 0 <= i < |triggers| && Contains(text, triggers[i].text) && before == triggers[i].score;
      assert all[i] == triggers[i];
    }
  }

  /** score is the worst of the triggers in the text and, for a chained command, the chaining score. */
  ghost predicate IsDanger(text: string, chained: bool, score: real) {
    && (forall i :: 0 <= i < |TRIGGERS| && Contains(text, TRIGGERS[i].text) ==> score >= TRIGGERS[i].score)
    && (chained ==> score >= CHAINING_SCORE)
    && (score == 0.0 || (chained && score == CHAINING_SCORE)
        || exists i :: 0 <= i < |TRIGGERS| && Contains(text, TRIGGERS[i].text) && score == TRIGGERS[i].score)
  }

  /**
   * Triggers are looked for in the command with blanks collapsed and letters lower-cased, which normalise does;
   * chaining operators in the command as it stands.
   */
  method AnalyzeCommand(normalise: string -> string, command: string) returns (score: real)
    ensures IsDanger(normalise(command), Chained(command), score)
    ensures !(70.0 < score < 71.0) && 0.0 <= score <= 100.0
  {
    TriggerScores();
    score := WorstTrigger(TRIGGERS, normalise(command));
    if Chained(command) {
      score := Max(score, CHAINING_SCORE);
    }
  }

  lemma TriggerScores()
    ensures forall i :: 0 <= i < |TRIGGERS| ==> 0.0 <= TRIGGERS[i].score <= 100.0 && !(70.0 < TRIGGERS[i].score < 71.0)
  {
  }

  /** The score of a command, read off its text. */
  lemma DangerFromText(normalise: string -> string, command: string, score: real)
    requires IsDanger(normalise(command), Chained(command), score)
    ensures var text := normalise(command);
            && (score == 95.0 <==> Contains(text, "rm -rf"))
            && (score == 80.0 <==> score < 95.0 && Contains(text, "sudo"))
            && (score == 60.0 <==> score < 80.0 && Chained(command))
            && (score == 50.0 <==> score < 60.0 && (Contains(text, "chmod") || Contains(text, "chown")))
            && (score == 40.0 <==> score < 50.0 && (Contains(text, "curl") || Contains(text, "wget")))
            && (score == 30.0 <==> score < 40.0 && (Contains(text, "env") || Contains(text, "export")))
            && (score == 0.0 || 30.0 <= score)
  {
    var text := normalise(command);
    TriggersAre(text, score);
  }

  lemma TriggersAre(text: string, score: real)
    ensures (forall i :: 0 <= i < |TRIGGERS| && Contains(text, TRIGGERS[i].text) ==> score >= TRIGGERS[i].score) ==>
      && (Contains(text, "sudo") ==> score >= 80.0) && (Contains(text, "rm -rf") ==> score >= 95.0)
      && (Contains(text, "chmod") || Contains(text, "chown") ==> score >= 50.0)
      && (Contains(text, "curl") || Contains(text, "wget") ==> score >= 40.0)
      && (Contains(text, "env") || Contains(text, "export") ==> score >= 30.0)
  {
    assert TRIGGERS[0].text == "sudo" && TRIGGERS[1].text == "rm -rf" && TRIGGERS[2].text == "chmod";
    assert TRIGGERS[3].text == "curl" && TRIGGERS[4].text == "wget" && TRIGGERS[5].text == "chown";
    assert TRIGGERS[6].text == "env" && TRIGGERS[7].text == "export";
  }

  /** Any of six operators counts as chaining. */
  lemma ChainedMeans(command: string)
    ensures Chained(command) <==>
      || Contains(command, ";") || Contains(command, "&&") || Contains(command, "||")
      || Contains(command, "`") || Contains(command, "$(") || Contains(command, "${")
  {
    assert CHAINING[0] == ";" && CHAINING[1] == "&&" && CHAINING[2] == "||";
    assert CHAINING[3] == "`" && CHAINING[4] == "$(" && CHAINING[5] == "${";
  }

  /** What happens to a command, from its text: 40 points, for curl or wget alone, do not even lead to a review. */
  method GateCommand(normalise: string -> string, command: string) returns (d: Decision)
    ensures var text := normalise(command);
            && (d == Block <==> Contains(text, "sudo") || Contains(text, "rm -rf"))
            && (d == Review <==> d != Block && (Contains(text, "chmod") || Contains(text, "chown") || Chained(command)))
  {
    var danger := AnalyzeCommand(normalise, command);
    DangerFromText(normalise, command, danger);
    CommandBands(danger);
    d := Gate(CommandRisk(danger));
  }
}
