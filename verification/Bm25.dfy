/**
 context.py's ranking, over the reals and for any logarithm that is positive beyond one.
 Chunks are told apart by their place in the index.
 */
module Bm25 {

  type Tokens = seq<string>

  datatype Hit = Hit(score: real, at: nat)

  ghost predicate IsLog(ln: real -> real) {
    forall x :: x > 1.0 ==> ln(x) > 0.0
  }

  // --- Counting ---

  function Count(tokens: Tokens, t: string): (n: nat)
    ensures n > 0 <==> t in tokens
    ensures n <= |tokens|
  {
    if tokens == [] then 0 else (if tokens[0] == t then 1 else 0) + Count(tokens[1..], t)
  }

  /** How many chunks hold the token. */
  function Holders(chunks: seq<Tokens>, t: string): (n: nat)
    ensures n <= |chunks|
  {
    if chunks == [] then 0 else (if t in chunks[0] then 1 else 0) + Holders(chunks[1..], t)
  }

  function TotalLength(chunks: seq<Tokens>): nat {
    if chunks == [] then 0 else |chunks[0]| + TotalLength(chunks[1..])
  }

  lemma {:induction false} TotalIsAtLeast(chunks: seq<Tokens>, i: nat)
    requires i < |chunks|
    ensures TotalLength(chunks) >= |chunks[i]|
  {
    if i == 0 {
    } else {
      TotalIsAtLeast(chunks[1..], i - 1);
    }
  }

  function Average(chunks: seq<Tokens>): real
    requires chunks != []
  {
    TotalLength(chunks) as real / |chunks| as real
  }

  lemma QuotientPositive(a: real, b: real)
    requires a > 0.0 && b > 0.0
    ensures a / b > 0.0
  {
  }

  lemma QuotientNotNegative(a: real, b: real)
    requires a >= 0.0 && b > 0.0
    ensures a / b >= 0.0
  {
    if a > 0.0 {
      QuotientPositive(a, b);
    }
  }

  lemma ProductPositive(a: real, b: real)
    requires a > 0.0 && b > 0.0
    ensures a * b > 0.0
  {
  }

  /** A chunk with a token makes the average positive, so no score divides by zero. */
  lemma AverageIsPositive(chunks: seq<Tokens>, i: nat)
    requires i < |chunks| && chunks[i] != []
    ensures Average(chunks) > 0.0
  {
    TotalIsAtLeast(chunks, i);
    QuotientPositive(TotalLength(chunks) as real, |chunks| as real);
  }

  // --- Scores ---

  function Rarity(ln: real -> real, chunks: seq<Tokens>, t: string): real {
    var n, df := |chunks| as real, Holders(chunks, t) as real;
    ln(1.0 + (n - df + 0.5) / (df + 0.5))
  }

  /** What a chunk's length adds to the denominator. */
  function LengthWeight(length: nat, average: real): (k: real)
    requires average > 0.0
    ensures k > 0.0
  {
    QuotientNotNegative(length as real, average);
    1.2 * (0.25 + 0.75 * (length as real / average))
  }

  /** A term from the token's weight, its count and the weight of the length. */
  function Saturated(r: real, c: real, k: real): real
    requires c + k > 0.0
  {
    r * c * 2.2 / (c + k)
  }

  function Term(ln: real -> real, chunks: seq<Tokens>, i: nat, t: string): real
    requires i < |chunks|
  {
    if t !in chunks[i] then 0.0
    else
      AverageIsPositive(chunks, i);
      Saturated(Rarity(ln, chunks, t), Count(chunks[i], t) as real, LengthWeight(|chunks[i]|, Average(chunks)))
  }

  /** A query's score for a chunk; a token the query repeats counts again. */
  function Score(ln: real -> real, chunks: seq<Tokens>, i: nat, query: Tokens): real
    requires i < |chunks|
  {
    if query == [] then 0.0
    else Score(ln, chunks, i, query[..|query| - 1]) + Term(ln, chunks, i, query[|query| - 1])
  }

  predicate Shares(chunk: Tokens, query: Tokens) {
    exists t :: t in query && t in chunk
  }

  lemma RarityIsPositive(ln: real -> real, chunks: seq<Tokens>, t: string)
    requires IsLog(ln)
    ensures Rarity(ln, chunks, t) > 0.0
  {
    var n, df := |chunks| as real, Holders(chunks, t) as real;
    QuotientPositive(n - df + 0.5, df + 0.5);
  }

  lemma SaturatedIsPositive(r: real, c: real, k: real)
    requires r > 0.0 && c > 0.0 && k > 0.0
    ensures Saturated(r, c, k) > 0.0
  {
    ProductPositive(r, c);
    QuotientPositive(r * c * 2.2, c + k);
  }

  lemma TermSign(ln: real -> real, chunks: seq<Tokens>, i: nat, t: string)
    requires IsLog(ln) && i < |chunks|
    ensures t in chunks[i] ==> Term(ln, chunks, i, t) > 0.0
    ensures t !in chunks[i] ==> Term(ln, chunks, i, t) == 0.0
  {
    if t in chunks[i] {
      RarityIsPositive(ln, chunks, t);
      AverageIsPositive(chunks, i);
      SaturatedIsPositive(Rarity(ln, chunks, t), Count(chunks[i], t) as real, LengthWeight(|chunks[i]|, Average(chunks)));
    }
  }

  /** A score is positive exactly for a chunk that shares a token with the query, and else zero. */
  lemma {:induction false} ScoreSign(ln: real -> real, chunks: seq<Tokens>, i: nat, query: Tokens)
    requires IsLog(ln) && i < |chunks|
    ensures Shares(chunks[i], query) ==> Score(ln, chunks, i, query) > 0.0
    ensures !Shares(chunks[i], query) ==> Score(ln, chunks, i, query) == 0.0
  {
    if query == [] {
    } else {
      var before, t := query[..|query| - 1], query[|query| - 1];
      ScoreSign(ln, chunks, i, before);
      TermSign(ln, chunks, i, t);
      assert query == before + [t];
      assert Shares(chunks[i], query) <==> Shares(chunks[i], before) || t in chunks[i];
    }
  }

  // --- What the numbers are ---

  lemma {:induction false} CountIsMultiplicity(tokens: Tokens, t: string)
    ensures Count(tokens, t) == multiset(tokens)[t]
  {
    if tokens == [] {
    } else {
      CountIsMultiplicity(tokens[1..], t);
      assert tokens == [tokens[0]] + tokens[1..];
    }
  }

  function Shifted(s: set<nat>): set<nat> {
    set i | i in s :: i + 1
  }

  lemma {:induction false} ShiftedSize(s: set<nat>)
    ensures |Shifted(s)| == |s|
  {
    if s == {} {
      assert Shifted(s) == {};
    } else {
      var x :| x in s;
      ShiftedSize(s - {x});
      assert x + 1 !in Shifted(s - {x});
      forall y | y in Shifted(s) ensures y in Shifted(s - {x}) + {x + 1} {
        var i :| i in s && i + 1 == y;
        assert i != x ==> i in s - {x};
      }
      assert Shifted(s) == Shifted(s - {x}) + {x + 1};
    }
  }

  ghost function HolderPlaces(chunks: seq<Tokens>, t: string): set<nat> {
    set i: nat | i < |chunks| && t in chunks[i]
  }

  lemma HolderPlacesCons(first: Tokens, rest: seq<Tokens>, t: string)
    ensures HolderPlaces([first] + rest, t) == Shifted(HolderPlaces(rest, t)) + if t in first then {0} else {}
  {
    var all := [first] + rest;
    forall i | i in HolderPlaces(all, t) && i > 0 ensures i in Shifted(HolderPlaces(rest, t)) {
      assert all[i] == rest[i - 1] && i - 1 in HolderPlaces(rest, t);
    }
    forall i | i in Shifted(HolderPlaces(rest, t)) ensures i in HolderPlaces(all, t) && i > 0 {
      assert all[i] == rest[i - 1];
    }
  }

  /** The number of places where the token is held. */
  lemma {:induction false} HoldersExactly(chunks: seq<Tokens>, t: string)
    ensures Holders(chunks, t) == |HolderPlaces(chunks, t)|
  {
    if chunks == [] {
      assert HolderPlaces(chunks, t) == {};
    } else {
      HoldersExactly(chunks[1..], t);
      HolderPlacesCons(chunks[0], chunks[1..], t);
      ShiftedSize(HolderPlaces(chunks[1..], t));
      assert chunks == [chunks[0]] + chunks[1..];
    }
  }

  lemma {:induction false} TotalTogether(a: seq<Tokens>, b: seq<Tokens>)
    ensures TotalLength(a + b) == TotalLength(a) + TotalLength(b)
  {
    if a == [] {
      assert a + b == b;
    } else {
      assert (a + b)[1..] == a[1..] + b;
      TotalTogether(a[1..], b);
    }
  }

  ghost predicate IsIncreasing(ln: real -> real) {
    forall x, y :: 0.0 < x < y ==> ln(x) < ln(y)
  }

  lemma QuotientFalls(a: real, b: real, c: real, d: real)
    requires a > c > 0.0 && 0.0 < b < d
    ensures a / b > c / d > 0.0
  {
    assert a / b > c / b by {
      assert a / b - c / b == (a - c) / b;
      QuotientPositive(a - c, b);
    }
    LargerBelow(c, b, d);
    QuotientPositive(c, d);
  }

  lemma LargerBelow(a: real, b: real, c: real)
    requires a > 0.0 && 0.0 < b < c
    ensures a / b > a / c
  {
    var q := a / c;
    QuotientPositive(a, c);
    assert q * c == a;
    ProductPositive(q, c - b);
    assert q * b < a;
    assert (a - q * b) / b == a / b - q;
    QuotientPositive(a - q * b, b);
  }

  /** A token that fewer chunks hold weighs more. */
  lemma RarerWeighsMore(ln: real -> real, chunks: seq<Tokens>, t: string, u: string)
    requires IsIncreasing(ln) && Holders(chunks, t) < Holders(chunks, u)
    ensures Rarity(ln, chunks, t) > Rarity(ln, chunks, u)
  {
    var n, rare, common := |chunks| as real, Holders(chunks, t) as real, Holders(chunks, u) as real;
    QuotientFalls(n - rare + 0.5, rare + 0.5, n - common + 0.5, common + 0.5);
  }

  lemma MoreSaturates(x: real, y: real, r: real, a: real, b: real, k: real)
    requires r > 0.0 && a > b > 0.0 && k > 0.0 && x == Saturated(r, a, k) && y == Saturated(r, b, k)
    ensures x > y
  {
    var w := r * 2.2;
    ProductPositive(w, k);
    LargerBelow(w * k, b + k, a + k);
    assert w * a / (a + k) == w - w * k / (a + k) by {
      assert w * a == w * (a + k) - w * k;
    }
    assert w * b / (b + k) == w - w * k / (b + k) by {
      assert w * b == w * (b + k) - w * k;
    }
    assert r * a * 2.2 == w * a && r * b * 2.2 == w * b;
  }

  lemma LongerDampens(x: real, y: real, r: real, c: real, k: real, m: real)
    requires r > 0.0 && c > 0.0 && 0.0 < k < m && x == Saturated(r, c, k) && y == Saturated(r, c, m)
    ensures x > y
  {
    ProductPositive(r, c);
    LargerBelow(r * c * 2.2, c + k, c + m);
  }

  /** More of a token in a chunk as long scores more. */
  lemma MoreOftenScoresMore(ln: real -> real, chunks: seq<Tokens>, i: nat, j: nat, t: string)
    requires IsLog(ln) && i < |chunks| && j < |chunks| && |chunks[i]| == |chunks[j]|
    requires Count(chunks[i], t) > Count(chunks[j], t)
    ensures Term(ln, chunks, i, t) > Term(ln, chunks, j, t)
  {
    if t in chunks[j] {
      RarityIsPositive(ln, chunks, t);
      AverageIsPositive(chunks, j);
      MoreSaturates(Term(ln, chunks, i, t), Term(ln, chunks, j, t), Rarity(ln, chunks, t),
                    Count(chunks[i], t) as real, Count(chunks[j], t) as real,
                    LengthWeight(|chunks[i]|, Average(chunks)));
    } else {
      TermSign(ln, chunks, i, t);
      TermSign(ln, chunks, j, t);
    }
  }

  lemma LongerWeighsMore(short: nat, long: nat, average: real)
    requires short < long && average > 0.0
    ensures LengthWeight(short, average) < LengthWeight(long, average)
  {
    QuotientPositive((long - short) as real, average);
    assert long as real / average - short as real / average == (long - short) as real / average;
  }

  /** As much of a token in a shorter chunk scores more. */
  lemma ShorterScoresMore(ln: real -> real, chunks: seq<Tokens>, i: nat, j: nat, t: string)
    requires IsLog(ln) && i < |chunks| && j < |chunks| && |chunks[i]| < |chunks[j]|
    requires Count(chunks[i], t) == Count(chunks[j], t) > 0
    ensures Term(ln, chunks, i, t) > Term(ln, chunks, j, t)
  {
    RarityIsPositive(ln, chunks, t);
    AverageIsPositive(chunks, i);
    LongerWeighsMore(|chunks[i]|, |chunks[j]|, Average(chunks));
    LongerDampens(Term(ln, chunks, i, t), Term(ln, chunks, j, t), Rarity(ln, chunks, t), Count(chunks[i], t) as real,
                  LengthWeight(|chunks[i]|, Average(chunks)), LengthWeight(|chunks[j]|, Average(chunks)));
  }

  lemma CountsOfExample(x: Tokens, y: Tokens)
    requires x == ["a"] && y == ["b", "c", "b"]
    ensures Count(y, "b") == 2 && Holders([x, y], "b") == 1 && Average([x, y]) == 2.0
  {
    CountIsMultiplicity(y, "b");
    assert [x, y] == [x] + [y] && [x, y][1..] == [y];
    assert Holders([y], "b") == 1;
    assert TotalLength([y]) == 3;
  }

  /** Two chunks of one and three tokens: one of the two holds "b", twice, and is half as long again as
      the average. A token that the query repeats counts again. */
  lemma ScoreOfExample(ln: real -> real, x: Tokens, y: Tokens)
    requires x == ["a"] && y == ["b", "c", "b"]
    ensures Score(ln, [x, y], 1, ["b"]) == ln(2.0) * 2.0 * 2.2 / (2.0 + 1.2 * (0.25 + 0.75 * 1.5))
    ensures Score(ln, [x, y], 1, ["b", "b"]) == 2.0 * Score(ln, [x, y], 1, ["b"])
  {
    CountsOfExample(x, y);
    assert Rarity(ln, [x, y], "b") == ln(2.0);
    assert LengthWeight(3, 2.0) == 1.2 * (0.25 + 0.75 * 1.5);
    ScorePush(ln, [x, y], 1, ["b", "b"], 1);
    ScorePush(ln, [x, y], 1, ["b"], 0);
    assert ["b", "b"][..2] == ["b", "b"] && ["b", "b"][..1] == ["b"] && ["b"][..1] == ["b"] && |["b"][..0]| == 0;
  }

  // --- Ranking ---

  /** Higher scores first, ties in document order. */
  predicate Precedes(a: Hit, b: Hit) {
    a.score > b.score || (a.score == b.score && a.at < b.at)
  }

  ghost predicate IsOrdered(hits: seq<Hit>) {
    forall i, j :: 0 <= i < j < |hits| ==> Precedes(hits[i], hits[j])
  }

  /** A chunk that shares a token with the query, and its score. */
  ghost predicate IsHit(ln: real -> real, chunks: seq<Tokens>, query: Tokens, h: Hit) {
    h.at < |chunks| && Shares(chunks[h.at], query) && h.score == Score(ln, chunks, h.at, query)
  }

  /** Exactly the chunks that share a token with the query, once each, with their scores, in order. */
  ghost predicate IsRanking(ln: real -> real, chunks: seq<Tokens>, query: Tokens, hits: seq<Hit>) {
    (forall h :: h in hits <==> IsHit(ln, chunks, query, h)) && IsOrdered(hits)
  }

  lemma FirstIsIn(s: seq<Hit>)
    ensures s != [] ==> s[0] in s
  {
  }

  lemma {:induction false} SameElementsSameOrder(a: seq<Hit>, b: seq<Hit>)
    requires IsOrdered(a) && IsOrdered(b) && forall h :: h in a <==> h in b
    ensures a == b
  {
    if a == [] {
      FirstIsIn(b);
    } else {
      assert a[0] in b && b != [] && b[0] in a;
      var i :| 0 <= i < |b| && b[i] == a[0];
      var j :| 0 <= j < |a| && a[j] == b[0];
      assert a[0] == b[0];
      forall h ensures h in a[1..] <==> h in b[1..] {
        TailHolds(a, h);
        TailHolds(b, h);
      }
      SameElementsSameOrder(a[1..], b[1..]);
      assert a == [a[0]] + a[1..] && b == [b[0]] + b[1..];
    }
  }

  lemma TailHolds(s: seq<Hit>, h: Hit)
    requires IsOrdered(s) && s != []
    ensures h in s[1..] <==> h in s && h != s[0]
  {
    if h in s[1..] {
      var k :| 0 <= k < |s| - 1 && s[1..][k] == h;
      assert Precedes(s[0], s[k + 1]);
    }
    assert s == [s[0]] + s[1..];
  }

  /** So a query has one ranking. */
  lemma RankingIsUnique(ln: real -> real, chunks: seq<Tokens>, query: Tokens, a: seq<Hit>, b: seq<Hit>)
    requires IsRanking(ln, chunks, query, a) && IsRanking(ln, chunks, query, b)
    ensures a == b
  {
    SameElementsSameOrder(a, b);
  }

  // --- The program ---

  /** Where a stable sort by falling score puts one more element that comes last in the input. */
  function Insert(hits: seq<Hit>, h: Hit): seq<Hit> {
    if hits != [] && hits[|hits| - 1].score < h.score then Insert(hits[..|hits| - 1], h) + [hits[|hits| - 1]]
    else hits + [h]
  }

  /** A stable sort by falling score. */
  function Sorted(hits: seq<Hit>): seq<Hit> {
    if hits == [] then [] else Insert(Sorted(hits[..|hits| - 1]), hits[|hits| - 1])
  }

  lemma {:induction false} InsertHolds(hits: seq<Hit>, h: Hit)
    ensures forall x :: x in Insert(hits, h) <==> x == h || x in hits
  {
    if hits != [] && hits[|hits| - 1].score < h.score {
      InsertHolds(hits[..|hits| - 1], h);
      assert hits == hits[..|hits| - 1] + [hits[|hits| - 1]];
    }
  }

  lemma {:induction false} InsertKeepsOrder(hits: seq<Hit>, h: Hit)
    requires IsOrdered(hits) && forall x :: x in hits ==> x.at < h.at
    ensures IsOrdered(Insert(hits, h))
  {
    if hits != [] && hits[|hits| - 1].score < h.score {
      var before, last := hits[..|hits| - 1], hits[|hits| - 1];
      assert forall x :: x in before ==> x in hits;
      InsertKeepsOrder(before, h);
      InsertHolds(before, h);
      var s := Insert(before, h);
      forall i | 0 <= i < |s| ensures Precedes(s[i], last) {
        assert s[i] in s;
        if s[i] != h {
          var k :| 0 <= k < |before| && before[k] == s[i];
          assert hits[k] == s[i];
        }
      }
    } else {
      forall i | 0 <= i < |hits| ensures Precedes(hits[i], h) {
        assert hits[i] in hits;
        assert i < |hits| - 1 ==> Precedes(hits[i], hits[|hits| - 1]);
      }
    }
  }

  /** In document order before, in ranking order after, and the same hits. */
  lemma {:induction false} SortedIsOrdered(hits: seq<Hit>)
    requires forall i, j :: 0 <= i < j < |hits| ==> hits[i].at < hits[j].at
    ensures IsOrdered(Sorted(hits)) && forall x :: x in Sorted(hits) <==> x in hits
  {
    if hits == [] {
    } else {
      var before, last := hits[..|hits| - 1], hits[|hits| - 1];
      SortedIsOrdered(before);
      assert hits == before + [last];
      InsertKeepsOrder(Sorted(before), last);
      InsertHolds(Sorted(before), last);
    }
  }

  lemma ScorePush(ln: real -> real, chunks: seq<Tokens>, i: nat, query: Tokens, k: nat)
    requires i < |chunks| && k < |query|
    ensures Score(ln, chunks, i, query[..k + 1]) == Score(ln, chunks, i, query[..k]) + Term(ln, chunks, i, query[k])
  {
    assert query[..k + 1][..k] == query[..k];
  }

  /** The inner loop of _bm25. */
  method ScoreChunk(ln: real -> real, chunks: seq<Tokens>, i: nat, query: Tokens) returns (s: real)
    requires i < |chunks|
    ensures s == Score(ln, chunks, i, query)
  {
    s := 0.0;
    for k := 0 to |query|
      invariant s == Score(ln, chunks, i, query[..k])
    {
      ScorePush(ln, chunks, i, query, k);
      var tf := Count(chunks[i], query[k]);
      if tf == 0 {
        continue;
      }
      AverageIsPositive(chunks, i);
      s := s + Saturated(Rarity(ln, chunks, query[k]), tf as real, LengthWeight(|chunks[i]|, Average(chunks)));
    }
    assert query[..|query|] == query;
  }

  ghost predicate IsScored(ln: real -> real, chunks: seq<Tokens>, query: Tokens, hits: seq<Hit>, n: nat) {
    && (forall h :: h in hits <==> h.at < n && IsHit(ln, chunks, query, h))
    && forall i, j :: 0 <= i < j < |hits| ==> hits[i].at < hits[j].at
  }

  /** _bm25, from the query's tokens on. */
  method Rank(ln: real -> real, chunks: seq<Tokens>, query: Tokens) returns (hits: seq<Hit>)
    requires IsLog(ln)
    ensures IsRanking(ln, chunks, query, hits)
    ensures forall h :: h in hits ==> h.score > 0.0
  {
    if query == [] || chunks == [] {
      return [];
    }
    var scored: seq<Hit> := [];
    for i := 0 to |chunks|
      invariant IsScored(ln, chunks, query, scored, i)
    {
      var s := ScoreChunk(ln, chunks, i, query);
      ScoreSign(ln, chunks, i, query);
      ghost var was := scored;
      if s != 0.0 {
        scored := scored + [Hit(s, i)];
      }
      OneMoreScored(ln, chunks, query, was, i);
    }
    SortedIsOrdered(scored);
    hits := Sorted(scored);
    forall h | h in hits ensures h.score > 0.0 {
      ScoreSign(ln, chunks, h.at, query);
    }
  }

  lemma HitAt(ln: real -> real, chunks: seq<Tokens>, query: Tokens, i: nat)
    requires IsLog(ln) && i < |chunks|
    ensures var s := Score(ln, chunks, i, query);
            forall h: Hit :: h.at == i ==> (IsHit(ln, chunks, query, h) <==> s != 0.0 && h == Hit(s, i))
  {
    ScoreSign(ln, chunks, i, query);
  }

  lemma {:induction false} OneMoreScored(ln: real -> real, chunks: seq<Tokens>, query: Tokens, hits: seq<Hit>, i: nat)
    requires IsLog(ln) && i < |chunks| && IsScored(ln, chunks, query, hits, i)
    ensures var s := Score(ln, chunks, i, query);
            IsScored(ln, chunks, query, if s != 0.0 then hits + [Hit(s, i)] else hits, i + 1)
  {
    HitAt(ln, chunks, query, i);
    assert forall k :: 0 <= k < |hits| ==> hits[k] in hits;
  }
}
