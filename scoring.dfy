/** The gift-scoring engine `calculateGifts`. routes/quiz.js and routes/admin.js each carry a
    copy of it; the two copies are the same text, so this one model stands for both. */
module Scoring {
  import opened Store
  import StableSort

  /** The top of the answer scale: each answer adds this much to a category's `maxScore`. */
  const PointsPerAnswer := 5

  /** One entry of `giftScores`, keyed by its category. */
  datatype Accumulator = Accumulator(category: string, totalScore: int, maxScore: int, count: int)

  /** One element of `giftsArray`, before the description is attached. */
  datatype GiftScore = GiftScore(category: string, score: int, maxScore: int, percentage: int)

  /** One element of the enriched result. */
  datatype Gift = Gift(category: string, score: int, maxScore: int, percentage: int, description: string)

  // ---------------------------------------------------------------------------------------
  // Reference definitions

  /** The distinct categories of `rows`, in the order they are first met. */
  function Categories(rows: seq<AnswerRow>): seq<string> {
    if rows == [] then []
    else
      var cs := Categories(rows[..|rows| - 1]);
      var c := rows[|rows| - 1].giftCategory;
      if c in cs then cs else cs + [c]
  }

  /** The sum of the answers given in category `c`. */
  function Total(rows: seq<AnswerRow>, c: string): int {
    if rows == [] then 0
    else
      var r := rows[|rows| - 1];
      Total(rows[..|rows| - 1], c) + (if r.giftCategory == c then r.answerValue else 0)
  }

  /** The number of answers given in category `c`. */
  function Count(rows: seq<AnswerRow>, c: string): nat {
    if rows == [] then 0
    else
      var r := rows[|rows| - 1];
      Count(rows[..|rows| - 1], c) + (if r.giftCategory == c then 1 else 0)
  }

  /** `Math.round(score / maxScore * 100)` in exact arithmetic: the integer nearest to
      100 * score / maxScore, a tie going up. */
  function Percentage(score: int, maxScore: int): (p: int)
    requires maxScore > 0
    ensures (2 * p - 1) * maxScore <= 200 * score < (2 * p + 1) * maxScore
  {
    var n, d := 200 * score + maxScore, 2 * maxScore;
    var p := n / d;
    assert n == d * p + n % d && 0 <= n % d < d;
    assert (2 * p - 1) * maxScore == d * p - maxScore;
    assert (2 * p + 1) * maxScore == d * p + maxScore;
    p
  }

  function ScoreOf(rows: seq<AnswerRow>, c: string): GiftScore
    requires Count(rows, c) > 0
  {
    var total, max := Total(rows, c), PointsPerAnswer * Count(rows, c);
    GiftScore(c, total, max, Percentage(total, max))
  }

  /** One score per category, in first-seen order (what `Object.values(giftScores)` gives). */
  function Tally(rows: seq<AnswerRow>): seq<GiftScore> {
    var cs := Categories(rows);
    CategoriesAreCounted(rows);
    seq(|cs|, k requires 0 <= k < |cs| => ScoreOf(rows, cs[k]))
  }

  function Pct(g: GiftScore): int { g.percentage }

  /** `giftsArray` after `sort((a, b) => b.percentage - a.percentage)`. */
  function Ranked(rows: seq<AnswerRow>): seq<GiftScore> {
    StableSort.Sort(Tally(rows), Pct)
  }

  /** `descMap`: each description row sets its category, a later row overwriting an earlier. */
  function DescriptionMap(descriptions: seq<GiftDescription>): map<string, string> {
    if descriptions == [] then map[]
    else
      var d := descriptions[|descriptions| - 1];
      DescriptionMap(descriptions[..|descriptions| - 1])[d.giftCategory := d.description]
  }

  /** `descMap[category] || ''`. */
  function Lookup(descMap: map<string, string>, c: string): string {
    if c in descMap then descMap[c] else ""
  }

  function DescriptionFor(descriptions: seq<GiftDescription>, c: string): string {
    Lookup(DescriptionMap(descriptions), c)
  }

  function Describe(g: GiftScore, descMap: map<string, string>): Gift {
    Gift(g.category, g.score, g.maxScore, g.percentage, Lookup(descMap, g.category))
  }

  /** What `calculateGifts` hands to its callback. */
  function Gifts(rows: seq<AnswerRow>, descriptions: seq<GiftDescription>): seq<Gift> {
    var ranked, m := Ranked(rows), DescriptionMap(descriptions);
    seq(|ranked|, k requires 0 <= k < |ranked| => Describe(ranked[k], m))
  }

  // ---------------------------------------------------------------------------------------
  // The engine

  function Summarise(a: Accumulator): GiftScore
    requires a.maxScore > 0
  {
    GiftScore(a.category, a.totalScore, a.maxScore, Percentage(a.totalScore, a.maxScore))
  }

  /** The first loop of `calculateGifts`: one accumulator per category, and the categories
      in the order JavaScript lists an object's keys (insertion order). */
  method Accumulate(rows: seq<AnswerRow>) returns (giftScores: map<string, Accumulator>, keys: seq<string>)
    ensures keys == Categories(rows)
    ensures forall c :: c in giftScores <==> c in keys
    ensures forall c :: c in giftScores ==>
      giftScores[c] == Accumulator(c, Total(rows, c), PointsPerAnswer * Count(rows, c), Count(rows, c))
  {
    giftScores, keys := map[], [];
    for i := 0 to |rows|
      invariant keys == Categories(rows[..i])
      invariant forall c :: c in giftScores <==> c in keys
      invariant forall c :: c in giftScores ==>
        giftScores[c] == Accumulator(c, Total(rows[..i], c), PointsPerAnswer * Count(rows[..i], c), Count(rows[..i], c))
    {
      var r := rows[i];
      PrefixStep(rows, i);
      if r.giftCategory !in giftScores {
        UnseenCategory(rows[..i], r.giftCategory);
        giftScores := giftScores[r.giftCategory := Accumulator(r.giftCategory, 0, 0, 0)];
        keys := keys + [r.giftCategory];
      }
      var g := giftScores[r.giftCategory];
      giftScores := giftScores[r.giftCategory := g.(totalScore := g.totalScore + r.answerValue,
                                                   maxScore := g.maxScore + PointsPerAnswer,
                                                   count := g.count + 1)];
    }
    assert rows[..|rows|] == rows;
  }

  /** The loop that fills `descMap` from the description rows. */
  method BuildDescriptionMap(descriptions: seq<GiftDescription>) returns (descMap: map<string, string>)
    ensures descMap == DescriptionMap(descriptions)
  {
    descMap := map[];
    for i := 0 to |descriptions|
      invariant descMap == DescriptionMap(descriptions[..i])
    {
      assert descriptions[..i + 1][..i] == descriptions[..i];
      descMap := descMap[descriptions[i].giftCategory := descriptions[i].description];
    }
    assert descriptions[..|descriptions|] == descriptions;
  }

  /** `calculateGifts(responses, callback)` with the description table read in: accumulates
      `giftScores` row by row, turns it into `giftsArray`, sorts that in place, builds
      `descMap` and attaches the descriptions. */
  method CalculateGifts(rows: seq<AnswerRow>, descriptions: seq<GiftDescription>) returns (gifts: seq<Gift>)
    ensures gifts == Gifts(rows, descriptions)
  {
    var giftScores, keys := Accumulate(rows);
    CategoriesAreCounted(rows);
    var giftsArray := new GiftScore[|keys|](k requires 0 <= k < |keys| => Summarise(giftScores[keys[k]]));
    assert giftsArray[..] == Tally(rows);
    StableSort.SortInPlace(giftsArray, Pct);
    var descMap := BuildDescriptionMap(descriptions);
    gifts := seq(giftsArray.Length, k requires 0 <= k < giftsArray.Length reads giftsArray => Describe(giftsArray[k], descMap));
  }

  // ---------------------------------------------------------------------------------------
  // Facts about the reference definitions

  /** How the reference definitions grow by one row. */
  lemma PrefixStep(rows: seq<AnswerRow>, i: int)
    requires 0 <= i < |rows|
    ensures Categories(rows[..i + 1]) ==
      (if rows[i].giftCategory in Categories(rows[..i]) then Categories(rows[..i]) else Categories(rows[..i]) + [rows[i].giftCategory])
    ensures forall c :: Total(rows[..i + 1], c) == Total(rows[..i], c) + (if rows[i].giftCategory == c then rows[i].answerValue else 0)
    ensures forall c :: Count(rows[..i + 1], c) == Count(rows[..i], c) + (if rows[i].giftCategory == c then 1 else 0)
  {
    assert rows[..i + 1][..i] == rows[..i];
  }

  /** A category is listed exactly when some row has it. */
  lemma {:induction false} CategoriesAreThoseAnswered(rows: seq<AnswerRow>)
    ensures forall c :: c in Categories(rows) <==> exists i :: 0 <= i < |rows| && rows[i].giftCategory == c
  {
    if rows != [] {
      var front := rows[..|rows| - 1];
      CategoriesAreThoseAnswered(front);
      forall c ensures c in Categories(rows) <==> exists i :: 0 <= i < |rows| && rows[i].giftCategory == c {
        if c in Categories(front) {
          var i :| 0 <= i < |front| && front[i].giftCategory == c;
          assert rows[i].giftCategory == c;
        }
        if exists i :: 0 <= i < |rows| && rows[i].giftCategory == c {
          var i :| 0 <= i < |rows| && rows[i].giftCategory == c;
          if i < |front| { assert front[i].giftCategory == c; }
        }
      }
    }
  }

  /** No category is listed twice. */
  lemma {:induction false} CategoriesDistinct(rows: seq<AnswerRow>)
    ensures forall a, b :: 0 <= a < b < |Categories(rows)| ==> Categories(rows)[a] != Categories(rows)[b]
  {
    if rows != [] {
      CategoriesDistinct(rows[..|rows| - 1]);
    }
  }

  /** A category not yet met has no answers and no points. */
  lemma {:induction false} UnseenCategory(rows: seq<AnswerRow>, c: string)
    requires c !in Categories(rows)
    ensures Count(rows, c) == 0 && Total(rows, c) == 0
  {
    if rows != [] {
      UnseenCategory(rows[..|rows| - 1], c);
    }
  }

  /** Every listed category has at least one answer. */
  lemma {:induction false} CategoriesAreCounted(rows: seq<AnswerRow>)
    ensures forall c :: c in Categories(rows) ==> Count(rows, c) > 0
  {
    if rows != [] {
      CategoriesAreCounted(rows[..|rows| - 1]);
    }
  }

  /** With every answer on the 1..5 scale, a category's total lies between its count and
      five times its count. */
  lemma {:induction false} TotalOnScale(rows: seq<AnswerRow>, c: string)
    requires forall i :: 0 <= i < |rows| ==> 1 <= rows[i].answerValue <= PointsPerAnswer
    ensures Count(rows, c) <= Total(rows, c) <= PointsPerAnswer * Count(rows, c)
  {
    if rows != [] {
      TotalOnScale(rows[..|rows| - 1], c);
    }
  }

  /** A category no description row has gets the empty string. */
  lemma {:induction false} DescriptionMissing(descriptions: seq<GiftDescription>, c: string)
    requires forall k :: 0 <= k < |descriptions| ==> descriptions[k].giftCategory != c
    ensures DescriptionFor(descriptions, c) == ""
  {
    if descriptions != [] {
      var front := descriptions[..|descriptions| - 1];
      forall k | 0 <= k < |front| ensures front[k].giftCategory != c {
        assert front[k] == descriptions[k];
      }
      DescriptionMissing(front, c);
    }
  }

  /** Otherwise it gets the description of the last row for that category. */
  lemma {:induction false} DescriptionIsLastRow(descriptions: seq<GiftDescription>, c: string, k: int)
    requires 0 <= k < |descriptions| && descriptions[k].giftCategory == c
    requires forall k' :: k < k' < |descriptions| ==> descriptions[k'].giftCategory != c
    ensures DescriptionFor(descriptions, c) == descriptions[k].description
  {
    var front := descriptions[..|descriptions| - 1];
    if k < |front| {
      forall k' | k < k' < |front| ensures front[k'].giftCategory != c {
        assert front[k'] == descriptions[k'];
      }
      DescriptionIsLastRow(front, c, k);
    }
  }

  lemma MulCancel(a: int, b: int, m: int)
    requires m > 0 && a * m <= b * m
    ensures a <= b
  {
    assert a * m - b * m == (a - b) * m;
  }

  /** On the 1..5 scale a category scores at most its maximum, hence at most 100 percent,
      and at least 20 percent (every answer gives at least one point of five). */
  lemma PercentageOnScale(score: int, count: int)
    requires count > 0 && count <= score <= PointsPerAnswer * count
    ensures 20 <= Percentage(score, PointsPerAnswer * count) <= 100
  {
    var m := PointsPerAnswer * count;
    var p := Percentage(score, m);
    assert (2 * p - 1) * m <= 200 * score <= 200 * m;
    MulCancel(2 * p - 1, 200, m);
    assert 40 * m <= 200 * score < (2 * p + 1) * m;
    MulCancel(40, 2 * p + 1, m);
  }

  // ---------------------------------------------------------------------------------------
  // What the engine promises

  /** Each gift's ranked entry is the score of its own category. */
  lemma RankedEntries(rows: seq<AnswerRow>, k: int)
    requires 0 <= k < |Ranked(rows)|
    ensures |Ranked(rows)| == |Categories(rows)|
    ensures exists m :: 0 <= m < |Categories(rows)| && Categories(rows)[m] == Ranked(rows)[k].category
    ensures Count(rows, Ranked(rows)[k].category) > 0
    ensures Ranked(rows)[k] == ScoreOf(rows, Ranked(rows)[k].category)
  {
    var t := Tally(rows);
    StableSort.SortPermutes(t, Pct);
    assert |multiset(Ranked(rows))| == |multiset(t)|;
    assert Ranked(rows)[k] in multiset(t);
    var m :| 0 <= m < |t| && t[m] == Ranked(rows)[k];
    CategoriesAreCounted(rows);
  }

  /** The ranking holds one entry per distinct category, each the score of its category. */
  lemma RankedIsPermutation(rows: seq<AnswerRow>)
    ensures multiset(Ranked(rows)) == multiset(Tally(rows))
    ensures |Ranked(rows)| == |Categories(rows)|
  {
    StableSort.SortPermutes(Tally(rows), Pct);
    assert |multiset(Ranked(rows))| == |multiset(Tally(rows))|;
  }

  /** Some gift carries every category the answers mention. */
  lemma CategoryHasGift(rows: seq<AnswerRow>, descriptions: seq<GiftDescription>, i: int)
    requires 0 <= i < |rows|
    ensures exists k :: 0 <= k < |Gifts(rows, descriptions)| && Gifts(rows, descriptions)[k].category == rows[i].giftCategory
  {
    var t, r := Tally(rows), Ranked(rows);
    var cs := Categories(rows);
    CategoriesAreThoseAnswered(rows);
    RankedIsPermutation(rows);
    assert rows[i].giftCategory in cs;
    var m :| 0 <= m < |cs| && cs[m] == rows[i].giftCategory;
    assert t[m] in multiset(r);
    var k :| 0 <= k < |r| && r[k] == t[m];
    assert Gifts(rows, descriptions)[k].category == rows[i].giftCategory;
  }

  /** Every gift's category is one the answers mention. */
  lemma GiftHasCategory(rows: seq<AnswerRow>, descriptions: seq<GiftDescription>, k: int)
    requires 0 <= k < |Gifts(rows, descriptions)|
    ensures exists i :: 0 <= i < |rows| && rows[i].giftCategory == Gifts(rows, descriptions)[k].category
  {
    RankedEntries(rows, k);
    CategoriesAreThoseAnswered(rows);
    assert Gifts(rows, descriptions)[k].category in Categories(rows);
  }

  /** No two gifts share a category. */
  lemma GiftsDistinct(rows: seq<AnswerRow>, descriptions: seq<GiftDescription>)
    ensures forall a, b :: 0 <= a < b < |Gifts(rows, descriptions)| ==>
              Gifts(rows, descriptions)[a].category != Gifts(rows, descriptions)[b].category
  {
    var t, r := Tally(rows), Ranked(rows);
    var cs := Categories(rows);
    RankedIsPermutation(rows);
    CategoriesDistinct(rows);
    assert StableSort.DistinctBy(t, (x: GiftScore) => x.category) by {
      forall a, b | 0 <= a < b < |t| ensures t[a].category != t[b].category {
        assert t[a].category == cs[a] && t[b].category == cs[b];
      }
    }
    StableSort.PermutationKeepsDistinct(r, t, (x: GiftScore) => x.category);
    forall a, b | 0 <= a < b < |Gifts(rows, descriptions)|
      ensures Gifts(rows, descriptions)[a].category != Gifts(rows, descriptions)[b].category
    {
      assert Gifts(rows, descriptions)[a].category == r[a].category;
      assert Gifts(rows, descriptions)[b].category == r[b].category;
    }
  }

  /** The result has one entry per distinct category of the input and no other, each
      category once; no answers give no gifts. */
  lemma GiftsMatchCategories(rows: seq<AnswerRow>, descriptions: seq<GiftDescription>)
    ensures |Gifts(rows, descriptions)| == |Categories(rows)|
    ensures rows == [] ==> Gifts(rows, descriptions) == []
    ensures forall k :: 0 <= k < |Gifts(rows, descriptions)| ==>
              exists i :: 0 <= i < |rows| && rows[i].giftCategory == Gifts(rows, descriptions)[k].category
    ensures forall i :: 0 <= i < |rows| ==>
              exists k :: 0 <= k < |Gifts(rows, descriptions)| && Gifts(rows, descriptions)[k].category == rows[i].giftCategory
    ensures forall a, b :: 0 <= a < b < |Gifts(rows, descriptions)| ==>
              Gifts(rows, descriptions)[a].category != Gifts(rows, descriptions)[b].category
  {
    var g := Gifts(rows, descriptions);
    RankedIsPermutation(rows);
    forall k | 0 <= k < |g| ensures exists i :: 0 <= i < |rows| && rows[i].giftCategory == g[k].category {
      GiftHasCategory(rows, descriptions, k);
    }
    forall i | 0 <= i < |rows| ensures exists k :: 0 <= k < |g| && g[k].category == rows[i].giftCategory {
      CategoryHasGift(rows, descriptions, i);
    }
    GiftsDistinct(rows, descriptions);
  }

  /** Each gift's score is the sum of the answers in its category, its maximum five points
      per answer, its percentage the rounded ratio of the two, and its description the
      lookup table's entry for the category. */
  lemma GiftScoresAreSums(rows: seq<AnswerRow>, descriptions: seq<GiftDescription>)
    ensures forall k :: 0 <= k < |Gifts(rows, descriptions)| ==>
      var g := Gifts(rows, descriptions)[k];
      && Count(rows, g.category) > 0
      && g.score == Total(rows, g.category)
      && g.maxScore == PointsPerAnswer * Count(rows, g.category)
      && g.percentage == Percentage(g.score, g.maxScore)
      && g.description == DescriptionFor(descriptions, g.category)
  {
    forall k | 0 <= k < |Gifts(rows, descriptions)| ensures Count(rows, Gifts(rows, descriptions)[k].category) > 0 && Gifts(rows, descriptions)[k].score == Total(rows, Gifts(rows, descriptions)[k].category) {
      RankedEntries(rows, k);
    }
    forall k | 0 <= k < |Gifts(rows, descriptions)| ensures Gifts(rows, descriptions)[k].maxScore == PointsPerAnswer * Count(rows, Gifts(rows, descriptions)[k].category)
        && Gifts(rows, descriptions)[k].percentage == Percentage(Gifts(rows, descriptions)[k].score, Gifts(rows, descriptions)[k].maxScore) {
      RankedEntries(rows, k);
    }
  }

  /** The gifts come out by non-increasing percentage. */
  lemma GiftsRanked(rows: seq<AnswerRow>, descriptions: seq<GiftDescription>)
    ensures forall a, b :: 0 <= a < b < |Gifts(rows, descriptions)| ==>
              Gifts(rows, descriptions)[a].percentage >= Gifts(rows, descriptions)[b].percentage
  {
    StableSort.SortOrders(Tally(rows), Pct);
    var r := Ranked(rows);
    forall a, b | 0 <= a < b < |r| ensures r[a].percentage >= r[b].percentage {
      assert Pct(r[a]) >= Pct(r[b]);
    }
  }

  /** Gifts with equal percentages keep the order in which their categories were first met. */
  lemma GiftsTiesKeepFirstSeenOrder(rows: seq<AnswerRow>, descriptions: seq<GiftDescription>, a: int, b: int)
    requires 0 <= a < b < |Gifts(rows, descriptions)|
    requires Gifts(rows, descriptions)[a].percentage == Gifts(rows, descriptions)[b].percentage
    ensures exists a', b' :: 0 <= a' < b' < |Categories(rows)|
              && Categories(rows)[a'] == Gifts(rows, descriptions)[a].category
              && Categories(rows)[b'] == Gifts(rows, descriptions)[b].category
  {
    var t, r := Tally(rows), Ranked(rows);
    StableSort.SortIsStable(t, Pct);
    assert Pct(r[a]) == Pct(r[b]);
    var a', b' :| 0 <= a' < b' < |t| && t[a'] == r[a] && t[b'] == r[b];
    assert Categories(rows)[a'] == Gifts(rows, descriptions)[a].category;
  }

  /** When every answer lies on the advertised 1..5 scale, no gift scores over its maximum
      and every percentage lies between 20 and 100. */
  lemma GiftsOnScale(rows: seq<AnswerRow>, descriptions: seq<GiftDescription>)
    requires forall i :: 0 <= i < |rows| ==> 1 <= rows[i].answerValue <= PointsPerAnswer
    ensures forall k :: 0 <= k < |Gifts(rows, descriptions)| ==>
      Gifts(rows, descriptions)[k].score <= Gifts(rows, descriptions)[k].maxScore
      && 20 <= Gifts(rows, descriptions)[k].percentage <= 100
  {
    GiftScoresAreSums(rows, descriptions);
    forall k | 0 <= k < |Gifts(rows, descriptions)|
      ensures Gifts(rows, descriptions)[k].score <= Gifts(rows, descriptions)[k].maxScore
      ensures 20 <= Gifts(rows, descriptions)[k].percentage <= 100
    {
      var g := Gifts(rows, descriptions)[k];
      TotalOnScale(rows, g.category);
      PercentageOnScale(g.score, Count(rows, g.category));
    }
  }

  /** The sums of a category over two runs of rows add up. */
  lemma {:induction false} TallyAppend(a: seq<AnswerRow>, b: seq<AnswerRow>, c: string)
    ensures Total(a + b, c) == Total(a, c) + Total(b, c)
    ensures Count(a + b, c) == Count(a, c) + Count(b, c)
  {
    if b != [] {
      TallyAppend(a, b[..|b| - 1], c);
      assert (a + b)[..|a + b| - 1] == a + b[..|b| - 1];
    } else {
      assert a + b == a;
    }
  }

  /** A category's score and answer count do not depend on the order of the rows. */
  lemma {:induction false} TallyPermutation(r1: seq<AnswerRow>, r2: seq<AnswerRow>, c: string)
    requires multiset(r1) == multiset(r2)
    ensures Total(r1, c) == Total(r2, c) && Count(r1, c) == Count(r2, c)
    decreases |r1|
  {
    if r1 == [] {
      assert |r2| == |multiset(r2)| == 0;
    } else {
      var n := |r1| - 1;
      var x := r1[n];
      assert x in multiset(r2);
      var j :| 0 <= j < |r2| && r2[j] == x;
      var rest := r2[..j] + r2[j + 1..];
      assert r2 == r2[..j] + [x] + r2[j + 1..];
      StableSort.DropMatching(r1, r2, j);
      TallyPermutation(r1[..n], rest, c);
      TallyAppend(r2[..j], [x], c);
      TallyAppend(r2[..j] + [x], r2[j + 1..], c);
      TallyAppend(r2[..j], r2[j + 1..], c);
      assert [x][..0] == [];
    }
  }

  /** A gift is fixed by its category: its sums over the rows and its description. */
  lemma GiftIsSum(rows: seq<AnswerRow>, descriptions: seq<GiftDescription>, k: int)
    requires 0 <= k < |Gifts(rows, descriptions)|
    ensures var c := Gifts(rows, descriptions)[k].category;
      Count(rows, c) > 0 &&
      Gifts(rows, descriptions)[k]
        == Gift(c, Total(rows, c), PointsPerAnswer * Count(rows, c),
                Percentage(Total(rows, c), PointsPerAnswer * Count(rows, c)), DescriptionFor(descriptions, c))
  {
    GiftScoresAreSums(rows, descriptions);
  }

  /** Every gift computed from `r1` is computed from any rearrangement `r2` of it. */
  lemma GiftsIncluded(r1: seq<AnswerRow>, r2: seq<AnswerRow>, descriptions: seq<GiftDescription>, g: Gift)
    requires multiset(r1) == multiset(r2)
    requires g in Gifts(r1, descriptions)
    ensures g in Gifts(r2, descriptions)
  {
    var g1, g2 := Gifts(r1, descriptions), Gifts(r2, descriptions);
    var k :| 0 <= k < |g1| && g1[k] == g;
    GiftHasCategory(r1, descriptions, k);
    var i :| 0 <= i < |r1| && r1[i].giftCategory == g.category;
    assert r1[i] in multiset(r2);
    var j :| 0 <= j < |r2| && r2[j] == r1[i];
    CategoryHasGift(r2, descriptions, j);
    var k2 :| 0 <= k2 < |g2| && g2[k2].category == g.category;
    GiftIsSum(r1, descriptions, k);
    GiftIsSum(r2, descriptions, k2);
    TallyPermutation(r1, r2, g.category);
    assert g2[k2] == g;
  }

  /** The gifts do not depend on the order of the answer rows, only their ranking among
      equal percentages does. */
  lemma GiftsPermutationInvariant(r1: seq<AnswerRow>, r2: seq<AnswerRow>, descriptions: seq<GiftDescription>)
    requires multiset(r1) == multiset(r2)
    ensures multiset(Gifts(r1, descriptions)) == multiset(Gifts(r2, descriptions))
  {
    var g1, g2 := Gifts(r1, descriptions), Gifts(r2, descriptions);
    forall g ensures g in g1 <==> g in g2 {
      if g in g1 { GiftsIncluded(r1, r2, descriptions, g); }
      if g in g2 { GiftsIncluded(r2, r1, descriptions, g); }
    }
    GiftsDistinct(r1, descriptions);
    GiftsDistinct(r2, descriptions);
    assert StableSort.DistinctBy(g1, (x: Gift) => x.category);
    assert StableSort.DistinctBy(g2, (x: Gift) => x.category);
    StableSort.SameElementsSameMultiset(g1, g2, (x: Gift) => x.category);
  }
}
