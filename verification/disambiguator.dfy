/** Resolving a phrase to a Wikipedia page with the help of a hint phrase:
    both phrases are mapped to ranked candidate articles, and the pair of
    articles whose weighted similarity is largest wins, the first such pair in
    iteration order on ties. The concept mapper, the title-to-id lookup and
    the similarity scorer are parameters. */
module Disambiguator {
  import opened JavaTypes

  /** One entry of the mapper's `LinkedHashMap<String, Float>`: an article
      title and its weight, in the map's iteration order. */
  datatype Concept = Concept(article: string, score: real)

  /** What `scorer.score(wpId1, wpId2)` gives: it may throw, return `null`,
      or return a `SimScore` that may or may not carry a value. */
  datatype ScoreOutcome = ScoreFailed | NullScore | Scored(hasValue: bool, sim: real)

  /** `Disambiguator.Match`. Unset `int` fields stay 0 and unset `String`
      fields stay `null` (`None`). */
  datatype Match = Match(
    phrase: string,
    hint: Option<string>,
    phraseWpId: int,
    hintWpId: int,
    phraseWpName: Option<string>,
    hintWpName: Option<string>)

  datatype DisambiguationError =
    | NullPointer                              // a concept map was null
    | ScorerFailed(wpId1: int, wpId2: int)     // the scorer threw for this pair

  // ---------------------------------------------------------------------
  // The path without a hint

  /** The index of the first concept whose title resolves to an id `> 0`. */
  function FirstResolved(cs: seq<Concept>, titleToWpId: string -> int): (r: Option<nat>)
    ensures r.Some? ==> r.value < |cs| && titleToWpId(cs[r.value].article) > 0
    ensures r.Some? ==> forall k :: 0 <= k < r.value ==> titleToWpId(cs[k].article) <= 0
    ensures r.None? ==> forall k :: 0 <= k < |cs| ==> titleToWpId(cs[k].article) <= 0
  {
    if |cs| == 0 then None
    else if titleToWpId(cs[0].article) > 0 then Some(0)
    else match FirstResolved(cs[1..], titleToWpId)
      case None => None
      case Some(k) => Some(k + 1)
  }

  // ---------------------------------------------------------------------
  // The pair search, as the source writes it: two nested loops

  /** A candidate pair that passed the id checks, with `score1 * score2`. */
  datatype Pair = Pair(article1: string, wpId1: int, article2: string, wpId2: int, weight: real)

  /** The best pair so far and its score (`bestScore`). */
  datatype Ranked = Ranked(score: real, pair: Pair)

  /** One turn of the inner loop body once both ids passed: ask the scorer,
      skip a null or valueless score, and take the pair when its score beats
      the best so far. `bestScore` starts at negative infinity, so the first
      scored pair is always taken. A scorer failure ends the search. */
  function Step(st: Result<Option<Ranked>, DisambiguationError>, p: Pair, scorer: (int, int) -> ScoreOutcome): Result<Option<Ranked>, DisambiguationError>
  {
    match st
    case Err(e) => Err(e)
    case Ok(best) =>
      match scorer(p.wpId1, p.wpId2)
      case ScoreFailed => Err(ScorerFailed(p.wpId1, p.wpId2))
      case NullScore => Ok(best)
      case Scored(hasValue, sim) =>
        if !hasValue then Ok(best)
        else
          var score := p.weight * sim;
          if best.None? || score > best.value.score then Ok(Some(Ranked(score, p))) else Ok(best)
  }

  /** The inner loop over `concept2s` for one `article1` that passed its id check. */
  function InnerLoop(c1: Concept, wpId1: int, c2s: seq<Concept>, titleToWpId: string -> int,
                     scorer: (int, int) -> ScoreOutcome, st: Result<Option<Ranked>, DisambiguationError>)
    : Result<Option<Ranked>, DisambiguationError>
  {
    if |c2s| == 0 then st
    else
      var prev := InnerLoop(c1, wpId1, c2s[..|c2s| - 1], titleToWpId, scorer, st);
      var c2 := c2s[|c2s| - 1];
      var wpId2 := titleToWpId(c2.article);
      if wpId2 < 0 then prev
      else Step(prev, Pair(c1.article, wpId1, c2.article, wpId2, c1.score * c2.score), scorer)
  }

  /** The outer loop over `concept1s`, starting with no best pair. */
  function OuterLoop(c1s: seq<Concept>, c2s: seq<Concept>, titleToWpId: string -> int,
                     scorer: (int, int) -> ScoreOutcome)
    : Result<Option<Ranked>, DisambiguationError>
  {
    if |c1s| == 0 then Ok(None)
    else
      var prev := OuterLoop(c1s[..|c1s| - 1], c2s, titleToWpId, scorer);
      var c1 := c1s[|c1s| - 1];
      var wpId1 := titleToWpId(c1.article);
      if wpId1 < 0 then prev
      else InnerLoop(c1, wpId1, c2s, titleToWpId, scorer, prev)
  }

  // ---------------------------------------------------------------------
  // disambiguate

  /** `disambiguate(phrase, hint, scorer)`. `mapper` is `mapper.map(_, maxConcepts)`
      and `None` stands for a `null` map; `Ok(None)` is a `null` result. */
  function Disambiguate(phrase: string, hint: Option<string>, mapper: string -> Option<seq<Concept>>,
                        titleToWpId: string -> int, scorer: (int, int) -> ScoreOutcome)
    : (r: Result<Option<Match>, DisambiguationError>)
    ensures r.Ok? && r.value.Some? ==> r.value.value.phrase == phrase && r.value.value.hint == hint
  {
    var concept1s := mapper(phrase);
    if hint.None? then
      match concept1s
      case None => Err(NullPointer)
      case Some(c1s) =>
        match FirstResolved(c1s, titleToWpId)
        case None => Ok(None)
        case Some(k) =>
          Ok(Some(Match(phrase, hint, titleToWpId(c1s[k].article), 0, Some(c1s[k].article), None)))
    else
      match mapper(hint.value)
      case None => Err(NullPointer)
      case Some(c2s) =>
        match concept1s
        case None => Err(NullPointer)
        case Some(c1s) =>
          if |c1s| == 0 || |c2s| == 0 then Ok(None)
          else
            match OuterLoop(c1s, c2s, titleToWpId, scorer)
            case Err(e) => Err(e)
            case Ok(None) => Ok(Some(Match(phrase, hint, 0, 0, None, None)))
            case Ok(Some(best)) =>
              Ok(Some(Match(phrase, hint, best.pair.wpId1, best.pair.wpId2,
                            Some(best.pair.article1), Some(best.pair.article2))))
  }

  // ---------------------------------------------------------------------
  // The reference: one flat sequence of candidate pairs

  /** The pairs the inner loop offers to the scorer for `c1`, in order. */
  function RowPairs(c1: Concept, wpId1: int, c2s: seq<Concept>, titleToWpId: string -> int): (ps: seq<Pair>)
    ensures forall k :: 0 <= k < |ps| ==>
              && ps[k].article1 == c1.article && ps[k].wpId1 == wpId1
              && ps[k].wpId2 >= 0 && ps[k].wpId2 == titleToWpId(ps[k].article2)
  {
    if |c2s| == 0 then []
    else
      var c2 := c2s[|c2s| - 1];
      var wpId2 := titleToWpId(c2.article);
      var ps := RowPairs(c1, wpId1, c2s[..|c2s| - 1], titleToWpId);
      if wpId2 < 0 then ps
      else ps + [Pair(c1.article, wpId1, c2.article, wpId2, c1.score * c2.score)]
  }

  /** `p` pairs `c1` with one concept of `c2s`, weighted by the product of
      the two concepts' scores. */
  predicate FromRow(p: Pair, c1: Concept, c2s: seq<Concept>) {
    exists j :: 0 <= j < |c2s| && c2s[j].article == p.article2 && p.weight == c1.score * c2s[j].score
  }

  /** Each pair of a row comes from one concept of the second list, and its
      weight is the product of the two concepts' scores. */
  lemma {:induction false} RowPairsWeights(c1: Concept, wpId1: int, c2s: seq<Concept>, titleToWpId: string -> int)
    ensures forall k :: 0 <= k < |RowPairs(c1, wpId1, c2s, titleToWpId)| ==>
              FromRow(RowPairs(c1, wpId1, c2s, titleToWpId)[k], c1, c2s)
    decreases |c2s|
  {
    if |c2s| > 0 {
      var front := c2s[..|c2s| - 1];
      RowPairsWeights(c1, wpId1, front, titleToWpId);
      var prev := RowPairs(c1, wpId1, front, titleToWpId);
      var ps := RowPairs(c1, wpId1, c2s, titleToWpId);
      var c2 := c2s[|c2s| - 1];
      forall k | 0 <= k < |ps|
        ensures FromRow(ps[k], c1, c2s)
      {
        if k < |prev| {
          assert ps[k] == prev[k];
          var j :| 0 <= j < |front| && front[j].article == prev[k].article2 && prev[k].weight == c1.score * front[j].score;
          assert c2s[j] == front[j];
        } else {
          assert ps[k].article2 == c2.article && ps[k].weight == c1.score * c2.score;
          assert c2s[|c2s| - 1] == c2;
        }
      }
    }
  }

  /** Every pair of the cross product whose two ids are `>= 0`, in nested
      iteration order. */
  function Pairs(c1s: seq<Concept>, c2s: seq<Concept>, titleToWpId: string -> int): (ps: seq<Pair>)
    ensures forall k :: 0 <= k < |ps| ==>
              && ps[k].wpId1 >= 0 && ps[k].wpId1 == titleToWpId(ps[k].article1)
              && ps[k].wpId2 >= 0 && ps[k].wpId2 == titleToWpId(ps[k].article2)
  {
    if |c1s| == 0 then []
    else
      var c1 := c1s[|c1s| - 1];
      var wpId1 := titleToWpId(c1.article);
      Pairs(c1s[..|c1s| - 1], c2s, titleToWpId)
        + (if wpId1 < 0 then [] else RowPairs(c1, wpId1, c2s, titleToWpId))
  }

  /** Does the title lookup resolve `c`? The loops skip only ids `< 0`, so
      id 0 counts as resolved. */
  predicate Resolved(c: Concept, titleToWpId: string -> int) {
    titleToWpId(c.article) >= 0
  }

  /** `w` for every concept of `cs` that resolves. */
  function PerResolved(cs: seq<Concept>, w: nat, titleToWpId: string -> int): nat
  {
    if |cs| == 0 then 0
    else PerResolved(cs[..|cs| - 1], w, titleToWpId) + (if Resolved(cs[|cs| - 1], titleToWpId) then w else 0)
  }

  /** How many concepts of `cs` resolve. */
  function ResolvedCount(cs: seq<Concept>, titleToWpId: string -> int): nat {
    PerResolved(cs, 1, titleToWpId)
  }

  /** The candidate pair of `c1` and `c2`, with their ids and their weight. */
  function PairOf(c1: Concept, c2: Concept, titleToWpId: string -> int): Pair {
    Pair(c1.article, titleToWpId(c1.article), c2.article, titleToWpId(c2.article), c1.score * c2.score)
  }

  /** Where the pair of `c1s[i]` and `c2s[j]` falls in nested iteration
      order: every resolved concept of `c1s` before `i` contributes one pair
      per resolved concept of `c2s`, then come the resolved concepts of `c2s`
      before `j`. */
  function PairIndex(c1s: seq<Concept>, c2s: seq<Concept>, i: nat, j: nat, titleToWpId: string -> int): nat
    requires i <= |c1s| && j <= |c2s|
  {
    PerResolved(c1s[..i], ResolvedCount(c2s, titleToWpId), titleToWpId) + ResolvedCount(c2s[..j], titleToWpId)
  }

  lemma PerResolvedStep(cs: seq<Concept>, w: nat, j: nat, titleToWpId: string -> int)
    requires j < |cs|
    ensures PerResolved(cs[..j + 1], w, titleToWpId)
              == PerResolved(cs[..j], w, titleToWpId) + (if Resolved(cs[j], titleToWpId) then w else 0)
  {
    assert cs[..j + 1][..j] == cs[..j];
  }

  lemma {:induction false} PerResolvedMono(cs: seq<Concept>, w: nat, i: nat, j: nat, titleToWpId: string -> int)
    requires i <= j <= |cs|
    ensures PerResolved(cs[..i], w, titleToWpId) <= PerResolved(cs[..j], w, titleToWpId)
    decreases j - i
  {
    if i < j {
      PerResolvedStep(cs, w, j - 1, titleToWpId);
      PerResolvedMono(cs, w, i, j - 1, titleToWpId);
    }
  }

  /** A resolved concept adds its whole weight between its own position and
      any later one. */
  lemma ResolvedBefore(cs: seq<Concept>, w: nat, i: nat, j: nat, titleToWpId: string -> int)
    requires i < j <= |cs| && Resolved(cs[i], titleToWpId)
    ensures PerResolved(cs[..i], w, titleToWpId) + w <= PerResolved(cs[..j], w, titleToWpId)
  {
    PerResolvedStep(cs, w, i, titleToWpId);
    PerResolvedMono(cs, w, i + 1, j, titleToWpId);
  }

  /** A row holds exactly one pair per resolved concept of `c2s`, in order. */
  lemma {:induction false} RowPairsComplete(c1: Concept, c2s: seq<Concept>, titleToWpId: string -> int)
    ensures |RowPairs(c1, titleToWpId(c1.article), c2s, titleToWpId)| == ResolvedCount(c2s, titleToWpId)
    ensures forall j :: 0 <= j < |c2s| && Resolved(c2s[j], titleToWpId) ==>
              var k := ResolvedCount(c2s[..j], titleToWpId);
              k < |RowPairs(c1, titleToWpId(c1.article), c2s, titleToWpId)|
              && RowPairs(c1, titleToWpId(c1.article), c2s, titleToWpId)[k] == PairOf(c1, c2s[j], titleToWpId)
    decreases |c2s|
  {
    if |c2s| > 0 {
      var wpId1 := titleToWpId(c1.article);
      var front := c2s[..|c2s| - 1];
      RowPairsComplete(c1, front, titleToWpId);
      var prev := RowPairs(c1, wpId1, front, titleToWpId);
      var ps := RowPairs(c1, wpId1, c2s, titleToWpId);
      forall j | 0 <= j < |c2s| && Resolved(c2s[j], titleToWpId)
        ensures ResolvedCount(c2s[..j], titleToWpId) < |ps|
        ensures ps[ResolvedCount(c2s[..j], titleToWpId)] == PairOf(c1, c2s[j], titleToWpId)
      {
        if j < |front| {
          assert c2s[..j] == front[..j] && c2s[j] == front[j];
        } else {
          assert c2s[..j] == front;
        }
      }
    }
  }

  /** `Pairs` is the nested-order cross product restricted to resolved
      concepts: it holds one pair per resolved combination, and the pair of
      `c1s[i]` and `c2s[j]` sits at `PairIndex(i, j)`. With
      `PairIndexOrder` this pins down every element and its position. */
  lemma {:induction false} PairsComplete(c1s: seq<Concept>, c2s: seq<Concept>, titleToWpId: string -> int)
    ensures |Pairs(c1s, c2s, titleToWpId)| == PerResolved(c1s, ResolvedCount(c2s, titleToWpId), titleToWpId)
    ensures forall i, j :: 0 <= i < |c1s| && 0 <= j < |c2s| && Resolved(c1s[i], titleToWpId) && Resolved(c2s[j], titleToWpId) ==>
              var k := PairIndex(c1s, c2s, i, j, titleToWpId);
              k < |Pairs(c1s, c2s, titleToWpId)| && Pairs(c1s, c2s, titleToWpId)[k] == PairOf(c1s[i], c2s[j], titleToWpId)
    decreases |c1s|
  {
    if |c1s| > 0 {
      var front := c1s[..|c1s| - 1];
      var c1 := c1s[|c1s| - 1];
      var r2 := ResolvedCount(c2s, titleToWpId);
      PairsComplete(front, c2s, titleToWpId);
      RowPairsComplete(c1, c2s, titleToWpId);
      var prev := Pairs(front, c2s, titleToWpId);
      var row := if Resolved(c1, titleToWpId) then RowPairs(c1, titleToWpId(c1.article), c2s, titleToWpId) else [];
      assert Pairs(c1s, c2s, titleToWpId) == prev + row;
      assert |prev| == PerResolved(front, r2, titleToWpId);
      forall i, j | 0 <= i < |c1s| && 0 <= j < |c2s| && Resolved(c1s[i], titleToWpId) && Resolved(c2s[j], titleToWpId)
        ensures PairIndex(c1s, c2s, i, j, titleToWpId) < |prev + row|
        ensures (prev + row)[PairIndex(c1s, c2s, i, j, titleToWpId)] == PairOf(c1s[i], c2s[j], titleToWpId)
      {
        if i < |front| {
          assert c1s[..i] == front[..i] && c1s[i] == front[i];
          assert PairIndex(c1s, c2s, i, j, titleToWpId) == PairIndex(front, c2s, i, j, titleToWpId);
        } else {
          assert c1s[..i] == front;
          assert PairIndex(c1s, c2s, i, j, titleToWpId) == |prev| + ResolvedCount(c2s[..j], titleToWpId);
        }
      }
    }
  }

  /** Positions follow nested iteration order: the outer index first, then
      the inner one. Resolved combinations never share a position. */
  lemma PairIndexOrder(c1s: seq<Concept>, c2s: seq<Concept>, i: nat, j: nat, i': nat, j': nat, titleToWpId: string -> int)
    requires i < |c1s| && j < |c2s| && i' < |c1s| && j' < |c2s|
    requires Resolved(c1s[i], titleToWpId) && Resolved(c2s[j], titleToWpId)
    requires i < i' || (i == i' && j < j')
    ensures PairIndex(c1s, c2s, i, j, titleToWpId) < PairIndex(c1s, c2s, i', j', titleToWpId)
  {
    var r2 := ResolvedCount(c2s, titleToWpId);
    assert c2s[..|c2s|] == c2s;
    ResolvedBefore(c2s, 1, j, |c2s|, titleToWpId);
    if i < i' {
      ResolvedBefore(c1s, r2, i, i', titleToWpId);
    } else {
      ResolvedBefore(c2s, 1, j, j', titleToWpId);
    }
  }

  /** The flat search: `Step` applied to each pair in turn. */
  function Search(st: Result<Option<Ranked>, DisambiguationError>, ps: seq<Pair>, scorer: (int, int) -> ScoreOutcome)
    : Result<Option<Ranked>, DisambiguationError>
  {
    if |ps| == 0 then st else Step(Search(st, ps[..|ps| - 1], scorer), ps[|ps| - 1], scorer)
  }

  lemma {:induction false} SearchAppend(st: Result<Option<Ranked>, DisambiguationError>, a: seq<Pair>, b: seq<Pair>, scorer: (int, int) -> ScoreOutcome)
    ensures Search(st, a + b, scorer) == Search(Search(st, a, scorer), b, scorer)
    decreases |b|
  {
    if |b| == 0 {
      assert a + b == a;
    } else {
      assert (a + b)[..|a + b| - 1] == a + b[..|b| - 1];
      SearchAppend(st, a, b[..|b| - 1], scorer);
    }
  }

  /** The inner loop is the flat search over that row's pairs. */
  lemma {:induction false} InnerLoopIsSearch(c1: Concept, wpId1: int, c2s: seq<Concept>, titleToWpId: string -> int,
                                             scorer: (int, int) -> ScoreOutcome, st: Result<Option<Ranked>, DisambiguationError>)
    ensures InnerLoop(c1, wpId1, c2s, titleToWpId, scorer, st) == Search(st, RowPairs(c1, wpId1, c2s, titleToWpId), scorer)
    decreases |c2s|
  {
    if |c2s| > 0 {
      var front := c2s[..|c2s| - 1];
      InnerLoopIsSearch(c1, wpId1, front, titleToWpId, scorer, st);
      var ps := RowPairs(c1, wpId1, front, titleToWpId);
      var c2 := c2s[|c2s| - 1];
      if titleToWpId(c2.article) >= 0 {
        var p := Pair(c1.article, wpId1, c2.article, titleToWpId(c2.article), c1.score * c2.score);
        assert (ps + [p])[..|ps|] == ps;
      }
    }
  }

  /** The nested loops are the flat search over all candidate pairs. */
  lemma {:induction false} OuterLoopIsSearch(c1s: seq<Concept>, c2s: seq<Concept>, titleToWpId: string -> int,
                                             scorer: (int, int) -> ScoreOutcome)
    ensures OuterLoop(c1s, c2s, titleToWpId, scorer) == Search(Ok(None), Pairs(c1s, c2s, titleToWpId), scorer)
    decreases |c1s|
  {
    if |c1s| > 0 {
      var front := c1s[..|c1s| - 1];
      OuterLoopIsSearch(front, c2s, titleToWpId, scorer);
      var c1 := c1s[|c1s| - 1];
      var wpId1 := titleToWpId(c1.article);
      var ps := Pairs(front, c2s, titleToWpId);
      if wpId1 < 0 {
        assert ps + [] == ps;
      } else {
        InnerLoopIsSearch(c1, wpId1, c2s, titleToWpId, scorer, Search(Ok(None), ps, scorer));
        SearchAppend(Ok(None), ps, RowPairs(c1, wpId1, c2s, titleToWpId), scorer);
      }
    }
  }

  // ---------------------------------------------------------------------
  // What the search finds

  /** The pair gets a value from the scorer. */
  predicate Scorable(scorer: (int, int) -> ScoreOutcome, p: Pair) {
    scorer(p.wpId1, p.wpId2).Scored? && scorer(p.wpId1, p.wpId2).hasValue
  }

  /** `score1 * score2 * ss.sim` for a scorable pair. */
  function Value(scorer: (int, int) -> ScoreOutcome, p: Pair): real
    requires Scorable(scorer, p)
  {
    p.weight * scorer(p.wpId1, p.wpId2).sim
  }

  predicate Fails(scorer: (int, int) -> ScoreOutcome, p: Pair) {
    scorer(p.wpId1, p.wpId2).ScoreFailed?
  }

  /** `r` is pair `i` with its value, no scorable pair beats it, and every
      scorable pair before `i` scores strictly less: the first maximum. */
  predicate FirstBestAt(ps: seq<Pair>, scorer: (int, int) -> ScoreOutcome, r: Ranked, i: nat)
  {
    && i < |ps|
    && Scorable(scorer, ps[i])
    && r == Ranked(Value(scorer, ps[i]), ps[i])
    && (forall j :: 0 <= j < |ps| && Scorable(scorer, ps[j]) ==> Value(scorer, ps[j]) <= r.score)
    && (forall j :: 0 <= j < i && Scorable(scorer, ps[j]) ==> Value(scorer, ps[j]) < r.score)
  }

  /** The search fails exactly when some pair's scorer fails, and then the
      error names the first such pair. */
  lemma {:induction false} SearchFails(ps: seq<Pair>, scorer: (int, int) -> ScoreOutcome)
    ensures Search(Ok(None), ps, scorer).Err? <==> exists i :: 0 <= i < |ps| && Fails(scorer, ps[i])
    ensures Search(Ok(None), ps, scorer).Err? ==>
              exists i :: 0 <= i < |ps| && Fails(scorer, ps[i])
                && (forall j :: 0 <= j < i ==> !Fails(scorer, ps[j]))
                && Search(Ok(None), ps, scorer).error == ScorerFailed(ps[i].wpId1, ps[i].wpId2)
    decreases |ps|
  {
    if |ps| > 0 {
      var front := ps[..|ps| - 1];
      SearchFails(front, scorer);
      assert forall j :: 0 <= j < |front| ==> front[j] == ps[j];
    }
  }

  /** Without a failure, the search finds nothing exactly when no pair is
      scorable, and otherwise the first pair of maximal score. */
  lemma {:induction false} SearchFindsFirstBest(ps: seq<Pair>, scorer: (int, int) -> ScoreOutcome)
    requires forall i :: 0 <= i < |ps| ==> !Fails(scorer, ps[i])
    ensures Search(Ok(None), ps, scorer).Ok?
    ensures Search(Ok(None), ps, scorer).value.None? <==> forall i :: 0 <= i < |ps| ==> !Scorable(scorer, ps[i])
    ensures Search(Ok(None), ps, scorer).value.Some? ==>
              exists i :: FirstBestAt(ps, scorer, Search(Ok(None), ps, scorer).value.value, i)
    decreases |ps|
  {
    if |ps| > 0 {
      var n := |ps|;
      var front := ps[..n - 1];
      assert forall j :: 0 <= j < n - 1 ==> front[j] == ps[j];
      SearchFindsFirstBest(front, scorer);
      var prev := Search(Ok(None), front, scorer).value;
      var p := ps[n - 1];
      if Scorable(scorer, p) {
        if prev.None? || Value(scorer, p) > prev.value.score {
          FirstBestNew(ps, scorer, prev);
        } else {
          var i :| FirstBestAt(front, scorer, prev.value, i);
          FirstBestKeep(ps, scorer, prev.value, i);
        }
      } else if prev.Some? {
        var i :| FirstBestAt(front, scorer, prev.value, i);
        FirstBestKeep(ps, scorer, prev.value, i);
      }
    }
  }

  /** A last pair that beats everything before it is the first maximum. */
  lemma FirstBestNew(ps: seq<Pair>, scorer: (int, int) -> ScoreOutcome, prev: Option<Ranked>)
    requires |ps| > 0 && Scorable(scorer, ps[|ps| - 1])
    requires prev.None? ==> forall j :: 0 <= j < |ps| - 1 ==> !Scorable(scorer, ps[j])
    requires prev.Some? ==> Value(scorer, ps[|ps| - 1]) > prev.value.score
    requires prev.Some? ==> forall j :: 0 <= j < |ps| - 1 && Scorable(scorer, ps[j]) ==> Value(scorer, ps[j]) <= prev.value.score
    ensures FirstBestAt(ps, scorer, Ranked(Value(scorer, ps[|ps| - 1]), ps[|ps| - 1]), |ps| - 1)
  {
  }

  /** A first maximum of all but the last pair stays the first maximum when
      the last pair does not beat it. */
  lemma FirstBestKeep(ps: seq<Pair>, scorer: (int, int) -> ScoreOutcome, r: Ranked, i: nat)
    requires |ps| > 0 && FirstBestAt(ps[..|ps| - 1], scorer, r, i)
    requires Scorable(scorer, ps[|ps| - 1]) ==> Value(scorer, ps[|ps| - 1]) <= r.score
    ensures FirstBestAt(ps, scorer, r, i)
  {
    var front := ps[..|ps| - 1];
    assert forall j :: 0 <= j < |front| ==> front[j] == ps[j];
  }

  // ---------------------------------------------------------------------
  // disambiguate, end to end

  /** Without a hint: `null` maps fail, otherwise the first concept whose id
      is `> 0` is chosen, and `null` is returned when there is none. */
  lemma DisambiguateWithoutHint(phrase: string, mapper: string -> Option<seq<Concept>>,
                                titleToWpId: string -> int, scorer: (int, int) -> ScoreOutcome)
    ensures var r := Disambiguate(phrase, None, mapper, titleToWpId, scorer);
            && (r.Err? <==> mapper(phrase).None?)
            && (r == Ok(None) <==> mapper(phrase).Some? && forall k :: 0 <= k < |mapper(phrase).value| ==> titleToWpId(mapper(phrase).value[k].article) <= 0)
            && (r.Ok? && r.value.Some? ==>
                  exists k :: 0 <= k < |mapper(phrase).value|
                    && (forall j :: 0 <= j < k ==> titleToWpId(mapper(phrase).value[j].article) <= 0)
                    && r.value.value == Match(phrase, None, titleToWpId(mapper(phrase).value[k].article), 0,
                                              Some(mapper(phrase).value[k].article), None)
                    && r.value.value.phraseWpId > 0)
  {
  }

  /** With a hint and two non-empty concept lists: the result is the first
      pair of maximal weighted score among the pairs whose ids are `>= 0` and
      whose score has a value; ids stay 0 when no pair qualifies; a scorer
      failure propagates. */
  lemma DisambiguateWithHint(phrase: string, hint: string, mapper: string -> Option<seq<Concept>>,
                             titleToWpId: string -> int, scorer: (int, int) -> ScoreOutcome)
    requires mapper(phrase).Some? && |mapper(phrase).value| > 0
    requires mapper(hint).Some? && |mapper(hint).value| > 0
    ensures var r := Disambiguate(phrase, Some(hint), mapper, titleToWpId, scorer);
            var ps := Pairs(mapper(phrase).value, mapper(hint).value, titleToWpId);
            && (r.Err? <==> exists i :: 0 <= i < |ps| && Fails(scorer, ps[i]))
            && (r.Ok? ==> r.value.Some?)
            && (r.Ok? && (forall i :: 0 <= i < |ps| ==> !Scorable(scorer, ps[i])) ==>
                  r.value.value == Match(phrase, Some(hint), 0, 0, None, None))
            && (r.Ok? && (exists i :: 0 <= i < |ps| && Scorable(scorer, ps[i])) ==>
                  exists i, best :: FirstBestAt(ps, scorer, best, i)
                    && r.value.value == Match(phrase, Some(hint), best.pair.wpId1, best.pair.wpId2,
                                              Some(best.pair.article1), Some(best.pair.article2)))
  {
    var c1s, c2s := mapper(phrase).value, mapper(hint).value;
    var ps := Pairs(c1s, c2s, titleToWpId);
    OuterLoopIsSearch(c1s, c2s, titleToWpId, scorer);
    SearchFails(ps, scorer);
    if forall i :: 0 <= i < |ps| ==> !Fails(scorer, ps[i]) {
      SearchFindsFirstBest(ps, scorer);
    }
  }

  /** With a hint, an empty concept list on either side gives `null`, and a
      `null` map on either side fails. */
  lemma DisambiguateWithHintEmpty(phrase: string, hint: string, mapper: string -> Option<seq<Concept>>,
                                  titleToWpId: string -> int, scorer: (int, int) -> ScoreOutcome)
    ensures var r := Disambiguate(phrase, Some(hint), mapper, titleToWpId, scorer);
            && (r == Err(NullPointer) <==> mapper(phrase).None? || mapper(hint).None?)
            && (mapper(phrase).Some? && mapper(hint).Some? && (|mapper(phrase).value| == 0 || |mapper(hint).value| == 0) ==>
                  r == Ok(None))
  {
    if mapper(phrase).Some? && mapper(hint).Some? && |mapper(phrase).value| > 0 && |mapper(hint).value| > 0 {
      var ps := Pairs(mapper(phrase).value, mapper(hint).value, titleToWpId);
      OuterLoopIsSearch(mapper(phrase).value, mapper(hint).value, titleToWpId, scorer);
      SearchFails(ps, scorer);
    }
  }

  // ---------------------------------------------------------------------
  // MostSimilarScorer.score

  /** One entry of a `DocScoreList`. */
  datatype DocScore = DocScore(id: int, score: real)

  /** `new SimScore(0, results, i)`: the list and the index of `wpId2` in it. */
  datatype RankedSim = RankedSim(results: seq<DocScore>, index: int)

  /** `MostSimilarScorer.score(wpId1, wpId2)`, given the list
      `metric.mostSimilar(wpId1, numResults, validIds)` returned (`None` for
      `null`): `null` for a missing or empty list, otherwise the index of the
      first entry whose id is `wpId2`, or -1. */
  method MostSimilarScore(results: Option<seq<DocScore>>, wpId2: int) returns (r: Option<RankedSim>)
    ensures r.None? <==> results.None? || |results.value| == 0
    ensures r.Some? ==> r.value.results == results.value
    ensures r.Some? && r.value.index >= 0 ==>
              && r.value.index < |results.value|
              && results.value[r.value.index].id == wpId2
              && forall k :: 0 <= k < r.value.index ==> results.value[k].id != wpId2
    ensures r.Some? && r.value.index < 0 ==>
              r.value.index == -1 && forall k :: 0 <= k < |results.value| ==> results.value[k].id != wpId2
  {
    if results.None? || |results.value| == 0 {
      return None;
    }
    var ds := results.value;
    var i := 0;
    while i < |ds|
      invariant 0 <= i <= |ds|
      invariant forall k :: 0 <= k < i ==> ds[k].id != wpId2
    {
      if ds[i].id == wpId2 {
        return Some(RankedSim(ds, i));
      }
      i := i + 1;
    }
    return Some(RankedSim(ds, -1));
  }
}
