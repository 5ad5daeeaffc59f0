/**
  Maximum-probability segmentation: the word DAG is scored from right to left
  in place, then read off from left to right.
 */
module MPSegment {
  import opened Options
  import opened Unicode
  import opened WordRanges
  import opened Trie

  /** The floor every score starts from. */
  const MIN_DOUBLE: real := -3.14e100

  type Graph = seq<seq<Edge>>

  /** Every position has an edge, and edges lead forward inside the text. */
  predicate Forward(g: Graph) {
    forall i :: 0 <= i < |g| ==> g[i] != [] && EndsWithin(g[i], i, |g|)
  }

  predicate EndsWithin(es: seq<Edge>, i: nat, n: nat) {
    forall k :: 0 <= k < |es| ==> i <= es[k].end < n
  }

  function EdgeWeight(e: Edge, minWeight: real): real {
    if e.info.Some? then e.info.value.weight else minWeight
  }

  datatype Score = Score(pInfo: Option<DictUnit>, weight: real)

  /** The score of position `i` after its first `k` edges have been tried. */
  function ScoreAfter(g: Graph, minWeight: real, i: nat, k: nat): Score
    requires Forward(g) && i < |g| && k <= |g[i]|
    decreases |g| - i, 0, k
  {
    if k == 0 then Score(None, MIN_DOUBLE)
    else
      var best := ScoreAfter(g, minWeight, i, k - 1);
      var e := g[i][k - 1];
      var val := Suffix(g, minWeight, e.end + 1) + EdgeWeight(e, minWeight);
      if val > best.weight then Score(e.info, val) else best
  }

  /** The score of the text from `i` on; nothing remains at the end. */
  function Suffix(g: Graph, minWeight: real, i: nat): real
    requires Forward(g) && i <= |g|
    decreases |g| - i, 1
  {
    if i == |g| then 0.0 else ScoreAfter(g, minWeight, i, |g[i]|).weight
  }

  function GraphOf(dags: seq<Dag>): (g: Graph)
    ensures |g| == |dags| && forall i :: 0 <= i < |g| ==> g[i] == dags[i].nexts
  {
    seq(|dags|, i requires 0 <= i < |dags| => dags[i].nexts)
  }

  predicate Scored(d: Dag, g: Graph, minWeight: real, i: nat)
    requires Forward(g) && i < |g|
  {
    var s := ScoreAfter(g, minWeight, i, |g[i]|);
    d == Dag(g[i], s.pInfo, s.weight)
  }

  /** Scores the DAG in place, last position first. */
  method CalcDP(dags: array<Dag>, minWeight: real)
    requires Forward(GraphOf(dags[..]))
    modifies dags
    ensures GraphOf(dags[..]) == old(GraphOf(dags[..]))
    ensures forall i :: 0 <= i < dags.Length ==> Scored(dags[i], old(GraphOf(dags[..])), minWeight, i)
  {
    ghost var g := GraphOf(dags[..]);
    var rit := dags.Length;
    while rit > 0
      invariant 0 <= rit <= dags.Length
      invariant forall i :: 0 <= i < dags.Length ==> dags[i].nexts == g[i]
      invariant forall i :: rit <= i < dags.Length ==> Scored(dags[i], g, minWeight, i)
    {
      rit := rit - 1;
      var pInfo, weight := None, MIN_DOUBLE;
      var nexts := dags[rit].nexts;
      for it := 0 to |nexts|
        invariant Score(pInfo, weight) == ScoreAfter(g, minWeight, rit, it)
      {
        var nextPos, p := nexts[it].end, nexts[it].info;
        assert EndsWithin(g[rit], rit, |g|);
        var val := 0.0;
        if nextPos + 1 < dags.Length {
          assert Scored(dags[nextPos + 1], g, minWeight, nextPos + 1);
          val := val + dags[nextPos + 1].weight;
        }
        if p.Some? {
          val := val + p.value.weight;
        } else {
          val := val + minWeight;
        }
        if val > weight {
          pInfo, weight := p, val;
        }
      }
      dags[rit] := Dag(nexts, pInfo, weight);
    }
    assert GraphOf(dags[..]) == g;
  }

  // ---------------------------------------------------------------------
  // Reading off the scored DAG
  // ---------------------------------------------------------------------

  /** An edge with a unit spans as many runes as its word has; one without spans a single rune. */
  predicate Spans(g: Graph) {
    forall i, k :: 0 <= i < |g| && 0 <= k < |g[i]| ==> SpanOf(g[i][k].info) == g[i][k].end - i + 1
  }

  function SpanOf(info: Option<DictUnit>): nat {
    if info.Some? then |info.value.word| else 1
  }

  /** The score the text from `i` on has through edge `k`. */
  function Through(g: Graph, minWeight: real, i: nat, k: nat): real
    requires Forward(g) && i < |g| && k < |g[i]|
  {
    Suffix(g, minWeight, g[i][k].end + 1) + EdgeWeight(g[i][k], minWeight)
  }

  lemma {:induction false} ScoreAtLeast(g: Graph, minWeight: real, i: nat, k: nat, n: nat)
    requires Forward(g) && i < |g| && k < n <= |g[i]|
    ensures ScoreAfter(g, minWeight, i, n).weight >= Through(g, minWeight, i, k)
    decreases n
  {
    if k < n - 1 {
      ScoreAtLeast(g, minWeight, i, k, n - 1);
    }
  }

  /** The winning unit comes from the first of the edges that give the score. */
  lemma {:induction false} Winner(g: Graph, minWeight: real, i: nat, k: nat) returns (e: nat)
    requires Forward(g) && i < |g| && k <= |g[i]|
    ensures var s := ScoreAfter(g, minWeight, i, k);
            && s.weight >= MIN_DOUBLE
            && (s.weight == MIN_DOUBLE ==> s.pInfo == None)
            && (s.weight > MIN_DOUBLE ==>
                  && e < k && s.pInfo == g[i][e].info
                  && s.weight == Through(g, minWeight, i, e)
                  && forall f :: 0 <= f < e ==> Through(g, minWeight, i, f) < s.weight)
    decreases k
  {
    e := 0;
    if k > 0 {
      var before := ScoreAfter(g, minWeight, i, k - 1);
      e := Winner(g, minWeight, i, k - 1);
      if ScoreAfter(g, minWeight, i, k) != before {
        e := k - 1;
        forall f | 0 <= f < e ensures Through(g, minWeight, i, f) <= before.weight {
          ScoreAtLeast(g, minWeight, i, f, k - 1);
        }
      }
    }
  }

  /** How many runes the word read off at `i` has. */
  function Stride(g: Graph, minWeight: real, i: nat): (len: nat)
    requires Forward(g) && Spans(g) && i < |g|
    ensures 1 <= len <= |g| - i
  {
    assert 1 <= SpanOf(ScoreAfter(g, minWeight, i, |g[i]|).pInfo) <= |g| - i by {
      var e := Winner(g, minWeight, i, |g[i]|);
    }
    SpanOf(ScoreAfter(g, minWeight, i, |g[i]|).pInfo)
  }

  /** The words read off from position `i` on. */
  function Emitted(g: Graph, minWeight: real, i: nat): seq<WordRange>
    requires Forward(g) && Spans(g) && i <= |g|
    decreases |g| - i
  {
    if i == |g| then []
    else
      var len := Stride(g, minWeight, i);
      [WordRange(i, i + len - 1)] + Emitted(g, minWeight, i + len)
  }

  lemma {:induction false} EmittedTiles(g: Graph, minWeight: real, i: nat)
    requires Forward(g) && Spans(g) && i <= |g|
    ensures Tiles(Emitted(g, minWeight, i), i, |g|)
    decreases |g| - i
  {
    if i < |g| {
      var len := Stride(g, minWeight, i);
      EmittedTiles(g, minWeight, i + len);
      EmittedCons(g, minWeight, i);
      TilesCons(WordRange(i, i + len - 1), Emitted(g, minWeight, i + len), |g|);
    }
  }

  function Shifted(rs: seq<WordRange>, d: nat): (r: seq<WordRange>)
    ensures |r| == |rs|
  {
    seq(|rs|, k requires 0 <= k < |rs| => WordRange(rs[k].left + d, rs[k].right + d))
  }

  lemma {:induction false} ShiftedTiles(rs: seq<WordRange>, lo: nat, hi: nat, d: nat)
    requires Tiles(rs, lo, hi)
    ensures Tiles(Shifted(rs, d), lo + d, hi + d)
  {
    if rs != [] {
      ShiftedTiles(rs[1..], rs[0].right + 1, hi, d);
      assert Shifted(rs, d)[1..] == Shifted(rs[1..], d);
    }
  }

  method CutByDag(dags: array<Dag>, begin: nat, ghost minWeight: real) returns (words: seq<WordRange>)
    requires var g := GraphOf(dags[..]);
             Forward(g) && Spans(g) && forall i :: 0 <= i < dags.Length ==> Scored(dags[i], g, minWeight, i)
    ensures words == Shifted(Emitted(GraphOf(dags[..]), minWeight, 0), begin)
  {
    ghost var g := GraphOf(dags[..]);
    words := [];
    var i := 0;
    while i < dags.Length
      invariant 0 <= i <= dags.Length
      // compared with true so that it is carried as one fact, not clause by clause
      invariant ReadSoFar(g, minWeight, i, begin, words) == true
    {
      var p := dags[i].pInfo;
      EmitStep(dags[i], g, minWeight, i, begin, words);
      if p.Some? {
        words := words + [WordRange(begin + i, begin + i + |p.value.word| - 1)];
        i := i + |p.value.word|;
      } else {
        words := words + [WordRange(begin + i, begin + i)];
        i := i + 1;
      }
    }
    assert Emitted(g, minWeight, i) == [];
  }

  /** `words` followed by what is read off from `i` on is everything that is read off. */
  predicate ReadSoFar(g: Graph, minWeight: real, i: nat, begin: nat, words: seq<WordRange>)
    requires Forward(g) && Spans(g) && i <= |g|
  {
    words + Shifted(Emitted(g, minWeight, i), begin) == Shifted(Emitted(g, minWeight, 0), begin)
  }

  /** One turn of the reading loop. */
  lemma EmitStep(d: Dag, g: Graph, minWeight: real, i: nat, begin: nat, words: seq<WordRange>)
    requires Forward(g) && Spans(g) && i < |g|
    requires Scored(d, g, minWeight, i) && ReadSoFar(g, minWeight, i, begin, words)
    ensures var len := SpanOf(d.pInfo);
            && 1 <= len <= |g| - i
            && ReadSoFar(g, minWeight, i + len, begin, words + [WordRange(begin + i, begin + i + len - 1)])
  {
    var len := Stride(g, minWeight, i);
    EmittedCons(g, minWeight, i);
    ShiftedCons(words, WordRange(i, i + len - 1), Emitted(g, minWeight, i + len), begin);
  }

  lemma EmittedCons(g: Graph, minWeight: real, i: nat)
    requires Forward(g) && Spans(g) && i < |g|
    ensures var len := Stride(g, minWeight, i);
            Emitted(g, minWeight, i) == [WordRange(i, i + len - 1)] + Emitted(g, minWeight, i + len)
  {
  }

  lemma ShiftedCons(words: seq<WordRange>, r: WordRange, rest: seq<WordRange>, d: nat)
    ensures words + Shifted([r] + rest, d) == (words + [WordRange(d + r.left, d + r.right)]) + Shifted(rest, d)
  {
  }

  // ---------------------------------------------------------------------
  // Optimality, stated on the dictionary and the text alone
  // ---------------------------------------------------------------------

  /** What a segmenter is given: dictionary, smallest weight, longest word, and the runes to cut. */
  datatype Problem = Problem(dict: Dict, minWeight: real, maxLen: nat, text: seq<Rune>)

  function WordGraph(p: Problem): (g: Graph)
    ensures |g| == |p.text| && forall i :: 0 <= i < |g| ==> g[i] == Edges(p.dict, p.text, i, p.maxLen)
  {
    seq(|p.text|, i requires 0 <= i < |p.text| => Edges(p.dict, p.text, i, p.maxLen))
  }

  lemma WordGraphIsForward(p: Problem)
    ensures Forward(WordGraph(p))
  {
    forall i | 0 <= i < |p.text| ensures EndsWithin(Edges(p.dict, p.text, i, p.maxLen), i, |p.text|) {
      EdgesExactly(p.dict, p.text, i, p.maxLen);
      EdgeKinds(p, i);
    }
  }

  /** Every edge is the one-rune entry or a proper word edge. */
  lemma EdgeKinds(p: Problem, i: nat)
    requires i < |p.text|
    ensures var es := Edges(p.dict, p.text, i, p.maxLen);
            forall k :: 0 <= k < |es| ==>
              || es[k] == Edge(i, Lookup(p.dict, p.text[i..i + 1]))
              || IsWordEdge(p.dict, p.text, i, p.maxLen, es[k])
  {
    EdgesExactly(p.dict, p.text, i, p.maxLen);
    var es := Edges(p.dict, p.text, i, p.maxLen);
    forall k | 1 <= k < |es| ensures IsWordEdge(p.dict, p.text, i, p.maxLen, es[k]) {
      assert es[k] == es[1..][k - 1] && es[k] in es[1..];
    }
  }

  lemma WordGraphSpans(p: Problem)
    requires KeyedByWord(p.dict)
    ensures Spans(WordGraph(p))
  {
    forall i | 0 <= i < |p.text| {
      EdgeKinds(p, i);
    }
  }

  /** A range is allowed if it is a single rune or a dictionary word within the length limit. */
  predicate Allowed(p: Problem, r: WordRange) {
    && r.left <= r.right < |p.text|
    && (r.left == r.right || (r.right - r.left + 1 <= p.maxLen && p.text[r.left..r.right + 1] in p.dict))
  }

  function WordWeight(p: Problem, r: WordRange): real
    requires r.left <= r.right < |p.text|
  {
    var w := p.text[r.left..r.right + 1];
    if w in p.dict then p.dict[w].weight else p.minWeight
  }

  /** A cut of the text from `i` on into allowed ranges. */
  predicate Segmentation(p: Problem, i: nat, rs: seq<WordRange>)
    decreases |rs|
  {
    if rs == [] then i == |p.text|
    else rs[0].left == i && Allowed(p, rs[0]) && Segmentation(p, rs[0].right + 1, rs[1..])
  }

  function Total(p: Problem, i: nat, rs: seq<WordRange>): real
    requires Segmentation(p, i, rs)
    decreases |rs|
  {
    if rs == [] then 0.0 else WordWeight(p, rs[0]) + Total(p, rs[0].right + 1, rs[1..])
  }

  /** An allowed range from `i` is an edge of the graph, with the same weight. */
  lemma AllowedIsEdge(p: Problem, i: nat, r: WordRange) returns (k: nat)
    requires Allowed(p, r) && r.left == i
    ensures var es := Edges(p.dict, p.text, i, p.maxLen);
            k < |es| && es[k].end == r.right && EdgeWeight(es[k], p.minWeight) == WordWeight(p, r)
  {
    EdgesExactly(p.dict, p.text, i, p.maxLen);
    var es := Edges(p.dict, p.text, i, p.maxLen);
    if r.right == i {
      return 0;
    }
    var e := Edge(r.right, Some(p.dict[p.text[i..r.right + 1]]));
    assert IsWordEdge(p.dict, p.text, i, p.maxLen, e);
    assert e in es[1..];
    var j :| 0 <= j < |es[1..]| && es[1..][j] == e;
    k := j + 1;
    assert es[k] == e;
  }

  /** No segmentation beats the computed score, floor or not. */
  lemma {:induction false} ScoreIsUpperBound(p: Problem, i: nat, rs: seq<WordRange>)
    requires Segmentation(p, i, rs) && i <= |p.text| && Forward(WordGraph(p))
    ensures Total(p, i, rs) <= Suffix(WordGraph(p), p.minWeight, i)
    decreases |rs|
  {
    if rs != [] {
      var g := WordGraph(p);
      var k := AllowedIsEdge(p, i, rs[0]);
      ScoreAtLeast(g, p.minWeight, i, k, |g[i]|);
      ScoreIsUpperBound(p, rs[0].right + 1, rs[1..]);
    }
  }

  predicate NonPositive(p: Problem) {
    p.minWeight <= 0.0 && forall k :: k in p.dict ==> p.dict[k].weight <= 0.0
  }

  /** Suffix scores from `i` on are above the floor (end of text aside). */
  ghost predicate AboveFloorFrom(g: Graph, minWeight: real, i: nat)
    requires Forward(g)
  {
    forall j :: i <= j < |g| ==> Suffix(g, minWeight, j) > MIN_DOUBLE
  }

  /** An edge is an allowed range of its own weight. */
  lemma EdgeAllowed(p: Problem, i: nat, e: Edge)
    requires KeyedByWord(p.dict) && i < |p.text|
    requires e == Edge(i, Lookup(p.dict, p.text[i..i + 1])) || IsWordEdge(p.dict, p.text, i, p.maxLen, e)
    ensures var r := WordRange(i, e.end);
            Allowed(p, r) && EdgeWeight(e, p.minWeight) == WordWeight(p, r) && SpanOf(e.info) == e.end - i + 1
  {
  }

  /** Above the floor, the winning edge is the word read off and gives the score. */
  lemma WinningWord(p: Problem, g: Graph, i: nat) returns (e: Edge)
    requires g == WordGraph(p) && Forward(g) && Spans(g) && KeyedByWord(p.dict) && i < |p.text|
    requires Suffix(g, p.minWeight, i) > MIN_DOUBLE
    ensures e.end == i + Stride(g, p.minWeight, i) - 1 && Allowed(p, WordRange(i, e.end))
    ensures Suffix(g, p.minWeight, i) == WordWeight(p, WordRange(i, e.end)) + Suffix(g, p.minWeight, e.end + 1)
  {
    var k := Winner(g, p.minWeight, i, |g[i]|);
    e := g[i][k];
    EdgeKinds(p, i);
    EdgeAllowed(p, i, e);
  }

  /** No edge shorter than the word read off leads to the score. */
  lemma ShorterEdgeScoresLess(g: Graph, minWeight: real, i: nat, f: nat)
    requires Forward(g) && Spans(g) && i < |g| && Increasing(g[i]) && f < |g[i]|
    requires Suffix(g, minWeight, i) > MIN_DOUBLE && g[i][f].end < i + Stride(g, minWeight, i) - 1
    ensures Through(g, minWeight, i, f) < Suffix(g, minWeight, i)
  {
    var e := Winner(g, minWeight, i, |g[i]|);
    ShorterIsEarlier(g[i], f, e);
  }

  lemma ShorterWordScoresLess(p: Problem, g: Graph, i: nat, r: WordRange)
    requires g == WordGraph(p) && Forward(g) && Spans(g) && i < |p.text|
    requires Suffix(g, p.minWeight, i) > MIN_DOUBLE
    requires Allowed(p, r) && r.left == i && r.right < i + Stride(g, p.minWeight, i) - 1
    ensures WordWeight(p, r) + Suffix(g, p.minWeight, r.right + 1) < Suffix(g, p.minWeight, i)
  {
    var f := AllowedIsEdge(p, i, r);
    EdgesIncrease(p, i);
    ShorterEdgeScoresLess(g, p.minWeight, i, f);
  }

  lemma EdgesIncrease(p: Problem, i: nat)
    requires i < |p.text|
    ensures Increasing(WordGraph(p)[i])
  {
    EdgesExactly(p.dict, p.text, i, p.maxLen);
  }

  lemma ShorterIsEarlier(es: seq<Edge>, f: nat, e: nat)
    requires Increasing(es) && f < |es| && e < |es| && es[f].end < es[e].end
    ensures f < e
  {
  }

  /** At the floor no unit is recorded, so a single rune is read off. */
  lemma FloorWord(p: Problem, g: Graph, i: nat)
    requires g == WordGraph(p) && Forward(g) && Spans(g) && i < |p.text|
    requires Suffix(g, p.minWeight, i) <= MIN_DOUBLE
    ensures Stride(g, p.minWeight, i) == 1 && Allowed(p, WordRange(i, i))
  {
    var e := Winner(g, p.minWeight, i, |g[i]|);
  }

  /** The word read off at `i` is allowed and, above the floor, accounts for its part of the score. */
  lemma EmittedWord(p: Problem, g: Graph, i: nat) returns (r: WordRange)
    requires g == WordGraph(p) && Forward(g) && Spans(g) && KeyedByWord(p.dict) && i < |p.text|
    ensures r == WordRange(i, i + Stride(g, p.minWeight, i) - 1) && Allowed(p, r)
    ensures Suffix(g, p.minWeight, i) > MIN_DOUBLE ==>
              Suffix(g, p.minWeight, i) == WordWeight(p, r) + Suffix(g, p.minWeight, r.right + 1)
  {
    r := WordRange(i, i + Stride(g, p.minWeight, i) - 1);
    if Suffix(g, p.minWeight, i) > MIN_DOUBLE {
      var e := WinningWord(p, g, i);
    } else {
      FloorWord(p, g, i);
    }
  }

  lemma SegmentationCons(p: Problem, r: WordRange, rest: seq<WordRange>)
    requires Allowed(p, r) && Segmentation(p, r.right + 1, rest)
    ensures Segmentation(p, r.left, [r] + rest)
    ensures Total(p, r.left, [r] + rest) == WordWeight(p, r) + Total(p, r.right + 1, rest)
  {
    assert ([r] + rest)[1..] == rest;
  }

  /** Whatever the weights, what is read off is a segmentation. */
  lemma {:induction false} EmittedIsSegmentation(p: Problem, g: Graph, i: nat)
    requires g == WordGraph(p) && Forward(g) && Spans(g) && KeyedByWord(p.dict) && i <= |p.text|
    ensures Segmentation(p, i, Emitted(g, p.minWeight, i))
    decreases |p.text| - i
  {
    if i < |p.text| {
      EmittedCons(g, p.minWeight, i);
      var r := EmittedWord(p, g, i);
      EmittedIsSegmentation(p, g, r.right + 1);
      SegmentationCons(p, r, Emitted(g, p.minWeight, r.right + 1));
    }
  }

  /** The floor plays no part from `i` on: no score is at it, or no weight could lift a score off it again. */
  ghost predicate Unfloored(p: Problem, g: Graph, i: nat)
    requires Forward(g) && i <= |g|
  {
    AboveFloorFrom(g, p.minWeight, i) || (NonPositive(p) && Suffix(g, p.minWeight, i) > MIN_DOUBLE)
  }

  lemma UnflooredNext(p: Problem, g: Graph, i: nat, r: WordRange)
    requires Forward(g) && i <= r.right < |g| == |p.text| && r.left <= r.right && Unfloored(p, g, i)
    requires Suffix(g, p.minWeight, i) > MIN_DOUBLE ==>
               Suffix(g, p.minWeight, i) == WordWeight(p, r) + Suffix(g, p.minWeight, r.right + 1)
    ensures Suffix(g, p.minWeight, i) > MIN_DOUBLE && Unfloored(p, g, r.right + 1)
  {
  }

  predicate Weighs(p: Problem, i: nat, rs: seq<WordRange>, x: real) { Segmentation(p, i, rs) && Total(p, i, rs) == x }

  lemma WeighsFrom(p: Problem, r: WordRange, rest: seq<WordRange>, x: real, rs: seq<WordRange>, y: real)
    requires Allowed(p, r) && Weighs(p, r.right + 1, rest, x) && rs == [r] + rest && y == WordWeight(p, r) + x
    ensures Weighs(p, r.left, rs, y)
  {
    SegmentationCons(p, r, rest);
  }

  lemma EmittedFirstWord(p: Problem, g: Graph, i: nat) returns (r: WordRange)
    requires g == WordGraph(p) && Forward(g) && Spans(g) && KeyedByWord(p.dict) && i < |p.text| && Unfloored(p, g, i)
    ensures r == WordRange(i, i + Stride(g, p.minWeight, i) - 1) && Allowed(p, r)
    ensures Suffix(g, p.minWeight, i) > MIN_DOUBLE
    ensures Suffix(g, p.minWeight, i) == WordWeight(p, r) + Suffix(g, p.minWeight, r.right + 1)
    ensures Unfloored(p, g, r.right + 1)
    ensures Emitted(g, p.minWeight, i) == [r] + Emitted(g, p.minWeight, r.right + 1)
  {
    r := EmittedWord(p, g, i);
    UnflooredNext(p, g, i, r);
    EmittedCons(g, p.minWeight, i);
  }

  /** Above the floor, the words read off weigh exactly the computed score. */
  lemma {:induction false} EmittedAttainsScore(p: Problem, g: Graph, i: nat)
    requires g == WordGraph(p) && Forward(g) && Spans(g) && KeyedByWord(p.dict) && i <= |p.text|
    requires Unfloored(p, g, i)
    ensures Weighs(p, i, Emitted(g, p.minWeight, i), Suffix(g, p.minWeight, i))
    decreases |p.text| - i
  {
    if i < |p.text| {
      var r := EmittedFirstWord(p, g, i);
      EmittedAttainsScore(p, g, r.right + 1);
      WeighsFrom(p, r, Emitted(g, p.minWeight, r.right + 1), Suffix(g, p.minWeight, r.right + 1),
                 Emitted(g, p.minWeight, i), Suffix(g, p.minWeight, i));
    }
  }

  /** At the first word in which they differ, `a` has the shorter one. */
  ghost predicate ShorterFirst(a: seq<WordRange>, b: seq<WordRange>) {
    exists d :: 0 <= d < |a| && d < |b| && a[..d] == b[..d] && a[d].right < b[d].right
  }

  lemma ShorterFirstBehind(r: WordRange, a: seq<WordRange>, b: seq<WordRange>, ra: seq<WordRange>, rb: seq<WordRange>)
    requires ra == [r] + a && rb == [r] + b && ShorterFirst(a, b)
    ensures ShorterFirst(ra, rb)
  {
    var d :| 0 <= d < |a| && d < |b| && a[..d] == b[..d] && a[d].right < b[d].right;
    assert ra[..d + 1] == [r] + a[..d] && rb[..d + 1] == [r] + b[..d];
    assert ra[d + 1] == a[d] && rb[d + 1] == b[d];
  }

  lemma ShorterFirstCons(r: WordRange, a: seq<WordRange>, b: seq<WordRange>, ra: seq<WordRange>)
    requires ra == [r] + a && ra != b && b != [] && r.right <= b[0].right
    requires r.right == b[0].right ==> r == b[0] && (a != b[1..] ==> ShorterFirst(a, b[1..]))
    ensures ShorterFirst(ra, b)
  {
    if r.right < b[0].right {
      assert ra[..0] == b[..0] && ra[0].right < b[0].right;
    } else {
      assert b == [r] + b[1..];
      ShorterFirstBehind(r, a, b[1..], ra, b);
    }
  }

  lemma WeighsFirst(p: Problem, i: nat, rs: seq<WordRange>, x: real)
    requires i < |p.text| && Weighs(p, i, rs, x)
    ensures rs != [] && rs[0].left == i && Allowed(p, rs[0])
    ensures Weighs(p, rs[0].right + 1, rs[1..], x - WordWeight(p, rs[0]))
  {
  }

  /** A segmentation that weighs as much begins with the word `r` read off at `i`, or with a longer one. */
  lemma TieBegins(p: Problem, g: Graph, i: nat, r: WordRange, other: seq<WordRange>)
    requires g == WordGraph(p) && Forward(g) && Spans(g) && KeyedByWord(p.dict) && i < |p.text|
    requires Suffix(g, p.minWeight, i) > MIN_DOUBLE && Weighs(p, i, other, Suffix(g, p.minWeight, i))
    requires r == WordRange(i, i + Stride(g, p.minWeight, i) - 1)
    requires Suffix(g, p.minWeight, i) == WordWeight(p, r) + Suffix(g, p.minWeight, r.right + 1)
    ensures other != [] && r.right <= other[0].right
    ensures r.right == other[0].right ==>
              other[0] == r && Weighs(p, r.right + 1, other[1..], Suffix(g, p.minWeight, r.right + 1))
  {
    WeighsFirst(p, i, other, Suffix(g, p.minWeight, i));
    ScoreIsUpperBound(p, other[0].right + 1, other[1..]);
    if other[0].right < r.right {
      ShorterWordScoresLess(p, g, i, other[0]);
    }
  }

  lemma NothingAtEnd(p: Problem, rs: seq<WordRange>)
    requires Segmentation(p, |p.text|, rs)
    ensures rs == []
  {
  }

  lemma EmittedTie(p: Problem, g: Graph, i: nat, other: seq<WordRange>) returns (r: WordRange, rest: seq<WordRange>)
    requires g == WordGraph(p) && Forward(g) && Spans(g) && KeyedByWord(p.dict) && i < |p.text|
    requires Unfloored(p, g, i) && Weighs(p, i, other, Suffix(g, p.minWeight, i))
    ensures i <= r.right < |p.text| && Unfloored(p, g, r.right + 1)
    ensures rest == Emitted(g, p.minWeight, r.right + 1) && Emitted(g, p.minWeight, i) == [r] + rest
    ensures other != [] && r.right <= other[0].right
    ensures r.right == other[0].right ==>
              other[0] == r && Weighs(p, r.right + 1, other[1..], Suffix(g, p.minWeight, r.right + 1))
  {
    r := EmittedFirstWord(p, g, i);
    rest := Emitted(g, p.minWeight, r.right + 1);
    TieBegins(p, g, i, r, other);
  }

  /** Among the segmentations that weigh as much, the one read off has the shorter words first. */
  lemma {:induction false} EmittedIsFirst(p: Problem, g: Graph, i: nat, other: seq<WordRange>)
    requires g == WordGraph(p) && Forward(g) && Spans(g) && KeyedByWord(p.dict) && i <= |p.text|
    requires Unfloored(p, g, i) && Weighs(p, i, other, Suffix(g, p.minWeight, i))
    requires other != Emitted(g, p.minWeight, i)
    ensures ShorterFirst(Emitted(g, p.minWeight, i), other)
    decreases |p.text| - i
  {
    if i < |p.text| {
      var r, rest := EmittedTie(p, g, i, other);
      if other[0] == r && other[1..] != rest {
        EmittedIsFirst(p, g, r.right + 1, other[1..]);
      }
      ShorterFirstCons(r, rest, other, Emitted(g, p.minWeight, i));
    } else {
      NothingAtEnd(p, other);
    }
  }

  /** `rs` is a heaviest segmentation of the whole text. */
  ghost predicate Optimal(p: Problem, rs: seq<WordRange>) {
    && Segmentation(p, 0, rs)
    && forall other :: Segmentation(p, 0, other) ==> Total(p, 0, other) <= Total(p, 0, rs)
  }

  /** The cut the segmenter computes. */
  ghost function Best(p: Problem): (rs: seq<WordRange>)
    requires KeyedByWord(p.dict)
    ensures Tiles(rs, 0, |p.text|)
  {
    WordGraphIsForward(p);
    WordGraphSpans(p);
    EmittedTiles(WordGraph(p), p.minWeight, 0);
    Emitted(WordGraph(p), p.minWeight, 0)
  }

  /** From every position some segmentation of the rest weighs more than the floor. */
  ghost predicate FloorNeverBinds(p: Problem) {
    forall i :: 0 <= i < |p.text| ==> SomeAboveFloor(p, i)
  }

  ghost predicate SomeAboveFloor(p: Problem, i: nat) {
    exists rs :: Segmentation(p, i, rs) && Total(p, i, rs) > MIN_DOUBLE
  }

  /** Optimality for arbitrary weights, as long as suffix sums stay above the floor. */
  lemma BestIsOptimal(p: Problem)
    requires KeyedByWord(p.dict) && FloorNeverBinds(p)
    ensures Optimal(p, Best(p))
  {
    WordGraphIsForward(p);
    WordGraphSpans(p);
    FloorNeverBindsScores(p);
    EmittedAttainsScore(p, WordGraph(p), 0);
    forall other | Segmentation(p, 0, other) ensures Total(p, 0, other) <= Total(p, 0, Best(p)) {
      ScoreIsUpperBound(p, 0, other);
    }
  }

  /** With log-probabilities, one segmentation above the floor is enough, and the result shows it. */
  lemma BestIsOptimalForLogWeights(p: Problem)
    requires KeyedByWord(p.dict) && NonPositive(p)
    ensures Segmentation(p, 0, Best(p))
    ensures SomeAboveFloor(p, 0) <==> Total(p, 0, Best(p)) > MIN_DOUBLE
    ensures SomeAboveFloor(p, 0) ==> Optimal(p, Best(p))
  {
    WordGraphIsForward(p);
    WordGraphSpans(p);
    EmittedIsSegmentation(p, WordGraph(p), 0);
    if SomeAboveFloor(p, 0) {
      var rs :| Segmentation(p, 0, rs) && Total(p, 0, rs) > MIN_DOUBLE;
      ScoreIsUpperBound(p, 0, rs);
      EmittedAttainsScore(p, WordGraph(p), 0);
      forall other | Segmentation(p, 0, other) ensures Total(p, 0, other) <= Total(p, 0, Best(p)) {
        ScoreIsUpperBound(p, 0, other);
      }
    }
  }

  // The cut, pinned down ----------------------------------------------------

  /** No segmentation from `i` on is heavier, and none that is as heavy has the shorter words first. */
  ghost predicate FirstOfHeaviest(p: Problem, i: nat, rs: seq<WordRange>) {
    && Segmentation(p, i, rs)
    && forall other :: Segmentation(p, i, other) && other != rs ==>
         Total(p, i, other) < Total(p, i, rs) || (Total(p, i, other) == Total(p, i, rs) && ShorterFirst(rs, other))
  }

  /** Where the rest can be cut above the floor it is cut best, and elsewhere a single rune comes off. */
  ghost predicate SplitsAt(p: Problem, rs: seq<WordRange>, k: nat)
    requires k < |rs|
  {
    if SomeAboveFloor(p, rs[k].left) then FirstOfHeaviest(p, rs[k].left, rs[k..]) else rs[k].left == rs[k].right
  }

  /** What the dictionary cut is, for arbitrary weights and for log-probabilities. */
  ghost predicate DictionaryCut(p: Problem, rs: seq<WordRange>) {
    && Segmentation(p, 0, rs)
    && (FloorNeverBinds(p) ==> FirstOfHeaviest(p, 0, rs))
    && (NonPositive(p) ==> forall k :: 0 <= k < |rs| ==> SplitsAt(p, rs, k))
  }

  lemma EmittedIsFirstOfHeaviest(p: Problem, g: Graph, i: nat)
    requires g == WordGraph(p) && Forward(g) && Spans(g) && KeyedByWord(p.dict) && i <= |p.text| && Unfloored(p, g, i)
    ensures FirstOfHeaviest(p, i, Emitted(g, p.minWeight, i))
  {
    EmittedAttainsScore(p, g, i);
    var rs := Emitted(g, p.minWeight, i);
    forall other | Segmentation(p, i, other) && other != rs
      ensures Total(p, i, other) < Total(p, i, rs) || (Total(p, i, other) == Total(p, i, rs) && ShorterFirst(rs, other))
    {
      ScoreIsUpperBound(p, i, other);
      if Total(p, i, other) == Total(p, i, rs) {
        EmittedIsFirst(p, g, i, other);
      }
    }
  }

  lemma EmittedSplits(p: Problem, g: Graph, i: nat)
    requires g == WordGraph(p) && Forward(g) && Spans(g) && KeyedByWord(p.dict) && NonPositive(p) && i < |p.text|
    ensures Emitted(g, p.minWeight, i) != [] && SplitsAt(p, Emitted(g, p.minWeight, i), 0)
  {
    EmittedCons(g, p.minWeight, i);
    var rs := Emitted(g, p.minWeight, i);
    assert rs[0..] == rs && rs[0].left == i;
    if SomeAboveFloor(p, i) {
      var other :| Segmentation(p, i, other) && Total(p, i, other) > MIN_DOUBLE;
      ScoreIsUpperBound(p, i, other);
      EmittedIsFirstOfHeaviest(p, g, i);
    } else {
      BelowFloorReadsOneRune(p, g, i);
    }
  }

  lemma {:induction false} EmittedSplitsAt(p: Problem, g: Graph, i: nat, k: nat)
    requires g == WordGraph(p) && Forward(g) && Spans(g) && KeyedByWord(p.dict) && NonPositive(p) && i <= |p.text|
    requires k < |Emitted(g, p.minWeight, i)|
    ensures SplitsAt(p, Emitted(g, p.minWeight, i), k)
    decreases |p.text| - i
  {
    if k == 0 {
      EmittedSplits(p, g, i);
    } else {
      EmittedCons(g, p.minWeight, i);
      var j := i + Stride(g, p.minWeight, i);
      var rest := Emitted(g, p.minWeight, j);
      EmittedSplitsAt(p, g, j, k - 1);
      assert Emitted(g, p.minWeight, i)[k..] == rest[k - 1..];
    }
  }

  lemma BestIsDictionaryCut(p: Problem)
    requires KeyedByWord(p.dict)
    ensures DictionaryCut(p, Best(p))
  {
    var g := WordGraph(p);
    WordGraphIsForward(p);
    WordGraphSpans(p);
    EmittedIsSegmentation(p, g, 0);
    if FloorNeverBinds(p) {
      FloorNeverBindsScores(p);
      EmittedIsFirstOfHeaviest(p, g, 0);
    }
    if NonPositive(p) {
      forall k | 0 <= k < |Best(p)| ensures SplitsAt(p, Best(p), k) {
        EmittedSplitsAt(p, g, 0, k);
      }
    }
  }

  lemma FloorNeverBindsScores(p: Problem)
    requires FloorNeverBinds(p) && Forward(WordGraph(p))
    ensures AboveFloorFrom(WordGraph(p), p.minWeight, 0)
  {
    forall i | 0 <= i < |p.text| ensures Suffix(WordGraph(p), p.minWeight, i) > MIN_DOUBLE {
      assert SomeAboveFloor(p, i);
      var rs :| Segmentation(p, i, rs) && Total(p, i, rs) > MIN_DOUBLE;
      ScoreIsUpperBound(p, i, rs);
    }
  }

  /** `ws` is `rs`, moved to where the text begins. */
  predicate MovedTo(rs: seq<WordRange>, begin: nat, ws: seq<WordRange>) {
    |ws| == |rs| && forall k :: 0 <= k < |rs| ==> ws[k] == WordRange(begin + rs[k].left, begin + rs[k].right)
  }

  ghost predicate IsDictionaryCut(p: Problem, begin: nat, ws: seq<WordRange>) {
    exists rs :: MovedTo(rs, begin, ws) && DictionaryCut(p, rs)
  }

  lemma ShiftedBest(p: Problem, begin: nat)
    requires KeyedByWord(p.dict)
    ensures Tiles(Shifted(Best(p), begin), begin, begin + |p.text|)
    ensures IsDictionaryCut(p, begin, Shifted(Best(p), begin))
  {
    ShiftedTiles(Best(p), 0, |p.text|, begin);
    BestIsDictionaryCut(p);
    assert MovedTo(Best(p), begin, Shifted(Best(p), begin));
  }

  /** Cuts runes[begin..end): build the DAG, score it, read it off. */
  method Cut(trie: Trie, minWeight: real, runes: seq<Rune>, begin: nat, end: nat, maxLen: nat)
    returns (words: seq<WordRange>)
    requires trie.Valid() && KeyedByWord(trie.dict) && begin <= end <= |runes|
    ensures words == Shifted(Best(Problem(trie.dict, minWeight, maxLen, runes[begin..end])), begin)
    ensures Tiles(words, begin, end)
    ensures IsDictionaryCut(Problem(trie.dict, minWeight, maxLen, runes[begin..end]), begin, words)
  {
    ghost var p := Problem(trie.dict, minWeight, maxLen, runes[begin..end]);
    WordGraphIsForward(p);
    WordGraphSpans(p);
    var dags := trie.FindDag(runes[begin..end], maxLen);
    assert GraphOf(dags[..]) == WordGraph(p);
    CalcDP(dags, minWeight);
    words := CutByDag(dags, begin, minWeight);
    ShiftedBest(p, begin);
  }

  // A condition on the weights alone ---------------------------------------

  /** Every rune from `i` on by itself. */
  function Singles(i: nat, n: nat): seq<WordRange>
    requires i <= n
    decreases n - i
  {
    if i == n then [] else [WordRange(i, i)] + Singles(i + 1, n)
  }

  lemma {:induction false} SinglesWeigh(p: Problem, w: real, i: nat)
    requires i <= |p.text| && forall k :: 0 <= k < |p.text| ==> WordWeight(p, WordRange(k, k)) >= w
    ensures Segmentation(p, i, Singles(i, |p.text|))
    ensures Total(p, i, Singles(i, |p.text|)) >= w * (|p.text| - i) as real
    decreases |p.text| - i
  {
    if i < |p.text| {
      SinglesWeigh(p, w, i + 1);
      SegmentationCons(p, WordRange(i, i), Singles(i + 1, |p.text|));
      assert w * (|p.text| - i) as real == w + w * (|p.text| - (i + 1)) as real;
    }
  }

  lemma SuffixOfProduct(w: real, n: nat, i: nat)
    requires i <= n && w * n as real > MIN_DOUBLE
    ensures w * (n - i) as real > MIN_DOUBLE
  {
    assert w * n as real == w * (n - i) as real + w * i as real;
    if w <= 0.0 {
      assert w * i as real <= 0.0;
    } else {
      assert w * (n - i) as real >= 0.0;
    }
  }

  /** If no single rune weighs less than `w`, and the text is short enough for `w`, the cut is optimal. */
  lemma OptimalIfRunesAreHeavyEnough(p: Problem, w: real)
    requires KeyedByWord(p.dict) && w * |p.text| as real > MIN_DOUBLE
    requires forall k :: 0 <= k < |p.text| ==> WordWeight(p, WordRange(k, k)) >= w
    ensures Optimal(p, Best(p))
  {
    forall i | 0 <= i < |p.text| ensures SomeAboveFloor(p, i) {
      SinglesWeigh(p, w, i);
      SuffixOfProduct(w, |p.text|, i);
    }
    BestIsOptimal(p);
  }

  // What comes out below the floor -----------------------------------------

  /** Where no segmentation of the rest is above the floor, a single rune is read off. */
  lemma BelowFloorReadsOneRune(p: Problem, g: Graph, i: nat)
    requires g == WordGraph(p) && Forward(g) && Spans(g) && KeyedByWord(p.dict) && NonPositive(p)
    requires i < |p.text| && !SomeAboveFloor(p, i)
    ensures Stride(g, p.minWeight, i) == 1
  {
    if Suffix(g, p.minWeight, i) > MIN_DOUBLE {
      EmittedAttainsScore(p, g, i);
    } else {
      FloorWord(p, g, i);
    }
  }

  /** Every allowed range over rune `k` weighs no more than the floor. */
  ghost predicate Sunk(p: Problem, k: nat) {
    forall r :: Allowed(p, r) && r.left <= k <= r.right ==> WordWeight(p, r) <= MIN_DOUBLE
  }

  lemma {:induction false} TotalNonPositive(p: Problem, i: nat, rs: seq<WordRange>)
    requires NonPositive(p) && Segmentation(p, i, rs)
    ensures Total(p, i, rs) <= 0.0
    decreases |rs|
  {
    if rs != [] {
      TotalNonPositive(p, rs[0].right + 1, rs[1..]);
    }
  }

  lemma {:induction false} SunkRuneSinksTotal(p: Problem, i: nat, k: nat, rs: seq<WordRange>)
    requires NonPositive(p) && Sunk(p, k) && i <= k < |p.text| && Segmentation(p, i, rs)
    ensures Total(p, i, rs) <= MIN_DOUBLE
    decreases |rs|
  {
    if rs[0].right < k {
      SunkRuneSinksTotal(p, rs[0].right + 1, k, rs[1..]);
    } else {
      TotalNonPositive(p, rs[0].right + 1, rs[1..]);
    }
  }

  /** A rune that only ranges at or below the floor cover costs every position up to it its words. */
  lemma SunkRuneLosesWords(p: Problem, g: Graph, i: nat, k: nat)
    requires g == WordGraph(p) && Forward(g) && Spans(g) && KeyedByWord(p.dict) && NonPositive(p)
    requires Sunk(p, k) && i <= k < |p.text|
    ensures Stride(g, p.minWeight, i) == 1
  {
    forall rs | Segmentation(p, i, rs) ensures Total(p, i, rs) <= MIN_DOUBLE {
      SunkRuneSinksTotal(p, i, k, rs);
    }
    BelowFloorReadsOneRune(p, g, i);
  }

  /**
    The result then need not be a heaviest segmentation. A user dictionary line
    with frequency 0 for the rune `c` gives it the logarithm of zero, for which
    any weight at or below the floor stands here; the word a b before it is lost.
   */
  lemma ZeroFrequencyLosesWords(a: Rune, b: Rune, c: Rune, w: real) returns (p: Problem)
    requires a != c && b != c && w <= MIN_DOUBLE
    ensures p.dict == map[[a, b] := DictUnit([a, b], -1.0, ""), [c] := DictUnit([c], w, "")]
    ensures p.text == [a, b, c] && KeyedByWord(p.dict) && NonPositive(p)
    ensures Best(p) == [WordRange(0, 0), WordRange(1, 1), WordRange(2, 2)] && !Optimal(p, Best(p))
  {
    p := Problem(map[[a, b] := DictUnit([a, b], -1.0, ""), [c] := DictUnit([c], w, "")], -10.0, 512, [a, b, c]);
    WordGraphIsForward(p);
    WordGraphSpans(p);
    LastRuneSunk(p, a, b, c, w);
    AllSingles(p, WordGraph(p));
    TwoCuts(p, a, b, c, w);
  }

  lemma LastRuneSunk(p: Problem, a: Rune, b: Rune, c: Rune, w: real)
    requires p.dict == map[[a, b] := DictUnit([a, b], -1.0, ""), [c] := DictUnit([c], w, "")]
    requires p.text == [a, b, c] && a != c && b != c && w <= MIN_DOUBLE
    ensures Sunk(p, 2)
  {
    forall r | Allowed(p, r) && r.left <= 2 <= r.right ensures WordWeight(p, r) <= MIN_DOUBLE {
      var word := p.text[r.left..r.right + 1];
      assert word[|word| - 1] == c;
      if r.left == r.right {
        assert word == [c];
      }
    }
  }

  /** With the last of three runes sunk, all three are read off one by one. */
  lemma AllSingles(p: Problem, g: Graph)
    requires g == WordGraph(p) && Forward(g) && Spans(g) && KeyedByWord(p.dict) && NonPositive(p)
    requires |p.text| == 3 && Sunk(p, 2)
    ensures Emitted(g, p.minWeight, 0) == [WordRange(0, 0), WordRange(1, 1), WordRange(2, 2)]
  {
    SunkRuneLosesWords(p, g, 0, 2);
    SunkRuneLosesWords(p, g, 1, 2);
    SunkRuneLosesWords(p, g, 2, 2);
    EmittedCons(g, p.minWeight, 0);
    EmittedCons(g, p.minWeight, 1);
    EmittedCons(g, p.minWeight, 2);
    assert Emitted(g, p.minWeight, 3) == [];
  }

  /** The cut with the word is heavier than the one without. */
  lemma TwoCuts(p: Problem, a: Rune, b: Rune, c: Rune, w: real)
    requires p.dict == map[[a, b] := DictUnit([a, b], -1.0, ""), [c] := DictUnit([c], w, "")]
    requires p.text == [a, b, c] && a != c && b != c && p.minWeight == -10.0 && p.maxLen == 512
    ensures var singles := [WordRange(0, 0), WordRange(1, 1), WordRange(2, 2)];
            var words := [WordRange(0, 1), WordRange(2, 2)];
            && Segmentation(p, 0, singles) && Segmentation(p, 0, words)
            && Total(p, 0, singles) == -20.0 + w && Total(p, 0, words) == -1.0 + w
  {
    assert p.text[0..2] == [a, b] && p.text[2..3] == [c] && p.text[0..1] == [a] && p.text[1..2] == [b];
    var last := [WordRange(2, 2)];
    assert Segmentation(p, 3, []);
    SegmentationCons(p, WordRange(2, 2), []);
    assert [WordRange(2, 2)] + [] == last;
    SegmentationCons(p, WordRange(0, 1), last);
    assert [WordRange(0, 1)] + last == [WordRange(0, 1), WordRange(2, 2)];
    SegmentationCons(p, WordRange(1, 1), last);
    SegmentationCons(p, WordRange(0, 0), [WordRange(1, 1)] + last);
    assert [WordRange(0, 0)] + ([WordRange(1, 1)] + last) == [WordRange(0, 0), WordRange(1, 1), WordRange(2, 2)];
  }
}
