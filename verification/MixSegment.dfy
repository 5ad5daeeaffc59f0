/**
  The mixed segmenter: split the sentence at separators, cut each piece with
  the dictionary, and recut runs of leftover single runes with the tagger.
 */
module MixSegment {
  import opened Unicode
  import opened WordRanges
  import opened Trie
  import MPSegment
  import HMMSegment

  const MAX_WORD_LENGTH := 512

  // ---------------------------------------------------------------------
  // The separator filter
  // ---------------------------------------------------------------------

  /** The end of the piece that starts at `k`: one separator, or the run up to the next one. */
  function PieceEnd(runes: seq<Rune>, symbols: set<Rune>, k: nat): (r: nat)
    requires k < |runes|
    ensures k < r <= |runes|
    ensures runes[k] in symbols ==> r == k + 1
    ensures runes[k] !in symbols ==>
              (forall i :: k <= i < r ==> runes[i] !in symbols) && (r < |runes| ==> runes[r] in symbols)
  {
    if runes[k] in symbols then k + 1 else HMMSegment.RunEnd(runes, x => x !in symbols, k, |runes|)
  }

  class PreFilter {
    const sentence: seq<Rune>
    const symbols: set<Rune>
    var cursor: nat

    ghost predicate Valid()
      reads this
    {
      cursor <= |sentence|
    }

    constructor (symbols: set<Rune>, sentence: seq<Rune>)
      ensures Valid() && cursor == 0 && this.sentence == sentence && this.symbols == symbols
    {
      this.symbols := symbols;
      this.sentence := sentence;
      cursor := 0;
    }

    predicate HasNext()
      reads this
    {
      cursor != |sentence|
    }

    method Next() returns (begin: nat, end: nat)
      requires Valid() && HasNext()
      modifies this
      ensures Valid() && begin == old(cursor) && end == cursor
      ensures end == PieceEnd(sentence, symbols, begin)
    {
      begin := cursor;
      while cursor != |sentence|
        invariant begin <= cursor <= |sentence|
        invariant forall i :: begin <= i < cursor ==> sentence[i] !in symbols
      {
        if sentence[cursor] in symbols {
          if begin == cursor {
            cursor := cursor + 1;
          }
          end := cursor;
          return;
        }
        cursor := cursor + 1;
      }
      end := |sentence|;
    }
  }

  // ---------------------------------------------------------------------
  // Mixing the two cutters
  // ---------------------------------------------------------------------

  /** What a mixed segmenter is built from. */
  datatype Config = Config(dict: Dict, minWeight: real, userSingles: set<Rune>, model: HMMSegment.Model) {
    predicate Valid() { KeyedByWord(dict) && model.Valid() }
  }

  /** A dictionary result that stands: longer than one rune, or a single rune of the user dictionary. */
  predicate Stands(c: Config, runes: seq<Rune>, w: WordRange)
    requires w.left < |runes|
  {
    w.left != w.right || runes[w.left] in c.userSingles
  }

  /** Where word `k` begins; word |ws| would begin at `end`. */
  function Begin(ws: seq<WordRange>, end: nat, k: nat): nat
    requires k <= |ws|
  {
    if k < |ws| then ws[k].left else end
  }

  lemma Placed(ws: seq<WordRange>, begin: nat, end: nat, k: nat)
    requires Tiles(ws, begin, end) && k < |ws|
    ensures begin <= ws[k].left <= ws[k].right < end
    ensures Begin(ws, end, k + 1) == ws[k].right + 1
  {
    TilesBounds(ws, begin, end, k);
    assert ws[k..][1..] == ws[k + 1..];
  }

  ghost predicate Inside(ws: seq<WordRange>, n: nat) { forall k :: 0 <= k < |ws| ==> ws[k].left <= ws[k].right < n }

  lemma TilesInside(ws: seq<WordRange>, begin: nat, end: nat)
    requires Tiles(ws, begin, end)
    ensures Inside(ws, end)
  {
    forall k | 0 <= k < |ws| ensures ws[k].left <= ws[k].right < end {
      Placed(ws, begin, end, k);
    }
  }

  /** The end of the run of leftover singles that starts at word `k`. */
  ghost function LeftoverEnd(c: Config, runes: seq<Rune>, ws: seq<WordRange>, k: nat): (j: nat)
    requires Inside(ws, |runes|) && k <= |ws|
    ensures k <= j <= |ws| && (forall i :: k <= i < j ==> !Stands(c, runes, ws[i]))
    ensures j < |ws| ==> Stands(c, runes, ws[j])
    decreases |ws| - k
  {
    if k < |ws| && !Stands(c, runes, ws[k]) then LeftoverEnd(c, runes, ws, k + 1) else k
  }

  /** The mixed result for the dictionary words from index `i` on. */
  ghost function Mixed(c: Config, runes: seq<Rune>, ws: seq<WordRange>, begin: nat, end: nat, i: nat)
    : (rs: seq<WordRange>)
    requires c.model.Valid() && Tiles(ws, begin, end) && end <= |runes| && i <= |ws|
    ensures Tiles(rs, Begin(ws, end, i), end)
    decreases |ws| - i
  {
    if i == |ws| then []
    else
      TilesInside(ws, begin, end);
      Placed(ws, begin, end, i);
      if Stands(c, runes, ws[i]) then
        var rest := Mixed(c, runes, ws, begin, end, i + 1);
        assert ([ws[i]] + rest)[1..] == rest;
        [ws[i]] + rest
      else
        var j := LeftoverEnd(c, runes, ws, i);
        LeftoversAdjoin(c, runes, ws, begin, end, i, j);
        var run := HMMSegment.Ranges(c.model, runes, ws[i].left, ws[j - 1].left + 1);
        var rest := Mixed(c, runes, ws, begin, end, j);
        HMMSegment.RangesTile(c.model, runes, ws[i].left, ws[j - 1].left + 1);
        TilesAppend(run, rest, ws[i].left, ws[j - 1].left + 1, end);
        run + rest
  }

  /** A run of leftovers covers the runes from its first to its last, which adjoins what follows. */
  lemma LeftoversAdjoin(c: Config, runes: seq<Rune>, ws: seq<WordRange>, begin: nat, end: nat, i: nat, j: nat)
    requires Tiles(ws, begin, end) && end <= |runes| && i < j <= |ws| && Inside(ws, |runes|)
    requires forall k :: i <= k < j ==> !Stands(c, runes, ws[k])
    ensures ws[i].left <= ws[j - 1].left < end && Begin(ws, end, j) == ws[j - 1].left + 1
  {
    Placed(ws, begin, end, j - 1);
    TilesBounds(ws, begin, end, i);
    TilesBounds(ws[i..], ws[i].left, end, j - 1 - i);
  }

  /** Every dictionary word that stands is a word of the result. */
  lemma {:induction false} StandingWordsSurvive(
    c: Config, runes: seq<Rune>, ws: seq<WordRange>, begin: nat, end: nat, i: nat, k: nat)
    requires c.model.Valid() && Tiles(ws, begin, end) && end <= |runes| && Inside(ws, |runes|) && i <= k < |ws|
    requires Stands(c, runes, ws[k])
    ensures ws[k] in Mixed(c, runes, ws, begin, end, i)
    decreases |ws| - i
  {
    if Stands(c, runes, ws[i]) {
      if i < k {
        StandingWordsSurvive(c, runes, ws, begin, end, i + 1, k);
      }
    } else {
      StandingWordsSurvive(c, runes, ws, begin, end, LeftoverEnd(c, runes, ws, i), k);
    }
  }

  /** Words `i` to `j` are leftovers, and their neighbours stand. */
  ghost predicate LeftoverRun(c: Config, runes: seq<Rune>, ws: seq<WordRange>, i: nat, j: nat)
    requires Inside(ws, |runes|)
  {
    && i < j <= |ws|
    && (forall k :: i <= k < j ==> ws[k].left == ws[k].right && runes[ws[k].left] !in c.userSingles)
    && (i == 0 || Stands(c, runes, ws[i - 1])) && (j == |ws| || Stands(c, runes, ws[j]))
  }

  /** Some consecutive ranges of `rs` are the tagger's cut of runes[a..b). */
  ghost predicate IsRecut(c: Config, runes: seq<Rune>, a: nat, b: nat, rs: seq<WordRange>)
    requires c.model.Valid()
  {
    && a <= b <= |runes|
    && exists x, y :: 0 <= x <= y <= |rs| && HMMSegment.TaggerCut(c.model, runes, a, b, rs[x..y])
  }

  /** `r` is one of the words that stand, or lies inside a maximal run of leftovers. */
  ghost predicate Comes(c: Config, runes: seq<Rune>, ws: seq<WordRange>, r: WordRange)
    requires Inside(ws, |runes|)
  {
    || (exists k :: 0 <= k < |ws| && Stands(c, runes, ws[k]) && r == ws[k])
    || (exists i: nat, j: nat :: LeftoverRun(c, runes, ws, i, j) && ws[i].left <= r.left && r.right <= ws[j - 1].left)
  }

  /** From word `i` on, words that stand are in `rs`, each maximal run of leftovers is recut, and that is all. */
  ghost predicate RecutFrom(c: Config, runes: seq<Rune>, ws: seq<WordRange>, i: nat, rs: seq<WordRange>)
    requires c.model.Valid() && Inside(ws, |runes|)
  {
    && (forall k :: i <= k < |ws| && (ws[k].left < ws[k].right || runes[ws[k].left] in c.userSingles) ==> ws[k] in rs)
    && LeftoversRecut(c, runes, ws, i, rs)
    && (forall r :: r in rs ==> Comes(c, runes, ws, r))
  }

  ghost predicate LeftoversRecut(c: Config, runes: seq<Rune>, ws: seq<WordRange>, i: nat, rs: seq<WordRange>)
    requires c.model.Valid() && Inside(ws, |runes|)
  {
    forall a, b :: i <= a && LeftoverRun(c, runes, ws, a, b) ==>
      IsRecut(c, runes, ws[a].left, ws[b - 1].left + 1, rs)
  }

  /** No run of leftovers goes on across the front of word `i`. */
  ghost predicate Seam(c: Config, runes: seq<Rune>, ws: seq<WordRange>, i: nat)
    requires Inside(ws, |runes|) && i <= |ws|
  {
    i == 0 || i == |ws| || Stands(c, runes, ws[i - 1]) || Stands(c, runes, ws[i])
  }

  lemma IsRecutBehind(c: Config, runes: seq<Rune>, a: nat, b: nat, front: seq<WordRange>, rs: seq<WordRange>)
    requires c.model.Valid() && IsRecut(c, runes, a, b, rs)
    ensures IsRecut(c, runes, a, b, front + rs)
  {
    var x, y :| 0 <= x <= y <= |rs| && HMMSegment.TaggerCut(c.model, runes, a, b, rs[x..y]);
    assert (front + rs)[|front| + x..|front| + y] == rs[x..y];
  }

  lemma StandingFirst(c: Config, runes: seq<Rune>, ws: seq<WordRange>, i: nat, rest: seq<WordRange>)
    requires c.model.Valid() && Inside(ws, |runes|) && i < |ws| && Stands(c, runes, ws[i])
    requires RecutFrom(c, runes, ws, i + 1, rest)
    ensures RecutFrom(c, runes, ws, i, [ws[i]] + rest)
  {
    forall a, b | i <= a && LeftoverRun(c, runes, ws, a, b)
      ensures IsRecut(c, runes, ws[a].left, ws[b - 1].left + 1, [ws[i]] + rest)
    {
      IsRecutBehind(c, runes, ws[a].left, ws[b - 1].left + 1, [ws[i]], rest);
    }
  }

  lemma LeftoversFirst(c: Config, runes: seq<Rune>, ws: seq<WordRange>, i: nat, j: nat, run: seq<WordRange>,
                       rest: seq<WordRange>)
    requires c.model.Valid() && Inside(ws, |runes|) && LeftoverRun(c, runes, ws, i, j)
    requires ws[i].left <= ws[j - 1].left
    requires HMMSegment.TaggerCut(c.model, runes, ws[i].left, ws[j - 1].left + 1, run)
    requires RecutFrom(c, runes, ws, j, rest)
    ensures RecutFrom(c, runes, ws, i, run + rest)
  {
    assert IsRecut(c, runes, ws[i].left, ws[j - 1].left + 1, run + rest) by { assert (run + rest)[0..|run|] == run; }
    FurtherLeftovers(c, runes, ws, i, j, run, rest);
    RunComes(c, runes, ws, i, j, run);
  }

  lemma FurtherLeftovers(c: Config, runes: seq<Rune>, ws: seq<WordRange>, i: nat, j: nat, run: seq<WordRange>,
                         rest: seq<WordRange>)
    requires c.model.Valid() && Inside(ws, |runes|) && LeftoverRun(c, runes, ws, i, j)
    requires IsRecut(c, runes, ws[i].left, ws[j - 1].left + 1, run + rest) && LeftoversRecut(c, runes, ws, j, rest)
    ensures LeftoversRecut(c, runes, ws, i, run + rest)
  {
    forall a, b | i <= a && LeftoverRun(c, runes, ws, a, b)
      ensures IsRecut(c, runes, ws[a].left, ws[b - 1].left + 1, run + rest)
    {
      if a < j {
        assert a == i && b == j;
      } else {
        IsRecutBehind(c, runes, ws[a].left, ws[b - 1].left + 1, run, rest);
      }
    }
  }

  lemma RunComes(c: Config, runes: seq<Rune>, ws: seq<WordRange>, i: nat, j: nat, run: seq<WordRange>)
    requires Inside(ws, |runes|) && LeftoverRun(c, runes, ws, i, j)
    requires Tiles(run, ws[i].left, ws[j - 1].left + 1)
    ensures forall r :: r in run ==> Comes(c, runes, ws, r)
  {
    forall r | r in run ensures Comes(c, runes, ws, r) {
      var k :| 0 <= k < |run| && run[k] == r;
      TilesBounds(run, ws[i].left, ws[j - 1].left + 1, k);
    }
  }

  lemma MixedStanding(c: Config, runes: seq<Rune>, ws: seq<WordRange>, begin: nat, end: nat, i: nat)
    requires c.model.Valid() && Tiles(ws, begin, end) && end <= |runes| && Inside(ws, |runes|) && i < |ws|
    requires Stands(c, runes, ws[i])
    ensures Mixed(c, runes, ws, begin, end, i) == [ws[i]] + Mixed(c, runes, ws, begin, end, i + 1)
  {
  }

  lemma {:induction false} MixedIsRecut(c: Config, runes: seq<Rune>, ws: seq<WordRange>, begin: nat, end: nat, i: nat)
    requires c.model.Valid() && Tiles(ws, begin, end) && end <= |runes| && Inside(ws, |runes|) && i <= |ws|
    requires Seam(c, runes, ws, i)
    ensures RecutFrom(c, runes, ws, i, Mixed(c, runes, ws, begin, end, i))
    decreases |ws| - i
  {
    if i < |ws| {
      if Stands(c, runes, ws[i]) {
        MixedIsRecut(c, runes, ws, begin, end, i + 1);
        MixedStanding(c, runes, ws, begin, end, i);
        StandingFirst(c, runes, ws, i, Mixed(c, runes, ws, begin, end, i + 1));
      } else {
        var j := LeftoverEnd(c, runes, ws, i);
        MixedIsRecut(c, runes, ws, begin, end, j);
        MixedLeftoversFirst(c, runes, ws, begin, end, i, j);
      }
    }
  }

  lemma MixedLeftoversFirst(c: Config, runes: seq<Rune>, ws: seq<WordRange>, begin: nat, end: nat, i: nat, j: nat)
    requires c.model.Valid() && Tiles(ws, begin, end) && end <= |runes| && Inside(ws, |runes|) && i < j <= |ws|
    requires j == LeftoverEnd(c, runes, ws, i) && LeftoverRun(c, runes, ws, i, j)
    requires RecutFrom(c, runes, ws, j, Mixed(c, runes, ws, begin, end, j))
    ensures RecutFrom(c, runes, ws, i, Mixed(c, runes, ws, begin, end, i))
  {
    LeftoversAdjoin(c, runes, ws, begin, end, i, j);
    MixedLeftover(c, runes, ws, begin, end, i, j);
    var run := HMMSegment.Ranges(c.model, runes, ws[i].left, ws[j - 1].left + 1);
    HMMSegment.RangesAreTaggerCut(c.model, runes, ws[i].left, ws[j - 1].left + 1);
    LeftoversFirst(c, runes, ws, i, j, run, Mixed(c, runes, ws, begin, end, j));
  }

  /**
    What the cut of a piece is, on the dictionary, the tagger's model and the
    runes: a dictionary cut, of which the tagger recuts the leftovers.
   */
  ghost predicate PieceIsCut(c: Config, runes: seq<Rune>, begin: nat, end: nat, hmm: bool, rs: seq<WordRange>)
    requires c.Valid() && begin <= end <= |runes|
  {
    && Tiles(rs, begin, end)
    && exists ws :: MixOf(c, runes, begin, end, hmm, ws, rs)
  }

  ghost predicate MixOf(c: Config, runes: seq<Rune>, begin: nat, end: nat, hmm: bool, ws: seq<WordRange>,
                        rs: seq<WordRange>)
    requires c.Valid() && begin <= end <= |runes|
  {
    && MPSegment.IsDictionaryCut(MPSegment.Problem(c.dict, c.minWeight, MAX_WORD_LENGTH, runes[begin..end]), begin, ws)
    && Tiles(ws, begin, end) && Inside(ws, |runes|)
    && if hmm then RecutFrom(c, runes, ws, 0, rs) else rs == ws
  }

  /** The cut of runes[begin..end), with or without the tagger. */
  ghost function PieceCut(c: Config, runes: seq<Rune>, begin: nat, end: nat, hmm: bool): (rs: seq<WordRange>)
    requires c.Valid() && begin <= end <= |runes|
    ensures Tiles(rs, begin, end)
  {
    var p := MPSegment.Problem(c.dict, c.minWeight, MAX_WORD_LENGTH, runes[begin..end]);
    var ws := MPSegment.Shifted(MPSegment.Best(p), begin);
    MPSegment.ShiftedTiles(MPSegment.Best(p), 0, end - begin, begin);
    TilesOrdered(ws, begin, end);
    assert Begin(ws, end, 0) == begin;
    if hmm then Mixed(c, runes, ws, begin, end, 0) else ws
  }

  lemma PieceCutIsCut(c: Config, runes: seq<Rune>, begin: nat, end: nat, hmm: bool)
    requires c.Valid() && begin <= end <= |runes|
    ensures PieceIsCut(c, runes, begin, end, hmm, PieceCut(c, runes, begin, end, hmm))
  {
    var p := MPSegment.Problem(c.dict, c.minWeight, MAX_WORD_LENGTH, runes[begin..end]);
    var ws := MPSegment.Shifted(MPSegment.Best(p), begin);
    MPSegment.ShiftedBest(p, begin);
    TilesInside(ws, begin, end);
    MixedIsRecut(c, runes, ws, begin, end, 0);
    assert MixOf(c, runes, begin, end, hmm, ws, PieceCut(c, runes, begin, end, hmm));
  }

  /** `res` followed by the mix of the words from `i` on is the whole mix. */
  ghost predicate MixedSoFar(
    c: Config, runes: seq<Rune>, ws: seq<WordRange>, begin: nat, end: nat, i: nat, res: seq<WordRange>)
    requires c.model.Valid() && Tiles(ws, begin, end) && end <= |runes| && i <= |ws|
  {
    res + Mixed(c, runes, ws, begin, end, i) == Mixed(c, runes, ws, begin, end, 0)
  }

  lemma StandingStep(c: Config, runes: seq<Rune>, ws: seq<WordRange>, begin: nat, end: nat, i: nat, res: seq<WordRange>)
    requires c.model.Valid() && Tiles(ws, begin, end) && end <= |runes| && i < |ws| && Inside(ws, |runes|)
    requires Stands(c, runes, ws[i]) && MixedSoFar(c, runes, ws, begin, end, i, res)
    ensures MixedSoFar(c, runes, ws, begin, end, i + 1, res + [ws[i]])
  {
  }

  lemma MixedLeftover(c: Config, runes: seq<Rune>, ws: seq<WordRange>, begin: nat, end: nat, i: nat, j: nat)
    requires c.model.Valid() && Tiles(ws, begin, end) && end <= |runes| && i < j <= |ws| && Inside(ws, |runes|)
    requires j == LeftoverEnd(c, runes, ws, i) && ws[i].left <= ws[j - 1].left < end
    ensures Mixed(c, runes, ws, begin, end, i)
         == HMMSegment.Ranges(c.model, runes, ws[i].left, ws[j - 1].left + 1) + Mixed(c, runes, ws, begin, end, j)
  {
  }

  lemma LeftoverStep(
    c: Config, runes: seq<Rune>, ws: seq<WordRange>, begin: nat, end: nat, i: nat, j: nat, res: seq<WordRange>)
    requires c.model.Valid() && Tiles(ws, begin, end) && end <= |runes| && i < j <= |ws| && Inside(ws, |runes|)
    requires j == LeftoverEnd(c, runes, ws, i) && MixedSoFar(c, runes, ws, begin, end, i, res)
    ensures ws[i].left <= ws[j - 1].left < end
    ensures MixedSoFar(c, runes, ws, begin, end, j,
                       res + HMMSegment.Ranges(c.model, runes, ws[i].left, ws[j - 1].left + 1))
  {
    LeftoversAdjoin(c, runes, ws, begin, end, i, j);
    MixedLeftover(c, runes, ws, begin, end, i, j);
    var run := HMMSegment.Ranges(c.model, runes, ws[i].left, ws[j - 1].left + 1);
    Reassociate(res, run, Mixed(c, runes, ws, begin, end, j));
  }

  lemma Reassociate(a: seq<WordRange>, b: seq<WordRange>, c: seq<WordRange>)
    ensures a + (b + c) == (a + b) + c
  {
  }

  /** The inner loop: the end of the run of leftovers at `i`. */
  method EndOfRun(c: Config, runes: seq<Rune>, words: seq<WordRange>, i: nat) returns (j: nat)
    requires Inside(words, |runes|) && i < |words| && !Stands(c, runes, words[i])
    ensures i < j <= |words| && j == LeftoverEnd(c, runes, words, i)
  {
    j := i;
    while j < |words| && !Stands(c, runes, words[j])
      invariant i <= j <= |words|
      invariant LeftoverEnd(c, runes, words, i) == LeftoverEnd(c, runes, words, j)
    {
      j := j + 1;
    }
  }

  /** The mixing loop, with its index jumping over each run of leftovers. */
  method MixWords(c: Config, runes: seq<Rune>, words: seq<WordRange>, ghost begin: nat, end: nat)
    returns (res: seq<WordRange>)
    requires c.model.Valid() && Tiles(words, begin, end) && end <= |runes|
    ensures res == Mixed(c, runes, words, begin, end, 0)
  {
    TilesInside(words, begin, end);
    res := [];
    var i := 0;
    while i < |words|
      invariant 0 <= i <= |words|
      invariant MixedSoFar(c, runes, words, begin, end, i, res)
    {
      if Stands(c, runes, words[i]) {
        StandingStep(c, runes, words, begin, end, i, res);
        res := res + [words[i]];
        i := i + 1;
        continue;
      }
      var j := EndOfRun(c, runes, words, i);
      LeftoverStep(c, runes, words, begin, end, i, j, res);
      var hmmRes := HMMSegment.Cut(c.model, runes, words[i].left, words[j - 1].left + 1);
      res := res + hmmRes;
      i := j;
    }
  }

  method CutPiece(c: Config, trie: Trie, runes: seq<Rune>, begin: nat, end: nat, hmm: bool)
    returns (res: seq<WordRange>)
    requires c.Valid() && trie.Valid() && trie.dict == c.dict && begin <= end <= |runes|
    ensures res == PieceCut(c, runes, begin, end, hmm)
    ensures PieceIsCut(c, runes, begin, end, hmm, res)
  {
    PieceCutIsCut(c, runes, begin, end, hmm);
    var words := MPSegment.Cut(trie, c.minWeight, runes, begin, end, MAX_WORD_LENGTH);
    if !hmm {
      return words;
    }
    res := MixWords(c, runes, words, begin, end);
  }

  // ---------------------------------------------------------------------
  // From the sentence to its words
  // ---------------------------------------------------------------------

  /** The cut of the runes from `k` on, piece by piece. */
  ghost function PiecesFrom(c: Config, symbols: set<Rune>, runes: seq<Rune>, hmm: bool, k: nat): (rs: seq<WordRange>)
    requires c.Valid() && k <= |runes|
    ensures Tiles(rs, k, |runes|)
    decreases |runes| - k
  {
    if k == |runes| then []
    else
      var r := PieceEnd(runes, symbols, k);
      var piece, rest := PieceCut(c, runes, k, r, hmm), PiecesFrom(c, symbols, runes, hmm, r);
      TilesAppend(piece, rest, k, r, |runes|);
      piece + rest
  }

  /** A separator, or the runes between two of them. */
  ghost predicate IsPiece(symbols: set<Rune>, runes: seq<Rune>, a: nat, b: nat) {
    && a < b <= |runes|
    && if runes[a] in symbols then b == a + 1
       else
         && (forall i :: a <= i < b ==> runes[i] !in symbols)
         && (a == 0 || runes[a - 1] in symbols) && (b == |runes| || runes[b] in symbols)
  }

  /** Some consecutive ranges of `rs` are the cut of the piece runes[a..b). */
  ghost predicate HasPiece(c: Config, runes: seq<Rune>, hmm: bool, a: nat, b: nat, rs: seq<WordRange>)
    requires c.Valid()
  {
    && a <= b <= |runes|
    && exists x, y :: 0 <= x <= y <= |rs| && PieceIsCut(c, runes, a, b, hmm, rs[x..y])
  }

  /** Every piece from `k` on is cut by itself. */
  ghost predicate CutByPieces(c: Config, symbols: set<Rune>, runes: seq<Rune>, hmm: bool, k: nat, rs: seq<WordRange>)
    requires c.Valid() && k <= |runes|
  {
    && Tiles(rs, k, |runes|)
    && forall a, b :: k <= a && IsPiece(symbols, runes, a, b) ==> HasPiece(c, runes, hmm, a, b, rs)
  }

  lemma HasPieceBehind(c: Config, runes: seq<Rune>, hmm: bool, a: nat, b: nat, front: seq<WordRange>,
                       rs: seq<WordRange>)
    requires c.Valid() && HasPiece(c, runes, hmm, a, b, rs)
    ensures HasPiece(c, runes, hmm, a, b, front + rs)
  {
    var x, y :| 0 <= x <= y <= |rs| && PieceIsCut(c, runes, a, b, hmm, rs[x..y]);
    assert (front + rs)[|front| + x..|front| + y] == rs[x..y];
  }

  lemma PieceFirst(c: Config, symbols: set<Rune>, runes: seq<Rune>, hmm: bool, k: nat, r: nat, piece: seq<WordRange>,
                   rest: seq<WordRange>)
    requires c.Valid() && k < |runes| && r == PieceEnd(runes, symbols, k) && PieceIsCut(c, runes, k, r, hmm, piece)
    requires k == 0 || runes[k - 1] in symbols || runes[k] in symbols
    requires CutByPieces(c, symbols, runes, hmm, r, rest)
    ensures CutByPieces(c, symbols, runes, hmm, k, piece + rest)
  {
    TilesAppend(piece, rest, k, r, |runes|);
    assert (piece + rest)[0..|piece|] == piece;
    forall a, b | k <= a && IsPiece(symbols, runes, a, b) ensures HasPiece(c, runes, hmm, a, b, piece + rest) {
      if a < r {
        assert a == k && b == r;
      } else {
        HasPieceBehind(c, runes, hmm, a, b, piece, rest);
      }
    }
  }

  lemma {:induction false} PiecesAreCut(c: Config, symbols: set<Rune>, runes: seq<Rune>, hmm: bool, k: nat)
    requires c.Valid() && k <= |runes|
    requires k == 0 || k == |runes| || runes[k - 1] in symbols || runes[k] in symbols
    ensures CutByPieces(c, symbols, runes, hmm, k, PiecesFrom(c, symbols, runes, hmm, k))
    decreases |runes| - k
  {
    if k < |runes| {
      var r := PieceEnd(runes, symbols, k);
      PiecesAreCut(c, symbols, runes, hmm, r);
      PieceCutIsCut(c, runes, k, r, hmm);
      PieceFirst(c, symbols, runes, hmm, k, r, PieceCut(c, runes, k, r, hmm), PiecesFrom(c, symbols, runes, hmm, r));
    }
  }

  ghost predicate CutSoFar(c: Config, symbols: set<Rune>, runes: seq<Rune>, hmm: bool, k: nat, wrs: seq<WordRange>)
    requires c.Valid() && k <= |runes|
  {
    wrs + PiecesFrom(c, symbols, runes, hmm, k) == PiecesFrom(c, symbols, runes, hmm, 0)
  }

  lemma PieceStep(c: Config, symbols: set<Rune>, runes: seq<Rune>, hmm: bool, k: nat, wrs: seq<WordRange>)
    requires c.Valid() && k < |runes| && CutSoFar(c, symbols, runes, hmm, k, wrs)
    ensures var r := PieceEnd(runes, symbols, k);
            CutSoFar(c, symbols, runes, hmm, r, wrs + PieceCut(c, runes, k, r, hmm))
  {
  }

  /** The sentence loop: ask the filter for pieces and cut each. */
  method CutRunes(c: Config, trie: Trie, symbols: set<Rune>, runes: seq<Rune>, hmm: bool) returns (wrs: seq<WordRange>)
    requires c.Valid() && trie.Valid() && trie.dict == c.dict
    ensures wrs == PiecesFrom(c, symbols, runes, hmm, 0)
    ensures CutByPieces(c, symbols, runes, hmm, 0, wrs)
  {
    var filter := new PreFilter(symbols, runes);
    wrs := [];
    while filter.HasNext()
      invariant filter.Valid()
      invariant CutSoFar(c, symbols, runes, hmm, filter.cursor, wrs)
      decreases |runes| - filter.cursor
      modifies filter
    {
      PieceStep(c, symbols, runes, hmm, filter.cursor, wrs);
      var begin, end := filter.Next();
      var piece := CutPiece(c, trie, runes, begin, end, hmm);
      wrs := wrs + piece;
    }
    PiecesAreCut(c, symbols, runes, hmm, 0);
  }

  /** Word `k` spells the runes of range `k`. */
  ghost predicate Cover(words: seq<Word>, runes: seq<Rune>, wrs: seq<WordRange>) {
    |words| == |wrs| && SpellAll(words, runes, wrs)
  }

  /** The words spell ranges into which the sentence is cut piece by piece. */
  ghost predicate SentenceIsCut(c: Config, symbols: set<Rune>, runes: seq<Rune>, hmm: bool, words: seq<Word>)
    requires c.Valid()
  {
    exists wrs :: Cover(words, runes, wrs) && CutByPieces(c, symbols, runes, hmm, 0, wrs)
  }

  /** A separator is always a word by itself. */
  lemma {:induction false} SeparatorsStandAlone(c: Config, symbols: set<Rune>, runes: seq<Rune>, hmm: bool, k: nat,
                                                i: nat, j: nat)
    requires c.Valid() && k <= |runes| && i < |PiecesFrom(c, symbols, runes, hmm, k)|
    requires var r := PiecesFrom(c, symbols, runes, hmm, k)[i];
             r.left <= j <= r.right && j < |runes| && runes[j] in symbols
    ensures var r := PiecesFrom(c, symbols, runes, hmm, k)[i]; r.left == r.right
    decreases |runes| - k
  {
    var e := PieceEnd(runes, symbols, k);
    var piece := PieceCut(c, runes, k, e, hmm);
    if i < |piece| {
      TilesBounds(piece, k, e, i);
    } else {
      SeparatorsStandAlone(c, symbols, runes, hmm, e, i - |piece|, j);
    }
  }

  /**
    Lossless segmentation: if the sentence decodes, the words are non-empty,
    lie end to end and spell it byte for byte, whatever the weights and with
    the tagger on or off; otherwise there are no words.
   */
  method Cut(c: Config, trie: Trie, symbols: set<Rune>, sentence: seq<Byte>, hmm: bool) returns (words: seq<Word>)
    requires c.Valid() && trie.Valid() && trie.dict == c.dict
    ensures Decodes(sentence) ==> Concat(words) == sentence && WellPlaced(words)
    ensures Decodes(sentence) ==> Cover(words, Decoded(sentence), PiecesFrom(c, symbols, Decoded(sentence), hmm, 0))
    ensures Decodes(sentence) ==> SentenceIsCut(c, symbols, Decoded(sentence), hmm, words)
    ensures !Decodes(sentence) ==> words == []
  {
    var ok, runeStrs := DecodeRunesInString(sentence);
    var wrs := CutRunes(c, trie, symbols, RunesOf(runeStrs), hmm);
    if !ok {
      assert RunesOf(runeStrs) == [] && wrs == [];
      return [];
    }
    words := GetWordsFromWordRanges(sentence, runeStrs, wrs);
  }

  /** The keyword extractor's running byte offset over the words. */
  function TotalSize(ws: seq<Word>): nat {
    if ws == [] then 0 else TotalSize(ws[..|ws| - 1]) + |ws[|ws| - 1].word|
  }

  lemma {:induction false} SizeOfConcat(ws: seq<Word>)
    ensures TotalSize(ws) == |Concat(ws)|
  {
    if ws != [] {
      SizeOfConcat(ws[..|ws| - 1]);
    }
  }

  /** The extractor's "words illegal" check fires exactly when the sentence did not decode. */
  method ExtractCheck(c: Config, trie: Trie, symbols: set<Rune>, sentence: seq<Byte>) returns (illegal: bool)
    requires c.Valid() && trie.Valid() && trie.dict == c.dict
    ensures illegal <==> !Decodes(sentence)
  {
    var words := Cut(c, trie, symbols, sentence, true);
    var offset := 0;
    for i := 0 to |words|
      invariant offset == TotalSize(words[..i])
    {
      assert words[..i + 1][..i] == words[..i];
      offset := offset + |words[i].word|;
    }
    assert words[..|words|] == words;
    SizeOfConcat(words);
    illegal := offset != |sentence|;
  }
}
