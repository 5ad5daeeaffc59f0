/**
  The hidden-Markov cutter for runs of single runes: a Viterbi pass over the
  four tags, the cut after every E or S, and the ASCII rules around it.
 */
module HMMSegment {
  import opened Unicode
  import opened WordRanges
  import opened MPSegment

  const B := 0
  const E := 1
  const M := 2
  const S := 3
  const STATUS_SUM := 4

  type Tag = t: int | 0 <= t < STATUS_SUM

  /** Start, transition and emission log-probabilities; a rune not listed gets the floor. */
  datatype Model = Model(start: seq<real>, trans: seq<seq<real>>, emit: seq<map<Rune, real>>) {
    predicate Valid() {
      |start| == STATUS_SUM && |trans| == STATUS_SUM && |emit| == STATUS_SUM
      && forall t :: 0 <= t < STATUS_SUM ==> |trans[t]| == STATUS_SUM
    }

    function Emit(t: Tag, r: Rune): real
      requires Valid()
    {
      if r in emit[t] then emit[t][r] else MIN_DOUBLE
    }
  }

  /** Everything in the model is a log-probability. */
  ghost predicate LogProbs(m: Model)
    requires m.Valid()
  {
    && (forall t: Tag :: m.start[t] <= 0.0)
    && (forall t: Tag, u: Tag :: m.trans[t][u] <= 0.0)
    && (forall t: Tag, r :: m.Emit(t, r) <= 0.0)
  }

  // ---------------------------------------------------------------------
  // Tag sequences and their scores
  // ---------------------------------------------------------------------

  /** The total log-probability of tagging `text` with `tags`. */
  function TagScore(m: Model, text: seq<Rune>, tags: seq<Tag>): real
    requires m.Valid() && 1 <= |tags| <= |text|
    decreases |tags|
  {
    var x := |tags| - 1;
    if x == 0 then m.start[tags[0]] + m.Emit(tags[0], text[0])
    else TagScore(m, text, tags[..x]) + m.trans[tags[x - 1]][tags[x]] + m.Emit(tags[x], text[x])
  }

  /** A complete tagging: one tag per rune, and the last one closes a word. */
  predicate Tagging(text: seq<Rune>, tags: seq<Tag>) {
    |tags| == |text| >= 1 && (tags[|tags| - 1] == E || tags[|tags| - 1] == S)
  }

  // ---------------------------------------------------------------------
  // The dynamic program
  // ---------------------------------------------------------------------

  /** A cell: the best weight, and the previous tag it came from (-1 in the first column). */
  datatype Cell = Cell(weight: real, path: int)

  /** Cell (x, y) once the first `k` previous tags have been tried. */
  function CellAfter(m: Model, text: seq<Rune>, x: nat, y: Tag, k: nat): (c: Cell)
    requires m.Valid() && x < |text| && k <= STATUS_SUM
    ensures x > 0 ==> 0 <= c.path < STATUS_SUM
    decreases x, k
  {
    if x == 0 then Cell(m.start[y] + m.Emit(y, text[0]), -1)
    else if k == 0 then Cell(MIN_DOUBLE, E)
    else
      var best := CellAfter(m, text, x, y, k - 1);
      var tmp := Final(m, text, x - 1, k - 1).weight + m.trans[k - 1][y] + m.Emit(y, text[x]);
      if tmp > best.weight then Cell(tmp, k - 1) else best
  }

  function Final(m: Model, text: seq<Rune>, x: nat, y: Tag): (c: Cell)
    requires m.Valid() && x < |text|
    ensures x > 0 ==> 0 <= c.path < STATUS_SUM
    decreases x, STATUS_SUM + 1
  {
    CellAfter(m, text, x, y, STATUS_SUM)
  }

  /** The tags traced back from tag `y` in column `x`. */
  function Traced(m: Model, text: seq<Rune>, x: nat, y: Tag): (tags: seq<Tag>)
    requires m.Valid() && x < |text|
    ensures |tags| == x + 1 && tags[x] == y
  {
    if x == 0 then [y] else Traced(m, text, x - 1, Final(m, text, x, y).path) + [y]
  }

  /** The tag the trace starts from: the better of E and S, E on a tie. */
  function LastTag(m: Model, text: seq<Rune>): Tag
    requires m.Valid() && text != []
  {
    if Final(m, text, |text| - 1, E).weight >= Final(m, text, |text| - 1, S).weight then E else S
  }

  function Status(m: Model, text: seq<Rune>): (tags: seq<Tag>)
    requires m.Valid() && text != []
    ensures Tagging(text, tags)
  {
    Traced(m, text, |text| - 1, LastTag(m, text))
  }

  // ---------------------------------------------------------------------
  // The loops that compute it
  // ---------------------------------------------------------------------

  /** Column x, row y of a table stored row after row. */
  function At(x: nat, y: nat, X: nat): nat { x + y * X }

  /** With four rows the row start is linear in the row length. */
  lemma RowStart(y: nat, X: nat)
    requires y < STATUS_SUM
    ensures y * X == if y == 0 then 0 else if y == 1 then X else if y == 2 then X + X else X + X + X
  {
    if y == 2 {
    } else if y == 3 {
    }
  }

  lemma AtInRange(x: nat, y: nat, X: nat)
    requires x < X && y < STATUS_SUM
    ensures At(x, y, X) < X * STATUS_SUM
  {
    RowStart(y, X);
  }

  lemma AtInjective(x: nat, y: nat, x': nat, y': nat, X: nat)
    requires x < X && x' < X && y < STATUS_SUM && y' < STATUS_SUM && At(x, y, X) == At(x', y', X)
    ensures x == x' && y == y'
  {
    RowStart(y, X);
    RowStart(y', X);
  }

  /** Cell (x, y) of the tables holds its final value. */
  ghost predicate FilledAt(m: Model, text: seq<Rune>, weight: array<real>, path: array<int>, x: nat, y: Tag)
    requires m.Valid() && x < |text|
    reads weight, path
  {
    && At(x, y, |text|) < weight.Length == path.Length
    && weight[At(x, y, |text|)] == Final(m, text, x, y).weight
    && path[At(x, y, |text|)] == Final(m, text, x, y).path
  }

  ghost predicate ColumnFilled(m: Model, text: seq<Rune>, weight: array<real>, path: array<int>, x: nat)
    requires m.Valid() && x < |text|
    reads weight, path
  {
    forall y: Tag :: FilledAt(m, text, weight, path, x, y)
  }

  /** The innermost loop: cell (x, y) from column x - 1; every other cell keeps its value. */
  method FillCell(m: Model, text: seq<Rune>, weight: array<real>, path: array<int>, x: nat, y: Tag)
    requires m.Valid() && 0 < x < |text| && weight.Length == path.Length == |text| * STATUS_SUM
    requires ColumnFilled(m, text, weight, path, x - 1)
    modifies weight, path
    ensures FilledAt(m, text, weight, path, x, y)
    ensures forall i :: 0 <= i < weight.Length && i != At(x, y, |text|) ==>
              weight[i] == old(weight[i]) && path[i] == old(path[i])
  {
    var X := |text|;
    AtInRange(x, y, X);
    var now := At(x, y, X);
    weight[now] := MIN_DOUBLE;
    path[now] := E;
    var emitProb := m.Emit(y, text[x]);
    for preY := 0 to STATUS_SUM
      invariant Cell(weight[now], path[now]) == CellAfter(m, text, x, y, preY)
      invariant forall i :: 0 <= i < weight.Length && i != now ==>
                  weight[i] == old(weight[i]) && path[i] == old(path[i])
    {
      AtInRange(x - 1, preY, X);
      assert old(FilledAt(m, text, weight, path, x - 1, preY));
      var before := At(x - 1, preY, X);
      if before == now { AtInjective(x, y, x - 1, preY, X); }
      var tmp := weight[before] + m.trans[preY][y] + emitProb;
      if tmp > weight[now] {
        weight[now] := tmp;
        path[now] := preY;
      }
    }
  }

  /** Cells in other positions survive a change confined to cell (x, y). */
  lemma OtherCell(x: nat, y: Tag, x': nat, y': Tag, X: nat)
    requires x < X && x' < X && (x, y) != (x', y')
    ensures At(x, y, X) != At(x', y', X)
  {
    if At(x, y, X) == At(x', y', X) { AtInjective(x, y, x', y', X); }
  }

  /** The middle loop: column x from column x - 1, leaving the columns before it alone. */
  method FillColumn(m: Model, text: seq<Rune>, weight: array<real>, path: array<int>, x: nat)
    requires m.Valid() && 0 < x < |text| && weight.Length == path.Length == |text| * STATUS_SUM
    requires forall x' :: 0 <= x' < x ==> ColumnFilled(m, text, weight, path, x')
    modifies weight, path
    ensures forall x' :: 0 <= x' <= x ==> ColumnFilled(m, text, weight, path, x')
  {
    for y := 0 to STATUS_SUM
      invariant forall x' :: 0 <= x' < x ==> ColumnFilled(m, text, weight, path, x')
      invariant forall y': Tag :: y' < y ==> FilledAt(m, text, weight, path, x, y')
    {
      label before:
      FillCell(m, text, weight, path, x, y);
      forall x' | 0 <= x' < x ensures ColumnFilled(m, text, weight, path, x') {
        assert old@before(ColumnFilled(m, text, weight, path, x'));
        forall y': Tag ensures FilledAt(m, text, weight, path, x', y') {
          assert old@before(FilledAt(m, text, weight, path, x', y'));
          OtherCell(x, y, x', y', |text|);
        }
      }
      forall y': Tag | y' < y ensures FilledAt(m, text, weight, path, x, y') {
        assert old@before(FilledAt(m, text, weight, path, x, y'));
        OtherCell(x, y, x, y', |text|);
      }
    }
  }

  /** The first column: start plus emission, and no predecessor. */
  method FillFirst(m: Model, text: seq<Rune>, weight: array<real>, path: array<int>)
    requires m.Valid() && 0 < |text| && weight.Length == path.Length == |text| * STATUS_SUM
    modifies weight, path
    ensures ColumnFilled(m, text, weight, path, 0)
  {
    for y := 0 to STATUS_SUM
      invariant forall y': Tag :: y' < y ==> FilledAt(m, text, weight, path, 0, y')
    {
      AtInRange(0, y, |text|);
      label before:
      weight[At(0, y, |text|)] := m.start[y] + m.Emit(y, text[0]);
      path[At(0, y, |text|)] := -1;
      forall y': Tag | y' < y ensures FilledAt(m, text, weight, path, 0, y') {
        assert old@before(FilledAt(m, text, weight, path, 0, y'));
        OtherCell(0, y, 0, y', |text|);
      }
    }
  }

  /** The whole pass; the caller never passes an empty run. */
  method Viterbi(m: Model, text: seq<Rune>) returns (status: seq<Tag>)
    requires m.Valid() && text != []
    ensures status == Status(m, text)
  {
    var X := |text|;
    var path := new int[X * STATUS_SUM];
    var weight := new real[X * STATUS_SUM];
    FillFirst(m, text, weight, path);
    for x := 1 to X
      invariant forall x' :: 0 <= x' < x ==> ColumnFilled(m, text, weight, path, x')
    {
      FillColumn(m, text, weight, path, x);
    }
    assert ColumnFilled(m, text, weight, path, X - 1);
    assert FilledAt(m, text, weight, path, X - 1, E) && FilledAt(m, text, weight, path, X - 1, S);
    var endE, endS := weight[At(X - 1, E, X)], weight[At(X - 1, S, X)];
    var stat := if endE >= endS then E else S;
    status := Trace(m, text, weight, path, stat);
  }

  /** Follows `path` backwards, filling the tags from the last one. */
  method Trace(m: Model, text: seq<Rune>, ghost weight: array<real>, path: array<int>, last: Tag)
    returns (status: seq<Tag>)
    requires m.Valid() && text != []
    requires forall x' :: 0 <= x' < |text| ==> ColumnFilled(m, text, weight, path, x')
    ensures status == Traced(m, text, |text| - 1, last)
  {
    var X := |text|;
    ghost var whole := Traced(m, text, X - 1, last);
    var st := new Tag[X];
    var x, stat := X - 1, last;
    while x >= 0
      invariant -1 <= x < X
      invariant x >= 0 ==> 0 <= stat < STATUS_SUM && Traced(m, text, x, stat) == whole[..x + 1]
      invariant forall k :: x < k < X ==> st[k] == whole[k]
    {
      TraceStep(m, text, weight, path, x, stat, whole);
      st[x] := stat;
      stat := path[At(x, stat, X)];
      x := x - 1;
    }
    status := st[..];
  }

  lemma PathAt(m: Model, text: seq<Rune>, weight: array<real>, path: array<int>, x: nat, y: Tag)
    requires m.Valid() && x < |text| && ColumnFilled(m, text, weight, path, x)
    ensures At(x, y, |text|) < path.Length && path[At(x, y, |text|)] == Final(m, text, x, y).path
  {
    assert FilledAt(m, text, weight, path, x, y);
  }

  /** One turn of the backward loop. */
  lemma TraceStep(m: Model, text: seq<Rune>, weight: array<real>, path: array<int>, x: nat, y: Tag, whole: seq<Tag>)
    requires m.Valid() && x < |text| == |whole| && ColumnFilled(m, text, weight, path, x)
    requires Traced(m, text, x, y) == whole[..x + 1]
    ensures At(x, y, |text|) < path.Length && whole[x] == y
    ensures var t := path[At(x, y, |text|)];
            x > 0 ==> 0 <= t < STATUS_SUM && Traced(m, text, x - 1, t) == whole[..x]
  {
    PathAt(m, text, weight, path, x, y);
    TracedBefore(m, text, x, y);
    assert whole[..x + 1][x] == whole[x] && whole[..x + 1][..x] == whole[..x];
  }

  /** Without its last tag a trace is the trace from the recorded predecessor. */
  lemma TracedBefore(m: Model, text: seq<Rune>, x: nat, y: Tag)
    requires m.Valid() && x < |text|
    ensures Traced(m, text, x, y)[x] == y
    ensures x > 0 ==> Traced(m, text, x - 1, Final(m, text, x, y).path) == Traced(m, text, x, y)[..x]
  {
  }

  // ---------------------------------------------------------------------
  // Optimality
  // ---------------------------------------------------------------------

  lemma {:induction false} CellAtLeast(m: Model, text: seq<Rune>, x: nat, y: Tag, t: Tag, k: nat)
    requires m.Valid() && 0 < x < |text| && t < k <= STATUS_SUM
    ensures CellAfter(m, text, x, y, k).weight
            >= Final(m, text, x - 1, t).weight + m.trans[t][y] + m.Emit(y, text[x])
    decreases k
  {
    if t < k - 1 {
      CellAtLeast(m, text, x, y, t, k - 1);
    }
  }

  /** No tag sequence scores more than its cell, floor or not. */
  lemma {:induction false} CellIsUpperBound(m: Model, text: seq<Rune>, tags: seq<Tag>)
    requires m.Valid() && 1 <= |tags| <= |text|
    ensures TagScore(m, text, tags) <= Final(m, text, |tags| - 1, tags[|tags| - 1]).weight
    decreases |tags|
  {
    var x := |tags| - 1;
    if x > 0 {
      CellIsUpperBound(m, text, tags[..x]);
      CellAtLeast(m, text, x, tags[x], tags[x - 1], STATUS_SUM);
    }
  }

  /** Above the floor, a cell's weight comes from the previous tag it records. */
  lemma {:induction false} CellComesFromPath(m: Model, text: seq<Rune>, x: nat, y: Tag, k: nat)
    requires m.Valid() && 0 < x < |text| && k <= STATUS_SUM
    ensures var c := CellAfter(m, text, x, y, k);
            c.weight > MIN_DOUBLE ==>
              c.weight == Final(m, text, x - 1, c.path).weight + m.trans[c.path][y] + m.Emit(y, text[x])
    decreases k
  {
    if k > 0 {
      CellComesFromPath(m, text, x, y, k - 1);
    }
  }

  /** Tracing back from a cell above the floor gives a sequence with exactly its weight. */
  lemma {:induction false} TraceAttainsCell(m: Model, text: seq<Rune>, x: nat, y: Tag)
    requires m.Valid() && LogProbs(m) && x < |text| && Final(m, text, x, y).weight > MIN_DOUBLE
    ensures TagScore(m, text, Traced(m, text, x, y)) == Final(m, text, x, y).weight
    decreases x
  {
    if x > 0 {
      CellComesFromPath(m, text, x, y, STATUS_SUM);
      var t := Final(m, text, x, y).path;
      assert m.trans[t][y] <= 0.0 && m.Emit(y, text[x]) <= 0.0;
      TraceAttainsCell(m, text, x - 1, t);
      assert Traced(m, text, x, y)[..x] == Traced(m, text, x - 1, t);
    }
  }

  /** Of the previous tags that give a cell its weight, the smallest is recorded. */
  lemma {:induction false} PathIsFirst(m: Model, text: seq<Rune>, x: nat, y: Tag, t: Tag, k: nat)
    requires m.Valid() && 0 < x < |text| && k <= STATUS_SUM
    requires var c := CellAfter(m, text, x, y, k); c.weight > MIN_DOUBLE && t < c.path
    ensures Final(m, text, x - 1, t).weight + m.trans[t][y] + m.Emit(y, text[x]) < CellAfter(m, text, x, y, k).weight
    decreases k
  {
    var best := CellAfter(m, text, x, y, k - 1);
    if CellAfter(m, text, x, y, k) == best {
      PathIsFirst(m, text, x, y, t, k - 1);
    } else {
      CellAtLeast(m, text, x, y, t, k - 1);
    }
  }

  /** At the last place where they differ, `a` has the smaller tag. */
  ghost predicate Before(a: seq<Tag>, b: seq<Tag>)
    requires |a| == |b|
  {
    exists d :: 0 <= d < |a| && a[d] < b[d] && a[d + 1..] == b[d + 1..]
  }

  lemma BeforeSameTag(a: seq<Tag>, b: seq<Tag>, t: Tag)
    requires |a| == |b| && Before(a, b)
    ensures Before(a + [t], b + [t])
  {
    var d :| 0 <= d < |a| && a[d] < b[d] && a[d + 1..] == b[d + 1..];
    assert (a + [t])[d + 1..] == a[d + 1..] + [t] && (b + [t])[d + 1..] == b[d + 1..] + [t];
    assert (a + [t])[d] < (b + [t])[d];
  }

  /** Among the sequences that score as much as a cell above the floor, the trace comes first. */
  lemma {:induction false} TraceIsFirst(m: Model, text: seq<Rune>, x: nat, y: Tag, other: seq<Tag>)
    requires m.Valid() && LogProbs(m) && x < |text| && Final(m, text, x, y).weight > MIN_DOUBLE
    requires |other| == x + 1 && other[x] == y && other != Traced(m, text, x, y)
    requires TagScore(m, text, other) == Final(m, text, x, y).weight
    ensures Before(Traced(m, text, x, y), other)
    decreases x
  {
    var tags := Traced(m, text, x, y);
    if x > 0 {
      var t, u := Final(m, text, x, y).path, other[x - 1];
      CellIsUpperBound(m, text, other[..x]);
      CellAtLeast(m, text, x, y, u, STATUS_SUM);
      if u < t {
        PathIsFirst(m, text, x, y, u, STATUS_SUM);
      } else if t < u {
        assert tags[x..] == other[x..];
      } else {
        assert m.trans[t][y] <= 0.0 && m.Emit(y, text[x]) <= 0.0;
        assert other == other[..x] + [y] && tags == Traced(m, text, x - 1, t) + [y];
        CellComesFromPath(m, text, x, y, STATUS_SUM);
        TraceIsFirst(m, text, x - 1, t, other[..x]);
        BeforeSameTag(Traced(m, text, x - 1, t), other[..x], y);
      }
    }
  }

  /** The step into column x: its start or transition and its emission. */
  predicate StepAboveFloor(m: Model, text: seq<Rune>, tags: seq<Tag>, x: nat)
    requires m.Valid() && x < |tags| <= |text|
  {
    && m.Emit(tags[x], text[x]) > MIN_DOUBLE
    && (if x == 0 then m.start[tags[0]] else m.trans[tags[x - 1]][tags[x]]) > MIN_DOUBLE
  }

  lemma {:induction false} GoodScoreHasGoodSteps(m: Model, text: seq<Rune>, tags: seq<Tag>, x: nat)
    requires m.Valid() && LogProbs(m) && x < |tags| <= |text|
    requires TagScore(m, text, tags) > MIN_DOUBLE
    ensures TagScore(m, text, tags) <= 0.0 && StepAboveFloor(m, text, tags, x)
    decreases |tags|
  {
    var n := |tags| - 1;
    assert m.Emit(tags[n], text[n]) <= 0.0;
    if n == 0 {
      assert m.start[tags[0]] <= 0.0;
    } else {
      assert m.trans[tags[n - 1]][tags[n]] <= 0.0;
      GoodScoreHasGoodSteps(m, text, tags[..n], if x < n then x else n - 1);
    }
  }

  ghost predicate SomeTaggingAboveFloor(m: Model, text: seq<Rune>)
    requires m.Valid()
  {
    exists tags :: Tagging(text, tags) && TagScore(m, text, tags) > MIN_DOUBLE
  }

  /** One good tagging is enough for the computed one to be at least as good as any. */
  lemma StatusBeats(m: Model, text: seq<Rune>, good: seq<Tag>, tags: seq<Tag>)
    requires m.Valid() && LogProbs(m) && Tagging(text, good) && Tagging(text, tags)
    requires TagScore(m, text, good) > MIN_DOUBLE
    ensures TagScore(m, text, tags) <= TagScore(m, text, Status(m, text))
  {
    LastCellIsUpperBound(m, text, good);
    LastCellIsUpperBound(m, text, tags);
    TraceAttainsCell(m, text, |text| - 1, LastTag(m, text));
  }

  lemma LastCellIsUpperBound(m: Model, text: seq<Rune>, tags: seq<Tag>)
    requires m.Valid() && Tagging(text, tags)
    ensures TagScore(m, text, tags) <= Final(m, text, |text| - 1, LastTag(m, text)).weight
  {
    CellIsUpperBound(m, text, tags);
  }

  /**
    Viterbi optimality despite the floor: if any tagging that closes its last
    word scores above the floor, the computed one is a best such tagging and
    uses no floor value; otherwise its own score shows that there is none.
   */
  lemma StatusIsOptimal(m: Model, text: seq<Rune>)
    requires m.Valid() && LogProbs(m) && text != []
    ensures SomeTaggingAboveFloor(m, text) <==> TagScore(m, text, Status(m, text)) > MIN_DOUBLE
    ensures SomeTaggingAboveFloor(m, text) ==>
              && (forall tags :: Tagging(text, tags) ==> TagScore(m, text, tags) <= TagScore(m, text, Status(m, text)))
              && (forall x :: 0 <= x < |text| ==> StepAboveFloor(m, text, Status(m, text), x))
  {
    var status := Status(m, text);
    if SomeTaggingAboveFloor(m, text) {
      var good :| Tagging(text, good) && TagScore(m, text, good) > MIN_DOUBLE;
      forall tags | Tagging(text, tags) ensures TagScore(m, text, tags) <= TagScore(m, text, status) {
        StatusBeats(m, text, good, tags);
      }
      forall x | 0 <= x < |text| ensures StepAboveFloor(m, text, status, x) {
        GoodScoreHasGoodSteps(m, text, status, x);
      }
    }
  }

  predicate Ties(m: Model, text: seq<Rune>, tags: seq<Tag>, other: seq<Tag>)
    requires m.Valid() && Tagging(text, tags)
  {
    Tagging(text, other) && other != tags && TagScore(m, text, other) == TagScore(m, text, tags)
  }

  /** Ties are settled by the last tag in which two best taggings differ: the smaller one wins. */
  lemma StatusIsFirst(m: Model, text: seq<Rune>, other: seq<Tag>)
    requires m.Valid() && LogProbs(m) && SomeTaggingAboveFloor(m, text) && Ties(m, text, Status(m, text), other)
    ensures Before(Status(m, text), other)
  {
    var status, n := Status(m, text), |text| - 1;
    StatusIsOptimal(m, text);
    CellIsUpperBound(m, text, status);
    CellIsUpperBound(m, text, other);
    TraceAttainsCell(m, text, n, status[n]);
    if other[n] == status[n] {
      TraceIsFirst(m, text, n, status[n], other);
    } else {
      assert status[n + 1..] == other[n + 1..];
    }
  }

  /**
    The tags a run is cut by. If some tagging scores above the floor, or there
    is just one rune, no tagging scores more, and of those that score as much it
    is the first; otherwise the last two tags are E.
   */
  ghost predicate ChosenTagging(m: Model, text: seq<Rune>, tags: seq<Tag>)
    requires m.Valid()
  {
    && Tagging(text, tags)
    && (|text| == 1 || (LogProbs(m) && SomeTaggingAboveFloor(m, text)) ==>
          forall other :: Tagging(text, other) ==> TagScore(m, text, other) <= TagScore(m, text, tags))
    && (LogProbs(m) && SomeTaggingAboveFloor(m, text) ==>
          forall other :: Ties(m, text, tags, other) ==> Before(tags, other))
    && (|text| >= 2 && LogProbs(m) && !SomeTaggingAboveFloor(m, text) ==> tags[|tags| - 2..] == [E, E])
  }

  lemma StatusIsChosen(m: Model, text: seq<Rune>)
    requires m.Valid() && text != []
    ensures ChosenTagging(m, text, Status(m, text))
  {
    if LogProbs(m) {
      StatusIsOptimal(m, text);
      if |text| >= 2 && !SomeTaggingAboveFloor(m, text) {
        BelowFloorEndsInEE(m, text);
      }
    }
    if LogProbs(m) && SomeTaggingAboveFloor(m, text) {
      forall other | Ties(m, text, Status(m, text), other) ensures Before(Status(m, text), other) {
        StatusIsFirst(m, text, other);
      }
    }
    if |text| == 1 {
      forall other | Tagging(text, other) ensures TagScore(m, text, other) <= TagScore(m, text, Status(m, text)) {
        OneRuneIsOptimal(m, text, other);
      }
    }
  }

  /** A single rune always gets a best closing tag, floor or not. */
  lemma OneRuneIsOptimal(m: Model, text: seq<Rune>, tags: seq<Tag>)
    requires m.Valid() && |text| == 1 && Tagging(text, tags)
    ensures TagScore(m, text, tags) <= TagScore(m, text, Status(m, text))
  {
    CellIsUpperBound(m, text, tags);
  }

  lemma {:induction false} AtLeastFloor(m: Model, text: seq<Rune>, x: nat, y: Tag, k: nat)
    requires m.Valid() && 0 < x < |text| && k <= STATUS_SUM
    ensures var c := CellAfter(m, text, x, y, k);
            c.weight >= MIN_DOUBLE && (c.weight == MIN_DOUBLE ==> c.path == E)
    decreases k
  {
    if k > 0 {
      AtLeastFloor(m, text, x, y, k - 1);
    }
  }

  /**
    What comes out when no tagging is above the floor: the last two tags are E,
    and what precedes them is traced from there.
   */
  lemma BelowFloorEndsInEE(m: Model, text: seq<Rune>)
    requires m.Valid() && LogProbs(m) && |text| >= 2 && !SomeTaggingAboveFloor(m, text)
    ensures Status(m, text) == Traced(m, text, |text| - 2, E) + [E]
  {
    var n := |text| - 1;
    NotAboveFloor(m, text, E);
    NotAboveFloor(m, text, S);
    AtLeastFloor(m, text, n, E, STATUS_SUM);
    AtLeastFloor(m, text, n, S, STATUS_SUM);
  }

  lemma NotAboveFloor(m: Model, text: seq<Rune>, y: Tag)
    requires m.Valid() && LogProbs(m) && |text| >= 2 && !SomeTaggingAboveFloor(m, text) && (y == E || y == S)
    ensures Final(m, text, |text| - 1, y).weight <= MIN_DOUBLE
  {
    if Final(m, text, |text| - 1, y).weight > MIN_DOUBLE {
      TraceAttainsCell(m, text, |text| - 1, y);
      assert Tagging(text, Traced(m, text, |text| - 1, y));
    }
  }

  // Start and transition probabilities of the model that comes with the system.
  const START := [-0.26268660809250016, MIN_DOUBLE, MIN_DOUBLE, -1.4652633398537678]
  const TRANS := [[MIN_DOUBLE, -0.510825623765990, -0.916290731874155, MIN_DOUBLE],
                  [-0.5897149736854513, MIN_DOUBLE, MIN_DOUBLE, -0.8085250474669937],
                  [MIN_DOUBLE, -0.33344856811948514, -1.2603623820268226, MIN_DOUBLE],
                  [-0.7211965654669841, MIN_DOUBLE, MIN_DOUBLE, -0.6658631448798212]]

  /**
    Two runes the model does not list: every cell sinks to the floor, the trace
    reads the default path E, and E E comes out although B E scores more.
   */
  lemma UnseenRunesNeedNotBeOptimal(text: seq<Rune>, listed: Rune) returns (m: Model)
    requires |text| == 2 && listed !in text
    ensures m.Valid() && LogProbs(m) && m.start == START && m.trans == TRANS && forall t: Tag :: listed in m.emit[t]
    ensures Status(m, text) == [E, E]
    ensures Tagging(text, [B, E]) && TagScore(m, text, [B, E]) > TagScore(m, text, Status(m, text)) - MIN_DOUBLE
  {
    var emit := map[listed := -1.0];
    m := Model(START, TRANS, [emit, emit, emit, emit]);
    SinksToFloor(m, text, E, STATUS_SUM);
    SinksToFloor(m, text, S, STATUS_SUM);
    assert Traced(m, text, 1, E) == Traced(m, text, 0, E) + [E];
    UnseenScores(m, text);
  }

  /** The two scores differ by more than the floor itself. */
  lemma UnseenScores(m: Model, text: seq<Rune>)
    requires m.Valid() && m.start == START && m.trans == TRANS && |text| == 2
    requires forall t: Tag, x :: 0 <= x < |text| ==> text[x] !in m.emit[t]
    ensures TagScore(m, text, [B, E]) > TagScore(m, text, [E, E]) - MIN_DOUBLE
  {
    assert [E, E][..1] == [E] && [B, E][..1] == [B];
  }

  lemma {:induction false} SinksToFloor(m: Model, text: seq<Rune>, y: Tag, k: nat)
    requires m.Valid() && LogProbs(m) && |text| == 2 && k <= STATUS_SUM
    requires forall t: Tag, x :: 0 <= x < |text| ==> text[x] !in m.emit[t]
    ensures CellAfter(m, text, 1, y, k) == Cell(MIN_DOUBLE, E)
    decreases k
  {
    if k > 0 {
      SinksToFloor(m, text, y, k - 1);
      assert Final(m, text, 0, k - 1).weight == m.start[k - 1] + MIN_DOUBLE;
      assert m.start[k - 1] <= 0.0 && m.trans[k - 1][y] <= 0.0;
    }
  }

  // ---------------------------------------------------------------------
  // Cutting
  // ---------------------------------------------------------------------

  /** The ranges closed by the tags from `i` on, the open word having begun at `left`. */
  function Closed(status: seq<Tag>, begin: nat, left: nat, i: nat): seq<WordRange>
    requires i <= |status|
    decreases |status| - i
  {
    if i == |status| then []
    else if status[i] % 2 == 1 then
      [WordRange(left, begin + i)] + Closed(status, begin, begin + i + 1, i + 1)
    else Closed(status, begin, left, i + 1)
  }

  lemma {:induction false} ClosedTiles(status: seq<Tag>, begin: nat, left: nat, i: nat)
    requires i <= |status| && left <= begin + i
    requires i == |status| ==> left == begin + i
    requires i < |status| ==> status[|status| - 1] % 2 == 1
    ensures Tiles(Closed(status, begin, left, i), left, begin + |status|)
    decreases |status| - i
  {
    if i < |status| {
      if status[i] % 2 == 1 {
        ClosedTiles(status, begin, begin + i + 1, i + 1);
        var rest := Closed(status, begin, begin + i + 1, i + 1);
        TilesOrdered(rest, begin + i + 1, begin + |status|);
        assert ([WordRange(left, begin + i)] + rest)[1..] == rest;
      } else {
        ClosedTiles(status, begin, left, i + 1);
      }
    }
  }

  predicate EndsAt(rs: seq<WordRange>, p: nat) {
    exists r :: r in rs && r.right == p
  }

  /** Words end exactly at the runes tagged E or S. */
  lemma {:induction false} WordsEndAtClosingTags(status: seq<Tag>, begin: nat, left: nat, i: nat, j: nat)
    requires i <= j < |status|
    ensures EndsAt(Closed(status, begin, left, i), begin + j) <==> status[j] == E || status[j] == S
    decreases |status| - i
  {
    var rest := Closed(status, begin, if status[i] % 2 == 1 then begin + i + 1 else left, i + 1);
    if status[i] % 2 == 1 {
      assert Closed(status, begin, left, i) == [WordRange(left, begin + i)] + rest;
    }
    if i < j {
      WordsEndAtClosingTags(status, begin, if status[i] % 2 == 1 then begin + i + 1 else left, i + 1, j);
    } else {
      EndsLater(status, begin, if status[i] % 2 == 1 then begin + i + 1 else left, i + 1);
      if status[i] % 2 == 1 {
        assert WordRange(left, begin + i) in Closed(status, begin, left, i);
      }
    }
  }

  lemma {:induction false} EndsLater(status: seq<Tag>, begin: nat, left: nat, i: nat)
    requires i <= |status|
    ensures forall r :: r in Closed(status, begin, left, i) ==> begin + i <= r.right
    decreases |status| - i
  {
    if i < |status| {
      EndsLater(status, begin, begin + i + 1, i + 1);
      EndsLater(status, begin, left, i + 1);
    }
  }

  /** The ranges of runes[begin..end) end exactly where chosen tags are E or S. */
  ghost predicate CutByTags(m: Model, runes: seq<Rune>, begin: nat, end: nat, rs: seq<WordRange>)
    requires m.Valid() && begin < end <= |runes|
  {
    && Tiles(rs, begin, end)
    && exists tags :: ChosenTagging(m, runes[begin..end], tags) && EndsWhereClosed(rs, begin, tags)
  }

  ghost predicate EndsWhereClosed(rs: seq<WordRange>, begin: nat, tags: seq<Tag>) {
    forall j :: 0 <= j < |tags| ==> (EndsAt(rs, begin + j) <==> tags[j] == E || tags[j] == S)
  }

  lemma InternalIsCutByTags(m: Model, runes: seq<Rune>, begin: nat, end: nat)
    requires m.Valid() && begin < end <= |runes|
    ensures CutByTags(m, runes, begin, end, Internal(m, runes, begin, end))
  {
    var status := Status(m, runes[begin..end]);
    StatusIsChosen(m, runes[begin..end]);
    forall j | 0 <= j < |status|
      ensures EndsAt(Internal(m, runes, begin, end), begin + j) <==> status[j] == E || status[j] == S
    {
      WordsEndAtClosingTags(status, begin, begin, 0, j);
    }
    assert EndsWhereClosed(Internal(m, runes, begin, end), begin, status);
  }

  /** The cut of a non-ASCII run runes[begin..end) by its tags. */
  function Internal(m: Model, runes: seq<Rune>, begin: nat, end: nat): (rs: seq<WordRange>)
    requires m.Valid() && begin < end <= |runes|
    ensures Tiles(rs, begin, end)
  {
    var status := Status(m, runes[begin..end]);
    ClosedTiles(status, begin, begin, 0);
    Closed(status, begin, begin, 0)
  }

  method InternalCut(m: Model, runes: seq<Rune>, begin: nat, end: nat) returns (res: seq<WordRange>)
    requires m.Valid() && begin < end <= |runes|
    ensures res == Internal(m, runes, begin, end)
    ensures CutByTags(m, runes, begin, end, res)
  {
    InternalIsCutByTags(m, runes, begin, end);
    var status := Viterbi(m, runes[begin..end]);
    res := [];
    var left := begin;
    for i := 0 to |status|
      invariant res + Closed(status, begin, left, i) == Internal(m, runes, begin, end)
    {
      if status[i] % 2 == 1 {
        var right := begin + i + 1;
        res := res + [WordRange(left, right - 1)];
        left := right;
      }
    }
  }

  predicate NonAscii(r: Rune) { r.code >= 0x80 }
  predicate IsLetter(r: Rune) { (0x61 <= r.code && r.code <= 0x7a) || (0x41 <= r.code && r.code <= 0x5a) }
  predicate IsDigit(r: Rune) { 0x30 <= r.code && r.code <= 0x39 }
  predicate InWord(r: Rune) { IsLetter(r) || IsDigit(r) }
  predicate InNumber(r: Rune) { IsDigit(r) || r.code == 0x2e }

  /** The first index from `k` on (or `end`) at which `p` fails. */
  function RunEnd(runes: seq<Rune>, p: Rune -> bool, k: nat, end: nat): (r: nat)
    requires k <= end <= |runes|
    ensures k <= r <= end
    ensures forall i :: k <= i < r ==> p(runes[i])
    ensures r < end ==> !p(runes[r])
    decreases end - k
  {
    if k < end && p(runes[k]) then RunEnd(runes, p, k + 1, end) else k
  }

  /** Where the ASCII token at `k` ends: an identifier, a number, or one rune. */
  function AsciiEnd(runes: seq<Rune>, k: nat, end: nat): (r: nat)
    requires k < end <= |runes|
    ensures k < r <= end
  {
    if IsLetter(runes[k]) then RunEnd(runes, InWord, k + 1, end)
    else if IsDigit(runes[k]) then RunEnd(runes, InNumber, k + 1, end)
    else k + 1
  }

  method SequentialLetterRule(runes: seq<Rune>, begin: nat, end: nat) returns (r: nat)
    requires begin < end <= |runes|
    ensures r == if IsLetter(runes[begin]) then RunEnd(runes, InWord, begin + 1, end) else begin
  {
    if !IsLetter(runes[begin]) {
      return begin;
    }
    r := begin + 1;
    while r != end
      invariant begin < r <= end
      invariant RunEnd(runes, InWord, begin + 1, end) == RunEnd(runes, InWord, r, end)
    {
      if InWord(runes[r]) {
        r := r + 1;
      } else {
        break;
      }
    }
  }

  method NumbersRule(runes: seq<Rune>, begin: nat, end: nat) returns (r: nat)
    requires begin < end <= |runes|
    ensures r == if IsDigit(runes[begin]) then RunEnd(runes, InNumber, begin + 1, end) else begin
  {
    if !IsDigit(runes[begin]) {
      return begin;
    }
    r := begin + 1;
    while r != end
      invariant begin < r <= end
      invariant RunEnd(runes, InNumber, begin + 1, end) == RunEnd(runes, InNumber, r, end)
    {
      if InNumber(runes[r]) {
        r := r + 1;
      } else {
        break;
      }
    }
  }

  /** ASCII tokens stand alone; each maximal non-ASCII run is cut by its tags. */
  function Ranges(m: Model, runes: seq<Rune>, begin: nat, end: nat): seq<WordRange>
    requires m.Valid() && begin <= end <= |runes|
    decreases end - begin
  {
    if begin == end then []
    else if !NonAscii(runes[begin]) then
      var r := AsciiEnd(runes, begin, end);
      [WordRange(begin, r - 1)] + Ranges(m, runes, r, end)
    else
      var r := RunEnd(runes, NonAscii, begin, end);
      Internal(m, runes, begin, r) + Ranges(m, runes, r, end)
  }

  /** Whatever the model, they cover the range without gap or overlap. */
  lemma {:induction false} RangesTile(m: Model, runes: seq<Rune>, begin: nat, end: nat)
    requires m.Valid() && begin <= end <= |runes|
    ensures Tiles(Ranges(m, runes, begin, end), begin, end)
    decreases end - begin
  {
    if begin < end {
      if !NonAscii(runes[begin]) {
        var r := AsciiEnd(runes, begin, end);
        RangesTile(m, runes, r, end);
        TilesCons(WordRange(begin, r - 1), Ranges(m, runes, r, end), end);
      } else {
        var r := RunEnd(runes, NonAscii, begin, end);
        RangesTile(m, runes, r, end);
        TilesAppend(Internal(m, runes, begin, r), Ranges(m, runes, r, end), begin, r, end);
      }
    }
  }

  /** The non-ASCII runes of runes[begin..end) from `a` to `b`, with none to the left or right of them. */
  ghost predicate MaximalRun(runes: seq<Rune>, begin: nat, end: nat, a: nat, b: nat)
    requires end <= |runes|
  {
    && begin <= a < b <= end && (forall i :: a <= i < b ==> runes[i].code >= 0x80)
    && (a == begin || runes[a - 1].code < 0x80) && (b == end || runes[b].code < 0x80)
  }

  predicate CodeIn(r: Rune, lo: bv32, hi: bv32) { lo <= r.code && r.code <= hi }

  /** `r` runs on from its first rune for as long as `p` holds. */
  ghost predicate RunsOn(runes: seq<Rune>, p: Rune -> bool, end: nat, r: WordRange)
    requires end <= |runes|
  {
    && r.left <= r.right < end && (forall i :: r.left < i <= r.right ==> p(runes[i]))
    && (r.right + 1 == end || !p(runes[r.right + 1]))
  }

  /** A letter with all letters and digits behind it, a digit with all digits and points behind it, or one rune. */
  ghost predicate AsciiToken(runes: seq<Rune>, end: nat, r: WordRange)
    requires r.left < end <= |runes|
  {
    var letter := (c: Rune) => CodeIn(c, 0x61, 0x7a) || CodeIn(c, 0x41, 0x5a);
    var digit := (c: Rune) => CodeIn(c, 0x30, 0x39);
    if letter(runes[r.left]) then RunsOn(runes, c => letter(c) || digit(c), end, r)
    else if digit(runes[r.left]) then RunsOn(runes, c => digit(c) || c.code == 0x2e, end, r)
    else r.left == r.right
  }

  /** Some consecutive ranges of `rs` are the cut of runes[a..b) by its tags. */
  ghost predicate RunIsCut(m: Model, runes: seq<Rune>, a: nat, b: nat, rs: seq<WordRange>)
    requires m.Valid() && a < b <= |runes|
  {
    exists i, j :: 0 <= i <= j <= |rs| && CutByTags(m, runes, a, b, rs[i..j])
  }

  /** ASCII tokens stand alone, and every maximal non-ASCII run is cut by its tags. */
  ghost predicate TaggerCut(m: Model, runes: seq<Rune>, begin: nat, end: nat, rs: seq<WordRange>)
    requires m.Valid() && begin <= end <= |runes|
  {
    && Tiles(rs, begin, end)
    && (forall r :: r in rs && r.left < end && runes[r.left].code < 0x80 ==> AsciiToken(runes, end, r))
    && (forall a, b :: MaximalRun(runes, begin, end, a, b) ==> RunIsCut(m, runes, a, b, rs))
  }

  lemma RunIsCutBehind(m: Model, runes: seq<Rune>, a: nat, b: nat, front: seq<WordRange>, rs: seq<WordRange>)
    requires m.Valid() && a < b <= |runes| && RunIsCut(m, runes, a, b, rs)
    ensures RunIsCut(m, runes, a, b, front + rs)
  {
    var i, j :| 0 <= i <= j <= |rs| && CutByTags(m, runes, a, b, rs[i..j]);
    assert (front + rs)[|front| + i..|front| + j] == rs[i..j];
  }

  lemma TokenIsAscii(runes: seq<Rune>, k: nat, end: nat, i: nat)
    requires k < end <= |runes| && !NonAscii(runes[k]) && k <= i < AsciiEnd(runes, k, end)
    ensures !NonAscii(runes[i])
  {
    if i > k {
      assert InWord(runes[i]) || InNumber(runes[i]);
    }
  }

  lemma TokenFirst(m: Model, runes: seq<Rune>, begin: nat, end: nat, rest: seq<WordRange>)
    requires m.Valid() && begin < end <= |runes| && !NonAscii(runes[begin])
    requires TaggerCut(m, runes, AsciiEnd(runes, begin, end), end, rest)
    ensures TaggerCut(m, runes, begin, end, [WordRange(begin, AsciiEnd(runes, begin, end) - 1)] + rest)
  {
    var r := AsciiEnd(runes, begin, end);
    var token := WordRange(begin, r - 1);
    TilesCons(token, rest, end);
    assert AsciiToken(runes, end, token);
    forall a, b | MaximalRun(runes, begin, end, a, b) ensures RunIsCut(m, runes, a, b, [token] + rest) {
      assert a >= r by { if a < r { TokenIsAscii(runes, begin, end, a); } }
      assert MaximalRun(runes, r, end, a, b);
      RunIsCutBehind(m, runes, a, b, [token], rest);
    }
  }

  lemma RunFirst(m: Model, runes: seq<Rune>, begin: nat, end: nat, rest: seq<WordRange>)
    requires m.Valid() && begin < end <= |runes| && NonAscii(runes[begin])
    requires TaggerCut(m, runes, RunEnd(runes, NonAscii, begin, end), end, rest)
    ensures TaggerCut(m, runes, begin, end, Internal(m, runes, begin, RunEnd(runes, NonAscii, begin, end)) + rest)
  {
    var r := RunEnd(runes, NonAscii, begin, end);
    var run := Internal(m, runes, begin, r);
    TilesAppend(run, rest, begin, r, end);
    forall w | w in run ensures w.left < r && NonAscii(runes[w.left]) {
      var k :| 0 <= k < |run| && run[k] == w;
      TilesBounds(run, begin, r, k);
    }
    forall a, b | MaximalRun(runes, begin, end, a, b) ensures RunIsCut(m, runes, a, b, run + rest) {
      if a < r {
        assert a == begin && b == r;
        InternalIsCutByTags(m, runes, begin, r);
        assert (run + rest)[0..|run|] == run;
      } else {
        assert MaximalRun(runes, r, end, a, b);
        RunIsCutBehind(m, runes, a, b, run, rest);
      }
    }
  }

  lemma {:induction false} RangesAreTaggerCut(m: Model, runes: seq<Rune>, begin: nat, end: nat)
    requires m.Valid() && begin <= end <= |runes|
    ensures TaggerCut(m, runes, begin, end, Ranges(m, runes, begin, end))
    decreases end - begin
  {
    if begin < end {
      if !NonAscii(runes[begin]) {
        RangesAreTaggerCut(m, runes, AsciiEnd(runes, begin, end), end);
        TokenFirst(m, runes, begin, end, Ranges(m, runes, AsciiEnd(runes, begin, end), end));
      } else {
        RangesAreTaggerCut(m, runes, RunEnd(runes, NonAscii, begin, end), end);
        RunFirst(m, runes, begin, end, Ranges(m, runes, RunEnd(runes, NonAscii, begin, end), end));
      }
    }
  }

  method Cut(m: Model, runes: seq<Rune>, begin: nat, end: nat) returns (res: seq<WordRange>)
    requires m.Valid() && begin <= end <= |runes|
    ensures res == Ranges(m, runes, begin, end)
    ensures TaggerCut(m, runes, begin, end, res)
  {
    res := [];
    var left, right := begin, begin;
    while right != end
      invariant begin <= left <= right <= end
      invariant forall i :: left <= i < right ==> NonAscii(runes[i])
      // compared with true so that it is carried as one fact, not clause by clause
      invariant Progress(m, runes, begin, left, end, res) == true
    {
      if !NonAscii(runes[right]) {
        res := CutRun(m, runes, begin, left, right, end, res);
        res, right := CutToken(m, runes, begin, right, end, res);
        left := right;
      } else {
        right := right + 1;
      }
    }
    res := CutRun(m, runes, begin, left, right, end, res);
    assert res == Ranges(m, runes, begin, end);
    RangesAreTaggerCut(m, runes, begin, end);
  }

  /** Adds the cut of the pending non-ASCII run, if there is one. */
  method CutRun(m: Model, runes: seq<Rune>, ghost begin: nat, left: nat, right: nat, ghost end: nat,
                res: seq<WordRange>)
    returns (res': seq<WordRange>)
    requires m.Valid() && begin <= left <= right <= end <= |runes|
    requires forall i :: left <= i < right ==> NonAscii(runes[i])
    requires right < end ==> !NonAscii(runes[right])
    requires Progress(m, runes, begin, left, end, res)
    ensures Progress(m, runes, begin, right, end, res')
  {
    res' := res;
    if left != right {
      var run := InternalCut(m, runes, left, right);
      RunStep(m, runes, begin, left, right, end, res);
      res' := res + run;
    }
  }

  /** Adds the ASCII token at `left`. */
  method CutToken(m: Model, runes: seq<Rune>, ghost begin: nat, left: nat, end: nat, res: seq<WordRange>)
    returns (res': seq<WordRange>, right: nat)
    requires m.Valid() && begin <= left < end <= |runes| && !NonAscii(runes[left])
    requires Progress(m, runes, begin, left, end, res)
    ensures left < right <= end && Progress(m, runes, begin, right, end, res')
  {
    TokenStep(m, runes, begin, left, end, res);
    right := TokenEnd(runes, left, end);
    res' := res + [WordRange(left, right - 1)];
  }

  /** The letter rule, else the number rule, else a single rune. */
  method TokenEnd(runes: seq<Rune>, left: nat, end: nat) returns (right: nat)
    requires left < end <= |runes|
    ensures right == AsciiEnd(runes, left, end)
  {
    right := SequentialLetterRule(runes, left, end);
    if right == left {
      right := NumbersRule(runes, left, end);
      if right == left {
        right := right + 1;
      }
    }
  }

  /** `res` followed by the cut of the rest is the whole cut. */
  ghost predicate Progress(m: Model, runes: seq<Rune>, begin: nat, left: nat, end: nat, res: seq<WordRange>)
    requires m.Valid() && begin <= left <= end <= |runes|
  {
    res + Ranges(m, runes, left, end) == Ranges(m, runes, begin, end)
  }

  lemma TokenStep(m: Model, runes: seq<Rune>, begin: nat, left: nat, end: nat, res: seq<WordRange>)
    requires m.Valid() && begin <= left < end <= |runes| && !NonAscii(runes[left])
    requires Progress(m, runes, begin, left, end, res)
    ensures var r := AsciiEnd(runes, left, end);
            Progress(m, runes, begin, r, end, res + [WordRange(left, r - 1)])
  {
  }

  /** A non-ASCII stretch that stops at an ASCII rune or at the end is a whole run. */
  lemma RunStep(m: Model, runes: seq<Rune>, begin: nat, left: nat, right: nat, end: nat, res: seq<WordRange>)
    requires m.Valid() && begin <= left < right <= end <= |runes|
    requires forall i :: left <= i < right ==> NonAscii(runes[i])
    requires right < end ==> !NonAscii(runes[right])
    requires Progress(m, runes, begin, left, end, res)
    ensures Progress(m, runes, begin, right, end, res + Internal(m, runes, left, right))
  {
    var r := RunEnd(runes, NonAscii, left, end);
    assert r == right;
  }
}
