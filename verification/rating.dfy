/** The rating engine behind `update_mmr`: an Elo update whose K-factor
    shrinks with a note's match count, whose change is truncated toward
    zero and then clamped so that every reported comparison moves both
    ratings by at least one point. */
module Rating {
  import opened Wrappers
  import opened Store

  /** The winner's expected score. The service computes it in floating
      point as 1 / (1 + 10^((loser - winner) / 400)); only its range matters
      to the update, so the model takes it as any real in [0, 1]. */
  type Probability = p: real | 0.0 <= p <= 1.0

  /** The K-factor for a note that has played `matches` comparisons. */
  function KFactor(matches: int): (k: int)
    ensures 16 <= k <= 32 && k % 8 == 0
  {
    if matches < 10 then 32
    else if matches < 20 then 24
    else 16
  }

  /** More experienced notes never get a larger K-factor, and the three
      bands are 32 below ten matches, 24 below twenty and 16 from then on. */
  lemma KFactorBands(m1: int, m2: int)
    requires m1 <= m2
    ensures KFactor(m2) <= KFactor(m1)
    ensures KFactor(m1) == 32 <==> m1 < 10
    ensures KFactor(m1) == 16 <==> m1 >= 20
  {
  }

  /** Python's `int()` on a float: truncation toward zero. */
  function Truncate(x: real): (n: int)
    ensures 0.0 <= x ==> 0 <= n && n as real <= x < n as real + 1.0
    ensures x < 0.0 ==> n <= 0 && n as real - 1.0 < x <= n as real
  {
    if x >= 0.0 then x.Floor else -((-x).Floor)
  }

  lemma ScaledProbability(k: int, p: Probability)
    requires k >= 1
    ensures 0.0 <= k as real * p <= k as real
    ensures k as real * (0.0 - p) == -(k as real * p)
  {
  }

  /** Truncating a value in [0, k]: the result is at most k, and at most 1
      exactly below 2; truncating its negation is the negated result. */
  lemma TruncateBands(x: real, k: int)
    requires 0.0 <= x <= k as real
    ensures Truncate(x) <= k
    ensures Truncate(x) <= 1 <==> x < 2.0
    ensures Truncate(-x) == -Truncate(x)
  {
  }

  /** The winner's change: K * (1 - E) truncated, but at least 1. */
  function WinnerChange(k: int, expected: Probability): (d: int)
    requires k >= 1
    ensures 1 <= d <= k
    ensures d == 1 <==> k as real * (1.0 - expected) < 2.0
    ensures var x := k as real * (1.0 - expected); x >= 1.0 ==> d as real <= x < d as real + 1.0
  {
    var x := k as real * (1.0 - expected);
    ScaledProbability(k, 1.0 - expected);
    TruncateBands(x, k);
    var raw := Truncate(x);
    if raw < 1 then 1 else raw
  }

  /** The loser's change: K * (0 - (1 - E)) truncated, but at most -1. */
  function LoserChange(k: int, expected: Probability): (d: int)
    requires k >= 1
    ensures -k <= d <= -1
    ensures d == -1 <==> k as real * (1.0 - expected) < 2.0
    ensures var x := k as real * (1.0 - expected); x >= 1.0 ==> -d as real <= x < -d as real + 1.0
  {
    var x := k as real * (1.0 - expected);
    ScaledProbability(k, 1.0 - expected);
    TruncateBands(x, k);
    assert k as real * (0.0 - (1.0 - expected)) == -x;
    var raw := Truncate(k as real * (0.0 - (1.0 - expected)));
    assert raw == -Truncate(x);
    if raw > -1 then -1 else raw
  }

  /** With equal K-factors and an even expected score the update is zero
      sum: the winner gains what the loser loses. */
  lemma EvenMatchIsZeroSum(k: int)
    requires k >= 1
    ensures WinnerChange(k, 0.5) == -LoserChange(k, 0.5)
  {
  }

  datatype MmrError = NoteNotFound(id: NoteId)

  /** The reply of a successful update: the new Notes table and the two
      changes that were applied. */
  datatype MmrUpdate = MmrUpdate(notes: map<NoteId, Note>, winnerChange: int, loserChange: int)

  /** Adds `delta` to a note's rating and counts one more match. */
  function Played(n: Note, delta: int): Note
  {
    n.(mmr := n.mmr + delta, mmrMatches := n.mmrMatches + 1)
  }

  /** `update_mmr`. Both rows are looked up first (winner, then loser); a
      missing id raises and the transaction rolls back, so no table is
      returned. Otherwise each side's K-factor comes from its own match
      count before the update, `expected` gives the winner's expected score
      from the rating gap (loser minus winner), and the two UPDATEs run in
      order. A note playing itself receives both updates. */
  function UpdateMmr(notes: map<NoteId, Note>, winner: NoteId, loser: NoteId,
                     expected: int -> Probability): (r: Result<MmrUpdate, MmrError>)
    ensures r.Err? <==> winner !in notes || loser !in notes
    ensures r.Err? ==> r.error == NoteNotFound(if winner !in notes then winner else loser)
    ensures r.Ok? ==>
      var w := notes[winner];
      var l := notes[loser];
      var u := r.value;
      && u.winnerChange == WinnerChange(KFactor(w.mmrMatches), expected(l.mmr - w.mmr))
      && u.loserChange == LoserChange(KFactor(l.mmrMatches), expected(l.mmr - w.mmr))
      && 1 <= u.winnerChange <= KFactor(w.mmrMatches)
      && -KFactor(l.mmrMatches) <= u.loserChange <= -1
      && u.notes.Keys == notes.Keys
      && (forall m | m in notes && m != winner && m != loser :: u.notes[m] == notes[m])
      && (winner != loser ==>
            && u.notes[winner] == w.(mmr := w.mmr + u.winnerChange, mmrMatches := w.mmrMatches + 1)
            && u.notes[loser] == l.(mmr := l.mmr + u.loserChange, mmrMatches := l.mmrMatches + 1))
      && (winner == loser ==>
            u.notes[winner] == w.(mmr := w.mmr + u.winnerChange + u.loserChange,
                                  mmrMatches := w.mmrMatches + 2))
  {
    if winner !in notes then Err(NoteNotFound(winner))
    else if loser !in notes then Err(NoteNotFound(loser))
    else
      var w := notes[winner];
      var l := notes[loser];
      var e := expected(l.mmr - w.mmr);
      var wc := WinnerChange(KFactor(w.mmrMatches), e);
      var lc := LoserChange(KFactor(l.mmrMatches), e);
      var afterWinner := notes[winner := Played(w, wc)];
      var afterLoser := afterWinner[loser := Played(afterWinner[loser], lc)];
      Ok(MmrUpdate(afterLoser, wc, lc))
  }

  /** A successful update never leaves a rating where it was: the winner's
      strictly rises and the loser's strictly falls, and the total number
      of recorded matches grows by exactly two. */
  lemma UpdateAlwaysMoves(notes: map<NoteId, Note>, winner: NoteId, loser: NoteId,
                          expected: int -> Probability)
    requires winner in notes && loser in notes && winner != loser
    ensures UpdateMmr(notes, winner, loser, expected).Ok?
    ensures var u := UpdateMmr(notes, winner, loser, expected).value;
      && u.notes[winner].mmr > notes[winner].mmr
      && u.notes[loser].mmr < notes[loser].mmr
      && u.notes[winner].mmrMatches + u.notes[loser].mmrMatches
         == notes[winner].mmrMatches + notes[loser].mmrMatches + 2
  {
  }

  /** Two fresh notes rated 1500 with three matches each: the winner's
      expected score is one half, both K-factors are 32, so the winner ends
      at 1516 and the loser at 1484, each with four matches. */
  lemma EvenFreshMatchExample(a: Note, b: Note, expected: int -> Probability)
    requires a.mmr == 1500 && a.mmrMatches == 3
    requires b.mmr == 1500 && b.mmrMatches == 3
    requires expected(0) == 0.5
    ensures var r := UpdateMmr(map[1 := a, 2 := b], 1, 2, expected);
      && r.Ok?
      && r.value.winnerChange == 16 && r.value.loserChange == -16
      && r.value.notes[1].mmr == 1516 && r.value.notes[1].mmrMatches == 4
      && r.value.notes[2].mmr == 1484 && r.value.notes[2].mmrMatches == 4
  {
    assert WinnerChange(32, 0.5) == 16;
    assert LoserChange(32, 0.5) == -16;
  }

  /** A heavy favourite that wins gains only the one-point floor: when the
      winner's expected score is at least 1 - 1/K the raw change truncates
      to at most one. */
  lemma FavouriteGainsFloor(k: int, expected: Probability)
    requires k >= 1
    requires expected >= 1.0 - 1.0 / k as real
    ensures WinnerChange(k, expected) == 1
  {
    var kr := k as real;
    assert 1.0 - expected <= 1.0 / kr;
    calc {
      kr * (1.0 - expected);
    <= { MultiplyMonotone(kr, 1.0 - expected, 1.0 / kr); }
      kr * (1.0 / kr);
    ==
      1.0;
    }
  }

  lemma MultiplyMonotone(c: real, x: real, y: real)
    requires c >= 0.0 && x <= y
    ensures c * x <= c * y
  {
    assert c * y - c * x == c * (y - x);
  }
}
