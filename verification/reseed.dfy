/** The offline rating reset of `reset_mmr.py`: one UPDATE without a WHERE
    clause that reseeds every note's rating from its star rating and clears
    its match count. */
module Reseed {
  import opened Store

  const DefaultBase: int := 1500
  const DefaultIncrement: int := 100

  /** The CASE expression: stars 1 to 5 select one of five parameters
      (base - 2*increment, base - increment, base, base + increment,
      base + 2*increment); any other value falls to ELSE and gets base. */
  function StarMmr(rating: int, base: int, increment: int): (mmr: int)
    ensures 1 <= rating <= 5 ==> mmr == base + (rating - 3) * increment
    ensures !(1 <= rating <= 5) ==> mmr == base
  {
    if rating == 1 then base - 2 * increment
    else if rating == 2 then base - increment
    else if rating == 3 then base
    else if rating == 4 then base + increment
    else if rating == 5 then base + 2 * increment
    else base
  }

  /** The reset applied to one row: only `mmr` and `mmrMatches` change. */
  function ResetNote(n: Note, base: int, increment: int): (r: Note)
    ensures r.mmrMatches == 0
    ensures 1 <= n.rating <= 5 ==> r.mmr == base + (n.rating - 3) * increment
    ensures !(1 <= n.rating <= 5) ==> r.mmr == base
    ensures r.(mmr := n.mmr, mmrMatches := n.mmrMatches) == n
  {
    n.(mmr := StarMmr(n.rating, base, increment), mmrMatches := 0)
  }

  /** `reset_mmr`: every row of Notes is reset. */
  function ResetMmr(notes: map<NoteId, Note>, base: int, increment: int): (r: map<NoteId, Note>)
    ensures r.Keys == notes.Keys
    ensures forall id | id in r ::
      && r[id].mmrMatches == 0
      && r[id].mmr == StarMmr(notes[id].rating, base, increment)
      && r[id].(mmr := notes[id].mmr, mmrMatches := notes[id].mmrMatches) == notes[id]
  {
    map id | id in notes :: ResetNote(notes[id], base, increment)
  }

  /** The new state depends only on the star rating, so a second reset
      changes nothing. */
  lemma ResetIdempotent(notes: map<NoteId, Note>, base: int, increment: int)
    ensures ResetMmr(ResetMmr(notes, base, increment), base, increment)
         == ResetMmr(notes, base, increment)
  {
    var once := ResetMmr(notes, base, increment);
    var twice := ResetMmr(once, base, increment);
    forall id | id in once ensures twice[id] == once[id] {
      assert once[id].rating == notes[id].rating;
    }
  }

  /** Two notes with the same star rating end with the same rating state,
      whatever their histories. */
  lemma ResetForgetsHistory(a: Note, b: Note, base: int, increment: int)
    requires a.rating == b.rating
    ensures ResetNote(a, base, increment).mmr == ResetNote(b, base, increment).mmr
    ensures ResetNote(a, base, increment).mmrMatches == ResetNote(b, base, increment).mmrMatches == 0
  {
  }

  /** With the defaults a five-star note restarts at 1700, a three-star
      note at 1500 and a one-star note at 1300; a rating outside 1..5 at
      1500. */
  lemma DefaultSeeds()
    ensures StarMmr(5, DefaultBase, DefaultIncrement) == 1700
    ensures StarMmr(3, DefaultBase, DefaultIncrement) == 1500
    ensures StarMmr(1, DefaultBase, DefaultIncrement) == 1300
    ensures StarMmr(0, DefaultBase, DefaultIncrement) == 1500
  {
  }

  /** With a non-negative increment more stars never seed a lower rating. */
  lemma StarMmrMonotone(r1: int, r2: int, base: int, increment: int)
    requires 1 <= r1 <= r2 <= 5 && increment >= 0
    ensures StarMmr(r1, base, increment) <= StarMmr(r2, base, increment)
  {
    assert (r1 - 3) * increment <= (r2 - 3) * increment;
  }
}
