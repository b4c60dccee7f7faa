/** Note selection: the `matching_notes` filter, the visibility gate, the
    matchmaking pair of `get_mmr_notes` and the filtered, sorted result of
    `search`. */
module Selection {
  import opened Wrappers
  import opened Store
  import opened Hierarchy
  import Sets
  import Strings

  /** `visibility_level`: 5 when the presented password matches the one
      stored password hash, 1 otherwise. The hash check is the opaque
      `matches`. */
  function VisibilityLevel(password: string, matches: string -> bool): (level: int)
    ensures level == 5 <==> matches(password)
    ensures level == 1 <==> !matches(password)
  {
    if matches(password) then 5 else 1
  }

  /** The seeds of the recursive query: the selected ids, or every tag when
      the selection is empty. */
  function Roots(db: Db, selected: seq<TagId>): set<TagId>
  {
    if |selected| > 0 then Sets.Elements(selected) else db.tags.Keys
  }

  /** The distinct roots under which note `n` carries at least one tag:
      what `COUNT(DISTINCT th.root_id)` counts for its group. */
  function MatchedRoots(db: Db, selected: seq<TagId>, n: NoteId): set<TagId>
  {
    set r | r in Roots(db, selected)
              && exists t | t in TagsOf(db, n) :: t in Descendants(db.edges, db.tags.Keys, r)
  }

  /** `matching_notes`: the note exists, it forms a group (it has at least
      one matched root) and the group's count of distinct roots equals the
      length of the selection list. */
  function Qualifies(db: Db, selected: seq<TagId>, n: NoteId): (b: bool)
    ensures b ==> n in db.notes && |selected| > 0
    ensures b ==> TagsOf(db, n) != {}
  {
    var m := MatchedRoots(db, selected, n);
    n in db.notes && |m| > 0 && |m| == |selected|
  }

  /** The reference reading of the tag filter: a note qualifies exactly when
      the selection is non-empty and free of repeats, and every selected id
      is a tag under which the note carries itself or a descendant tag.
      An empty selection therefore selects nothing, and so does a selection
      that names a tag twice or names a missing tag. */
  lemma QualifiesIff(db: Db, selected: seq<TagId>, n: NoteId)
    ensures Qualifies(db, selected, n) <==>
      && n in db.notes
      && |selected| > 0
      && Sets.Distinct(selected)
      && forall r | r in selected ::
           r in db.tags && exists t | t in TagsOf(db, n) :: Reachable(db.edges, r, t)
  {
    var m := MatchedRoots(db, selected, n);
    var els := Sets.Elements(selected);
    Sets.ElementsSize(selected);
    if |selected| > 0 {
      assert m <= els;
      Sets.SubsetSize(m, els);
      if Qualifies(db, selected, n) {
        Sets.SubsetSameSizeEqual(m, els);
        forall r | r in selected
          ensures r in db.tags && exists t | t in TagsOf(db, n) :: Reachable(db.edges, r, t)
        {
          assert r in m;
          var t :| t in TagsOf(db, n) && t in Descendants(db.edges, db.tags.Keys, r);
        }
      }
      if && n in db.notes && Sets.Distinct(selected)
         && forall r | r in selected ::
              r in db.tags && exists t | t in TagsOf(db, n) :: Reachable(db.edges, r, t)
      {
        forall r | r in els ensures r in m {
          var t :| t in TagsOf(db, n) && Reachable(db.edges, r, t);
          assert t in Descendants(db.edges, db.tags.Keys, r);
        }
        assert m == els;
      }
    }
  }

  /** A row of the result: the note, its id and the distinct names of its
      tags (`GROUP_CONCAT(DISTINCT t.name)`). */
  datatype Row = Row(id: NoteId, note: Note, tagNames: set<string>)

  /** The row the final SELECT produces for note `n`. */
  function MakeRow(db: Db, n: NoteId): (row: Row)
    requires n in db.notes
    ensures row.id == n && row.note == db.notes[n]
    ensures forall name :: name in row.tagNames <==>
      exists t | t in db.tags :: (n, t) in db.noteTags && db.tags[t].name == name
  {
    Row(n, db.notes[n], set t | t in TagsOf(db, n) && t in db.tags :: db.tags[t].name)
  }

  /** The final SELECT joins the note's rows of NoteTags and Tags, so a note
      whose tags are all missing from Tags yields no group. */
  predicate HasKnownTag(db: Db, n: NoteId)
  {
    exists t | t in TagsOf(db, n) :: t in db.tags
  }

  /** The notes `get_mmr_notes` draws from: qualifying, carrying a known
      tag, and visible at `level`. */
  function Eligible(db: Db, selected: seq<TagId>, level: int): (e: set<NoteId>)
    ensures forall n | n in e :: n in db.notes && db.notes[n].visibility <= level
  {
    set n | n in db.notes && Qualifies(db, selected, n) && HasKnownTag(db, n)
                          && db.notes[n].visibility <= level
  }

  /** Membership in `Eligible`, condition by condition. */
  lemma EligibleIff(db: Db, selected: seq<TagId>, level: int, n: NoteId)
    ensures n in Eligible(db, selected, level) <==>
      && n in db.notes
      && Qualifies(db, selected, n)
      && HasKnownTag(db, n)
      && db.notes[n].visibility <= level
  {
  }

  /** In a consistent store the join with Tags drops no qualifying note. */
  lemma QualifyingNoteHasKnownTag(db: Db, selected: seq<TagId>, n: NoteId)
    requires Consistent(db)
    requires Qualifies(db, selected, n)
    ensures HasKnownTag(db, n)
  {
    var r :| r in MatchedRoots(db, selected, n);
    var t :| t in TagsOf(db, n) && t in Descendants(db.edges, db.tags.Keys, r);
  }

  /** `get_mmr_notes`: `ORDER BY RANDOM() LIMIT 2` over the eligible notes,
      one row per note. The random order is a nondeterministic choice; the
      reply has two distinct notes when at least two are eligible, the one
      eligible note when there is exactly one, and nothing otherwise. */
  method SelectPair(db: Db, selected: seq<TagId>, password: string, matches: string -> bool)
    returns (rows: seq<Row>)
    ensures var e := Eligible(db, selected, VisibilityLevel(password, matches));
      && |rows| == (if |e| >= 2 then 2 else |e|)
      && (forall k | 0 <= k < |rows| :: rows[k].id in e && rows[k] == MakeRow(db, rows[k].id))
      && (|rows| == 2 ==> rows[0].id != rows[1].id)
  {
    var e := Eligible(db, selected, VisibilityLevel(password, matches));
    var ids := PickUpToTwo(e);
    rows := [];
    if |ids| >= 1 { rows := rows + [MakeRow(db, ids[0])]; }
    if |ids| == 2 { rows := rows + [MakeRow(db, ids[1])]; }
  }

  /** Draws at most two distinct members of `e`, two when it has two. */
  method PickUpToTwo<T>(e: set<T>) returns (picked: seq<T>)
    ensures |picked| == (if |e| >= 2 then 2 else |e|)
    ensures forall k | 0 <= k < |picked| :: picked[k] in e
    ensures |picked| == 2 ==> picked[0] != picked[1]
  {
    if e == {} {
      picked := [];
    } else {
      var a :| a in e;
      var rest := e - {a};
      assert |e| == |rest| + 1;
      if rest == {} {
        picked := [a];
      } else {
        var b :| b in rest;
        picked := [a, b];
      }
    }
  }

  /** The columns `search` can order by. */
  datatype SortField = Stars | Date | Visibility | Mmr

  /** How `search` fails before querying: a criteria string that does not
      split into exactly two pieces at '-' (Python's unpacking raises
      ValueError), or a field missing from the sort mapping (KeyError). */
  datatype SortError = MalformedCriteria | UnknownSortField(field: string)

  /** The key of `sort_mapping`. */
  function FieldName(f: SortField): string
  {
    match f
    case Stars => "stars"
    case Date => "date"
    case Visibility => "visibility"
    case Mmr => "mmr"
  }

  function FieldFromName(name: string): (r: Option<SortField>)
    ensures r.Some? ==> FieldName(r.value) == name
    ensures r.None? ==> forall f :: FieldName(f) != name
  {
    if name == "stars" then Some(Stars)
    else if name == "date" then Some(Date)
    else if name == "visibility" then Some(Visibility)
    else if name == "mmr" then Some(Mmr)
    else None
  }

  /** `sort_criteria.split("-")` unpacked into a field and an order; the
      order is descending only for the exact word "desc". */
  function ParseSortCriteria(criteria: string): (r: Result<(SortField, bool), SortError>)
    ensures r.Ok? <==> Strings.Occurrences(criteria, '-') == 1
                       && FieldFromName(Strings.Split(criteria, '-')[0]).Some?
    ensures Strings.Occurrences(criteria, '-') != 1 ==> r == Err(MalformedCriteria)
  {
    var parts := Strings.Split(criteria, '-');
    if |parts| != 2 then Err(MalformedCriteria)
    else
      match FieldFromName(parts[0])
      case None => Err(UnknownSortField(parts[0]))
      case Some(f) => Ok((f, parts[1] == "desc"))
  }

  /** Every criteria string the client builds from a field and an order
      word without '-' parses back to that field and order. */
  lemma ParseSortCriteriaRoundTrip(f: SortField, order: string)
    requires '-' !in order
    ensures ParseSortCriteria(FieldName(f) + "-" + order) == Ok((f, order == "desc"))
  {
    var s := FieldName(f) + "-" + order;
    var parts := Strings.Split(s, '-');
    Strings.JoinSplit(s, '-');
    Strings.SplitAtOnlySeparator(FieldName(f), order, '-');
  }

  function SortKey(r: Row, f: SortField): int
  {
    match f
    case Stars => r.note.rating
    case Date => r.note.date
    case Visibility => r.note.visibility
    case Mmr => r.note.mmr
  }

  /** `a` may come before `b` under `ORDER BY <field> ASC|DESC`. */
  predicate InOrder(a: Row, b: Row, f: SortField, descending: bool)
  {
    if descending then SortKey(a, f) >= SortKey(b, f) else SortKey(a, f) <= SortKey(b, f)
  }

  predicate SortedBy(rows: seq<Row>, f: SortField, descending: bool)
  {
    forall i, j | 0 <= i < j < |rows| :: InOrder(rows[i], rows[j], f, descending)
  }

  lemma SortedCons(x: Row, rows: seq<Row>, f: SortField, descending: bool)
    requires SortedBy(rows, f, descending)
    requires forall y | y in rows :: InOrder(x, y, f, descending)
    ensures SortedBy([x] + rows, f, descending)
  {
    var r := [x] + rows;
    forall i, j | 0 <= i < j < |r| ensures InOrder(r[i], r[j], f, descending) {
      if i == 0 {
        assert r[j] == rows[j - 1];
        assert r[j] in rows;
      } else {
        assert r[i] == rows[i - 1] && r[j] == rows[j - 1];
      }
    }
  }

  /** Places `row` before the first row it may precede. */
  function InsertSorted(rows: seq<Row>, row: Row, f: SortField, descending: bool): (r: seq<Row>)
    requires SortedBy(rows, f, descending)
    ensures multiset(r) == multiset(rows) + multiset{row}
    ensures SortedBy(r, f, descending)
  {
    if |rows| == 0 then [row]
    else if InOrder(row, rows[0], f, descending) then
      assert forall y | y in rows :: InOrder(row, y, f, descending) by {
        forall y | y in rows ensures InOrder(row, y, f, descending) {
          var k :| 0 <= k < |rows| && rows[k] == y;
          if k > 0 { assert InOrder(rows[0], rows[k], f, descending); }
        }
      }
      SortedCons(row, rows, f, descending);
      [row] + rows
    else
      var tail := InsertSorted(rows[1..], row, f, descending);
      assert rows == [rows[0]] + rows[1..];
      assert forall y | y in tail :: InOrder(rows[0], y, f, descending) by {
        forall y | y in tail ensures InOrder(rows[0], y, f, descending) {
          assert y in multiset(tail);
          if y != row {
            assert y in multiset(rows[1..]);
            var k :| 0 <= k < |rows[1..]| && rows[1..][k] == y;
            assert rows[k + 1] == y;
          }
        }
      }
      SortedCons(rows[0], tail, f, descending);
      [rows[0]] + tail
  }

  /** The ids of a result. */
  function Ids(rows: seq<Row>): set<NoteId>
  {
    set x | x in rows :: x.id
  }

  /** Every row is the row the database holds for its note. */
  predicate RowsOf(db: Db, rows: seq<Row>)
  {
    forall x | x in rows :: x.id in db.notes && x == MakeRow(db, x.id)
  }

  /** The notes `search` returns before ordering: eligible, and when a
      search text is given, containing it. */
  function SearchSet(db: Db, selected: seq<TagId>, text: string, level: int): (s: set<NoteId>)
    ensures s <= Eligible(db, selected, level)
    ensures |text| == 0 ==> s == Eligible(db, selected, level)
  {
    set n | n in Eligible(db, selected, level)
              && (|text| == 0 || Strings.Contains(db.notes[n].text, text))
  }

  /** A note is searched exactly when it is eligible and, if a search
      text is given, the text occurs somewhere in the note's text. */
  lemma SearchSetIff(db: Db, selected: seq<TagId>, text: string, level: int, n: NoteId)
    ensures n in SearchSet(db, selected, text, level) <==>
      && n in Eligible(db, selected, level)
      && (|text| == 0 || exists i :: Strings.OccursAt(db.notes[n].text, text, i))
  {
    if n in Eligible(db, selected, level) && |text| > 0 {
      if exists i :: Strings.OccursAt(db.notes[n].text, text, i) {
        var i :| Strings.OccursAt(db.notes[n].text, text, i);
        assert Strings.Contains(db.notes[n].text, text);
      }
    }
  }

  /** `search`. The sort criteria default to "stars-desc" when absent. A
      malformed criteria string or unknown field fails; otherwise every
      note of the search set appears exactly once, as its row, ordered by
      the chosen column in the chosen direction (ties in any order). */
  method Search(db: Db, selected: seq<TagId>, text: string, password: string,
                matches: string -> bool, criteria: Option<string>)
    returns (r: Result<seq<Row>, SortError>)
    ensures var c := if criteria.Some? then criteria.value else "stars-desc";
      && (r.Err? <==> ParseSortCriteria(c).Err?)
      && (r.Err? ==> r.error == ParseSortCriteria(c).error)
      && (r.Ok? ==>
            var order := ParseSortCriteria(c).value;
            var s := SearchSet(db, selected, text, VisibilityLevel(password, matches));
            && Ids(r.value) == s
            && |r.value| == |s|
            && RowsOf(db, r.value)
            && SortedBy(r.value, order.0, order.1))
  {
    var c := if criteria.Some? then criteria.value else "stars-desc";
    var level := VisibilityLevel(password, matches);
    var s := SearchSet(db, selected, text, level);
    var parsed := ParseSortCriteria(c);
    if parsed.Err? {
      return Err(parsed.error);
    }
    var (f, descending) := parsed.value;
    var rows := SortRows(db, s, f, descending);
    r := Ok(rows);
  }

  /** The rows of the notes in `s`, each once, ordered by `f`. */
  method SortRows(db: Db, s: set<NoteId>, f: SortField, descending: bool) returns (rows: seq<Row>)
    requires s <= db.notes.Keys
    ensures Ids(rows) == s && |rows| == |s|
    ensures RowsOf(db, rows)
    ensures SortedBy(rows, f, descending)
  {
    rows := [];
    var left := s;
    while left != {}
      invariant left <= s
      invariant Ids(rows) == s - left
      invariant |rows| + |left| == |s|
      invariant RowsOf(db, rows)
      invariant SortedBy(rows, f, descending)
      decreases |left|
    {
      var n := Choose(left);
      var row := MakeRow(db, n);
      var next := InsertSorted(rows, row, f, descending);
      InsertedRows(rows, row, next, f, descending);
      rows := next;
      left := left - {n};
    }
  }

  /** The nondeterministic pick of `ORDER BY RANDOM()` and of the
      database's row order. */
  method Choose<T>(s: set<T>) returns (x: T)
    requires s != {}
    ensures x in s
  {
    x :| x in s;
  }

  /** What an insertion does to the ids and the shape of the rows. */
  lemma InsertedRows(rows: seq<Row>, row: Row, next: seq<Row>, f: SortField, descending: bool)
    requires multiset(next) == multiset(rows) + multiset{row}
    ensures |next| == |rows| + 1
    ensures Ids(next) == Ids(rows) + {row.id}
    ensures forall x | x in next :: x in rows || x == row
  {
    assert |multiset(next)| == |multiset(rows)| + 1;
    forall x | x in next ensures x in rows || x == row {
      assert x in multiset(next);
    }
    forall id | id in Ids(rows) + {row.id} ensures id in Ids(next) {
      if id == row.id {
        assert row in multiset(next);
      } else {
        var x :| x in rows && x.id == id;
        assert x in multiset(next);
      }
    }
  }

  /** No note above the caller's visibility level is ever returned, by
      matchmaking or by search. */
  lemma ResultsRespectVisibility(db: Db, selected: seq<TagId>, text: string, level: int, n: NoteId)
    requires n in Eligible(db, selected, level) || n in SearchSet(db, selected, text, level)
    ensures n in db.notes && db.notes[n].visibility <= level
    ensures Qualifies(db, selected, n)
  {
  }
}
