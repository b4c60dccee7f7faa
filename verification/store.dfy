/** The relational store behind the notes service: the Notes and Tags
    tables as finite maps keyed by id, and the TagRelationships and NoteTags
    join tables as sets of id pairs. The mutations here are the committed
    outcome of one transaction each. */
module Store {

  type NoteId = int
  type TagId = int

  /** A row of Notes. `rating` is the user's star rating; `mmr` and
      `mmrMatches` are the pairwise-comparison rating and its match count. */
  datatype Note = Note(
    text: string,
    author: string,
    date: int,
    rating: int,
    source: string,
    visibility: int,
    mmr: int,
    mmrMatches: int)

  /** A row of Tags. */
  datatype Tag = Tag(name: string, readableId: string)

  /** The whole store. `edges` holds (parent, child) pairs, `noteTags`
      holds (note, tag) pairs. */
  datatype Db = Db(
    notes: map<NoteId, Note>,
    tags: map<TagId, Tag>,
    edges: set<(TagId, TagId)>,
    noteTags: set<(NoteId, TagId)>)

  /** Every join row refers to rows that exist. */
  ghost predicate Consistent(db: Db)
  {
    && (forall e | e in db.edges :: e.0 in db.tags && e.1 in db.tags)
    && (forall p | p in db.noteTags :: p.0 in db.notes && p.1 in db.tags)
  }

  /** The tags attached to a note. */
  function TagsOf(db: Db, n: NoteId): (ts: set<TagId>)
    ensures forall t :: t in ts <==> (n, t) in db.noteTags
  {
    set p | p in db.noteTags && p.0 == n :: p.1
  }

  /** `delete_tag`: removes the tag row, every relationship in which it is
      the parent or the child, and every note association of it. */
  function DeleteTag(db: Db, t: TagId): (r: Db)
    ensures r.tags.Keys == db.tags.Keys - {t}
    ensures forall u | u in r.tags :: r.tags[u] == db.tags[u]
    ensures forall e :: e in r.edges <==> e in db.edges && e.0 != t && e.1 != t
    ensures forall p :: p in r.noteTags <==> p in db.noteTags && p.1 != t
    ensures r.notes == db.notes
  {
    Db(db.notes,
       map u | u in db.tags && u != t :: db.tags[u],
       set e | e in db.edges && e.0 != t && e.1 != t,
       set p | p in db.noteTags && p.1 != t)
  }

  /** `delete_note`: removes the note row and its tag associations. */
  function DeleteNote(db: Db, n: NoteId): (r: Db)
    ensures r.notes.Keys == db.notes.Keys - {n}
    ensures forall m | m in r.notes :: r.notes[m] == db.notes[m]
    ensures forall p :: p in r.noteTags <==> p in db.noteTags && p.0 != n
    ensures r.tags == db.tags && r.edges == db.edges
  {
    Db(map m | m in db.notes && m != n :: db.notes[m],
       db.tags,
       db.edges,
       set p | p in db.noteTags && p.0 != n)
  }

  /** The fields `edit_note` overwrites. */
  datatype NoteEdit = NoteEdit(
    text: string,
    author: string,
    rating: int,
    source: string,
    visibility: int)

  /** `edit_note`: overwrites the editable fields of the note (the UPDATE
      matches no row when the id is absent) and replaces its tag
      associations wholesale by the given list, whether or not the note
      exists. Date and rating state are kept. */
  function EditNote(db: Db, n: NoteId, e: NoteEdit, tags: seq<TagId>): (r: Db)
    ensures r.notes.Keys == db.notes.Keys
    ensures forall m | m in db.notes && m != n :: r.notes[m] == db.notes[m]
    ensures n in db.notes ==>
      var old_ := db.notes[n];
      r.notes[n] == Note(e.text, e.author, old_.date, e.rating, e.source, e.visibility, old_.mmr, old_.mmrMatches)
    ensures TagsOf(r, n) == set k | 0 <= k < |tags| :: tags[k]
    ensures forall p: (NoteId, TagId) | p.0 != n :: p in r.noteTags <==> p in db.noteTags
    ensures r.tags == db.tags && r.edges == db.edges
  {
    var notes :=
      if n in db.notes then
        db.notes[n := db.notes[n].(text := e.text, author := e.author, rating := e.rating,
                                   source := e.source, visibility := e.visibility)]
      else db.notes;
    var kept := set p | p in db.noteTags && p.0 != n;
    var added := set k | 0 <= k < |tags| :: (n, tags[k]);
    Db(notes, db.tags, db.edges, kept + added)
  }

  /** `remove_tag_relationship`: deletes exactly the (parent, child) edge. */
  function RemoveTagRelationship(db: Db, parent: TagId, child: TagId): (r: Db)
    ensures forall e :: e in r.edges <==> e in db.edges && e != (parent, child)
    ensures r.notes == db.notes && r.tags == db.tags && r.noteTags == db.noteTags
  {
    db.(edges := db.edges - {(parent, child)})
  }

  /** Deleting a tag leaves no trace of it and keeps the store consistent. */
  lemma DeleteTagPreservesConsistency(db: Db, t: TagId)
    requires Consistent(db)
    ensures Consistent(DeleteTag(db, t))
    ensures t !in DeleteTag(db, t).tags
    ensures forall e | e in DeleteTag(db, t).edges :: e.0 != t && e.1 != t
    ensures forall n :: t !in TagsOf(DeleteTag(db, t), n)
  {
  }

  /** Deleting a note keeps the store consistent. */
  lemma DeleteNotePreservesConsistency(db: Db, n: NoteId)
    requires Consistent(db)
    ensures Consistent(DeleteNote(db, n))
    ensures TagsOf(DeleteNote(db, n), n) == {}
  {
  }

  /** Editing an existing note with existing tags keeps the store
      consistent; the tags it then carries are exactly the listed ones. */
  lemma EditNotePreservesConsistency(db: Db, n: NoteId, e: NoteEdit, tags: seq<TagId>)
    requires Consistent(db)
    requires n in db.notes
    requires forall k | 0 <= k < |tags| :: tags[k] in db.tags
    ensures Consistent(EditNote(db, n, e, tags))
  {
  }

  /** Editing a note id that is absent still inserts association rows,
      which then point at no note. */
  lemma EditMissingNoteLeavesDanglingRows(db: Db, n: NoteId, e: NoteEdit, t: TagId)
    requires n !in db.notes
    ensures !Consistent(EditNote(db, n, e, [t]))
  {
    var r := EditNote(db, n, e, [t]);
    assert [t][0] == t;
    assert t in TagsOf(r, n);
    assert (n, t) in r.noteTags;
  }

  /** Both deletions are idempotent. */
  lemma DeletesIdempotent(db: Db, t: TagId, n: NoteId)
    ensures DeleteTag(DeleteTag(db, t), t) == DeleteTag(db, t)
    ensures DeleteNote(DeleteNote(db, n), n) == DeleteNote(db, n)
  {
  }
}
