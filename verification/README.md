# dynotes core in Dafny

dynotes is a note-taking web app. Notes carry tags arranged in a parent-to-child
hierarchy. Notes are ranked by pairwise comparison with an Elo-style rating
("MMR"). A browser-side tag graph shows which tags are in play. This project
models the parts that hold the app's logic and proves properties about them:

- the rating update of `update_mmr`;
- the recursive tag-hierarchy query, the visibility gate and the matchmaking
  and search selections;
- the delete and edit cascades over notes, tags, relationships and note-tag
  pairs;
- the offline rating reset of `reset_mmr.py`;
- the client's pointer-count state machine, which decides which tags the
  graph draws;
- the client's display helpers and its two administrative prompts.

The store is a value: notes and tags as maps, relationships and note-tag pairs
as sets. Every request handler is a pure function from store to store or
reply. The database's transactions are not modelled; an operation that fails
changes nothing (`Result.Err`). The password hash check, the floating-point
expected score, the random order of matchmaking, the prompts' answers, the
server's reply to the client and the window's shape all become parameters.

Modules: `Wrappers` (Option, Result), `Strings` (split, join, trim,
replace), `Sets` (cardinality facts), `Store`, `Rating`, `Hierarchy`,
`Selection`, `Reseed`, `PointerCounts`, `Display`, `Forms`.

Three behaviours of the code are worth stating plainly:

- `get_mmr_notes` answers with the one eligible note when only one is
  eligible.
- Visibility is one stored password hash giving level 5 or 1. There is no
  per-tag or tiered resolution.
- An empty tag selection qualifies no note at all. The query then seeds
  every tag but requires a count of 0.

## Model

| member | source | states |
|---|---|---|
| Rating.KFactor | app.py:259-265 | the K-factor is 16, 24 or 32 and a multiple of 8 |
| Rating.KFactorBands | app.py:259-268 | K never grows with more matches; it is 32 exactly below 10 matches and 16 exactly from 20 up |
| Rating.Truncate | app.py:275-276 | Python's `int()` on a real truncates toward zero: the result is the integer part, rounded toward zero for negatives |
| Rating.WinnerChange | app.py:271-279 | for any expected score E in [0,1] the winner gains between 1 and K: the integer part of K(1 - E) when that is at least 1, and the floor of 1 otherwise; exactly 1 when K(1 - E) is below 2 |
| Rating.LoserChange | app.py:272-280 | the loser loses between 1 and K: the integer part of K(1 - E) when that is at least 1, and the floor of 1 otherwise; exactly 1 when K(1 - E) is below 2 |
| Rating.EvenMatchIsZeroSum | app.py:271-280 | at an expected score of 1/2 with equal K the two changes cancel |
| Rating.UpdateMmr | app.py:252-291 | fails, naming the missing id, exactly when either id is absent, leaving every note unchanged (the float overflow of a huge rating gap is not modelled); otherwise the winner's change is `WinnerChange` of its own K-factor and the expected score of the gap loser minus winner, the loser's is `LoserChange` of its K-factor and the same expected score, each change is added to its side's rating with 1 more match, keeps every other note and field, and with winner equal to loser applies both changes to the one row |
| Rating.UpdateAlwaysMoves | app.py:275-284 | a successful update between two different notes always raises the winner and lowers the loser |
| Rating.EvenFreshMatchExample | app.py:259-284 | two 1500-rated notes with 3 matches each end at 1516 and 1484 with 4 matches each |
| Rating.FavouriteGainsFloor | app.py:275-279 | a winner that was expected to win almost surely gains exactly the floor of 1 |
| Hierarchy.Step | app.py:201-203 | one recursive round adds exactly the children of the collected tags |
| Hierarchy.Closure | app.py:198-204 | the closure holds its seeds, is closed under taking children and adds nothing but children; it terminates on cyclic relationships |
| Hierarchy.ClosureSound | app.py:198-204 | every collected tag descends from a seed |
| Hierarchy.ClosedSetHoldsDescendants | app.py:198-204 | any set holding a seed and closed under children holds all its descendants |
| Hierarchy.ClosureIsReachability | app.py:198-204 | a tag is collected exactly when some seed reaches it by zero or more relationships |
| Hierarchy.ClosureIdempotent | app.py:198-204 | expanding an expansion adds nothing |
| Hierarchy.ReachableTrans | app.py:201-203 | reachability composes |
| Hierarchy.Descendants | app.py:199-204 | the tags paired with a root are the root and its descendants, and nothing when the root is not a row of Tags |
| Selection.VisibilityLevel | app.py:194 | the level is 5 exactly when the password matches the stored hash, otherwise 1 |
| Selection.Qualifies | app.py:205-212 | a qualifying note exists, has tags, and the selection is non-empty (characterised exactly by Selection.QualifiesIff) |
| Selection.QualifiesIff | app.py:205-212 | a note qualifies exactly when the selection is non-empty, names no tag twice, and every selected id is a tag reaching one of the note's tags; an empty selection qualifies nothing |
| Selection.Eligible | app.py:213-222 | every note matchmaking may return is visible at the caller's level |
| Selection.EligibleIff | app.py:213-222 | a note is eligible exactly when it exists, qualifies under the selection, carries a tag present in Tags, and its visibility is at most the caller's level |
| Selection.QualifyingNoteHasKnownTag | app.py:216-218 | in a consistent store the join with Tags drops no qualifying note |
| Selection.MakeRow | app.py:213-218 | a row carries the note's id and fields, and exactly the names of the known tags paired with the note |
| Selection.SelectPair | app.py:213-238 | matchmaking returns two distinct eligible notes when two or more are eligible, the only one when one is, none otherwise, each as its note's row |
| Selection.PickUpToTwo | app.py:221-222 | a random pick of at most two distinct members of a set, two when the set has two |
| Selection.FieldFromName | app.py:370 | the sort-key mapping knows exactly the four names and is the inverse of the field names |
| Selection.ParseSortCriteria | app.py:369-371 | the criteria parse exactly when the string has one `-` and a known field; otherwise it fails as the unpacking or the lookup does |
| Selection.ParseSortCriteriaRoundTrip | app.py:369-371 | a field name, a `-` and an order parse back to that field, descending exactly when the order is "desc" |
| Selection.SortedCons | app.py:371 | a row in order with every row of a sorted list extends it sorted |
| Selection.InsertSorted | app.py:371 | inserting a row into a sorted list keeps it sorted and adds exactly that row |
| Selection.SearchSet | app.py:327-365 | the searched notes are always eligible notes, and without a search text they are all the eligible notes |
| Selection.SearchSetIff | app.py:363-365 | a note is searched exactly when it is eligible and, when a search text is given, the text occurs in the note's text |
| Selection.Search | app.py:315-383 | search fails exactly when the criteria (default "stars-desc") fail to parse, and otherwise returns every searched note once, as its row, sorted by the chosen column and direction |
| Selection.SortRows | app.py:367-377 | the ordered result holds each given note exactly once, as its row, in sorted order |
| Selection.Choose | app.py:221 | an arbitrary member of a non-empty set |
| Selection.InsertedRows | app.py:367-377 | inserting a row adds exactly its id and one entry |
| Selection.ResultsRespectVisibility | app.py:219 | no note above the caller's level is ever returned, and every returned note qualifies |
| Store.TagsOf | app.py:173-177 | the tags of a note are exactly its note-tag pairs |
| Store.DeleteTag | app.py:58-64 | removes the tag, every relationship where it is parent or child, and its note-tag pairs, and nothing else |
| Store.DeleteNote | app.py:302-305 | removes the note and its note-tag pairs and nothing else |
| Store.EditNote | app.py:156-177 | updates the five fields of an existing note only, replaces its tags by exactly the given list, and leaves every other note and pair alone; a missing id still gets pairs |
| Store.RemoveTagRelationship | app.py:82 | removes exactly the one relationship and nothing else |
| Store.DeleteTagPreservesConsistency | app.py:58-64 | deleting a tag keeps the store referentially consistent and leaves no trace of the tag |
| Store.DeleteNotePreservesConsistency | app.py:302-305 | deleting a note keeps the store consistent and leaves it no tags |
| Store.EditNotePreservesConsistency | app.py:156-177 | editing an existing note with known tags keeps the store consistent |
| Store.EditMissingNoteLeavesDanglingRows | app.py:156-177 | editing a note id that does not exist leaves note-tag pairs for a missing note |
| Store.DeletesIdempotent | app.py:58-64 | deleting the same tag or note twice equals deleting it once |
| Reseed.StarMmr | reset_mmr.py:24-34 | a star rating r from 1 to 5 maps to base + (r - 3) * increment, any other value to base |
| Reseed.ResetNote | reset_mmr.py:20-33 | one row: match count 0, rating base + (stars - 3) * increment for 1 to 5 stars and base otherwise, every other field unchanged |
| Reseed.ResetMmr | reset_mmr.py:20-33 | every note is reset: match count 0, rating from its stars, every other field unchanged |
| Reseed.ResetIdempotent | reset_mmr.py:20-33 | resetting twice equals resetting once |
| Reseed.ResetForgetsHistory | reset_mmr.py:20-33 | notes with the same stars end with the same rating, whatever their history |
| Reseed.DefaultSeeds | reset_mmr.py:14-34 | with the defaults 1500 and 100, five stars give 1700, three 1500, one 1300, none 1500 |
| Reseed.StarMmrMonotone | reset_mmr.py:24-34 | with a non-negative increment more stars never seed a lower rating |
| PointerCounts.ParentIsAncestor | src/tagGraph.ts:400-407 | a link's source is an ancestor of its target |
| PointerCounts.IsOrphan | src/tagGraph.ts:149-151 | a tag is an orphan exactly when it is not the child of any link |
| PointerCounts.AncestorOfParent | src/tagGraph.ts:400-407 | an ancestor of a parent is an ancestor of the child |
| PointerCounts.AddAncestors | src/tagGraph.ts:400-407 | the walk collects every parent of the node, closes over the parents of everything it adds, adds only ancestors, and terminates on cyclic links |
| PointerCounts.AncestorsFrom | static/js/tagGraph.js:338-345 | the scan over the remaining links collects the parents it meets and keeps the walk's closure and soundness |
| PointerCounts.AddDescendants | src/tagGraph.ts:409-416 | adds exactly the direct children; grandchildren are not visited |
| PointerCounts.DescendantsFrom | static/js/tagGraph.js:348-355 | the scan over the remaining links adds exactly the targets of links from the node |
| PointerCounts.RelativesIff | src/tagGraph.ts:388-416 | the tags a selection moves are exactly its transitive ancestors and its direct children |
| PointerCounts.AncestorsComplete | static/js/tagGraph.js:338-345 | a set holding the node's parents and closed under parents holds every ancestor |
| PointerCounts.UpdatePointerCounts | src/tagGraph.ts:388-398 | the count of each relative moves by delta and its visible flag becomes count > 0; every other count and flag is unchanged |
| PointerCounts.Toggle | src/tagGraph.ts:372-379 | toggling flips the node's selection, moves every relative's count by -1 or +1 accordingly, and flags the node visible |
| PointerCounts.ToggleTwiceRestores | static/js/tagGraph.js:312-322 | toggling a node twice with unchanged links restores the selection and every pointer count |
| PointerCounts.ToggleMovesSupporters | static/js/tagGraph.js:312-322 | a toggle moves the number of selected tags a count depends on by exactly the count's own change |
| PointerCounts.ToggleKeepsCountsAgree | static/js/tagGraph.js:312-337 | toggling keeps every count equal to its baseline plus the number of selected tags it is a relative of |
| PointerCounts.Load | src/tagGraph.ts:207-219 | loading starts every tag at its orphan baseline with nothing selected, so the counts agree with the selection |
| PointerCounts.ResetCounts | static/js/tagGraph.js:557-560 | every node's count is reset to 1 when nothing links into it and 0 otherwise |
| PointerCounts.AddSupporter | static/js/tagGraph.js:562-564 | adding a selected tag adds one supporter exactly when it is new and a relative |
| PointerCounts.ReapplyAll | static/js/tagGraph.js:562-564 | one +1 update per previously selected tag adds to each count the number of those tags it is a relative of |
| PointerCounts.Recount | static/js/tagGraph.js:556-565 | after a relationship change every count equals its baseline plus the number of tags in the copied selection it is a relative of; the counts agree with the selection exactly when that copy is still the selection |
| PointerCounts.CreateRelationship | static/js/tagGraph.js:547-570 | an accepted link is appended and every count is recomputed from the selection copied before the request, agreeing with the selection when it has not changed; a rejected one changes nothing |
| PointerCounts.RemoveRelationship | static/js/tagGraph.js:571-594 | an accepted removal drops exactly the clicked link, or nothing when that link object is already gone, and either way every count is recomputed from the selection copied before the request, agreeing with the selection when it has not changed; a rejected one changes nothing |
| PointerCounts.StaleSelectionHidesChild | static/js/tagGraph.js:548-564 | a parent selected while the request is in flight is missing from the copy, so its new child ends with count 0 and the counts disagree with the selection |
| PointerCounts.CreateRelationshipLive | static/js/tagGraph.js:547-570 | recomputing from the selection as it is when the answer arrives leaves the counts agreeing with the selection after every accepted link |
| PointerCounts.RemoveRelationshipLive | static/js/tagGraph.js:571-594 | the same for an accepted removal, whether or not the link object is still listed |
| PointerCounts.DrawnNodes | src/tagGraph.ts:525 | a node is drawn exactly when its count is positive or it is selected |
| PointerCounts.DrawnLinks | src/tagGraph.ts:526 | a link is drawn exactly when both of its ends are drawn |
| PointerCounts.Filter | static/js/tagGraph.js:451-452 | filtering keeps exactly the members that pass |
| PointerCounts.DrawnIff | src/tagGraph.ts:149-151 | while the counts agree, a tag is drawn exactly when nothing links into it, it is selected, or it is an ancestor or direct child of a selected tag |
| Display.LinkDistance | src/tagGraph.ts:237-242 | the link distance lies in [20, 100], is 100 exactly at generation 0, 60 at generation 1 and 20 from generation 2 on |
| Display.LinkDistanceNonIncreasing | static/js/tagGraph.js:189-194 | deeper sources never get longer links |
| Display.ClampIndex | src/tagGraph.ts:579 | the clamped generation is always a valid index, the generation itself when in range, the last index otherwise |
| Display.NodeSize | src/tagGraph.ts:578-581 | the node size is 12 at generation 0 or with no generation, 10 at generation 1 and 8 from generation 2 on |
| Display.NodeSizeNonIncreasing | static/js/tagGraph.js:495-498 | deeper nodes are never drawn larger |
| Display.NodeColour | src/tagGraph.ts:244-253 | a selected node takes a colour from the selected palette, an unselected one from the other |
| Display.SelectionAlwaysVisible | static/js/tagGraph.js:195-205 | a selected node never shares a colour with an unselected one |
| Display.ShadesByGeneration | src/tagGraph.ts:43-58 | the first four generations get distinct shades and every deeper one shares the fourth |
| Display.SortCriteria | src/tagGraph.ts:860 | a value without `-` is a criterion with no order; "criterion-order" splits into its two halves |
| Display.Compare | src/tagGraph.ts:861-878 | an unknown criterion compares equal; otherwise the sign follows the chosen key, reversed exactly for "desc" |
| Display.CompareAntisymmetric | static/js/tagGraph.js:803-820 | the comparator is antisymmetric, "desc" is exactly the negation of ascending, and a missing order sorts ascending |
| Display.VisibilityEmoji | static/js/tagGraph.js:863-871 | the icon is the open lock exactly for level 1 and for every value outside 1 to 4 |
| Display.VisibilityEmojiDistinct | src/tagGraph.ts:939-947 | levels 1 to 4 get distinct icons and level 5 shares level 1's |
| Display.TrimAll | src/tagGraph.ts:962 | every split piece is trimmed |
| Display.PackLines | src/tagGraph.ts:961-976 | no empty line is emitted, a pending line is never dropped, and every line is the pending line, a single tag, or fits the limit |
| Display.WrapTags | src/tagGraph.ts:954-979 | every line is non-empty and is either one trimmed tag or at most the limit long (1 in tall mode, 30 otherwise) |
| Display.PackLinesJoin | src/tagGraph.ts:961-976 | with no empty tag, the lines joined by ", " read as the tags joined by ", " |
| Display.PackLinesTall | static/js/tagGraph.js:895-918 | with a limit of 1 every non-empty tag is alone on its own line, in order |
| Display.WrapTagsTall | static/js/tagGraph.js:895-918 | in tall mode the lines are exactly the non-empty trimmed tags |
| Display.WrapTagsJoin | src/tagGraph.ts:954-979 | wrapping keeps every tag and every separator when no trimmed tag is empty |
| Display.EscapeFallbackIsCharwise | static/js/tagGraph.js:931-935 | escaping `&` first makes the four global replaces one character-by-character escape |
| Display.EscapeFallback | static/js/tagGraph.js:929-936 | no line feed survives the fallback, and text without `&`, `<`, `>` or line feeds passes unchanged |
| Display.EscapeFallbackSafe | src/tagGraph.ts:992-996 | every `<` and `>` of the fallback's output belongs to an inserted `<br>` |
| Display.AnglesOnlyInBreaksAppend | static/js/tagGraph.js:931-935 | that property survives concatenation |
| Display.UnescapeEscape | static/js/tagGraph.js:931-935 | the escape loses nothing: reading entities and `<br>` back yields the original text |
| Forms.ParseInt | static/js/tagGraph.js:760 | `parseInt` yields a number exactly when the first non-blank character, after one optional sign, is a digit; in particular whenever the text starts with a digit, and only when the text holds a digit |
| Forms.ParseSigned | static/js/tagGraph.js:760 | after the blanks, a number is read exactly when a digit follows the optional sign; a negative result needs a leading `-`, and a leading digit gives a non-negative number |
| Forms.ParseIntShowInt | static/js/tagGraph.js:760 | `parseInt` reads back the decimal form of any integer, whatever non-digit text follows |
| Forms.ParseIntBlanksShowInt | static/js/tagGraph.js:760 | `parseInt` reads back the decimal form of any integer after any run of leading blanks, whatever non-digit text follows |
| Forms.OrDefault | static/js/tagGraph.js:760 | a cancelled or empty answer becomes the fallback "3", any other answer is kept |
| Forms.VisibilityAnswer | static/js/tagGraph.js:760 | a cancelled or empty answer reads as level 3, any other answer as `parseInt` reads it |
| Forms.UpdateGlobalPasswords | static/js/tagGraph.js:724-731 | the update is sent exactly when all three answers are non-empty, carrying them in order |
| Forms.FindByName | static/js/tagGraph.js:755-759 | the lookup finds the first node with the name, and nothing exactly when no node has it |
| Forms.GenerateTagPasswordAsWritten | static/js/tagGraph.js:751-769 | the request goes out only with a tag name, a found tag and an admin password; a numeric visibility outside 1 to 5 is refused |
| Forms.NaNVisibilityIsSent | static/js/tagGraph.js:760-764 | the answer "x" passes the range check and is sent as NaN |
| Forms.GenerateTagPassword | static/js/tagGraph.js:751-769 | the request goes out exactly when there is a tag name, the tag is found, the visibility is a number from 1 to 5 and an admin password is given |
| Forms.CorrectedAgreesOnNumbers | static/js/tagGraph.js:760-764 | the corrected check differs from the original only on answers that are not numbers |
| Forms.DefaultVisibilityIsThree | static/js/tagGraph.js:760 | a cancelled or empty visibility answer asks for level 3 |
| Strings.Split | app.py:369 | `split` gives one more piece than there are separators, none holding the separator |
| Strings.JoinSplit | app.py:369 | joining the pieces with the separator gives back the string |
| Strings.Trim | src/tagGraph.ts:962 | `trim` returns the substring left after removing only blanks at both ends, and that substring neither starts nor ends with a blank |
| Strings.ReplaceChar | static/js/tagGraph.js:931-935 | a global replace by text without the character leaves none of it, and changes nothing when the character is absent |

## Left out

- Flask routing, JSON parsing, `get_db` and `init_db`, argparse and printing in `reset_mmr.py`: I/O glue.
- Transactions and storage errors: a failing operation is an `Err` that changes nothing. Rollback after a partial write is not modelled.
- Missing request keys (`data.get` returning `None` ids) are not modelled. Ids are always present integers.
- Rating.UpdateMmr: the expected score `1 / (1 + 10 ** (gap / 400))` is floating point. It is a caller-supplied function of the rating gap with values in [0, 1]. Only its bounds are used. Float rounding of the product before `int()` is not modelled. Nor is the `OverflowError` that `10 **` raises once the gap passes about 123,000 points: there the source rolls back with both ids present, while the model still succeeds.
- Selection.VisibilityLevel: werkzeug's `check_password_hash` is the opaque predicate `matches`.
- Selection.SearchSet: SQLite's `LIKE` is case-insensitive for ASCII letters and treats `%` and `_` in the search text as wildcards. The model uses plain, case-sensitive substring containment.
- Selection.SelectPair: `ORDER BY RANDOM()` is a nondeterministic choice. The model does not claim a uniform distribution.
- Store.EditNote: a tag id listed twice would make the second insert into NoteTags fail, if the table has a uniqueness constraint. The schema is not part of this model. The list is read as a set.
- `add_note`, `add_tag`, `rename_tag`, `update_tag_relationships`, `get_tags`, `get_tag_relationships`: single-row inserts, updates and reads outside the modelled core.
- `search2` is a shadowed duplicate registration of `/search`.
- The D3 force simulation, drag and hold timers, toasts, the comparison queue, fetch and localStorage: UI, timing and network. The server's answer to a relationship change is the parameter `accepted`.
- `setGeneration` recurses without a cycle guard. Generations are inputs to the display functions.
- `generateReadableId` depends on DOM queries.
- The `marked` library call and the regex markdown renderers: foreign code and regex-engine behaviour. Only the fallback escape is modelled.
- The node objects' `children` arrays, which nothing in the model reads.
- String lengths count Unicode code points, not UTF-16 code units as JavaScript does.
- Selection.MakeRow: `GROUP_CONCAT(DISTINCT t.name)` returns one comma-joined string. The model keeps the set of names, so the separator, the order and the ambiguity of names that contain commas are lost.
- PointerCounts.Recount: the iteration order of the copied selection `Set` is a parameter. It must be a repetition-free listing. The state the answer arrives in, including clicks made meanwhile, is the `g` argument.
- Display.WrapTags: tall mode depends on the window's shape. That is the parameter `tall`.

## Findings

| source | as written | input that shows it | evidently intended | confidence | as-written member | corrected member |
|---|---|---|---|---|---|---|
| static/js/tagGraph.js:760-764 | `maxVisibility < 1 \|\| maxVisibility > 5` is the only check on `parseInt`'s result. Both comparisons are false for NaN, so the request goes out with `max_visibility` NaN, which the JSON body encodes as `null` | visibility answer "x" | reject anything that is not a number from 1 to 5, as the alert's wording says | medium, not executed | Forms.GenerateTagPasswordAsWritten | Forms.GenerateTagPassword |
| static/js/tagGraph.js:548-564 | the selection is copied before `await fetch`, and only that copy is re-applied after the counts are reset. Tags selected or deselected while the request is in flight are missing from the recount | links 1 -> 2, nothing selected; create 3 -> 1; select 3 before the answer arrives: tag 1 ends with count 0 and is hidden although its selected parent is drawn, and deselecting 3 then takes it to -1 | recount from the selection as it is when the answer arrives | medium, not executed | PointerCounts.CreateRelationship, PointerCounts.StaleSelectionHidesChild | PointerCounts.CreateRelationshipLive, PointerCounts.RemoveRelationshipLive |
