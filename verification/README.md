# units_viewer label engine in Dafny

units_viewer is a browser tool for reviewing recorded units (neurons) one
at a time. Each unit id maps to an ordered list of entries. An entry that
starts with `%` is a free-text note; every other entry is a tag. The script
`script.js` keeps this label store in memory. It also keeps:

- a list of active units, narrowed by a search box language;
- a tag index over the active units, holding for each tag the ids that carry
  it and its number of occurrences;
- a cursor on the current unit.

The user moves the cursor, adds and removes tags and notes, and searches.

This project models that engine as pure functions over immutable values:

- `options.dfy`: `Option` and `Result`.
- `text.dfy` (module `Text`): whitespace removal, `trim`, `startsWith`,
  `endsWith`, `includes` and `parseInt`.
- `seqset.dfy` (module `SeqSet`): duplicate-free sequences standing for
  JavaScript `Set`s in insertion order, with union, intersection and
  difference.
- `labels.dfy` (module `Labels`): the store, and the edits made to one
  unit's entry list. It also holds the note list shown for a unit and the
  merge of image-folder names into the store.
- `tags.dfy` (module `Tags`): `createTagsDictionary`, with a tag-by-tag
  reference definition proved equal to it. Also the display order of tags.
- `query.dfy` (module `Query`): tokenising, normalising and validating a
  search; what one clause selects; the grouped evaluation.
- `viewer.dfy` (module `Viewer`): the session record and every user action
  as a session-to-session function. `Viewer.Valid` is the state invariant;
  every action is proved to keep it.

On these points the script behaves differently from what its comments or a
first reading suggest; the model follows the code:

- Evaluation is grouped. The first clause is applied to all ids. Then every
  `|` clause is added, every `&` clause is intersected and every `!` clause
  is subtracted, in that order, whatever their order in the search. It is
  not left to right.
- There is no clause kind that searches note text. A quoted clause is a
  case-sensitive substring match over every unit id of the store.
- The tag index counts occurrences, not units. A unit that carries a tag
  twice counts twice and is listed twice.
- A bare tag clause looks the tag up in the index built over the units that
  were active before the search. Starting from a narrowed view therefore
  narrows further (`Viewer.SearchOneTag`).
- A search with no result leaves `currentUnitIndex` at its old value and
  the cursor on no unit.
- The comment at `script.js:504` says `%#2` names note index 1. But
  `parseInt("#2")` is `NaN`, so that input removes nothing
  (`Labels.NoteRankNeedsDigits`); `%2` is the form that works
  (`Labels.NoteRankOfOrdinal`).

## Model

| member | source | states |
|---|---|---|
| Text.StripWhitespace | script.js:272 | the result holds no whitespace, and every non-whitespace character of the input appears in it; it is empty exactly when the input is all whitespace |
| Text.Trim | script.js:439 | the result is an infix of the input with only whitespace cut from both ends; it has no whitespace at either end, and it is empty exactly when the input is all whitespace |
| Text.StripWhitespaceIdempotent | script.js:272 | removing whitespace twice is removing it once |
| Text.TrimIdempotent | script.js:463 | trimming twice is trimming once |
| Text.ParseInt | script.js:504 | there is no number exactly when no digit follows the optional sign |
| Text.ParseIntOfNatToString | script.js:504 | the decimal writing of any n, signed with `+` or not, and followed by any non-digit text, reads back as n |
| Text.ContainsIff | script.js:401 | `includes` holds exactly when the needle occurs at some position |
| SeqSet.Union | script.js:328 | `new Set([...a, ...b])`: duplicate-free and holds exactly the members of either |
| SeqSet.UnionAppends | script.js:328 | the union keeps the first set in its order and appends the new members of the second, in their order |
| SeqSet.Intersect | script.js:335 | holds exactly the common members, and is duplicate-free when the first set is |
| SeqSet.Minus | script.js:342 | holds exactly the members of the first set that are not in the second |
| Labels.Put | script.js:448 | the written unit gets the new list, every other unit keeps its list, the key set gains only the written id, an existing id leaves the key order as it was, and a valid store stays valid |
| Labels.PutNewLast | script.js:448 | writing a new id appends it to the key order, behind every existing key |
| Labels.WithTag | script.js:446-448 | the tag is present afterwards; a list that had it is unchanged; otherwise exactly the tag is appended |
| Labels.RemoveFirst | script.js:485-487 | the first occurrence of the tag is gone and the other entries keep their order; the multiset loses exactly one copy; a list without the tag is unchanged |
| Labels.AddThenRemove | script.js:438-501 | adding a tag the unit lacks and then removing it restores the list exactly |
| Labels.RemoveTagAsWritten | script.js:478-501 | on a tag that occurs at least twice, the removal loses two copies of it from the multiset, not one; on a tag that occurs once it loses that one copy; a list without the tag is unchanged |
| Labels.RemoveTagAsWrittenDropsDuplicate | script.js:485-494 | on `["red", "red"]` the code as written leaves `[]`, while first-occurrence removal leaves `["red"]` |
| Labels.RemoveTagAsWrittenAgreesOnSingle | script.js:478-501 | the two removals agree whenever the tag occurs at most once |
| Labels.Notes | script.js:727 | the shown notes number exactly the notes among the entries |
| Labels.NotesAt | script.js:727 | the k-th shown note is the k-th note entry without its `%` |
| Labels.NotePosition | script.js:511-526 | a found position holds a note preceded by exactly k notes; nothing is found exactly when k is not a valid note rank |
| Labels.RemoveNthNoteSpec | script.js:503-533 | for a valid rank k, the result is the list with exactly the entry of the k-th note spliced out, so the other notes and all tags keep their order and their interleaving, and the list is one shorter; any other rank leaves the list unchanged |
| Labels.RemoveNthNoteAt | script.js:511-533 | for a valid rank k, the removal splices out exactly the entry at some position i that holds a note preceded by k notes |
| Labels.NoteRankOfOrdinal | script.js:504 | `%n` names the note of rank n - 1 |
| Labels.NoteRankNeedsDigits | script.js:504-508 | `%#2` names no note |
| Labels.Fill | script.js:741-749 | afterwards the keys are the old keys plus the folder names; existing lists are untouched and new ones are empty; the result reports an update exactly when some name was missing; the old key order is a prefix of the new one |
| Labels.FillKeys | script.js:741-749 | on a valid store the new key order is the old one followed by the missing names, each once, in folder order, and the store stays valid |
| Labels.FillIdempotent | script.js:741-756 | filling a second time with the same names adds nothing and reports no update |
| Tags.BuildIndexMatchesReference | script.js:247-263 | the loops build, for every tag, exactly the reference list: each active unit once per occurrence of the tag, in order; notes are never keys; each count is its list's length; the tag order lists every key once |
| Tags.BuildIndexOrder | script.js:247-263 | the tag order is the tags of the active units, unit after unit and entry after entry, with later repeats dropped: the order in which the loops first meet them |
| Tags.BuildIndexSpec | script.js:247-263 | a text is a key exactly when it is not a note and some active unit carries it; its count is the length of its id list and its number of occurrences among the active units; its id list names exactly the active units that carry it |
| Tags.CountOfIndex | script.js:247-263 | the count of any text is its occurrence total among the active units for a tag, and 0 for a note |
| Tags.BuildFromSameTags | script.js:251-254 | stores whose active units carry the same tags in the same order give the same index, whatever their notes |
| Tags.SortByCount | script.js:712 | the display order is a permutation of the tags |
| Tags.SortByCountSpec | script.js:712 | the display order has counts in descending order, and tags with equal counts keep their first-met order |
| Query.Tokenize | script.js:287 | the pieces spell the text back, each is one operator or a run of non-operator characters, and no two runs are adjacent |
| Query.TokenizeUnique | script.js:287 | any piece list of that shape that spells the text is the tokenisation |
| Query.Normalize | script.js:290-294 | a list that starts with `&` or `!` is kept as it is; a leading `\|` becomes `&`; a leading clause text gets a `&` in front; the result never starts with `\|` |
| Query.ParseSearch | script.js:270-300 | the search shows every unit exactly when it is blank; an accepted filter never starts with `\|` |
| Query.ParsePieces | script.js:369-381 | the pieces are accepted exactly when there is an even number of them with an operator at every even position |
| Query.ParseRender | script.js:270-300 | writing out clauses with plain texts, not starting with `\|`, and reading them back gives the same clauses |
| Query.ImplicitAnd | script.js:290-291 | a search that starts with a clause text reads as if it started with `&` |
| Query.LeadingOrIsAnd | script.js:292-293 | a leading `\|` reads as `&` |
| Query.TrailingOpRejected | script.js:369-373 | a search that ends in an operator after a clause text is refused |
| Query.OddPiecesRejected | script.js:369-373 | a blank-free search that starts with an operator and splits into an odd number of pieces is refused |
| Query.SpacesIgnored | script.js:272 | a space anywhere in the search does not change how it is read |
| Query.ClauseSet | script.js:395-410 | a clause selects a duplicate-free list of ids |
| Query.QuotedClauseMeaning | script.js:399-401 | a quoted clause selects exactly the store's ids in which the quoted text occurs |
| Query.BareClauseMeaning | script.js:402-407 | against an index built over the active units, a bare clause selects exactly the active units carrying it as a tag; a note text selects nothing |
| Query.ApplyQuery | script.js:383-393 | the first clause intersects with, adds to or subtracts from the set of all ids according to its operator |
| Query.OrAll | script.js:326-330 | the `\|` group adds exactly the ids some `\|` clause selects, keeping the earlier ids as a prefix |
| Query.AndAll | script.js:333-337 | the `&` group keeps exactly the ids every `&` clause selects |
| Query.NotAll | script.js:340-344 | the `!` group keeps exactly the ids no `!` clause selects |
| Query.Evaluate | script.js:302-347 | an id is active afterwards exactly when (the first clause keeps it or some `\|` clause selects it), every `&` clause selects it, and no `!` clause selects it; no id is listed twice |
| Query.StartOrder | script.js:302-305 | when the first clause is not `\|`, the ids it keeps are listed in key order |
| Query.OrAllOrder | script.js:326-330 | the `\|` group yields the earlier ids followed by the new ids of the `\|` selections, each once, in the order the clauses and their sets list them |
| Query.EvaluateOrder | script.js:302-347 | the result is the ids kept by the first clause, followed by the new ids of the `\|` selections in order, then filtered by the `&` and `!` tests without reordering |
| Query.ClauseOrderIrrelevant | script.js:312-344 | reordering the clauses after the first does not change which ids are selected |
| Query.NotBeatsOr | script.js:326-344 | an id that a `!` clause selects is never in the result, even when a `\|` clause selects it |
| Viewer.Load | script.js:208-245 | every key is active, in key order, with the cursor at index 0 on the first key; a valid store gives a valid session |
| Viewer.Search | script.js:270-367 | the search is refused exactly when the text is malformed, and then nothing changes; a blank search activates every key with the cursor at index 0; a search with a result puts the cursor at index 0 on its first unit; a non-blank search with no result leaves no current unit and the index as it was; an accepted filter activates exactly the evaluated list, in its order; the store is never changed; validity is kept |
| Viewer.SearchOneTag | script.js:270-367 | a one-tag search activates, in key order, exactly the previously active units that carry the tag; a note text finds nothing |
| Viewer.Next | script.js:412-418 | with active units, the cursor moves to index (i + 1) mod n and lands on the active unit there; without active units nothing happens; only the cursor changes; validity is kept |
| Viewer.Previous | script.js:420-426 | with active units, the cursor moves to index (i - 1 + n) mod n and lands on the active unit there; without active units nothing happens; only the cursor changes; validity is kept |
| Viewer.PreviousUndoesNext | script.js:412-426 | going back after going forward restores the session |
| Viewer.NextUndoesPrevious | script.js:412-426 | going forward after going back restores the session |
| Viewer.ForwardIndex | script.js:412-418 | k steps forward land k places further on, modulo the number of active units |
| Viewer.ForwardValid | script.js:412-418 | any number of steps forward keeps the session valid |
| Viewer.ForwardCycle | script.js:412-418 | as many steps forward as there are active units return to the starting unit |
| Viewer.AddTag | script.js:438-460 | a non-blank text is added to the current unit only, as `WithTag` says; on a valid session the key order and key set stay as they were; a blank text or no current unit changes nothing; validity is kept |
| Viewer.AddTagIndexes | script.js:438-460 | after adding a new tag, the index lists the current unit under it and the tag's count is one higher |
| Viewer.RemoveTag | script.js:478-501 | only the given unit changes, and it loses the first occurrence of the tag; the key order and key set stay as they were; validity is kept |
| Viewer.RemoveNote | script.js:503-539 | with a valid rank, the unit's list becomes the note removal's result, one entry shorter, so exactly that note goes and the unit's tags stay; with no number or a rank out of range, nothing changes; the key order and key set stay as they were; the index is untouched and stays valid |
| Viewer.RemoveTagOrNote | script.js:462-476 | a blank text or no current unit changes nothing; validity is kept |
| Viewer.AddThenRemoveTag | script.js:438-501 | adding a tag the current unit lacks and then removing the same text restores the session exactly |
| Viewer.FillAndReload | script.js:741-756 | the store becomes the filled store, so existing units keep their lists and every folder name is a unit; when a name was added, the reload activates every key with the cursor at index 0; when none was missing the session is unchanged; validity is kept |
| Viewer.Badges | script.js:712-722 | one badge per tag in display order, with its count and whether the unit carries it |
| Viewer.ShowCounts | script.js:700-729 | the view shows the unit's notes; each badge is a tag, never a note, counted over every occurrence among the active units and marked exactly when the unit carries it |
| Viewer.ShowOrder | script.js:712 | badges name distinct tags, highest count first |
| Viewer.ShowCovers | script.js:712-722 | exactly the tags carried by some active unit get a badge |

Some operations carry no contract of their own; the lemmas and actions
above state what they do. `Tags.BuildIndex` is described by
`Tags.BuildIndexMatchesReference`, `Tags.BuildIndexOrder`,
`Tags.BuildIndexSpec` and `Tags.CountOfIndex`. `Labels.RemoveNthNote` is
described by `Labels.RemoveNthNoteSpec` and `Labels.RemoveNthNoteAt`.
`Labels.NoteRank` is described by `Labels.NoteRankOfOrdinal` and
`Labels.NoteRankNeedsDigits`. `Query.Start` is described by
`Query.ApplyQuery`, `Query.StartOrder` and `Query.Evaluate`.
`Viewer.Activate` is described by `Viewer.Search`, which states the session
it produces. `Viewer.Show` is described by `Viewer.ShowCounts`,
`Viewer.ShowOrder` and `Viewer.ShowCovers`.

## Left out

- `server.js`, `fetch` and `updateJSON`: loading and saving the JSON file are I/O. A loaded file is the `LabelStore` argument, and every save is left out.
- The DOM: the search box is a string argument and `displayCurrentUnit` is a pure `View`. The help popup, image loading and scaling, the file dropdown, file creation and keyboard handling are left out.
- `trackingTags` and its underline style: display-only.
- `listFolderNames`: never called.
- `console` logging and the `alert` text: the refused search is the `rejected` flag.
- `Object.keys` puts integer-like keys first in numeric order. The model keeps keys in insertion order.
- `activeUnitLabels` is not a separate map. It holds the same arrays as `neuronLabels`, so the model has one store. The one visible effect of that sharing is the double removal under "## Findings".
- Keys that JavaScript objects inherit, such as `constructor`, are treated as absent.
- Text.ParseInt: reads only an optional sign and decimal digits. Hexadecimal prefixes and leading-whitespace skipping are not modelled. The argument is always trimmed here, so the skipping never matters.
- Viewer.FillAndReload: models `window.location.reload()` as loading the filled store. The race between the asynchronous save and the reload is left out.
- Viewer.RemoveTagOrNote: its own contract states only the no-op cases and validity. What it does otherwise is stated by `Viewer.RemoveNote` and `Viewer.RemoveTag`, which it calls.
- Viewer.Next and Viewer.Previous: the displayed `(index + 1 / total)` text is not modelled separately. `Viewer.Show` carries the same numbers.

## Findings

| source | as written | input that shows it | evidently intended | confidence | as-written member | corrected member |
|---|---|---|---|---|---|---|
| script.js:485-494 | `removeTag` removes the tag from the unit's full list and then from its active list. Both names refer to the same array, so the second `indexOf`/`splice` removes a second occurrence when there is one | a unit whose entries are `["red", "red"]`, then removing `red`: the list becomes `[]` | remove one occurrence of the tag, leaving `["red"]` | medium, not executed | Labels.RemoveTagAsWritten | Labels.RemoveFirst |

`Labels.RemoveTagAsWrittenDropsDuplicate` shows the discrepancy on that input. `Viewer.RemoveTag` uses the corrected removal. `Labels.AddThenRemove` and `Viewer.AddThenRemoveTag` prove that adding a tag and then removing it restores the list and the session.
