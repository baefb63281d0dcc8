# Review queue: deck sorting, queue tree and collapse state

This project is a Dafny model of the review-queue core of the
obsidian-incremental-writing plugin. It has three parts.

- **`ReviewDeck.sortNotes`** orders a deck's new notes by importance score and
  its scheduled notes by due time, then by score. A missing score counts as 0.
- **The queue tree of `ReviewQueueListView.redraw`** has three levels: deck, then
  bucket, then note. The "New" bucket comes first. The scheduled notes are then
  grouped into buckets in one pass, with a cursor on the due time. A bucket opens
  whenever the exact due time changes. Its title is Yesterday, Today, Tomorrow or a
  formatted date, chosen by the number of days ahead. The pass stops at the first
  due time beyond the look-ahead window. A bucket or deck is active when it holds
  the open note.
- **The collapse state** maps each deck title to the set of expanded titles. A
  deck's set is seeded with its own title and "Today" the first time the deck is
  rendered. A click adds or removes a title. That state decides what is collapsed
  and what is hidden.

Modules, one file each:

| file | module | what it holds |
|---|---|---|
| `notes.dfy` | `Notes` | notes, scheduled entries, importance scores |
| `sorting.dfy` | `Sorting` | the host's comparator sort, as a stable insertion sort, with its properties |
| `review_deck.dfy` | `Decks` | the two comparators and class `ReviewDeck` |
| `queue_tree.dfy` | `QueueTree` | the tree as a value of the decks, used as the reference the imperative build is proved against |
| `collapse_state.dfy` | `CollapseState` | seeding, toggling and the rendered views as values |
| `sidebar.dfy` | `Sidebar` | class `ReviewQueueListView`: the tree-building loops, rendering, toggle, redraw |

## How the reference and the loops connect

Two definitions describe the scheduled buckets.

- `QueueTree.ScheduledFolders` is the reference. It keeps the scheduled notes
  before `Cutoff`, the first one beyond the window. It cuts those notes into
  maximal runs of equal due time (`Runs`) and makes one bucket per run.
- `QueueTree.ScanBuckets` follows the source's single pass. The loop in
  `Sidebar.ReviewQueueListView.BuildScheduledFolders` keeps
  `folders == ScanBuckets(s, i, env)` as its invariant.

`ScanBucketsAreRuns` and `ScanStopsAtCutoff` prove the two equal, so every method
is specified with the reference functions. Rendering works the same way:
`CollapseState.Views` and `SeedDecks` are the references, and `Render`,
`RenderDeck` and `RenderFolder` are proved equal to them.

## Parameters

These values come from the host and are taken as parameters (`QueueTree.Env`):

- the open note;
- the clock, `now` in milliseconds;
- the look-ahead setting;
- the localised labels (New, Yesterday, Today, Tomorrow);
- the calendar-date formatter.

The deck keys are given in the order `for..in` visits them.

## Model

| member | source | states |
|---|---|---|
| Sorting.Insert | src/ReviewDeck.ts:17-19 | inserting adds exactly one occurrence of the element (the multiset grows by it) |
| Sorting.Sort | src/ReviewDeck.ts:17-28 | sorting is a permutation: the multiset of elements is unchanged |
| Sorting.InsertPrecedes | src/ReviewDeck.ts:17-28 | an element that may go before x and before all of t may go before all of Insert(x, t) |
| Sorting.InsertSorted | src/ReviewDeck.ts:17-28 | for a total, transitive comparator, inserting into a sorted sequence keeps it sorted |
| Sorting.SortSorted | src/ReviewDeck.ts:17-28 | for a total, transitive comparator, the result is sorted |
| Sorting.SortKeepsSorted | src/ReviewDeck.ts:17-28 | an already sorted sequence comes back unchanged |
| Sorting.SortIdempotent | src/ReviewDeck.ts:17-28 | sorting twice gives the same as sorting once |
| Decks.NewNotesCmp | src/ReviewDeck.ts:18 | the new-note comparator is "<= 0" (and "< 0") exactly when the first score is at most (below) the second |
| Decks.ScheduledCmp | src/ReviewDeck.ts:22-28 | the scheduled comparator is "<= 0" (and "< 0") exactly for the lexicographic order on (due time, score) |
| Decks.NewNotesCmpIsComparator | src/ReviewDeck.ts:18 | the new-note comparator is total and transitive |
| Decks.ScheduledCmpIsComparator | src/ReviewDeck.ts:22-28 | the scheduled comparator is total and transitive |
| Decks.NewNotesSortedIsOrdered | src/ReviewDeck.ts:17-19 | sorted by the new-note comparator iff non-decreasing in score |
| Decks.ScheduledSortedIsOrdered | src/ReviewDeck.ts:22-28 | sorted by the scheduled comparator iff ordered by (due time, score); that order is non-decreasing in due time |
| Decks.SortNewNotes | src/ReviewDeck.ts:17-19 | the sorted new notes are non-decreasing in score; an ordered pool is left unchanged; a note without a score sorts as score 0, so it follows only ranked notes scored at most 0 and precedes only ranked notes scored at least 0 |
| Decks.SortScheduledNotes | src/ReviewDeck.ts:22-28 | the sorted scheduled notes are ordered by (due time, score) and by due time; an ordered pool is left unchanged |
| Decks.SortNewNotesSample | src/ReviewDeck.ts:17-19 | notes scored 5, 1, 3 come out in the order 1, 3, 5 |
| Decks.ReviewDeck.constructor | src/ReviewDeck.ts:6-13 | a new deck has the given name, empty pools and a due count of 0 |
| Decks.ReviewDeck.SortNotes | src/ReviewDeck.ts:15-29 | both pools become their sorts; each keeps its multiset; they end ordered by score and by (due time, score); name and due count are unchanged; ordered pools stay as they were |
| QueueTree.DaysBounds | src/gui/sidebar.ts:74 | the day count is the ceiling of the distance to due time in days: (days-1)·day < due-now <= days·day |
| QueueTree.DaysMonotone | src/gui/sidebar.ts:74 | a later due time is never fewer days ahead |
| QueueTree.BucketTitle | src/gui/sidebar.ts:80-88 | due within (-2, -1] days gives Yesterday, (-1, 0] Today, (0, 1] Tomorrow, anything else the formatted date of the due time |
| QueueTree.Cutoff | src/gui/sidebar.ts:71-78 | every note before the cutoff lies in the window and the note at the cutoff (if any) lies beyond it |
| QueueTree.CutoffAt | src/gui/sidebar.ts:76-78 | a pass that stopped at i, after i notes in the window, stopped at the cutoff |
| QueueTree.OrderedCutoff | src/gui/sidebar.ts:71-78 | on a pool ordered by due time, a note comes before the cutoff iff it lies in the window |
| QueueTree.RunEnd | src/gui/sidebar.ts:73 | the notes from i up to the run end share the first note's due time, and the note at the run end does not |
| QueueTree.Runs | src/gui/sidebar.ts:71-93 | every run is non-empty |
| QueueTree.RunsFlatten | src/gui/sidebar.ts:71-105 | the runs joined give back the notes, in order |
| QueueTree.RunsUniform | src/gui/sidebar.ts:73 | all notes of a run have the same due time |
| QueueTree.RunsMaximal | src/gui/sidebar.ts:73 | neighbouring runs differ in due time, so a run opens exactly where the due time changes |
| QueueTree.OrderedRunsAscend | src/gui/sidebar.ts:71-93 | on a pool ordered by due time the runs come in strictly ascending due time |
| QueueTree.RunsSnoc | src/gui/sidebar.ts:73-93 | one more note extends the last run when it is due at the same time, and opens a new run otherwise |
| QueueTree.NoteNodes | src/gui/sidebar.ts:55 | one node per note |
| QueueTree.AnyFolderActiveExists | src/gui/sidebar.ts:57-62 | a bucket list is active iff one of its buckets is |
| QueueTree.Tree | src/gui/sidebar.ts:47-49 | one deck node per deck key, in key order, titled with the key |
| QueueTree.FolderSnoc | src/gui/sidebar.ts:54-62 | adding a note to a bucket appends its node and makes the bucket active iff it was or the note is the open one |
| QueueTree.BucketSnoc | src/gui/sidebar.ts:94-104 | adding a note to a run adds its node to the run's bucket in the same way |
| QueueTree.AnyFolderActiveAppend | src/gui/sidebar.ts:57-62 | a joined bucket list is active iff one of its parts is |
| QueueTree.DeckTreeOfParts | src/gui/sidebar.ts:48-106 | a deck node is the New bucket list followed by the scheduled buckets, active iff one of the two parts is |
| QueueTree.BucketsUpToOpen | src/gui/sidebar.ts:73-93 | a note due at a different time from its predecessor adds a new bucket holding just that note |
| QueueTree.BucketsUpToExtend | src/gui/sidebar.ts:94-104 | a note due at the same time as its predecessor joins the last bucket |
| QueueTree.ScanBuckets | src/gui/sidebar.ts:71-105 | the pass has at least one bucket after its first note |
| QueueTree.ScanBucketsAreRuns | src/gui/sidebar.ts:71-105 | the pass with its due-time cursor builds exactly one bucket per maximal run; its two steps, `ScanOpen` (a new due time opens a bucket) and `ScanJoin` (a repeated one joins the last bucket), are what the loop takes |
| QueueTree.ScanStopsAtCutoff | src/gui/sidebar.ts:71-105 | a pass stopped at the first note beyond the window has built the scheduled buckets; its active flag is "a visible note is the open one" |
| QueueTree.ActiveUpToHolds | src/gui/sidebar.ts:94-104 | the running active flag after i notes is true iff one of them is the open note |
| QueueTree.HoldsActiveAppend | src/gui/sidebar.ts:94-104 | joined note lists hold the open note iff one part does |
| QueueTree.BucketActive | src/gui/sidebar.ts:94-104 | a bucket is active iff its run holds the open note |
| QueueTree.BucketsActive | src/gui/sidebar.ts:94-104 | the buckets of runs hold an active bucket iff the joined runs hold the open note |
| QueueTree.ScheduledFoldersActive | src/gui/sidebar.ts:94-104 | the scheduled buckets hold an active bucket iff a visible scheduled note is the open note |
| QueueTree.FlattenNotesAppend | src/gui/sidebar.ts:51-105 | the notes of joined bucket lists are the joined notes |
| QueueTree.BucketsHoldRuns | src/gui/sidebar.ts:94-98 | the buckets of runs hold the runs' notes, in order |
| QueueTree.ScheduledFoldersHoldVisible | src/gui/sidebar.ts:71-105 | the scheduled buckets hold exactly the scheduled notes before the cutoff, in pool order |
| QueueTree.DeckNotesInOrder | src/gui/sidebar.ts:51-105 | a deck's buckets hold its new notes, then its visible scheduled notes, in order |
| QueueTree.NewBucketFirst | src/gui/sidebar.ts:51-56 | with new notes, the first bucket is "New" and holds them all, and the scheduled buckets follow; without new notes, there are only the scheduled buckets |
| QueueTree.DeckActiveIff | src/gui/sidebar.ts:51-104 | a deck is active iff one of its new notes or one of its visible scheduled notes is the open note |
| QueueTree.SameDayTwoBuckets | src/gui/sidebar.ts:73-93 | one note due 1 ms ago and one due now, both within (−1, 0] days, give two buckets both titled Today |
| CollapseState.Seeded | src/gui/sidebar.ts:113-115 | a deck met for the first time gets {its title, Today}; every existing entry is kept |
| CollapseState.SeededAsWritten | src/gui/sidebar.ts:112-116 | the source's object lookup agrees with `Seeded` for every title that is not an inherited object name, or that is already in the state |
| CollapseState.InheritedTitleFails | src/gui/sidebar.ts:112-116 | a first-met deck whose title is an inherited name such as "constructor" is not seeded and makes the redraw fail, where `Seeded` gives it {its title, Today} |
| CollapseState.SeedDecksSpec | src/gui/sidebar.ts:112-116 | after rendering, the state has the old decks plus the tree's; old sets are unchanged; new decks have {title, Today} |
| CollapseState.SeedDecksIdempotent | src/gui/sidebar.ts:112-116 | rendering the same decks again leaves the state as it is |
| CollapseState.Toggled | src/gui/sidebar.ts:183-190 | after a click the title is expanded iff it was shown collapsed; every other title is unchanged |
| CollapseState.ToggleFlips | src/gui/sidebar.ts:183-190 | a click on a title flips whether it is expanded, and a second click restores the set |
| CollapseState.RenderRules | src/gui/sidebar.ts:116-146 | in every rendered deck: the deck is collapsed iff its title is missing from its set; a bucket is collapsed iff its title is missing from that set, and hidden iff the deck is collapsed and the bucket is not active; a note is hidden iff the deck's or the bucket's title is missing from the set and the note is not the open one; titles, active flags and counts are the tree's |
| CollapseState.Views | src/gui/sidebar.ts:112-147 | one view per deck |
| CollapseState.ViewsStep | src/gui/sidebar.ts:112-147 | rendering one more deck with a state that only gained decks extends the views by that deck's view |
| CollapseState.ActiveNeverHidden | src/gui/sidebar.ts:179-181 | no deck is hidden, and an active bucket or note is never hidden |
| CollapseState.SameTitleSameState | src/gui/sidebar.ts:131 | two buckets of a deck with the same title are both collapsed or both expanded |
| CollapseState.FirstRender | src/gui/sidebar.ts:113-131 | on a deck's first render the deck is expanded, and a bucket is collapsed iff its title is neither Today nor the deck's title |
| CollapseState.StatePersists | src/gui/sidebar.ts:113-117 | a deck already in the state renders with the set it had |
| CollapseState.ToggleFlipsBuckets | src/gui/sidebar.ts:183-191 | a click on a bucket flips the collapsed flag of every bucket of that deck with that title, and of no other |
| Sidebar.Entries | src/gui/sidebar.ts:47-50 | one entry per deck key |
| Sidebar.ReviewQueueListView.constructor | src/gui/sidebar.ts:12 | the collapse state starts empty |
| Sidebar.ReviewQueueListView.Redraw | src/gui/sidebar.ts:44-147 | the state becomes the seeded state of the tree built from the decks, and the result is that tree's views under it |
| Sidebar.ReviewQueueListView.BuildTree | src/gui/sidebar.ts:46-107 | the tree built is the reference tree of the decks in key order |
| Sidebar.ReviewQueueListView.BuildDeckNode | src/gui/sidebar.ts:48-106 | a deck's node is its reference subtree |
| Sidebar.ReviewQueueListView.PushNote | src/gui/sidebar.ts:94-104 | the note's node is appended and the bucket and deck flags become set when the note is the open one |
| Sidebar.ReviewQueueListView.BuildNewFolder | src/gui/sidebar.ts:51-64 | the New bucket holds the new notes and the deck flag is set iff the bucket is active |
| Sidebar.ReviewQueueListView.TitleFor | src/gui/sidebar.ts:80-88 | the title chosen from the day count is the bucket title of the due time |
| Sidebar.ReviewQueueListView.BuildScheduledFolders | src/gui/sidebar.ts:65-106 | the one-pass loop yields the scheduled buckets, and its deck flag says whether a visible note is the open one |
| Sidebar.ReviewQueueListView.Render | src/gui/sidebar.ts:112-147 | the state becomes the seeded state and the result is the views of the tree under it |
| Sidebar.ReviewQueueListView.RenderDeck | src/gui/sidebar.ts:116-135 | the deck is rendered as its view |
| Sidebar.ReviewQueueListView.RenderFolder | src/gui/sidebar.ts:127-146 | the bucket and its notes are rendered as its view |
| Sidebar.ReviewQueueListView.Toggle | src/gui/sidebar.ts:183-190 | only the clicked deck's set changes, and it becomes its toggle |
| Sidebar.ReviewQueueListView.OnTitleClick | src/gui/sidebar.ts:183-192 | a click toggles, then redraws: the state is the toggled state seeded by the tree, and the views are the tree's under it |

## Left out

- DOM work is left out: elements, CSS classes, the rotated collapse icon and `display: none`, and the listeners. The rendered views (`DeckView`, `FolderView`, `FileView`) stand for the flags that the DOM shows.
- Opening a note on click, the context menu, `lastSelectedReviewDeck`, the header menu and the view type, text and icon are left out. They are host calls with no queue logic.
- Toggle: the source reads the icon's rotation to decide whether to add or remove the title. That rotation was set from the collapsed flag, so the model passes that flag.
- `changeFolderIconToExpanded` is left out because it is never called.
- `ReviewDeckSelectionModal` is left out. It is a thin wrapper over the host's fuzzy-suggest dialog.
- src/settings.ts and src/icons/appicon.ts are not part of this model. They hold the settings form and a static icon; the look-ahead setting they provide is a parameter.
- Sorting.Sort: importance scores are JavaScript floating-point numbers. The model uses integers, since only their order and differences matter to the comparators.
- Sorting.Sort: `Array.prototype.sort` is modelled as a stable insertion sort. Only sortedness, permutation and leaving sorted input unchanged are proved. Stability is not stated as a lemma.
- `Date.now()` is read once per deck in the source. The model uses one `now` per redraw, which differs only if the clock ticks during a redraw.
- `new Date(...).toDateString()` and the `t(...)` label lookups are parameters (`Env.dateString`, `Env.labels`). Localisation and time zones are outside the model.
- The collapse state keys a plain object by deck title. For an inherited name such as `"constructor"`, `toString` or `__proto__`, the lookup finds a truthy value, so seeding is skipped and the `has` call on it throws, which fails the redraw. `SeededAsWritten` models that; the rest of the model uses the map-based `Seeded`, under which such a deck is seeded like any other (see Findings).
- The order of deck keys is the sequence `deckKeys`. JavaScript's own key order (integer-like keys first) is not modelled.
- The view's constructor subscribes to file-open and rename events, which trigger a redraw. That event wiring is left out. `Redraw` and `OnTitleClick` are the entry points.
- Sidebar.ReviewQueueListView.BuildDeckNode: the requirement is stated as "the first scheduled note is not due at the cursor's start value −1". The source would fail on a null bucket in that case.
- The source comment "We assume scheduledNotes is sorted" is not a requirement of the model. The pass stops at the first note beyond the window whatever the order. `OrderedCutoff` shows that on a sorted pool this keeps exactly the notes inside the window.

## Findings

| source | as written | input that shows it | evidently intended | confidence | as-written member | corrected member |
|---|---|---|---|---|---|---|
| src/gui/sidebar.ts:112-116 | the state is a plain object, so a deck title that names an inherited property counts as already seeded and its "set" has no `has` method | a first redraw with a deck titled "constructor" | every deck met for the first time is seeded with {its title, Today} | medium, not executed | CollapseState.InheritedTitleFails | CollapseState.SeedDecksSpec |
