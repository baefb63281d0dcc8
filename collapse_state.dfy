/** The sidebar's collapse state and what the rendered queue shows with it.
    The state maps each deck title to the set of titles (the deck's own and
    its buckets') that are expanded; a title missing from the set is
    collapsed. */
module CollapseState {
  import opened Notes
  import opened QueueTree

  type CollapseMap = map<string, set<string>>

  /** One rendered note: hidden when its deck or bucket is collapsed, unless
      it is the open note. */
  datatype FileView = FileView(note: Note, active: bool, hidden: bool)

  /** One rendered bucket: hidden when its deck is collapsed, unless it holds
      the open note. */
  datatype FolderView = FolderView(title: string, collapsed: bool, active: bool, hidden: bool, files: seq<FileView>)

  /** One rendered deck. */
  datatype DeckView = DeckView(title: string, collapsed: bool, active: bool, hidden: bool, folders: seq<FolderView>)

  // ------------------------------------------------------------------ seeding

  /** A deck met for the first time starts with its own title and "Today"
      expanded; a deck already in the state keeps its set. */
  function Seeded(state: CollapseMap, title: string, today: string): (r: CollapseMap)
    ensures r.Keys == state.Keys + {title}
    ensures title in state ==> r == state
    ensures title !in state ==> r[title] == {title, today}
    ensures forall k :: k in state ==> k in r && r[k] == state[k]
  {
    if title in state then state else state[title := {title, today}]
  }

  /** The names a plain script object inherits: looking one of them up in
      the state finds a value even before any deck of that title was met. */
  const InheritedKeys: set<string> := {
    "constructor", "toString", "toLocaleString", "valueOf", "hasOwnProperty",
    "isPrototypeOf", "propertyIsEnumerable", "__proto__", "__defineGetter__",
    "__defineSetter__", "__lookupGetter__", "__lookupSetter__"}

  /** Seeding as the source's object lookup does it: an inherited name counts
      as present, is not seeded, and reading its set then fails (None), so
      the whole redraw fails. */
  function SeededAsWritten(state: CollapseMap, title: string, today: string): (r: Option<CollapseMap>)
    ensures title !in InheritedKeys || title in state ==> r == Some(Seeded(state, title, today))
  {
    if title in state then Some(state)
    else if title in InheritedKeys then None
    else Some(state[title := {title, today}])
  }

  /** A deck whose title is an inherited name, met for the first time, makes
      the redraw fail; "constructor" is one such title. */
  lemma InheritedTitleFails(state: CollapseMap, title: string, today: string)
    requires title in InheritedKeys && title !in state
    ensures SeededAsWritten(state, title, today) == None
    ensures SeededAsWritten(map[], "constructor", today) == None
    ensures Seeded(map[], "constructor", today)["constructor"] == {"constructor", today}
  {
  }

  function Titles(tree: seq<DeckNode>): (ts: set<string>)
    ensures forall i :: 0 <= i < |tree| ==> tree[i].title in ts
    ensures forall t :: t in ts ==> exists i :: 0 <= i < |tree| && tree[i].title == t
  {
    set i | 0 <= i < |tree| :: tree[i].title
  }

  /** The state after every deck of the tree has been met, in order. */
  function SeedDecks(state: CollapseMap, tree: seq<DeckNode>, today: string): CollapseMap
    decreases |tree|
  {
    if tree == [] then state
    else Seeded(SeedDecks(state, tree[..|tree| - 1], today), tree[|tree| - 1].title, today)
  }

  /** Seeding never overwrites a deck's set, adds exactly the decks met, and
      gives a deck met for the first time its own title and "Today". */
  lemma {:induction false} SeedDecksSpec(state: CollapseMap, tree: seq<DeckNode>, today: string)
    ensures SeedDecks(state, tree, today).Keys == state.Keys + Titles(tree)
    ensures forall k :: k in state ==> SeedDecks(state, tree, today)[k] == state[k]
    ensures forall k :: k in Titles(tree) && k !in state ==> SeedDecks(state, tree, today)[k] == {k, today}
    decreases |tree|
  {
    if tree != [] {
      var n := |tree| - 1;
      SeedDecksSpec(state, tree[..n], today);
      TitlesSnoc(tree);
    }
  }

  lemma TitlesSnoc(tree: seq<DeckNode>)
    requires tree != []
    ensures Titles(tree) == Titles(tree[..|tree| - 1]) + {tree[|tree| - 1].title}
  {
    var n := |tree| - 1;
    forall t | t in Titles(tree)
      ensures t in Titles(tree[..n]) + {tree[n].title}
    {
      var i :| 0 <= i < |tree| && tree[i].title == t;
      if i < n {
        assert tree[..n][i].title == t;
      }
    }
  }

  lemma SeedDecksStep(state: CollapseMap, tree: seq<DeckNode>, i: nat, today: string)
    requires i < |tree|
    ensures SeedDecks(state, tree[..i + 1], today) == Seeded(SeedDecks(state, tree[..i], today), tree[i].title, today)
  {
    assert tree[..i + 1][..i] == tree[..i];
  }

  /** Rebuilding with the same decks leaves the state as it is. */
  lemma SeedDecksIdempotent(state: CollapseMap, tree: seq<DeckNode>, today: string)
    ensures SeedDecks(SeedDecks(state, tree, today), tree, today) == SeedDecks(state, tree, today)
  {
    var once := SeedDecks(state, tree, today);
    SeedDecksSpec(state, tree, today);
    SeedDecksSpec(once, tree, today);
  }

  // ----------------------------------------------------------------- toggling

  /** A click on a title: it was collapsed, so it becomes expanded (added),
      or it was expanded, so it becomes collapsed (removed). */
  function Toggled(expanded: set<string>, title: string, collapsed: bool): (r: set<string>)
    ensures title in r <==> collapsed
    ensures forall t :: t != title ==> (t in r <==> t in expanded)
  {
    if collapsed then expanded + {title} else expanded - {title}
  }

  /** When the click reads the collapsed flag the title was rendered with,
      the title's membership flips; a second click restores the set. */
  lemma ToggleFlips(expanded: set<string>, title: string)
    ensures var once := Toggled(expanded, title, title !in expanded);
      (title in once <==> title !in expanded) &&
      Toggled(once, title, title !in once) == expanded
  {
  }

  // ---------------------------------------------------------------- rendering

  function FileViewOf(n: NoteNode, parentCollapsed: bool): FileView
  {
    FileView(n.note, n.active, parentCollapsed && !n.active)
  }

  function FolderViewOf(f: FolderNode, expanded: set<string>, deckCollapsed: bool): FolderView
  {
    var collapsed := f.title !in expanded;
    FolderView(f.title, collapsed, f.active, deckCollapsed && !f.active,
      seq(|f.notes|, j requires 0 <= j < |f.notes| => FileViewOf(f.notes[j], deckCollapsed || collapsed)))
  }

  /** A deck is rendered never hidden; its buckets read its own set. */
  function DeckViewOf(d: DeckNode, expanded: set<string>): DeckView
  {
    var collapsed := d.title !in expanded;
    DeckView(d.title, collapsed, d.active, false,
      seq(|d.folders|, i requires 0 <= i < |d.folders| => FolderViewOf(d.folders[i], expanded, collapsed)))
  }

  predicate Covers(state: CollapseMap, tree: seq<DeckNode>)
  {
    forall i :: 0 <= i < |tree| ==> tree[i].title in state
  }

  /** The rendered queue: every deck with the set the state holds for it. */
  function Views(tree: seq<DeckNode>, state: CollapseMap): (vs: seq<DeckView>)
    requires Covers(state, tree)
    ensures |vs| == |tree|
  {
    seq(|tree|, i requires 0 <= i < |tree| => DeckViewOf(tree[i], state[tree[i].title]))
  }

  /** Rendering one more deck, with a state that has only gained decks. */
  lemma ViewsStep(tree: seq<DeckNode>, i: nat, before: CollapseMap, after: CollapseMap)
    requires i < |tree| && Covers(before, tree[..i]) && tree[i].title in after
    requires forall k :: k in before ==> k in after && after[k] == before[k]
    ensures Covers(after, tree[..i + 1])
    ensures Views(tree[..i + 1], after) == Views(tree[..i], before) + [DeckViewOf(tree[i], after[tree[i].title])]
  {
    assert forall j :: 0 <= j < i ==> tree[..i + 1][j] == tree[..i][j];
  }

  // --------------------------------------------------------------- properties

  /** What every rendered deck, bucket and note shows, read off the deck's
      set: a title missing from the set is collapsed; a bucket is hidden iff
      its deck is collapsed and it is not active; a note is hidden iff its
      deck or its bucket is collapsed and it is not the open note. */
  lemma RenderRules(tree: seq<DeckNode>, state: CollapseMap)
    requires Covers(state, tree)
    ensures forall i :: 0 <= i < |tree| ==>
      var v := Views(tree, state)[i];
      v.title == tree[i].title && v.active == tree[i].active &&
      (v.collapsed <==> tree[i].title !in state[tree[i].title]) &&
      |v.folders| == |tree[i].folders|
    ensures forall i, b :: 0 <= i < |tree| && 0 <= b < |tree[i].folders| ==>
      var expanded, f := state[tree[i].title], tree[i].folders[b];
      var fv := Views(tree, state)[i].folders[b];
      fv.title == f.title && fv.active == f.active && |fv.files| == |f.notes| &&
      (fv.collapsed <==> f.title !in expanded) &&
      (fv.hidden <==> tree[i].title !in expanded && !f.active)
    ensures forall i, b, j ::
      (0 <= i < |tree| && 0 <= b < |tree[i].folders| && 0 <= j < |tree[i].folders[b].notes|) ==>
      var expanded, f := state[tree[i].title], tree[i].folders[b];
      var file := Views(tree, state)[i].folders[b].files[j];
      file.note == f.notes[j].note && file.active == f.notes[j].active &&
      (file.hidden <==> (tree[i].title !in expanded || f.title !in expanded) && !f.notes[j].active)
  {
  }

  /** The open note and the buckets and decks holding it are never hidden. */
  lemma ActiveNeverHidden(tree: seq<DeckNode>, state: CollapseMap)
    requires Covers(state, tree)
    ensures forall i :: 0 <= i < |tree| ==> !Views(tree, state)[i].hidden
    ensures forall i, b :: 0 <= i < |tree| && 0 <= b < |tree[i].folders| && tree[i].folders[b].active ==>
      !Views(tree, state)[i].folders[b].hidden
    ensures forall i, b, j ::
      (0 <= i < |tree| && 0 <= b < |tree[i].folders| && 0 <= j < |tree[i].folders[b].notes| &&
       tree[i].folders[b].notes[j].active) ==>
      !Views(tree, state)[i].folders[b].files[j].hidden
  {
  }

  /** Buckets of one deck that share a title share their collapsed state. */
  lemma SameTitleSameState(d: DeckNode, expanded: set<string>, b: nat, c: nat)
    requires b < |d.folders| && c < |d.folders| && d.folders[b].title == d.folders[c].title
    ensures DeckViewOf(d, expanded).folders[b].collapsed == DeckViewOf(d, expanded).folders[c].collapsed
  {
  }

  /** On its first render a deck is expanded, and so are its "Today" buckets;
      every other bucket is collapsed unless it bears the deck's own title. */
  lemma FirstRender(state: CollapseMap, tree: seq<DeckNode>, today: string, i: nat)
    requires i < |tree| && tree[i].title !in state
    ensures var seeded := SeedDecks(state, tree, today);
      Covers(seeded, tree) &&
      !Views(tree, seeded)[i].collapsed &&
      forall b :: 0 <= b < |tree[i].folders| ==>
        (Views(tree, seeded)[i].folders[b].collapsed <==>
          tree[i].folders[b].title != today && tree[i].folders[b].title != tree[i].title)
  {
    SeedDecksSpec(state, tree, today);
  }

  /** A deck already in the state renders with the set it had. */
  lemma StatePersists(state: CollapseMap, tree: seq<DeckNode>, today: string, i: nat)
    requires i < |tree| && tree[i].title in state
    ensures var seeded := SeedDecks(state, tree, today);
      Covers(seeded, tree) && Views(tree, seeded)[i] == DeckViewOf(tree[i], state[tree[i].title])
  {
    SeedDecksSpec(state, tree, today);
  }

  /** A click on a bucket flips the collapsed flag of every bucket of the
      deck with that title and no other. */
  lemma ToggleFlipsBuckets(d: DeckNode, expanded: set<string>, b: nat)
    requires b < |d.folders|
    ensures var title := d.folders[b].title;
      var before := DeckViewOf(d, expanded);
      var after := DeckViewOf(d, Toggled(expanded, title, before.folders[b].collapsed));
      forall c :: 0 <= c < |d.folders| ==>
        (after.folders[c].collapsed <==>
          if d.folders[c].title == title then !before.folders[c].collapsed else before.folders[c].collapsed)
  {
  }
}
