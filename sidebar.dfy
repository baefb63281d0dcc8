/** The review-queue side pane: it builds the queue tree from the decks,
    seeds and reads the per-deck collapse state, and flips it on a click. */
module Sidebar {
  import opened Notes
  import opened Decks
  import opened QueueTree
  import opened CollapseState

  /** The decks in iteration order, as building the tree reads them. */
  function Entries(deckKeys: seq<string>, reviewDecks: map<string, ReviewDeck>): (entries: seq<DeckEntry>)
    requires forall i :: 0 <= i < |deckKeys| ==> deckKeys[i] in reviewDecks
    reads reviewDecks.Values
    ensures |entries| == |deckKeys|
  {
    seq(|deckKeys|, i requires 0 <= i < |deckKeys| reads reviewDecks.Values =>
      DeckEntry(deckKeys[i], reviewDecks[deckKeys[i]].newNotes, reviewDecks[deckKeys[i]].scheduledNotes))
  }

  /** What the source needs of the decks it iterates over: the keys are the
      map's keys, each once, and no deck's first scheduled note is due at the
      cursor's start value -1. */
  predicate DecksReady(deckKeys: seq<string>, reviewDecks: map<string, ReviewDeck>)
    reads reviewDecks.Values
  {
    (forall i :: 0 <= i < |deckKeys| ==> deckKeys[i] in reviewDecks) &&
    (forall k :: k in reviewDecks ==> k in deckKeys) &&
    (forall i, j :: 0 <= i < j < |deckKeys| ==> deckKeys[i] != deckKeys[j]) &&
    (forall k :: k in reviewDecks ==> reviewDecks[k].scheduledNotes != [] ==> reviewDecks[k].scheduledNotes[0].dueUnix != -1)
  }

  class ReviewQueueListView {
    /** Per deck title, the titles that are expanded. */
    var state: CollapseMap

    constructor ()
      ensures state == map[]
    {
      state := map[];
    }

    /** Rebuilds the queue from the decks and renders it with the collapse
        state, seeding it for decks met for the first time. */
    method Redraw(deckKeys: seq<string>, reviewDecks: map<string, ReviewDeck>, env: Env)
      returns (views: seq<DeckView>)
      requires DecksReady(deckKeys, reviewDecks)
      modifies this
      ensures var tree := Tree(Entries(deckKeys, reviewDecks), env);
        state == SeedDecks(old(state), tree, env.labels.today) &&
        Covers(state, tree) && views == Views(tree, state)
    {
      var tree := BuildTree(deckKeys, reviewDecks, env);
      views := Render(tree, env.labels.today);
    }

    /** One deck node per deck key, in iteration order. */
    method BuildTree(deckKeys: seq<string>, reviewDecks: map<string, ReviewDeck>, env: Env)
      returns (tree: seq<DeckNode>)
      requires DecksReady(deckKeys, reviewDecks)
      ensures tree == Tree(Entries(deckKeys, reviewDecks), env)
    {
      tree := [];
      var i := 0;
      while i < |deckKeys|
        invariant 0 <= i <= |deckKeys|
        invariant |tree| == i
        invariant forall j :: 0 <= j < i ==> tree[j] == DeckTree(Entries(deckKeys, reviewDecks)[j], env)
      {
        var deckKey := deckKeys[i];
        var deck := reviewDecks[deckKey];
        var deckNode := BuildDeckNode(deckKey, deck.newNotes, deck.scheduledNotes, env);
        tree := tree + [deckNode];
        i := i + 1;
      }
    }

    /** Renders the tree, seeding the state of each deck met for the first
        time with its own title and "Today". */
    method Render(tree: seq<DeckNode>, today: string) returns (views: seq<DeckView>)
      modifies this
      ensures state == SeedDecks(old(state), tree, today)
      ensures Covers(state, tree) && views == Views(tree, state)
    {
      var seeded := state;
      views := [];
      var i := 0;
      while i < |tree|
        invariant 0 <= i <= |tree|
        invariant seeded == SeedDecks(old(state), tree[..i], today)
        invariant Covers(seeded, tree[..i]) && views == Views(tree[..i], seeded)
      {
        var deckNode := tree[i];
        ghost var before := seeded;
        if deckNode.title !in seeded {
          seeded := seeded[deckNode.title := {deckNode.title, today}];
        }
        SeedDecksStep(old(state), tree, i, today);
        var deckView := RenderDeck(deckNode, seeded[deckNode.title]);
        ViewsStep(tree, i, before, seeded);
        views := views + [deckView];
        i := i + 1;
      }
      assert tree[..i] == tree;
      state := seeded;
    }

    /** A deck and its buckets, collapsed where their titles are not expanded. */
    method RenderDeck(deckNode: DeckNode, deckState: set<string>) returns (deckView: DeckView)
      ensures deckView == DeckViewOf(deckNode, deckState)
    {
      var deckCollapsed := deckNode.title !in deckState;
      var hidden := false;
      var folders: seq<FolderView> := [];
      var b := 0;
      while b < |deckNode.folders|
        invariant 0 <= b <= |deckNode.folders|
        invariant |folders| == b
        invariant forall c :: 0 <= c < b ==> folders[c] == FolderViewOf(deckNode.folders[c], deckState, deckCollapsed)
      {
        var folderView := RenderFolder(deckNode.folders[b], deckState, deckCollapsed);
        folders := folders + [folderView];
        b := b + 1;
      }
      deckView := DeckView(deckNode.title, deckCollapsed, deckNode.active, hidden && !deckNode.active, folders);
    }

    /** A bucket and its notes: the bucket is hidden when the deck is
        collapsed, a note when the deck or the bucket is, unless active. */
    method RenderFolder(folderNode: FolderNode, deckState: set<string>, deckCollapsed: bool)
      returns (folderView: FolderView)
      ensures folderView == FolderViewOf(folderNode, deckState, deckCollapsed)
    {
      var collapsed := folderNode.title !in deckState;
      var files: seq<FileView> := [];
      var j := 0;
      while j < |folderNode.notes|
        invariant 0 <= j <= |folderNode.notes|
        invariant |files| == j
        invariant forall k :: 0 <= k < j ==> files[k] == FileViewOf(folderNode.notes[k], deckCollapsed || collapsed)
      {
        var noteNode := folderNode.notes[j];
        var hidden := deckCollapsed || collapsed;
        files := files + [FileView(noteNode.note, noteNode.active, hidden && !noteNode.active)];
        j := j + 1;
      }
      folderView := FolderView(folderNode.title, collapsed, folderNode.active,
        deckCollapsed && !folderNode.active, files);
    }

    /** A click on a deck or bucket title: a collapsed title is expanded,
        an expanded one collapsed, in the set of the deck it belongs to. */
    method Toggle(deckTitle: string, folderTitle: string, collapsed: bool)
      requires deckTitle in state
      modifies this
      ensures state == old(state)[deckTitle := Toggled(old(state)[deckTitle], folderTitle, collapsed)]
    {
      var deckState := state[deckTitle];
      if collapsed {
        deckState := deckState + {folderTitle};
      } else {
        deckState := deckState - {folderTitle};
      }
      state := state[deckTitle := deckState];
    }

    /** The click handler: toggle, then redraw. */
    method OnTitleClick(deckTitle: string, folderTitle: string, collapsed: bool,
                        deckKeys: seq<string>, reviewDecks: map<string, ReviewDeck>, env: Env)
      returns (views: seq<DeckView>)
      requires deckTitle in state
      requires DecksReady(deckKeys, reviewDecks)
      modifies this
      ensures var tree := Tree(Entries(deckKeys, reviewDecks), env);
        var toggled := old(state)[deckTitle := Toggled(old(state)[deckTitle], folderTitle, collapsed)];
        state == SeedDecks(toggled, tree, env.labels.today) &&
        Covers(state, tree) && views == Views(tree, state)
    {
      Toggle(deckTitle, folderTitle, collapsed);
      views := Redraw(deckKeys, reviewDecks, env);
    }

    /** The subtree of one deck: the "New" bucket, then the scheduled buckets. */
    method BuildDeckNode(key: string, newNotes: seq<Note>, scheduledNotes: seq<SchedNote>, env: Env)
      returns (deckNode: DeckNode)
      requires scheduledNotes != [] ==> scheduledNotes[0].dueUnix != -1
      ensures deckNode == DeckTree(DeckEntry(key, newNotes, scheduledNotes), env)
    {
      var folders: seq<FolderNode> := [];
      var deckActive := false;
      if |newNotes| > 0 {
        var folderNode;
        folderNode, deckActive := BuildNewFolder(deckActive, newNotes, env);
        folders := [folderNode];
        AnyFolderActiveSnoc([], folderNode);
        assert [] + [folderNode] == [folderNode];
      }
      ghost var newPart := folders;
      var scheduledFolders: seq<FolderNode> := [];
      var scheduledActive := false;
      if |scheduledNotes| > 0 {
        scheduledFolders, scheduledActive := BuildScheduledFolders(scheduledNotes, env);
      } else {
        NoScheduledFolders(env);
      }
      folders, deckActive := folders + scheduledFolders, deckActive || scheduledActive;
      DeckTreeOfParts(DeckEntry(key, newNotes, scheduledNotes), env, newPart, scheduledFolders);
      deckNode := DeckNode(key, deckActive, folders);
    }

    /** Appends a note's node to a bucket; the first active note marks the
        bucket, and through it the deck, active. */
    method PushNote(folderNode0: FolderNode, deckActive0: bool, note: Note, activeFile: Option<Note>)
      returns (folderNode: FolderNode, deckActive: bool)
      ensures folderNode == FolderNode(folderNode0.title,
        folderNode0.notes + [NoteNode(note, IsActive(activeFile, note))],
        folderNode0.active || IsActive(activeFile, note))
      ensures deckActive == (deckActive0 || (!folderNode0.active && IsActive(activeFile, note)))
    {
      folderNode, deckActive := folderNode0, deckActive0;
      var noteNode := NoteNode(note, IsActive(activeFile, note));
      folderNode := folderNode.(notes := folderNode.notes + [noteNode]);
      if !folderNode.active && noteNode.active {
        folderNode := folderNode.(active := true);
        if !deckActive {
          deckActive := true;
        }
      }
    }

    /** The "New" bucket, filled one note at a time. */
    method BuildNewFolder(deckActive0: bool, newNotes: seq<Note>, env: Env)
      returns (folderNode: FolderNode, deckActive: bool)
      ensures folderNode == Folder(env.labels.newLabel, newNotes, env.activeFile)
      ensures deckActive == (deckActive0 || folderNode.active)
    {
      folderNode, deckActive := FolderNode(env.labels.newLabel, [], false), deckActive0;
      FolderEmpty(env.labels.newLabel, env.activeFile);
      var j := 0;
      while j < |newNotes|
        invariant 0 <= j <= |newNotes|
        invariant folderNode == Folder(env.labels.newLabel, newNotes[..j], env.activeFile)
        invariant deckActive == (deckActive0 || folderNode.active)
      {
        var note := newNotes[j];
        FolderSnoc(env.labels.newLabel, newNotes[..j], note, env.activeFile);
        assert newNotes[..j + 1] == newNotes[..j] + [note];
        folderNode, deckActive := PushNote(folderNode, deckActive, note, env.activeFile);
        j := j + 1;
      }
      assert newNotes[..j] == newNotes;
    }

    /** The title of the bucket for a due time that lies the given number
        of days ahead. */
    method TitleFor(days: int, dueUnix: int, env: Env) returns (title: string)
      requires days == Days(dueUnix, env.now)
      ensures title == BucketTitle(dueUnix, env)
    {
      DaysBounds(dueUnix, env.now);
      if days == -1 {
        title := env.labels.yesterday;
      } else if days == 0 {
        title := env.labels.today;
      } else if days == 1 {
        title := env.labels.tomorrow;
      } else {
        title := env.dateString(dueUnix);
      }
    }

    /** The scheduled buckets, in one pass with a cursor on the due time:
        a bucket opens whenever the due time changes, and the pass stops at
        the first due time beyond the look-ahead window. */
    method BuildScheduledFolders(s: seq<SchedNote>, env: Env)
      returns (folders: seq<FolderNode>, deckActive: bool)
      requires s != [] ==> s[0].dueUnix != -1
      ensures folders == ScheduledFolders(s, env)
      ensures deckActive == AnyFolderActive(folders)
      ensures deckActive == HoldsActive(Visible(s, env), env.activeFile)
    {
      folders, deckActive := [], false;
      var currUnix := -1;
      var folderTitle := "";
      var i := 0;
      while i < |s|
        invariant 0 <= i <= |s|
        invariant forall j :: 0 <= j < i ==> InWindow(s[j], env)
        invariant currUnix == if i == 0 then -1 else s[i - 1].dueUnix
        invariant folders == ScanBuckets(s, i, env)
        invariant deckActive == ActiveUpTo(s, i, env.activeFile)
        invariant folders != [] && folders[|folders| - 1].active ==> deckActive
      {
        var note := s[i];
        ghost var startsBucket := note.dueUnix != currUnix;
        ghost var prev := folders;
        if note.dueUnix != currUnix {
          var days := Days(note.dueUnix, env.now);
          if days > env.maxDays {
            break;
          }
          folderTitle := TitleFor(days, note.dueUnix, env);
          folders := folders + [FolderNode(folderTitle, [], false)];
          currUnix := note.dueUnix;
        }
        var folderNode;
        folderNode, deckActive := PushNote(folders[|folders| - 1], deckActive, note.note, env.activeFile);
        folders := folders[|folders| - 1 := folderNode];
        if startsBucket {
          ScanOpen(s, i, env);
          var nn := NoteNode(note.note, IsActive(env.activeFile, note.note));
          assert [] + [nn] == [nn];
          SnocThenSet(prev, FolderNode(folderTitle, [], false), folderNode);
        } else {
          ScanJoin(s, i, env);
        }
        i := i + 1;
      }
      ScanStopsAtCutoff(s, i, env);
    }
  }
}
