/** The review-queue tree (deck, then bucket, then note) that the sidebar
    shows, defined as a value of the decks it is built from. */
module QueueTree {
  import opened Notes
  import opened Decks

  const MillisPerDay: int := 24 * 3600 * 1000

  /** The localised bucket labels. */
  datatype Labels = Labels(newLabel: string, yesterday: string, today: string, tomorrow: string)

  /** What building the tree reads from the host: the open note, the clock,
      the look-ahead setting, the labels and the calendar-date formatter. */
  datatype Env = Env(
    activeFile: Option<Note>,
    now: int,
    maxDays: int,
    labels: Labels,
    dateString: int -> string)

  datatype NoteNode = NoteNode(note: Note, active: bool)
  datatype FolderNode = FolderNode(title: string, notes: seq<NoteNode>, active: bool)
  datatype DeckNode = DeckNode(title: string, active: bool, folders: seq<FolderNode>)

  /** What building one deck's subtree reads from the deck: its key and its pools. */
  datatype DeckEntry = DeckEntry(key: string, newNotes: seq<Note>, scheduledNotes: seq<SchedNote>)

  // ---------------------------------------------------------------- days

  /** The number of days from now to dueUnix, rounded up. */
  function Days(dueUnix: int, now: int): int
  {
    -((now - dueUnix) / MillisPerDay)
  }

  /** Days is the ceiling of the distance in days. */
  lemma DaysBounds(dueUnix: int, now: int)
    ensures (Days(dueUnix, now) - 1) * MillisPerDay < dueUnix - now <= Days(dueUnix, now) * MillisPerDay
  {
  }

  lemma DaysMonotone(a: int, b: int, now: int)
    requires a <= b
    ensures Days(a, now) <= Days(b, now)
  {
    DaysBounds(a, now);
    DaysBounds(b, now);
  }

  /** A note due within the look-ahead window. */
  predicate InWindow(n: SchedNote, env: Env)
  {
    Days(n.dueUnix, env.now) <= env.maxDays
  }

  /** The title of the bucket that opens at dueUnix. */
  function BucketTitle(dueUnix: int, env: Env): (title: string)
    ensures -2 * MillisPerDay < dueUnix - env.now <= -MillisPerDay ==> title == env.labels.yesterday
    ensures -MillisPerDay < dueUnix - env.now <= 0 ==> title == env.labels.today
    ensures 0 < dueUnix - env.now <= MillisPerDay ==> title == env.labels.tomorrow
    ensures dueUnix - env.now <= -2 * MillisPerDay || MillisPerDay < dueUnix - env.now ==>
      title == env.dateString(dueUnix)
  {
    DaysBounds(dueUnix, env.now);
    var days := Days(dueUnix, env.now);
    if days == -1 then env.labels.yesterday
    else if days == 0 then env.labels.today
    else if days == 1 then env.labels.tomorrow
    else env.dateString(dueUnix)
  }

  // ------------------------------------------------------------ look-ahead

  /** The index of the first scheduled note that lies beyond the look-ahead
      window, or |s| if there is none. */
  function Cutoff(s: seq<SchedNote>, env: Env): (c: nat)
    ensures c <= |s|
    ensures forall j :: 0 <= j < c ==> Days(s[j].dueUnix, env.now) <= env.maxDays
    ensures c < |s| ==> Days(s[c].dueUnix, env.now) > env.maxDays
  {
    if s == [] || Days(s[0].dueUnix, env.now) > env.maxDays then 0
    else
      var c := 1 + Cutoff(s[1..], env);
      assert forall j :: 1 <= j < c ==> s[j] == s[1..][j - 1];
      c
  }

  /** Cutoff is the first index beyond the window. */
  lemma CutoffAt(s: seq<SchedNote>, i: nat, env: Env)
    requires i <= |s|
    requires forall j :: 0 <= j < i ==> InWindow(s[j], env)
    requires i < |s| ==> !InWindow(s[i], env)
    ensures Cutoff(s, env) == i
    ensures ScheduledFolders(s, env) == BucketsUpTo(s, i, env)
  {
  }

  /** The scheduled notes the tree shows. */
  function Visible(s: seq<SchedNote>, env: Env): seq<SchedNote>
  {
    s[..Cutoff(s, env)]
  }

  /** On a pool ordered by due time, stopping at the first note beyond the
      window keeps exactly the notes inside the window. */
  lemma OrderedCutoff(s: seq<SchedNote>, env: Env)
    requires DueOrdered(s)
    ensures forall j :: 0 <= j < |s| ==>
      (j < Cutoff(s, env) <==> Days(s[j].dueUnix, env.now) <= env.maxDays)
  {
    var c := Cutoff(s, env);
    forall j | c <= j < |s|
      ensures Days(s[j].dueUnix, env.now) > env.maxDays
    {
      DaysMonotone(s[c].dueUnix, s[j].dueUnix, env.now);
    }
  }

  // ------------------------------------------------------------------ runs

  /** The end of the run of notes due at the same time as s[0], searching from i. */
  function RunEnd(s: seq<SchedNote>, i: nat): (k: nat)
    requires 0 < i <= |s|
    ensures i <= k <= |s|
    ensures forall j :: i <= j < k ==> s[j].dueUnix == s[0].dueUnix
    ensures k < |s| ==> s[k].dueUnix != s[0].dueUnix
    decreases |s| - i
  {
    if i == |s| || s[i].dueUnix != s[0].dueUnix then i else RunEnd(s, i + 1)
  }

  /** s cut into maximal runs of notes due at the same time. */
  function Runs(s: seq<SchedNote>): (rs: seq<seq<SchedNote>>)
    ensures forall b :: 0 <= b < |rs| ==> rs[b] != []
    decreases |s|
  {
    if s == [] then []
    else
      var k := RunEnd(s, 1);
      [s[..k]] + Runs(s[k..])
  }

  function Flatten<T>(rs: seq<seq<T>>): seq<T>
  {
    if rs == [] then [] else rs[0] + Flatten(rs[1..])
  }

  /** The runs, joined, give back s. */
  lemma {:induction false} RunsFlatten(s: seq<SchedNote>)
    ensures Flatten(Runs(s)) == s
    decreases |s|
  {
    if s != [] {
      var k := RunEnd(s, 1);
      RunsFlatten(s[k..]);
      assert Runs(s)[1..] == Runs(s[k..]);
      assert s == s[..k] + s[k..];
    }
  }

  /** All notes of a run are due at the same time. */
  lemma {:induction false} RunsUniform(s: seq<SchedNote>)
    ensures forall b, j :: 0 <= b < |Runs(s)| && 0 <= j < |Runs(s)[b]| ==>
      Runs(s)[b][j].dueUnix == Runs(s)[b][0].dueUnix
    decreases |s|
  {
    if s != [] {
      var k := RunEnd(s, 1);
      RunsUniform(s[k..]);
      assert forall b :: 1 <= b < |Runs(s)| ==> Runs(s)[b] == Runs(s[k..])[b - 1];
    }
  }

  /** Neighbouring runs are due at different times: a new run opens exactly
      where the due time changes. */
  lemma {:induction false} RunsMaximal(s: seq<SchedNote>)
    ensures forall b :: 0 < b < |Runs(s)| ==>
      Runs(s)[b][0].dueUnix != Runs(s)[b - 1][|Runs(s)[b - 1]| - 1].dueUnix
    decreases |s|
  {
    if s != [] {
      var k := RunEnd(s, 1);
      RunsMaximal(s[k..]);
      var rs, tail := Runs(s), Runs(s[k..]);
      assert forall b :: 1 <= b < |rs| ==> rs[b] == tail[b - 1];
      if k < |s| {
        var rest := s[k..];
        assert tail[0] == rest[..RunEnd(rest, 1)];
        assert rs[1][0] == s[k];
      }
    }
  }

  /** On a pool ordered by due time the runs come in strictly ascending due time. */
  lemma {:induction false} OrderedRunsAscend(s: seq<SchedNote>)
    requires DueOrdered(s)
    ensures s != [] ==> forall b :: 0 <= b < |Runs(s)| ==> Runs(s)[b][0].dueUnix >= s[0].dueUnix
    ensures forall b, c :: 0 <= b < c < |Runs(s)| ==> Runs(s)[b][0].dueUnix < Runs(s)[c][0].dueUnix
    decreases |s|
  {
    if s != [] {
      var k := RunEnd(s, 1);
      var rest := s[k..];
      assert DueOrdered(rest) by {
        forall i, j | 0 <= i < j < |rest|
          ensures rest[i].dueUnix <= rest[j].dueUnix
        {
          assert rest[i] == s[k + i] && rest[j] == s[k + j];
        }
      }
      OrderedRunsAscend(rest);
      var rs, tail := Runs(s), Runs(rest);
      assert forall b :: 1 <= b < |rs| ==> rs[b] == tail[b - 1];
      assert rs[0][0] == s[0];
      if k < |s| {
        assert rest[0] == s[k];
        assert s[k].dueUnix > s[0].dueUnix;
      }
    }
  }

  lemma {:induction false} RunEndSnoc(s: seq<SchedNote>, x: SchedNote, i: nat)
    requires 0 < i <= |s|
    ensures RunEnd(s + [x], i) ==
      if RunEnd(s, i) < |s| then RunEnd(s, i)
      else if x.dueUnix == s[0].dueUnix then |s| + 1
      else |s|
    decreases |s| - i
  {
    var t := s + [x];
    if i < |s| {
      assert t[i] == s[i];
      if s[i].dueUnix == s[0].dueUnix {
        RunEndSnoc(s, x, i + 1);
      }
    } else {
      assert t[i] == x;
      if x.dueUnix == s[0].dueUnix {
        assert RunEnd(t, i) == RunEnd(t, i + 1);
      }
    }
  }

  lemma RunsSingleton(x: SchedNote)
    ensures Runs([x]) == [[x]]
  {
    var s := [x];
    assert RunEnd(s, 1) == 1;
    assert s[..1] == s && s[1..] == [];
    assert Runs(s) == [s[..1]] + Runs(s[1..]);
  }

  /** Appending to a pool that is one run. */
  lemma RunsSnocOneRun(s: seq<SchedNote>, x: SchedNote)
    requires s != [] && RunEnd(s, 1) == |s|
    ensures x.dueUnix == s[0].dueUnix ==> Runs(s + [x]) == [s + [x]]
    ensures x.dueUnix != s[0].dueUnix ==> Runs(s + [x]) == [s, [x]]
  {
    var t := s + [x];
    RunEndSnoc(s, x, 1);
    assert s[..|s|] == s;
    assert Runs(s) == [s];
    if x.dueUnix == s[0].dueUnix {
      assert t[..|s| + 1] == t;
      assert t[|s| + 1..] == [];
    } else {
      assert t[..|s|] == s;
      assert t[|s|..] == [x];
      RunsSingleton(x);
    }
  }

  /** Appending to a pool whose first run ends before its last note. */
  lemma RunsSnocLater(s: seq<SchedNote>, x: SchedNote)
    requires s != [] && RunEnd(s, 1) < |s|
    ensures Runs(s + [x]) == [s[..RunEnd(s, 1)]] + Runs(s[RunEnd(s, 1)..] + [x])
  {
    var t := s + [x];
    var k := RunEnd(s, 1);
    RunEndSnoc(s, x, 1);
    assert t[..k] == s[..k];
    assert t[k..] == s[k..] + [x];
  }

  /** Appending one note either extends the last run (same due time as the
      last note) or opens a new run. */
  lemma {:induction false} RunsSnoc(s: seq<SchedNote>, x: SchedNote)
    ensures s != [] && s[|s| - 1].dueUnix == x.dueUnix ==>
      Runs(s + [x]) == Runs(s)[..|Runs(s)| - 1] + [Runs(s)[|Runs(s)| - 1] + [x]]
    ensures s == [] || s[|s| - 1].dueUnix != x.dueUnix ==>
      Runs(s + [x]) == Runs(s) + [[x]]
    decreases |s|
  {
    if s == [] {
      assert s + [x] == [x];
      RunsSingleton(x);
    } else if RunEnd(s, 1) == |s| {
      RunsSnocOneRun(s, x);
      assert s[..|s|] == s;
      assert Runs(s) == [s];
      assert |s| == 1 || s[|s| - 1].dueUnix == s[0].dueUnix;
    } else {
      var k := RunEnd(s, 1);
      var rest := s[k..];
      RunsSnocLater(s, x);
      RunsSnoc(rest, x);
      assert rest[|rest| - 1] == s[|s| - 1];
      assert Runs(s) == [s[..k]] + Runs(rest);
    }
  }

  // ------------------------------------------------------------------ tree

  predicate IsActive(activeFile: Option<Note>, note: Note)
  {
    activeFile.Some? && note.path == activeFile.value.path
  }

  function NoteNodes(notes: seq<Note>, activeFile: Option<Note>): (nodes: seq<NoteNode>)
    ensures |nodes| == |notes|
  {
    seq(|notes|, k requires 0 <= k < |notes| => NoteNode(notes[k], IsActive(activeFile, notes[k])))
  }

  predicate AnyNoteActive(nodes: seq<NoteNode>)
  {
    exists k :: 0 <= k < |nodes| && nodes[k].active
  }

  /** Some bucket of the list is active. */
  predicate AnyFolderActive(folders: seq<FolderNode>)
  {
    folders != [] && (folders[|folders| - 1].active || AnyFolderActive(folders[..|folders| - 1]))
  }

  lemma {:induction false} AnyFolderActiveExists(folders: seq<FolderNode>)
    ensures AnyFolderActive(folders) <==> exists q :: 0 <= q < |folders| && folders[q].active
  {
    if folders != [] {
      var n := |folders| - 1;
      AnyFolderActiveExists(folders[..n]);
      if exists q :: 0 <= q < |folders| && folders[q].active {
        var q :| 0 <= q < |folders| && folders[q].active;
        if q < n {
          assert folders[..n][q].active;
        }
      }
    }
  }

  /** A bucket holding the given notes: active when one of its notes is. */
  function Folder(title: string, notes: seq<Note>, activeFile: Option<Note>): FolderNode
  {
    var nodes := NoteNodes(notes, activeFile);
    FolderNode(title, nodes, AnyNoteActive(nodes))
  }

  function NotesOf(r: seq<SchedNote>): (notes: seq<Note>)
    ensures |notes| == |r|
  {
    seq(|r|, k requires 0 <= k < |r| => r[k].note)
  }

  /** The bucket of one run, titled after the run's due time. */
  function Bucket(run: seq<SchedNote>, env: Env): FolderNode
    requires run != []
  {
    Folder(BucketTitle(run[0].dueUnix, env), NotesOf(run), env.activeFile)
  }

  function Buckets(runs: seq<seq<SchedNote>>, env: Env): (folders: seq<FolderNode>)
    requires forall b :: 0 <= b < |runs| ==> runs[b] != []
    ensures |folders| == |runs|
  {
    seq(|runs|, b requires 0 <= b < |runs| => Bucket(runs[b], env))
  }

  /** The "New" bucket, present when there are new notes. */
  function NewFolders(newNotes: seq<Note>, env: Env): seq<FolderNode>
  {
    if |newNotes| > 0 then [Folder(env.labels.newLabel, newNotes, env.activeFile)] else []
  }

  /** One bucket per run of equal due times among the visible scheduled notes. */
  function ScheduledFolders(s: seq<SchedNote>, env: Env): seq<FolderNode>
  {
    Buckets(Runs(Visible(s, env)), env)
  }

  /** A deck's subtree: the "New" bucket first, then the scheduled buckets;
      active when one of its buckets is. */
  function DeckTree(e: DeckEntry, env: Env): DeckNode
  {
    var folders := NewFolders(e.newNotes, env) + ScheduledFolders(e.scheduledNotes, env);
    DeckNode(e.key, AnyFolderActive(folders), folders)
  }

  /** A deck's subtree from its two parts. */
  lemma DeckTreeOfParts(e: DeckEntry, env: Env, newPart: seq<FolderNode>, scheduledPart: seq<FolderNode>)
    requires newPart == NewFolders(e.newNotes, env)
    requires scheduledPart == ScheduledFolders(e.scheduledNotes, env)
    ensures DeckTree(e, env) ==
      DeckNode(e.key, AnyFolderActive(newPart) || AnyFolderActive(scheduledPart), newPart + scheduledPart)
  {
    AnyFolderActiveAppend(newPart, scheduledPart);
  }

  lemma NoScheduledFolders(env: Env)
    ensures ScheduledFolders([], env) == []
  {
    assert Runs(Visible([], env)) == [];
  }

  /** The whole tree: one deck node per deck, in deck order, titled with its key. */
  function Tree(entries: seq<DeckEntry>, env: Env): (tree: seq<DeckNode>)
    ensures |tree| == |entries|
    ensures forall i :: 0 <= i < |entries| ==> tree[i].title == entries[i].key
  {
    seq(|entries|, i requires 0 <= i < |entries| => DeckTree(entries[i], env))
  }

  // ------------------------------------------------- growing the tree a note at a time

  /** Adding a note to a bucket appends its node and activates the bucket
      when the note is the open one. */
  lemma FolderSnoc(title: string, notes: seq<Note>, n: Note, activeFile: Option<Note>)
    ensures Folder(title, notes + [n], activeFile) ==
      var f := Folder(title, notes, activeFile);
      FolderNode(title, f.notes + [NoteNode(n, IsActive(activeFile, n))], f.active || IsActive(activeFile, n))
  {
    var nodes, nodes' := NoteNodes(notes, activeFile), NoteNodes(notes + [n], activeFile);
    var nn := NoteNode(n, IsActive(activeFile, n));
    assert nodes' == nodes + [nn];
    if AnyNoteActive(nodes') && !nn.active {
      var k :| 0 <= k < |nodes'| && nodes'[k].active;
      assert nodes[k].active;
    }
    if AnyNoteActive(nodes) {
      var k :| 0 <= k < |nodes| && nodes[k].active;
      assert nodes'[k].active;
    }
    if nn.active {
      assert nodes'[|nodes|].active;
    }
  }

  lemma FolderEmpty(title: string, activeFile: Option<Note>)
    ensures Folder(title, [], activeFile) == FolderNode(title, [], false)
  {
  }

  /** Adding a note to a run adds it to the run's bucket. */
  lemma BucketSnoc(run: seq<SchedNote>, x: SchedNote, env: Env)
    requires run != []
    ensures Bucket(run + [x], env) ==
      var f := Bucket(run, env);
      FolderNode(f.title, f.notes + [NoteNode(x.note, IsActive(env.activeFile, x.note))],
        f.active || IsActive(env.activeFile, x.note))
  {
    assert NotesOf(run + [x]) == NotesOf(run) + [x.note];
    FolderSnoc(BucketTitle(run[0].dueUnix, env), NotesOf(run), x.note, env.activeFile);
  }

  lemma BucketsOpenRun(runs: seq<seq<SchedNote>>, x: SchedNote, env: Env)
    requires forall b :: 0 <= b < |runs| ==> runs[b] != []
    ensures Buckets(runs + [[x]], env) == Buckets(runs, env) + [Bucket([x], env)]
    ensures Bucket([x], env) == FolderNode(BucketTitle(x.dueUnix, env),
      [NoteNode(x.note, IsActive(env.activeFile, x.note))], IsActive(env.activeFile, x.note))
  {
    assert NotesOf([x]) == [] + [x.note];
    FolderSnoc(BucketTitle(x.dueUnix, env), [], x.note, env.activeFile);
  }

  lemma BucketsExtendLast(runs: seq<seq<SchedNote>>, x: SchedNote, env: Env)
    requires runs != [] && forall b :: 0 <= b < |runs| ==> runs[b] != []
    ensures var n := |runs| - 1;
      Buckets(runs[..n] + [runs[n] + [x]], env) == Buckets(runs, env)[n := Bucket(runs[n] + [x], env)]
  {
  }

  lemma AnyFolderActiveSnoc(folders: seq<FolderNode>, f: FolderNode)
    ensures AnyFolderActive(folders + [f]) <==> AnyFolderActive(folders) || f.active
  {
    assert (folders + [f])[..|folders|] == folders;
  }

  lemma {:induction false} AnyFolderActiveAppend(a: seq<FolderNode>, b: seq<FolderNode>)
    ensures AnyFolderActive(a + b) <==> AnyFolderActive(a) || AnyFolderActive(b)
  {
    AnyFolderActiveExists(a);
    AnyFolderActiveExists(b);
    AnyFolderActiveExists(a + b);
    var ab := a + b;
    if exists q :: 0 <= q < |ab| && ab[q].active {
      var q :| 0 <= q < |ab| && ab[q].active;
      if q >= |a| {
        assert b[q - |a|].active;
      }
    }
    if exists q :: 0 <= q < |b| && b[q].active {
      var q :| 0 <= q < |b| && b[q].active;
      assert ab[q + |a|].active;
    }
    if exists q :: 0 <= q < |a| && a[q].active {
      var q :| 0 <= q < |a| && a[q].active;
      assert ab[q].active;
    }
  }

  /** The buckets of the first i scheduled notes. */
  function BucketsUpTo(s: seq<SchedNote>, i: nat, env: Env): seq<FolderNode>
    requires i <= |s|
  {
    Buckets(Runs(s[..i]), env)
  }

  /** A note due at a different time from its predecessor opens a new bucket. */
  lemma BucketsUpToOpen(s: seq<SchedNote>, i: nat, env: Env)
    requires i < |s| && (i == 0 || s[i].dueUnix != s[i - 1].dueUnix)
    ensures BucketsUpTo(s, i + 1, env) == BucketsUpTo(s, i, env) +
      [FolderNode(BucketTitle(s[i].dueUnix, env),
        [NoteNode(s[i].note, IsActive(env.activeFile, s[i].note))], IsActive(env.activeFile, s[i].note))]
  {
    assert s[..i + 1] == s[..i] + [s[i]];
    RunsSnoc(s[..i], s[i]);
    BucketsOpenRun(Runs(s[..i]), s[i], env);
  }

  /** A note due at the same time as its predecessor joins the last bucket. */
  lemma BucketsUpToExtend(s: seq<SchedNote>, i: nat, env: Env)
    requires 0 < i < |s| && s[i].dueUnix == s[i - 1].dueUnix
    ensures var b := BucketsUpTo(s, i, env);
      var nn := NoteNode(s[i].note, IsActive(env.activeFile, s[i].note));
      b != [] &&
      BucketsUpTo(s, i + 1, env) ==
        b[|b| - 1 := FolderNode(b[|b| - 1].title, b[|b| - 1].notes + [nn], b[|b| - 1].active || nn.active)]
  {
    assert s[..i + 1] == s[..i] + [s[i]];
    assert s[..i][i - 1] == s[i - 1];
    RunsSnoc(s[..i], s[i]);
    var runs := Runs(s[..i]);
    var n := |runs| - 1;
    BucketsExtendLast(runs, s[i], env);
    BucketSnoc(runs[n], s[i], env);
  }

  lemma SnocThenSet(folders: seq<FolderNode>, f: FolderNode, g: FolderNode)
    ensures (folders + [f])[|folders| := g] == folders + [g]
  {
  }

  /** The buckets of the first i scheduled notes as one pass over them
      builds them: a note due at a new time opens a bucket, any other note
      joins the last one. */
  function ScanBuckets(s: seq<SchedNote>, i: nat, env: Env): (folders: seq<FolderNode>)
    requires i <= |s|
    ensures i > 0 ==> folders != []
    decreases i
  {
    if i == 0 then []
    else
      var prev := ScanBuckets(s, i - 1, env);
      var x := s[i - 1];
      var nn := NoteNode(x.note, IsActive(env.activeFile, x.note));
      if i == 1 || x.dueUnix != s[i - 2].dueUnix then
        prev + [FolderNode(BucketTitle(x.dueUnix, env), [nn], nn.active)]
      else
        var last := prev[|prev| - 1];
        prev[|prev| - 1 := FolderNode(last.title, last.notes + [nn], last.active || nn.active)]
  }

  /** A note due at a new time opens a bucket of its own. */
  lemma ScanOpen(s: seq<SchedNote>, i: nat, env: Env)
    requires i < |s| && (i == 0 || s[i].dueUnix != s[i - 1].dueUnix)
    ensures var nn := NoteNode(s[i].note, IsActive(env.activeFile, s[i].note));
      ScanBuckets(s, i + 1, env) == ScanBuckets(s, i, env) + [FolderNode(BucketTitle(s[i].dueUnix, env), [nn], nn.active)]
  {
  }

  /** A note due at the same time as the one before joins the last bucket. */
  lemma ScanJoin(s: seq<SchedNote>, i: nat, env: Env)
    requires 0 < i < |s| && s[i].dueUnix == s[i - 1].dueUnix
    ensures var prev := ScanBuckets(s, i, env);
      var last := prev[|prev| - 1];
      var nn := NoteNode(s[i].note, IsActive(env.activeFile, s[i].note));
      ScanBuckets(s, i + 1, env) == prev[|prev| - 1 := FolderNode(last.title, last.notes + [nn], last.active || nn.active)]
  {
  }

  /** The one-pass buckets are the buckets of the runs. */
  lemma {:induction false} ScanBucketsAreRuns(s: seq<SchedNote>, i: nat, env: Env)
    requires i <= |s|
    ensures ScanBuckets(s, i, env) == BucketsUpTo(s, i, env)
    decreases i
  {
    if i == 0 {
      assert s[..0] == [];
    } else {
      ScanBucketsAreRuns(s, i - 1, env);
      if i == 1 || s[i - 1].dueUnix != s[i - 2].dueUnix {
        BucketsUpToOpen(s, i - 1, env);
      } else {
        BucketsUpToExtend(s, i - 1, env);
      }
    }
  }

  /** A pass that stops at the first note beyond the window has built the
      scheduled buckets. */
  lemma ScanStopsAtCutoff(s: seq<SchedNote>, i: nat, env: Env)
    requires i <= |s|
    requires forall j :: 0 <= j < i ==> InWindow(s[j], env)
    requires i < |s| ==> !InWindow(s[i], env)
    ensures ScheduledFolders(s, env) == ScanBuckets(s, i, env)
    ensures AnyFolderActive(ScanBuckets(s, i, env)) <==> HoldsActive(Visible(s, env), env.activeFile)
    ensures ActiveUpTo(s, i, env.activeFile) <==> HoldsActive(Visible(s, env), env.activeFile)
  {
    CutoffAt(s, i, env);
    ActiveUpToHolds(s, i, env.activeFile);
    ScanBucketsAreRuns(s, i, env);
    ScheduledFoldersActive(s, env);
  }

  // ----------------------------------------------------------- active flags

  /** Some note of the scheduled entries is the open one. */
  predicate HoldsActive(s: seq<SchedNote>, activeFile: Option<Note>)
  {
    exists j :: 0 <= j < |s| && IsActive(activeFile, s[j].note)
  }

  /** Some of the first i scheduled notes is the open one, scanning them in order. */
  predicate ActiveUpTo(s: seq<SchedNote>, i: nat, activeFile: Option<Note>)
    requires i <= |s|
    decreases i
  {
    i > 0 && (ActiveUpTo(s, i - 1, activeFile) || IsActive(activeFile, s[i - 1].note))
  }

  lemma {:induction false} ActiveUpToHolds(s: seq<SchedNote>, i: nat, activeFile: Option<Note>)
    requires i <= |s|
    ensures ActiveUpTo(s, i, activeFile) <==> HoldsActive(s[..i], activeFile)
    decreases i
  {
    if i > 0 {
      ActiveUpToHolds(s, i - 1, activeFile);
      assert s[..i] == s[..i - 1] + [s[i - 1]];
      HoldsActiveAppend(s[..i - 1], [s[i - 1]], activeFile);
      assert HoldsActive([s[i - 1]], activeFile) <==> IsActive(activeFile, s[i - 1].note);
    } else {
      assert s[..0] == [];
    }
  }

  lemma HoldsActiveAppend(a: seq<SchedNote>, b: seq<SchedNote>, activeFile: Option<Note>)
    ensures HoldsActive(a + b, activeFile) <==> HoldsActive(a, activeFile) || HoldsActive(b, activeFile)
  {
    var ab := a + b;
    if HoldsActive(ab, activeFile) {
      var j :| 0 <= j < |ab| && IsActive(activeFile, ab[j].note);
      if j < |a| {
        assert IsActive(activeFile, a[j].note);
      } else {
        assert IsActive(activeFile, b[j - |a|].note);
      }
    }
    if HoldsActive(a, activeFile) {
      var j :| 0 <= j < |a| && IsActive(activeFile, a[j].note);
      assert IsActive(activeFile, ab[j].note);
    }
    if HoldsActive(b, activeFile) {
      var j :| 0 <= j < |b| && IsActive(activeFile, b[j].note);
      assert IsActive(activeFile, ab[j + |a|].note);
    }
  }

  /** A bucket is active exactly when it holds the open note. */
  lemma BucketActive(run: seq<SchedNote>, env: Env)
    requires run != []
    ensures Bucket(run, env).active <==> HoldsActive(run, env.activeFile)
  {
    var nodes := NoteNodes(NotesOf(run), env.activeFile);
    if HoldsActive(run, env.activeFile) {
      var j :| 0 <= j < |run| && IsActive(env.activeFile, run[j].note);
      assert nodes[j].active;
    }
    if AnyNoteActive(nodes) {
      var k :| 0 <= k < |nodes| && nodes[k].active;
      assert IsActive(env.activeFile, run[k].note);
    }
  }

  lemma {:induction false} BucketsActive(runs: seq<seq<SchedNote>>, env: Env)
    requires forall b :: 0 <= b < |runs| ==> runs[b] != []
    ensures AnyFolderActive(Buckets(runs, env)) <==> HoldsActive(Flatten(runs), env.activeFile)
  {
    if runs == [] {
      assert Buckets(runs, env) == [];
    } else {
      var rest := runs[1..];
      BucketsActive(rest, env);
      assert Buckets(runs, env) == [Bucket(runs[0], env)] + Buckets(rest, env);
      AnyFolderActiveAppend([Bucket(runs[0], env)], Buckets(rest, env));
      AnyFolderActiveSnoc([], Bucket(runs[0], env));
      assert [] + [Bucket(runs[0], env)] == [Bucket(runs[0], env)];
      BucketActive(runs[0], env);
      HoldsActiveAppend(runs[0], Flatten(rest), env.activeFile);
    }
  }

  /** The scheduled buckets hold the open note exactly when the visible
      scheduled notes do. */
  lemma ScheduledFoldersActive(s: seq<SchedNote>, env: Env)
    ensures AnyFolderActive(ScheduledFolders(s, env)) <==> HoldsActive(Visible(s, env), env.activeFile)
  {
    RunsFlatten(Visible(s, env));
    BucketsActive(Runs(Visible(s, env)), env);
  }

  // ------------------------------------------------------- what the tree holds

  /** The note nodes of a list of buckets, bucket after bucket. */
  function FlattenNotes(folders: seq<FolderNode>): seq<NoteNode>
  {
    if folders == [] then [] else folders[0].notes + FlattenNotes(folders[1..])
  }

  lemma {:induction false} FlattenNotesAppend(a: seq<FolderNode>, b: seq<FolderNode>)
    ensures FlattenNotes(a + b) == FlattenNotes(a) + FlattenNotes(b)
    decreases |a|
  {
    if a != [] {
      assert (a + b)[1..] == a[1..] + b;
      FlattenNotesAppend(a[1..], b);
    } else {
      assert a + b == b;
    }
  }

  lemma NoteNodesAppend(a: seq<Note>, b: seq<Note>, activeFile: Option<Note>)
    ensures NoteNodes(a + b, activeFile) == NoteNodes(a, activeFile) + NoteNodes(b, activeFile)
  {
  }

  lemma NotesOfAppend(a: seq<SchedNote>, b: seq<SchedNote>)
    ensures NotesOf(a + b) == NotesOf(a) + NotesOf(b)
  {
  }

  /** The buckets of a list of runs hold the runs' notes, in order. */
  lemma {:induction false} BucketsHoldRuns(runs: seq<seq<SchedNote>>, env: Env)
    requires forall b :: 0 <= b < |runs| ==> runs[b] != []
    ensures FlattenNotes(Buckets(runs, env)) == NoteNodes(NotesOf(Flatten(runs)), env.activeFile)
    decreases |runs|
  {
    if runs == [] {
      assert Buckets(runs, env) == [];
      assert NotesOf([]) == [];
    } else {
      var rest := runs[1..];
      BucketsHoldRuns(rest, env);
      assert Buckets(runs, env)[1..] == Buckets(rest, env);
      NotesOfAppend(runs[0], Flatten(rest));
      NoteNodesAppend(NotesOf(runs[0]), NotesOf(Flatten(rest)), env.activeFile);
    }
  }

  /** The scheduled buckets hold exactly the visible scheduled notes, in pool
      order, each marked active when it is the open note. */
  lemma ScheduledFoldersHoldVisible(s: seq<SchedNote>, env: Env)
    ensures FlattenNotes(ScheduledFolders(s, env)) == NoteNodes(NotesOf(Visible(s, env)), env.activeFile)
  {
    RunsFlatten(Visible(s, env));
    BucketsHoldRuns(Runs(Visible(s, env)), env);
  }

  /** A deck's subtree holds its new notes, then its visible scheduled notes. */
  lemma DeckNotesInOrder(e: DeckEntry, env: Env)
    ensures FlattenNotes(DeckTree(e, env).folders) ==
      NoteNodes(e.newNotes + NotesOf(Visible(e.scheduledNotes, env)), env.activeFile)
  {
    var newPart, schedPart := NewFolders(e.newNotes, env), ScheduledFolders(e.scheduledNotes, env);
    FlattenNotesAppend(newPart, schedPart);
    ScheduledFoldersHoldVisible(e.scheduledNotes, env);
    NoteNodesAppend(e.newNotes, NotesOf(Visible(e.scheduledNotes, env)), env.activeFile);
    if |e.newNotes| > 0 {
      assert FlattenNotes(newPart) == NoteNodes(e.newNotes, env.activeFile) + FlattenNotes([]);
    }
  }

  /** The "New" bucket is there exactly when the deck has new notes, and then
      it comes first and the scheduled buckets follow it. */
  lemma NewBucketFirst(e: DeckEntry, env: Env)
    ensures |e.newNotes| > 0 ==>
      DeckTree(e, env).folders[0].title == env.labels.newLabel &&
      DeckTree(e, env).folders[0].notes == NoteNodes(e.newNotes, env.activeFile) &&
      DeckTree(e, env).folders[1..] == ScheduledFolders(e.scheduledNotes, env)
    ensures |e.newNotes| == 0 ==> DeckTree(e, env).folders == ScheduledFolders(e.scheduledNotes, env)
  {
    if |e.newNotes| > 0 {
      var f := Folder(env.labels.newLabel, e.newNotes, env.activeFile);
      assert DeckTree(e, env).folders == [f] + ScheduledFolders(e.scheduledNotes, env);
    }
  }

  /** A deck is active exactly when one of its new notes or one of its
      visible scheduled notes is the open note. */
  lemma DeckActiveIff(e: DeckEntry, env: Env)
    ensures DeckTree(e, env).active <==>
      (exists k :: 0 <= k < |e.newNotes| && IsActive(env.activeFile, e.newNotes[k])) ||
      HoldsActive(Visible(e.scheduledNotes, env), env.activeFile)
  {
    var newPart, schedPart := NewFolders(e.newNotes, env), ScheduledFolders(e.scheduledNotes, env);
    AnyFolderActiveAppend(newPart, schedPart);
    ScheduledFoldersActive(e.scheduledNotes, env);
    if |e.newNotes| > 0 {
      var f := Folder(env.labels.newLabel, e.newNotes, env.activeFile);
      var nodes := NoteNodes(e.newNotes, env.activeFile);
      AnyFolderActiveSnoc([], f);
      assert [] + [f] == newPart;
      if exists k :: 0 <= k < |e.newNotes| && IsActive(env.activeFile, e.newNotes[k]) {
        var k :| 0 <= k < |e.newNotes| && IsActive(env.activeFile, e.newNotes[k]);
        assert nodes[k].active;
      }
    }
  }

  /** Buckets open on every change of the exact due time, not of the day:
      one note due a millisecond ago and one due now, both within
      (-1, 0] days, land in two buckets, both titled "Today". */
  lemma SameDayTwoBuckets(a: Note, b: Note, env: Env)
    requires env.maxDays >= 0
    ensures var s := [SchedNote(a, env.now - 1), SchedNote(b, env.now)];
      |ScheduledFolders(s, env)| == 2 &&
      ScheduledFolders(s, env)[0].title == env.labels.today &&
      ScheduledFolders(s, env)[1].title == env.labels.today
  {
    var x, y := SchedNote(a, env.now - 1), SchedNote(b, env.now);
    var s := [x, y];
    assert Days(x.dueUnix, env.now) == 0;
    assert Days(y.dueUnix, env.now) == 0;
    CutoffAt(s, 2, env);
    assert s[..2] == s;
    assert [x] + [y] == s;
    RunsSingleton(x);
    RunsSnoc([x], y);
  }
}
