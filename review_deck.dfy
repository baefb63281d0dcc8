/** A review deck: a named pool of new notes and a pool of scheduled notes,
    with the operation that orders both pools by importance. */
module Decks {
  import opened Notes
  import opened Sorting

  /** The comparator for new notes: by score, a missing score counting as 0. */
  function NewNotesCmp(pageranks: Pageranks): (cmp: (Note, Note) -> int)
    ensures forall a, b :: cmp(a, b) <= 0 <==> Score(pageranks, a.path) <= Score(pageranks, b.path)
    ensures forall a, b :: cmp(a, b) < 0 <==> Score(pageranks, a.path) < Score(pageranks, b.path)
  {
    (a: Note, b: Note) => Score(pageranks, a.path) - Score(pageranks, b.path)
  }

  /** The comparator for scheduled notes: by due time, then by score. */
  function ScheduledCmp(pageranks: Pageranks): (cmp: (SchedNote, SchedNote) -> int)
    ensures forall a, b :: cmp(a, b) <= 0 <==>
      a.dueUnix < b.dueUnix ||
      (a.dueUnix == b.dueUnix && Score(pageranks, a.note.path) <= Score(pageranks, b.note.path))
    ensures forall a, b :: cmp(a, b) < 0 <==>
      a.dueUnix < b.dueUnix ||
      (a.dueUnix == b.dueUnix && Score(pageranks, a.note.path) < Score(pageranks, b.note.path))
  {
    (a: SchedNote, b: SchedNote) =>
      var result := a.dueUnix - b.dueUnix;
      if result != 0 then result
      else Score(pageranks, a.note.path) - Score(pageranks, b.note.path)
  }

  /** New notes in ascending order of score. */
  predicate NewNotesOrdered(pageranks: Pageranks, s: seq<Note>)
  {
    forall i, j :: 0 <= i < j < |s| ==> Score(pageranks, s[i].path) <= Score(pageranks, s[j].path)
  }

  /** Scheduled notes in ascending lexicographic order of (due time, score). */
  predicate ScheduledOrdered(pageranks: Pageranks, s: seq<SchedNote>)
  {
    forall i, j :: 0 <= i < j < |s| ==>
      s[i].dueUnix < s[j].dueUnix ||
      (s[i].dueUnix == s[j].dueUnix && Score(pageranks, s[i].note.path) <= Score(pageranks, s[j].note.path))
  }

  /** Scheduled notes in ascending order of due time. */
  predicate DueOrdered(s: seq<SchedNote>)
  {
    forall i, j :: 0 <= i < j < |s| ==> s[i].dueUnix <= s[j].dueUnix
  }

  lemma NewNotesCmpIsComparator(pageranks: Pageranks)
    ensures IsComparator(NewNotesCmp(pageranks))
  {
  }

  lemma ScheduledCmpIsComparator(pageranks: Pageranks)
    ensures IsComparator(ScheduledCmp(pageranks))
  {
  }

  /** Sorted by the new-note comparator means ordered by score. */
  lemma NewNotesSortedIsOrdered(pageranks: Pageranks, s: seq<Note>)
    ensures SortedBy(s, NewNotesCmp(pageranks)) <==> NewNotesOrdered(pageranks, s)
  {
  }

  /** Sorted by the scheduled comparator means ordered by (due time, score),
      and in particular by due time. */
  lemma ScheduledSortedIsOrdered(pageranks: Pageranks, s: seq<SchedNote>)
    ensures SortedBy(s, ScheduledCmp(pageranks)) <==> ScheduledOrdered(pageranks, s)
    ensures ScheduledOrdered(pageranks, s) ==> DueOrdered(s)
  {
  }

  /** Sorting new notes orders them by score and leaves an ordered pool as it
      was; a note without a score sorts as if its score were 0. */
  lemma SortNewNotes(pageranks: Pageranks, s: seq<Note>)
    ensures NewNotesOrdered(pageranks, Sort(s, NewNotesCmp(pageranks)))
    ensures NewNotesOrdered(pageranks, s) ==> Sort(s, NewNotesCmp(pageranks)) == s
    ensures var r := Sort(s, NewNotesCmp(pageranks));
      forall i, j :: 0 <= i < j < |r| && r[i].path in pageranks && r[j].path !in pageranks ==>
        pageranks[r[i].path] <= 0
    ensures var r := Sort(s, NewNotesCmp(pageranks));
      forall i, j :: 0 <= i < j < |r| && r[i].path !in pageranks && r[j].path in pageranks ==>
        0 <= pageranks[r[j].path]
  {
    NewNotesCmpIsComparator(pageranks);
    SortSorted(s, NewNotesCmp(pageranks));
    NewNotesSortedIsOrdered(pageranks, Sort(s, NewNotesCmp(pageranks)));
    NewNotesSortedIsOrdered(pageranks, s);
    if NewNotesOrdered(pageranks, s) {
      SortKeepsSorted(s, NewNotesCmp(pageranks));
    }
  }

  /** Sorting scheduled notes orders them by (due time, score) and leaves an
      ordered pool as it was. */
  lemma SortScheduledNotes(pageranks: Pageranks, s: seq<SchedNote>)
    ensures ScheduledOrdered(pageranks, Sort(s, ScheduledCmp(pageranks)))
    ensures DueOrdered(Sort(s, ScheduledCmp(pageranks)))
    ensures ScheduledOrdered(pageranks, s) ==> Sort(s, ScheduledCmp(pageranks)) == s
  {
    ScheduledCmpIsComparator(pageranks);
    SortSorted(s, ScheduledCmp(pageranks));
    ScheduledSortedIsOrdered(pageranks, Sort(s, ScheduledCmp(pageranks)));
    ScheduledSortedIsOrdered(pageranks, s);
    if ScheduledOrdered(pageranks, s) {
      SortKeepsSorted(s, ScheduledCmp(pageranks));
    }
  }

  /** New notes scored 5, 1 and 3 come out as the 1, the 3, then the 5. */
  lemma SortNewNotesSample()
    ensures var a, b, c := Note("a.md"), Note("b.md"), Note("c.md");
      Sort([a, b, c], NewNotesCmp(map["a.md" := 5, "b.md" := 1, "c.md" := 3])) == [b, c, a]
  {
    var a, b, c := Note("a.md"), Note("b.md"), Note("c.md");
    var cmp := NewNotesCmp(map["a.md" := 5, "b.md" := 1, "c.md" := 3]);
    assert [a, b, c][1..] == [b, c] && [b, c][1..] == [c] && [c][1..] == [];
    assert Sort([c], cmp) == [c];
    assert Insert(b, [c], cmp) == [b, c];
    assert Sort([b, c], cmp) == [b, c];
    assert [c] + Insert(a, [], cmp) == [c, a];
    assert Insert(a, [b, c], cmp) == [b, c, a];
  }

  class ReviewDeck {
    var deckName: string
    var newNotes: seq<Note>
    var scheduledNotes: seq<SchedNote>
    var dueNotesCount: int

    constructor (name: string)
      ensures deckName == name
      ensures newNotes == [] && scheduledNotes == []
      ensures dueNotesCount == 0
    {
      deckName := name;
      newNotes := [];
      scheduledNotes := [];
      dueNotesCount := 0;
    }

    /** Orders new notes by score and scheduled notes by (due time, score),
        with the host's stable sort. */
    method SortNotes(pageranks: Pageranks)
      modifies this
      ensures deckName == old(deckName) && dueNotesCount == old(dueNotesCount)
      ensures newNotes == Sort(old(newNotes), NewNotesCmp(pageranks))
      ensures scheduledNotes == Sort(old(scheduledNotes), ScheduledCmp(pageranks))
      ensures multiset(newNotes) == multiset(old(newNotes))
      ensures multiset(scheduledNotes) == multiset(old(scheduledNotes))
      ensures NewNotesOrdered(pageranks, newNotes)
      ensures ScheduledOrdered(pageranks, scheduledNotes) && DueOrdered(scheduledNotes)
      ensures NewNotesOrdered(pageranks, old(newNotes)) ==> newNotes == old(newNotes)
      ensures ScheduledOrdered(pageranks, old(scheduledNotes)) ==> scheduledNotes == old(scheduledNotes)
    {
      SortNewNotes(pageranks, newNotes);
      SortScheduledNotes(pageranks, scheduledNotes);
      newNotes := Sort(newNotes, NewNotesCmp(pageranks));
      scheduledNotes := Sort(scheduledNotes, ScheduledCmp(pageranks));
    }
  }
}
