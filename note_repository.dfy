/** Reads and writes of the note table, including the skip/take paging of a sender's notes. */
module NoteRepository {
  import opened Wrappers
  import opened Seqs
  import opened Tables

  /** `createNote`: adds a note with the next id, the caller as sender, and the given fields. */
  method CreateNote(db: Database, userId: int, title: string, message: string, typeId: int) returns (note: Note)
    requires db.Valid()
    modifies db`notes, db`nextNoteId
    ensures db.Valid()
    ensures note == Note(old(db.nextNoteId), userId, title, message, typeId)
    ensures db.notes == old(db.notes) + [note]
    ensures db.nextNoteId == old(db.nextNoteId) + 1
  {
    note := Note(db.nextNoteId, userId, title, message, typeId);
    db.notes := db.notes + [note];
    db.nextNoteId := db.nextNoteId + 1;
    assert NoteIds(db.notes) == NoteIds(old(db.notes)) + [note.id];
  }

  /** Ids grow along the sequence, as in a table with an autoincrement key. */
  predicate IdsAscending(notes: seq<Note>) {
    forall i, j | 0 <= i < j < |notes| :: notes[i].id < notes[j].id
  }

  /** `getNotes`: the notes the user sent, in store order. */
  function GetNotes(notes: seq<Note>, userId: int): (r: seq<Note>)
    ensures |r| <= |notes|
    ensures forall n :: n in r <==> n in notes && n.senderId == userId
    ensures IdsAscending(notes) ==> IdsAscending(r)
  {
    if notes == [] then []
    else
      var rest := GetNotes(notes[1..], userId);
      if notes[0].senderId == userId then [notes[0]] + rest else rest
  }

  /** Notes whose ids grow along the sequence are pairwise distinct. */
  lemma AscendingIdsDistinct(r: seq<Note>)
    requires IdsAscending(r)
    ensures Distinct(r)
  {
  }

  /** The number of a sender's notes that come before a page. */
  function Skip(page: int, pageSize: int): (r: nat)
    requires page >= 1 && pageSize >= 0
  {
    MulMonotone(0, page - 1, pageSize);
    (page - 1) * pageSize
  }

  /**
   * `getNotesPage`: skips `(page - 1) * pageSize` of the sender's notes and
   * takes up to `pageSize` of the rest. Validation guarantees `page >= 1`
   * and `pageSize >= 1`.
   */
  function GetNotesPage(notes: seq<Note>, userId: int, page: int, pageSize: int): (r: seq<Note>)
    requires page >= 1 && pageSize >= 1
    ensures |r| <= pageSize
    ensures var all := GetNotes(notes, userId);
            && |r| == (if Skip(page, pageSize) >= |all| then 0
                       else if Skip(page, pageSize) + pageSize <= |all| then pageSize
                       else |all| - Skip(page, pageSize))
            && forall i | 0 <= i < |r| :: Skip(page, pageSize) + i < |all| && r[i] == all[Skip(page, pageSize) + i]
  {
    var all := GetNotes(notes, userId);
    var skip := Skip(page, pageSize);
    if skip >= |all| then []
    else if skip + pageSize >= |all| then all[skip..]
    else all[skip..skip + pageSize]
  }

  lemma MulMonotone(a: int, b: int, c: int)
    requires 0 <= a <= b && c >= 0
    ensures a * c <= b * c
  {
  }

  /** The next page starts one page size further on. */
  lemma SkipStep(page: int, pageSize: int)
    requires page >= 1 && pageSize >= 0
    ensures Skip(page + 1, pageSize) == Skip(page, pageSize) + pageSize
  {
    assert page * pageSize == (page - 1) * pageSize + pageSize;
  }

  /** Pages further on start proportionally further on. */
  lemma {:induction false} SkipMonotone(p: int, q: int, pageSize: int)
    requires 1 <= p <= q && pageSize >= 0
    ensures Skip(p, pageSize) + (q - p) * pageSize == Skip(q, pageSize)
    decreases q - p
  {
    if p < q {
      SkipMonotone(p, q - 1, pageSize);
      SkipStep(q - 1, pageSize);
      assert (q - p) * pageSize == (q - 1 - p) * pageSize + pageSize;
    }
  }

  /** The windows of two different pages do not overlap. */
  lemma SkipsApart(p1: int, p2: int, pageSize: int)
    requires p1 >= 1 && p2 >= 1 && pageSize >= 1 && p1 != p2
    ensures Skip(p1, pageSize) + pageSize <= Skip(p2, pageSize) || Skip(p2, pageSize) + pageSize <= Skip(p1, pageSize)
  {
    if p1 < p2 {
      SkipMonotone(p1, p2, pageSize);
      MulMonotone(1, p2 - p1, pageSize);
    } else {
      SkipMonotone(p2, p1, pageSize);
      MulMonotone(1, p1 - p2, pageSize);
    }
  }

  /** Windows of a distinct sequence that do not overlap hold no common element. */
  lemma WindowsDisjoint(all: seq<Note>, r1: seq<Note>, r2: seq<Note>, s1: nat, s2: nat, width: nat)
    requires Distinct(all)
    requires |r1| <= width && |r2| <= width && (s1 + width <= s2 || s2 + width <= s1)
    requires forall i | 0 <= i < |r1| :: s1 + i < |all| && r1[i] == all[s1 + i]
    requires forall i | 0 <= i < |r2| :: s2 + i < |all| && r2[i] == all[s2 + i]
    ensures forall n :: n in r1 ==> n !in r2
  {
    forall n | n in r1 ensures n !in r2 {
      var a :| 0 <= a < |r1| && r1[a] == n;
      assert s1 + a < |all| && r1[a] == all[s1 + a];
      forall b | 0 <= b < |r2| ensures r2[b] != n {
        var m := r2[b];
        assert s2 + b < |all| && m == all[s2 + b];
      }
    }
  }

  /** Two different page numbers never return the same note, given the ascending ids of the table. */
  lemma PagesDisjoint(notes: seq<Note>, userId: int, p1: int, p2: int, pageSize: int)
    requires IdsAscending(notes)
    requires p1 >= 1 && p2 >= 1 && pageSize >= 1 && p1 != p2
    ensures forall n :: n in GetNotesPage(notes, userId, p1, pageSize) ==> n !in GetNotesPage(notes, userId, p2, pageSize)
  {
    var all := GetNotes(notes, userId);
    AscendingIdsDistinct(all);
    SkipsApart(p1, p2, pageSize);
    WindowsDisjoint(all, GetNotesPage(notes, userId, p1, pageSize), GetNotesPage(notes, userId, p2, pageSize),
                    Skip(p1, pageSize), Skip(p2, pageSize), pageSize);
  }

  /** Index `i` lies on page `i / pageSize + 1`, at offset `i % pageSize`. */
  lemma DivModPage(i: nat, pageSize: int)
    requires pageSize >= 1
    ensures i / pageSize >= 0 && 0 <= i % pageSize < pageSize
    ensures Skip(i / pageSize + 1, pageSize) + i % pageSize == i
  {
    var q, m := i / pageSize, i % pageSize;
    assert q * pageSize + m == i;
  }

  /** The sender's i-th note is on page `i / pageSize + 1`, at position `i % pageSize`. */
  lemma NoteOnItsPage(notes: seq<Note>, userId: int, pageSize: int, i: nat)
    requires pageSize >= 1 && i < |GetNotes(notes, userId)|
    ensures var page := GetNotesPage(notes, userId, i / pageSize + 1, pageSize);
            i % pageSize < |page| && page[i % pageSize] == GetNotes(notes, userId)[i]
  {
    DivModPage(i, pageSize);
    var page := GetNotesPage(notes, userId, i / pageSize + 1, pageSize);
    var skip := Skip(i / pageSize + 1, pageSize);
    assert skip <= i < |GetNotes(notes, userId)|;
    assert skip + pageSize > i;
    assert |page| > i % pageSize;
  }

  /** `getNoteById`: the note with the id, or none. */
  function GetNoteById(notes: seq<Note>, id: int): (r: Option<Note>)
    ensures r.Some? ==> r.value in notes && r.value.id == id
    ensures r.None? ==> forall n :: n in notes ==> n.id != id
  {
    if notes == [] then None
    else if notes[0].id == id then Some(notes[0])
    else GetNoteById(notes[1..], id)
  }
}
