/** A user's standup-notes screen: which notes are listed for the signed-in
    user, and the create form and edit row state. */
module StandupNotesScreen {
  import opened JsCore

  /** A note as GET / returns it (joined with its author's name). */
  datatype ListedNote = ListedNote(
    id: int, userId: int, username: string, dateKey: string,
    yesterdayWork: string, todayPlan: string, blockers: string)

  /** The parsed `userData` from local storage. */
  datatype UserData = UserData(id: JsVal, roleId: JsVal)

  /** The create form. */
  datatype NoteForm = NoteForm(standupDate: string, yesterdayWork: string, todayPlan: string, blockers: string)

  const EmptyForm := NoteForm("", "", "", "")

  /** `userData ? userData.id : null`. */
  function CurrentUserId(userData: Option<UserData>): (id: JsVal)
    ensures userData.None? ==> id == Null
  {
    if userData.Some? then userData.value.id else Null
  }

  /** `userData ? userData.role_id : null`. */
  function CurrentUserRole(userData: Option<UserData>): (role: JsVal)
    ensures userData.None? ==> role == Null
  {
    if userData.Some? then userData.value.roleId else Null
  }

  /** `currentUserRole === 1 ? notes : notes.filter(n => n.user_id === currentUserId)`. */
  function VisibleNotes(notes: seq<ListedNote>, role: JsVal, userId: JsVal): seq<ListedNote>
  {
    if role == Num(1) then notes else Filter((n: ListedNote) => Num(n.userId) == userId, notes)
  }

  /** The admin sees every note; anyone else exactly their own notes. */
  lemma VisibleNotesMembers(notes: seq<ListedNote>, role: JsVal, userId: JsVal)
    ensures role == Num(1) ==> VisibleNotes(notes, role, userId) == notes
    ensures role != Num(1) ==> forall n :: n in VisibleNotes(notes, role, userId) <==>
      n in notes && Num(n.userId) == userId
  {
  }

  /** The list shown keeps the notes' order and invents none. */
  lemma VisibleIsSubsequence(notes: seq<ListedNote>, role: JsVal, userId: JsVal)
    ensures IsSubsequence(VisibleNotes(notes, role, userId), notes)
  {
    if role == Num(1) {
      var idx := seq(|notes|, i requires 0 <= i < |notes| => i);
      assert Embedding(idx, notes, notes);
    } else {
      FilterIsSubsequence((n: ListedNote) => Num(n.userId) == userId, notes);
    }
  }

  /** Without a stored user nothing is listed: the id is null and no note's
      numeric author equals it. */
  lemma NoUserSeesNothing(notes: seq<ListedNote>)
    ensures VisibleNotes(notes, CurrentUserRole(None), CurrentUserId(None)) == []
  {
    FilterNone((n: ListedNote) => Num(n.userId) == Null, notes);
  }

  /** The screen's state. */
  class NotesScreen {
    var notes: seq<ListedNote>
    var newNote: NoteForm
    var editNote: Option<ListedNote>

    constructor ()
      ensures notes == [] && newNote == EmptyForm && editNote == None
    {
      notes := [];
      newNote := EmptyForm;
      editNote := None;
    }

    /** A successful `fetchNotes`. */
    method NotesLoaded(rows: seq<ListedNote>)
      modifies this`notes
      ensures notes == rows
    {
      notes := rows;
    }

    /** Typing in the create form changes the one field. */
    method SetNewDate(value: string)
      modifies this`newNote
      ensures newNote == old(newNote).(standupDate := value)
    {
      newNote := newNote.(standupDate := value);
    }

    /** The create call answered `status`: the form is cleared on 201 only. */
    method CreateAnswered(status: int)
      modifies this`newNote
      ensures status == 201 ==> newNote == EmptyForm
      ensures status != 201 ==> newNote == old(newNote)
    {
      if status == 201 {
        newNote := EmptyForm;
      }
    }

    /** Edit: the row becomes the one being edited. */
    method StartEdit(note: ListedNote)
      modifies this`editNote
      ensures editNote == Some(note)
    {
      editNote := Some(note);
    }

    /** Typing in the edit row changes the edited copy, not the list. */
    method SetEditWork(value: string)
      requires editNote.Some?
      modifies this`editNote
      ensures editNote == Some(old(editNote).value.(yesterdayWork := value))
      ensures notes == old(notes)
    {
      editNote := Some(editNote.value.(yesterdayWork := value));
    }

    /** Cancel. */
    method CancelEdit()
      modifies this`editNote
      ensures editNote == None
    {
      editNote := None;
    }

    /** The update call answered `status`: edit mode ends on 200 only. */
    method UpdateAnswered(status: int)
      modifies this`editNote
      ensures status == 200 ==> editNote == None
      ensures status != 200 ==> editNote == old(editNote)
    {
      if status == 200 {
        editNote := None;
      }
    }

    /** `editNote && editNote.id === note.id`. */
    predicate Editing(note: ListedNote)
      reads this
    {
      editNote.Some? && editNote.value.id == note.id
    }

    /** With distinct note ids, at most one listed row is in edit mode. */
    lemma AtMostOneEditingRow(rows: seq<ListedNote>, i: int, j: int)
      requires forall a, b :: 0 <= a < b < |rows| ==> rows[a].id != rows[b].id
      requires 0 <= i < |rows| && 0 <= j < |rows|
      requires Editing(rows[i]) && Editing(rows[j])
      ensures i == j
    {
    }
  }
}
