/** The note browser itself: the state of TerminalNotesApp and the handlers
    of its keys, dialogs and save timer. */
module NotesApp {
  import opened Wrappers
  import opened NoteText
  import opened NoteStore
  import opened NoteNaming
  import opened Ordering
  import opened Cursor
  import opened MenuView
  import opened MenuBuilder

  datatype Mode = Menu | Editor

  /** The delete confirmation panel: the note it would delete and the
      highlighted button. */
  datatype Confirmation = Confirmation(target: string, selected: int)

  /** The rename dialog: the note being renamed and the error it shows. */
  datatype RenameDialog = RenameDialog(target: string, error: Option<RenameError>)

  /** A pending `after(500, save_now)` callback. */
  datatype Timer = Timer(id: nat, deadline: int)

  /** The counts shown in the editor's status bar. */
  datatype Statistics = Statistics(words: nat, chars: nat)

  /** The debounce delay of the editor's autosave, in milliseconds. */
  const SaveDelay: int := 500

  /** `Text.get("1.0", END)` returns the text followed by one newline. */
  const TkTextEnd: string := "\n"

  const ConfirmButton: int := 0
  const CancelButton: int := 1

  // ---------------------------------------------------------------------
  // Small pure steps of the handlers
  // ---------------------------------------------------------------------

  /** Adding a note to the favorites, or removing it. */
  function Toggle(s: set<string>, x: string): (r: set<string>)
    ensures x in r <==> x !in s
    ensures forall y :: y != x ==> (y in r <==> y in s)
  {
    if x in s then s - {x} else s + {x}
  }

  lemma ToggleTwice(s: set<string>, x: string)
    ensures Toggle(Toggle(s, x), x) == s
  {
    assert forall y :: y in Toggle(Toggle(s, x), x) <==> y in s;
  }

  /** move_selection of the confirmation panel: Python's `%` on a positive
      modulus agrees with Dafny's. */
  function MoveButton(selected: int, direction: int): (r: int)
    ensures 0 <= r < 2
    ensures (selected == ConfirmButton || selected == CancelButton) && (direction == 1 || direction == -1) ==>
              r != selected
  {
    (selected + direction) % 2
  }

  /** The highlighted button after a series of arrow presses. */
  function ButtonAfter(selected: int, moves: seq<int>): int
    decreases |moves|
  {
    if |moves| == 0 then selected else ButtonAfter(MoveButton(selected, moves[0]), moves[1..])
  }

  /** The panel opens on "Annuler"; "Confirmer" is highlighted exactly after
      an odd number of presses, whichever arrows they were. */
  lemma {:induction false} ConfirmAfterOddMoves(selected: int, moves: seq<int>)
    requires selected == ConfirmButton || selected == CancelButton
    requires forall i :: 0 <= i < |moves| ==> moves[i] == 1 || moves[i] == -1
    ensures ButtonAfter(selected, moves) == ConfirmButton || ButtonAfter(selected, moves) == CancelButton
    ensures ButtonAfter(selected, moves) == selected <==> |moves| % 2 == 0
    decreases |moves|
  {
    if |moves| > 0 {
      var next := MoveButton(selected, moves[0]);
      ConfirmAfterOddMoves(next, moves[1..]);
      assert ButtonAfter(selected, moves) == ButtonAfter(next, moves[1..]);
      assert |moves[1..]| % 2 == 0 <==> |moves| % 2 == 1;
    }
  }

  /** The selection after do_delete removed a note, given the new length. */
  function ClampSelection(index: int, count: nat): (r: int)
    ensures count == 0 ==> r == -1
    ensures count > 0 && 0 <= index ==> 0 <= r < count
    ensures count > 0 && index < count ==> r == index
  {
    if count == 0 then -1
    else if index >= count then count - 1
    else index
  }

  /** `after_cancel`: the timer with this id no longer fires. */
  function CancelTimer(timers: seq<Timer>, id: nat): (r: seq<Timer>)
    ensures forall t :: t in r <==> t in timers && t.id != id
    ensures |r| <= |timers|
  {
    if |timers| == 0 then []
    else
      var rest := CancelTimer(timers[..|timers| - 1], id);
      var last := timers[|timers| - 1];
      assert timers == timers[..|timers| - 1] + [last];
      if last.id == id then rest else rest + [last]
  }

  /** The status bar counts of the editor text as `Text.get` returns it. */
  function TextStatistics(text: string): (r: Statistics)
    ensures r.words <= r.chars
    ensures r.chars <= |text|
    ensures r.words == 0 <==> NonSpace(text) == []
  {
    var content := text + TkTextEnd;
    WordsAtMostChars(content);
    WordCountBounds(content);
    NonSpaceAppend(text, TkTextEnd);
    assert NonSpace(TkTextEnd) == [];
    assert content[..|text|] == text;
    Statistics(WordCount(content), CharCount(content))
  }

  // ---------------------------------------------------------------------
  // The notes of the directory
  // ---------------------------------------------------------------------

  /** The note files of a directory: the names that end with ".txt". */
  ghost function NoteFiles(store: Store): set<string>
  {
    set n | n in store && EndsWith(n, Extension)
  }

  /** Every name create_new_note tries is a note name. */
  lemma CandidateIsNote(timestamp: string, k: nat)
    ensures EndsWith(Candidate(timestamp, k), Extension)
  {
    var c := Candidate(timestamp, k);
    var stem := if k == 0 then "note_" + timestamp else "note_" + timestamp + "_" + NatToString(k);
    assert c == stem + Extension;
    assert c[|c| - |Extension|..] == Extension;
  }

  lemma {:induction false} TxtNotesNoDup(listing: seq<string>)
    requires NoDup(listing)
    ensures NoDup(TxtNotes(listing))
  {
    if |listing| > 0 {
      var p := listing[..|listing| - 1];
      assert NoDup(p);
      TxtNotesNoDup(p);
      var last := listing[|listing| - 1];
      assert listing == p + [last];
      assert last !in p;
      var rest := TxtNotes(p);
      assert last !in rest;
      if EndsWith(last, Extension) {
        assert TxtNotes(listing) == rest + [last];
        NoDupAppend(rest, [last]);
      } else {
        assert TxtNotes(listing) == rest;
      }
    }
  }

  /** A list whose elements are those of a set, each once, has no duplicates. */
  lemma ListOfSetUnique(s: seq<string>, names: set<string>)
    requires multiset(s) == multiset(names)
    ensures Unique(s) && (forall x :: x in s <==> x in names)
  {
    forall x ensures multiset(s)[x] <= 1 && (x in s <==> x in names) {
      assert multiset(s)[x] == multiset(names)[x];
    }
  }

  /** The constructor's filter keeps each note file of a listing without
      duplicates exactly once. */
  lemma ListingNotes(listing: seq<string>, files: Store)
    requires NoDup(listing)
    requires forall n :: n in listing <==> n in files
    ensures multiset(TxtNotes(listing)) == multiset(NoteFiles(files))
  {
    var t := TxtNotes(listing);
    TxtNotesNoDup(listing);
    UniqueIffNoDup(t);
    forall x ensures multiset(t)[x] == multiset(NoteFiles(files))[x] {
      assert x in t <==> x in NoteFiles(files);
    }
  }

  /** Saving a listed note, whether the save fails or not, keeps the set
      of note files. */
  lemma SavedNoteFiles(store: Store, name: string, text: string, now: int, failure: Option<FileEntry>)
    requires name in NoteFiles(store)
    ensures NoteFiles(SaveAttempt(store, name, text, now, failure)) == NoteFiles(store)
  {
  }

  /** create_new_note: the new file is listed once, at the head. */
  lemma CreatedNoteFiles(notes: seq<string>, store: Store, name: string, now: int)
    requires multiset(notes) == multiset(NoteFiles(store))
    requires name !in store && EndsWith(name, Extension)
    ensures multiset([name] + notes) == multiset(NoteFiles(Write(store, name, "", now)))
  {
    var files := NoteFiles(store);
    assert NoteFiles(Write(store, name, "", now)) == files + {name};
    assert multiset([name] + notes) == multiset{name} + multiset(notes);
    assert name !in files;
    assert multiset(files + {name}) == multiset(files) + multiset{name};
  }

  /** process_rename: the renamed file takes the old one's place in the
      list, which stays newest first. */
  lemma RenamedNoteFiles(notes: seq<string>, store: Store, note: string, f: string)
    requires multiset(notes) == multiset(NoteFiles(store)) && Sorted(notes, store)
    requires note in NoteFiles(store) && EndsWith(f, Extension)
    requires f !in notes || f == note
    ensures var i := IndexOf(notes, note);
            && 0 <= i < |notes| && notes[i] == note
            && multiset(notes[i := f]) == multiset(NoteFiles(Rename(store, note, f)))
            && Sorted(notes[i := f], Rename(store, note, f))
  {
    assert Probe(0);
    ListOfSetUnique(notes, NoteFiles(store));
    UniqueIffNoDup(notes);
    var i := IndexOf(notes, note);
    RenameStaysSorted(notes, store, i, f);
    RenamedEntry(notes, store, i, f);
  }

  /** The list with one entry renamed holds the files after the rename. */
  lemma RenamedEntry(notes: seq<string>, store: Store, i: int, f: string)
    requires multiset(notes) == multiset(NoteFiles(store))
    requires 0 <= i < |notes| && notes[i] in store && EndsWith(f, Extension)
    requires f !in notes || f == notes[i]
    ensures multiset(notes[i := f]) == multiset(NoteFiles(Rename(store, notes[i], f)))
  {
    var n := notes[i];
    var files := NoteFiles(store);
    var after := NoteFiles(Rename(store, n, f));
    assert after == files - {n} + {f};
    assert f in files ==> f in multiset(notes);
    assert multiset(notes[i := f]) == multiset(notes) - multiset{n} + multiset{f};
    assert multiset(files - {n}) == multiset(files) - multiset{n};
    assert f !in files - {n};
  }

  /** do_delete: the removed file leaves the list, which stays newest
      first. */
  lemma RemovedNoteFiles(notes: seq<string>, store: Store, x: string)
    requires multiset(notes) == multiset(NoteFiles(store)) && Sorted(notes, store)
    requires x in NoteFiles(store)
    ensures multiset(RemoveFirst(notes, x)) == multiset(NoteFiles(store - {x}))
    ensures Sorted(RemoveFirst(notes, x), store - {x})
  {
    assert Probe(0);
    ListOfSetUnique(notes, NoteFiles(store));
    UniqueIffNoDup(notes);
    RemovalStaysSorted(notes, store, x);
    RemovedEntry(notes, store, x);
  }

  /** The list without the removed file's entry holds the files that are
      left. */
  lemma RemovedEntry(notes: seq<string>, store: Store, x: string)
    requires multiset(notes) == multiset(NoteFiles(store)) && x in NoteFiles(store)
    ensures multiset(RemoveFirst(notes, x)) == multiset(NoteFiles(store - {x}))
  {
    var files := NoteFiles(store);
    assert x in multiset(notes);
    RemoveFirstMultiset(notes, x);
    assert NoteFiles(store - {x}) == files - {x};
    assert multiset(files - {x}) == multiset(files) - multiset{x};
  }

  /** A rename keeps the file's time, so the list stays newest first. */
  lemma RenameStaysSorted(notes: seq<string>, store: Store, i: int, f: string)
    requires SortedByMtime(notes, store) && NoDup(notes)
    requires 0 <= i < |notes| && notes[i] in store
    requires f !in notes || f == notes[i]
    ensures SortedByMtime(notes[i := f], Rename(store, notes[i], f))
  {
    var t := notes[i := f];
    var r := Rename(store, notes[i], f);
    forall j | 0 <= j < |notes| ensures Mtime(r, t[j]) == Mtime(store, notes[j]) {
      if j != i {
        assert notes[j] != notes[i];
      }
    }
    SortedByTimes(notes, store, t, r);
  }

  /** Removing a file and its entry keeps the list newest first. */
  lemma RemovalStaysSorted(notes: seq<string>, store: Store, x: string)
    requires SortedByMtime(notes, store) && NoDup(notes) && x in notes
    ensures SortedByMtime(RemoveFirst(notes, x), store - {x})
  {
    var k := IndexOf(notes, x);
    var t := RemoveFirst(notes, x);
    RemoveFirstSlices(notes, x);
    SortedAfterRemoval(notes, store, k);
    forall j | 0 <= j < |t| ensures Mtime(store - {x}, t[j]) == Mtime(store, t[j]) {
      var j' := if j < k then j else j + 1;
      assert t[j] == notes[j'];
    }
    SortedByTimes(t, store, t, store - {x});
  }

  /** The sort of get_menu_text keeps each note file once and leaves the
      list newest first. */
  lemma SortedListing(notes: seq<string>, store: Store)
    requires multiset(notes) == multiset(NoteFiles(store))
    ensures var sorted := SortByMtime(notes, store);
            && multiset(sorted) == multiset(NoteFiles(store)) && |sorted| == |notes|
            && Sorted(sorted, store)
  {
    var sorted := SortByMtime(notes, store);
    SortIsSorted(notes, store);
    MultisetSameElements(notes, sorted);
  }

  /** The selection keeps its index, not its note: with two notes listed
      newest first, editing the second one and going back to the menu saves
      it last, the sort moves it to the head, and index 1, which stays
      selected, now holds the other note. */
  lemma SelectionFollowsPosition(a: string, b: string, store: Store, text: string, now: int)
    requires a != b && a in store && Mtime(store, a) < now
    ensures var sorted := SortByMtime([a, b], SaveAttempt(store, b, text, now, None));
            |sorted| == 2 && sorted[0] == b && sorted[1] == a
  {
    var saved := SaveAttempt(store, b, text, now, None);
    var sorted := SortByMtime([a, b], saved);
    assert Mtime(saved, a) == Mtime(store, a);
    NewestComesFirst([a, b], saved, b);
    assert multiset(sorted) == multiset{a, b};
    assert sorted == [sorted[0], sorted[1]];
    assert sorted[1] in multiset(sorted);
  }

  /** The visual order of a list that holds each file once shows each note
      once. */
  lemma MenuIsPermutation(notes: seq<string>, files: set<string>, favOrder: seq<string>, favorites: set<string>,
                          days: seq<int>)
    requires multiset(notes) == multiset(files)
    requires |days| == |notes| && IsEnumeration(favOrder, favorites)
    ensures IsPermutationOfRange(VisualOrder(notes, favOrder, favorites, days), |notes|)
  {
    ListOfSetUnique(notes, files);
    UniqueIffNoDup(notes);
    VisualOrderIsPermutation(notes, favOrder, favorites, days);
  }

  /** The visual order and the left pane are what get_menu_text makes of the
      list, the favorite order, the modification days and the selection. */
  ghost predicate Laid(order: seq<int>, lines: seq<string>, notes: seq<string>, favOrder: seq<string>,
                       favorites: set<string>, store: Store, current: int,
                       dayOf: int -> int, dayLabel: int -> string)
  {
    forall k {:trigger Probe(k)} :: Probe(k) ==>
      && order == VisualOrder(notes, favOrder, favorites, Days(notes, store, dayOf))
      && lines == MenuLines(notes, favOrder, favorites, Days(notes, store, dayOf), current, dayLabel)
  }

  /** Lays out the menu of a list that holds each note file once: the visual
      order shows each note once. */
  method LayOutMenu(notes: seq<string>, ghost files: set<string>, store: Store, current: int, favorites: set<string>,
                    favOrder: seq<string>, dayOf: int -> int, dayLabel: int -> string)
    returns (order: seq<int>, lines: seq<string>)
    requires -1 <= current < |notes| && multiset(notes) == multiset(files)
    requires IsEnumeration(favOrder, favorites)
    ensures IsPermutationOfRange(order, |notes|)
    ensures Laid(order, lines, notes, favOrder, favorites, store, current, dayOf, dayLabel)
  {
    MenuIsPermutation(notes, files, favOrder, favorites, Days(notes, store, dayOf));
    order, lines := MenuLayout(notes, store, current, favorites, favOrder, dayOf, dayLabel);
  }

  /** The list is newest first. */
  ghost predicate Sorted(notes: seq<string>, store: Store)
  {
    forall k {:trigger Probe(k)} :: Probe(k) ==> SortedByMtime(notes, store)
  }

  /** Always true. The class states what its panes and its sorted list are
      equal to behind the trigger `Probe(k)`, which its handlers never
      mention, so that the verifier expands the renderers and the sort only
      where a proof asks for them with `Probe(0)`. */
  predicate Probe(k: int) { true }

  // ---------------------------------------------------------------------
  // The application
  // ---------------------------------------------------------------------

  class App {
    var store: Store
    var notes: seq<string>
    var currentIndex: int
    var favorites: set<string>
    /** The order in which get_menu_text last iterated the favorite set. */
    var favOrder: seq<string>
    var visualToIndex: seq<int>
    var mode: Mode
    /** The id of the scheduled save, if any. */
    var saveJob: Option<nat>
    /** The save callbacks Tk still holds. */
    var pendingSaves: seq<Timer>
    var nextTimerId: nat
    var notePath: string
    /** The lines of the menu pane. */
    var leftPane: seq<string>
    /** The preview in the menu; the edited text, without the newline Tk
        keeps at its end, in the editor. */
    var rightPane: string
    var confirmation: Option<Confirmation>
    var renameDialog: Option<RenameDialog>
    var closed: bool
    /** Every write save_now attempted, as (file, text). */
    ghost var saveLog: seq<(string, string)>
    /** The editor text at the last load or save of the open note. */
    ghost var flushed: string
    /** The calendar day of a modification time, and its label. */
    const dayOf: int -> int
    const dayLabel: int -> string

    /** The list holds each note file of the directory once. */
    ghost predicate NotesMatchStore()
      reads this`notes, this`store
    {
      multiset(notes) == multiset(NoteFiles(store))
    }

    /** There is a selection exactly when there are notes. */
    ghost predicate SelectionInRange()
      reads this`notes, this`currentIndex
    {
      -1 <= currentIndex < |notes| && (currentIndex == -1 <==> |notes| == 0)
    }

    /** At most one save is pending, and it is the one `save_job` names. */
    ghost predicate TimersMatch()
      reads this`saveJob, this`pendingSaves, this`nextTimerId
    {
      && |pendingSaves| <= 1
      && (saveJob.Some? <==> |pendingSaves| == 1)
      && (saveJob.Some? ==> pendingSaves[0].id == saveJob.value && saveJob.value < nextTimerId)
    }

    /** What holds between any two handlers, whatever the panes show. */
    ghost predicate Core()
      reads this`store, this`notes, this`currentIndex, this`mode, this`notePath, this`confirmation,
            this`renameDialog
    {
      && NotesMatchStore()
      && SelectionInRange()
      && (mode == Editor ==> notePath in NoteFiles(store) && confirmation.None? && renameDialog.None?)
      && (confirmation.Some? ==>
            confirmation.value.target in NoteFiles(store) && renameDialog.None?
            && (confirmation.value.selected == ConfirmButton || confirmation.value.selected == CancelButton))
      && (renameDialog.Some? ==> renameDialog.value.target in NoteFiles(store))
    }

    /** The left pane and the visual order are what get_menu_text makes of
        the list, the favorites and the modification days. */
    ghost predicate MenuShown()
      reads this`notes, this`favOrder, this`favorites, this`store, this`currentIndex,
            this`visualToIndex, this`leftPane
    {
      Laid(visualToIndex, leftPane, notes, favOrder, favorites, store, currentIndex, dayOf, dayLabel)
    }

    /** The right pane previews the selected note, or shows why it could not
        be read; without a selection nothing is read. */
    ghost predicate PreviewShown()
      reads this`notes, this`currentIndex, this`store, this`rightPane
    {
      forall k {:trigger Probe(k)} :: Probe(k) ==>
        rightPane == PreviewPane(notes, currentIndex, store)
        || (0 <= currentIndex < |notes| && IsReadError(rightPane))
    }

    /** The list is newest first. */
    ghost predicate ListSorted()
      reads this`notes, this`store
    {
      Sorted(notes, store)
    }

    /** The menu pane is drawn from the list: the favorites were iterated
        in some order, and the visual order shows every note once. */
    ghost predicate MenuDrawn()
      reads this`store, this`notes, this`currentIndex, this`favorites, this`favOrder, this`visualToIndex,
            this`leftPane
    {
      forall k {:trigger Probe(k)} :: Probe(k) ==>
        && IsEnumeration(favOrder, favorites)
        && IsPermutationOfRange(visualToIndex, |notes|)
        && MenuShown()
    }

    /** The menu is up to date: the list is newest first and the pane is
        drawn from it. */
    ghost predicate MenuBuilt()
      reads this`store, this`notes, this`currentIndex, this`favorites, this`favOrder, this`visualToIndex,
            this`leftPane
    {
      ListSorted() && MenuDrawn()
    }

    lemma SortedList()
      requires ListSorted()
      ensures SortedByMtime(notes, store)
    {
      assert Probe(0);
    }

    /** Rebuilding the menu leaves a newest-first list as it is. */
    lemma SortedStays()
      requires ListSorted()
      ensures SortByMtime(notes, store) == notes
    {
      SortedList();
      SortKeepsSortedList(notes, store);
    }

    lemma ShownOnce()
      requires MenuDrawn()
      ensures IsPermutationOfRange(visualToIndex, |notes|)
    {
      assert Probe(0);
    }

    /** Between two events: in the menu nothing is pending and the panes
        show the state. */
    ghost predicate Valid()
      reads this`store, this`notes, this`currentIndex, this`favorites, this`favOrder, this`mode,
            this`notePath, this`confirmation, this`renameDialog, this`saveJob, this`pendingSaves,
            this`nextTimerId, this`visualToIndex, this`leftPane, this`rightPane, this`flushed
    {
      && Core()
      && TimersMatch()
      && (mode == Menu ==> saveJob.None? && MenuBuilt() && PreviewShown())
    }

    /** The menu keys are live: no overlay is open and the window is up. */
    predicate MenuReady()
      reads this`closed, this`mode, this`confirmation, this`renameDialog
    {
      !closed && mode == Menu && confirmation.None? && renameDialog.None?
    }

    /** The editor is up and its Escape key and autosave are live. */
    predicate EditorReady()
      reads this`closed, this`mode
    {
      !closed && mode == Editor
    }

    /** The start-up: the note files of the listing, the saved favorites,
        the first note selected, and the menu shown. */
    constructor(listing: seq<string>, files: Store, savedFavorites: seq<string>,
                dayOf: int -> int, dayLabel: int -> string)
      requires NoDup(listing)
      requires forall n :: n in listing <==> n in files
      ensures Valid() && MenuReady()
      ensures store == files && favorites == set f | f in savedFavorites
      ensures notes == SortByMtime(TxtNotes(listing), files)
      ensures currentIndex == (if |notes| == 0 then -1 else 0)
      ensures saveLog == []
    {
      this.dayOf := dayOf;
      this.dayLabel := dayLabel;
      store := files;
      mode := Menu;
      var txt := TxtNotes(listing);
      notes := txt;
      currentIndex := if |txt| > 0 then 0 else -1;
      saveJob := None;
      pendingSaves := [];
      nextTimerId := 0;
      notePath := "";
      favorites := set f | f in savedFavorites;
      favOrder := [];
      confirmation := None;
      renameDialog := None;
      closed := false;
      saveLog := [];
      flushed := "";
      visualToIndex := [];
      leftPane := [];
      rightPane := "";
      new;
      ListingNotes(listing, files);
      LoadMenu();
    }

    // -------------------------------------------------------------------
    // load_menu
    // -------------------------------------------------------------------

    /** get_menu_text: sorts the list newest first (a list that already is
        stays as it is), keeps the selection's index, rebuilds the visual
        order and puts the lines in the left pane. */
    method GetMenuText()
      requires Core()
      modifies this`notes, this`currentIndex, this`favOrder, this`visualToIndex, this`leftPane
      ensures Core() && MenuBuilt()
      ensures notes == SortByMtime(old(notes), store) && currentIndex == old(currentIndex)
    {
      SortNotes();
      DrawMenu();
    }

    /** The sort of get_menu_text: newest first, ties in list order. */
    method SortNotes()
      requires Core()
      modifies this`notes, this`currentIndex
      ensures Core() && ListSorted()
      ensures notes == SortByMtime(old(notes), store) && currentIndex == old(currentIndex)
    {
      SortedListing(notes, store);
      ListOfSetUnique(notes, NoteFiles(store));
      notes, currentIndex := SortedSelection(notes, store, currentIndex);
    }

    /** The drawing of get_menu_text: favorites first, then the notes by
        day, and the visual order of what is drawn. */
    method DrawMenu()
      requires NotesMatchStore() && SelectionInRange()
      modifies this`favOrder, this`visualToIndex, this`leftPane
      ensures MenuDrawn()
    {
      favOrder := EnumerateSet(favorites);
      visualToIndex, leftPane := LayOutMenu(notes, NoteFiles(store), store, currentIndex, favorites, favOrder,
                                            dayOf, dayLabel);
    }

    /** The rest of load_menu: the menu mode, and the preview of the
        selected note, or the error reading it failed with. */
    method ShowPreview()
      requires Core() && TimersMatch() && saveJob.None? && MenuBuilt()
      modifies this`mode, this`rightPane
      ensures PreviewShown()
      ensures MenuReady() == old(!closed && confirmation.None? && renameDialog.None?)
      ensures Valid() && mode == Menu
    {
      mode := Menu;
      var readFails: bool := *;
      var error: string := *;
      if |notes| > 0 && currentIndex >= 0 && readFails {
        ReadErrorTextIsReadError(error);
        rightPane := ReadErrorText(error);
      } else {
        rightPane := PreviewPane(notes, currentIndex, store);
      }
    }

    /** load_menu: rebuilds the menu and previews the selected note, whose
        index stays the same even when the sort moved the notes. */
    method LoadMenu()
      requires Core() && TimersMatch() && saveJob.None?
      modifies this`mode, this`notes, this`currentIndex, this`favOrder, this`visualToIndex, this`leftPane,
               this`rightPane
      ensures mode == Menu
      ensures notes == SortByMtime(old(notes), store) && currentIndex == old(currentIndex)
      ensures MenuReady() == old(!closed && confirmation.None? && renameDialog.None?)
      ensures Valid()
    {
      GetMenuText();
      ShowPreview();
    }

    // -------------------------------------------------------------------
    // The menu keys
    // -------------------------------------------------------------------

    /** move_up: selects the note shown one line higher, if any. */
    method MoveUp()
      requires Valid() && MenuReady()
      modifies this`mode, this`notes, this`currentIndex, this`favOrder, this`visualToIndex, this`leftPane,
               this`rightPane
      ensures Valid() && MenuReady()
      ensures notes == old(notes)
      ensures currentIndex == MoveUpTarget(notes, old(currentIndex), old(visualToIndex))
      ensures var pos := VisualPosition(notes, old(currentIndex), old(visualToIndex));
              pos > 0 ==> VisualPosition(notes, currentIndex, old(visualToIndex)) == pos - 1
      ensures VisualPosition(old(notes), old(currentIndex), old(visualToIndex)) <= 0 ==> MenuKept()
    {
      ShownOnce();
      MoveUpStep(notes, currentIndex, visualToIndex);
      if |notes| == 0 || |visualToIndex| == 0 {
        return;
      }
      var pos := VisualPosition(notes, currentIndex, visualToIndex);
      if pos <= 0 {
        return;
      }
      currentIndex := visualToIndex[pos - 1];
      SortedStays();
      LoadMenu();
    }

    /** move_down: selects the note shown one line lower, if any. */
    method MoveDown()
      requires Valid() && MenuReady()
      modifies this`mode, this`notes, this`currentIndex, this`favOrder, this`visualToIndex, this`leftPane,
               this`rightPane
      ensures Valid() && MenuReady()
      ensures notes == old(notes)
      ensures currentIndex == MoveDownTarget(notes, old(currentIndex), old(visualToIndex))
      ensures var pos := VisualPosition(notes, old(currentIndex), old(visualToIndex));
              0 <= pos < |old(visualToIndex)| - 1 ==> VisualPosition(notes, currentIndex, old(visualToIndex)) == pos + 1
      ensures var pos := VisualPosition(old(notes), old(currentIndex), old(visualToIndex));
              pos < 0 || pos >= |old(visualToIndex)| - 1 ==> MenuKept()
    {
      ShownOnce();
      MoveDownStep(notes, currentIndex, visualToIndex);
      if |notes| == 0 || |visualToIndex| == 0 {
        return;
      }
      var pos := VisualPosition(notes, currentIndex, visualToIndex);
      if pos < 0 || pos >= |visualToIndex| - 1 {
        return;
      }
      currentIndex := visualToIndex[pos + 1];
      SortedStays();
      LoadMenu();
    }

    /** toggle_favorite: flips whether the selected note is a favorite. */
    method ToggleFavorite()
      requires Valid() && MenuReady()
      modifies this`favorites, this`favOrder, this`mode, this`notes, this`currentIndex, this`visualToIndex,
               this`leftPane, this`rightPane
      ensures Valid() && MenuReady()
      ensures notes == old(notes) && currentIndex == old(currentIndex)
      ensures favorites == if currentIndex < 0 then old(favorites) else Toggle(old(favorites), notes[currentIndex])
      ensures old(currentIndex) < 0 ==> MenuKept()
    {
      if |notes| == 0 || currentIndex < 0 {
        return;
      }
      favorites := Toggle(favorites, notes[currentIndex]);
      SortedStays();
      LoadMenu();
    }

    /** create_new_note: writes an empty file under the first free name
        `note_<timestamp>.txt`, `note_<timestamp>_1.txt`, ..., puts it at the
        head of the list and opens it. */
    method CreateNewNote(timestamp: string, now: int, readError: Option<string>) returns (name: string)
      requires Valid() && MenuReady()
      modifies this`store, this`notes, this`currentIndex, this`mode, this`notePath, this`rightPane,
               this`flushed
      ensures Valid() && EditorReady()
      ensures name !in old(store) && EndsWith(name, Extension)
      ensures exists k: nat :: name == Candidate(timestamp, k) && forall j :: 0 <= j < k ==> Candidate(timestamp, j) in old(store)
      ensures store == Write(old(store), name, "", now)
      ensures notes == [name] + old(notes) && currentIndex == 0 && notePath == name
      ensures rightPane == (if readError.Some? then ReadErrorText(readError.value) else "") && flushed == rightPane
    {
      var k;
      name, k := FreshNoteName(store.Keys, timestamp);
      CandidateIsNote(timestamp, k);
      AddNote(name, now);
      EnterEditor(readError);
      assert ContentOf(store, notePath) == "";
    }

    /** The empty file of create_new_note, written and put at the head of
        the list, where the selection moves. */
    method AddNote(name: string, now: int)
      requires Core() && TimersMatch() && saveJob.None? && MenuReady()
      requires name !in store && EndsWith(name, Extension)
      modifies this`store, this`notes, this`currentIndex
      ensures store == Write(old(store), name, "", now)
      ensures notes == [name] + old(notes) && currentIndex == 0
      ensures Core() && TimersMatch() && saveJob.None? && MenuReady()
    {
      CreatedNoteFiles(notes, store, name, now);
      store, notes, currentIndex := Write(store, name, "", now), [name] + notes, 0;
    }

    /** open_note: opens the selected note in the editor, if there is one. */
    method OpenNote(readError: Option<string>)
      requires Valid() && MenuReady()
      modifies this`mode, this`notePath, this`rightPane, this`flushed
      ensures Valid() && !closed
      ensures |old(notes)| == 0 ==> mode == Menu && unchanged(this)
      ensures |old(notes)| > 0 ==> EditorReady() && notePath == notes[currentIndex]
      ensures |old(notes)| > 0 ==>
                rightPane == if readError.Some? then ReadErrorText(readError.value) else ContentOf(store, notePath)
    {
      if |notes| == 0 || currentIndex < 0 {
        return;
      }
      EnterEditor(readError);
    }

    /** The editor half of open_note: the selected note's text, or the
        error reading it failed with, becomes the edited text. */
    method EnterEditor(readError: Option<string>)
      requires Core() && TimersMatch() && saveJob.None? && mode == Menu && currentIndex >= 0
      requires confirmation.None? && renameDialog.None?
      modifies this`mode, this`notePath, this`rightPane, this`flushed
      ensures Valid() && mode == Editor
      ensures notePath == notes[currentIndex]
      ensures rightPane == if readError.Some? then ReadErrorText(readError.value) else ContentOf(store, notePath)
      ensures flushed == rightPane
    {
      ListOfSetUnique(notes, NoteFiles(store));
      mode := Editor;
      notePath := notes[currentIndex];
      var text := if readError.Some? then ReadErrorText(readError.value) else ContentOf(store, notePath);
      rightPane := text;
      flushed := text;
    }

    // -------------------------------------------------------------------
    // Rename
    // -------------------------------------------------------------------

    /** rename_note: opens the rename dialog on the selected note. */
    method RenameNote()
      requires Valid() && MenuReady()
      modifies this`renameDialog
      ensures Valid() && !closed
      ensures renameDialog == if currentIndex < 0 then None else Some(RenameDialog(notes[currentIndex], None))
    {
      if |notes| == 0 || currentIndex < 0 {
        return;
      }
      ListOfSetUnique(notes, NoteFiles(store));
      renameDialog := Some(RenameDialog(notes[currentIndex], None));
    }

    /** process_rename: validates the typed name; a refused name, or a
        rename the file system refuses, shows its error and keeps the dialog
        open; an accepted one renames the file in place in the list, keeps
        it a favorite if it was one, and closes the dialog. */
    method ProcessRename(typed: string, renameFails: bool)
      requires Valid() && !closed && mode == Menu && renameDialog.Some?
      modifies this`store, this`notes, this`currentIndex, this`favorites, this`favOrder, this`renameDialog,
               this`mode, this`visualToIndex, this`leftPane, this`rightPane
      ensures var note := old(renameDialog.value.target);
              match ValidateRename(typed, note, old(notes))
              case Failure(e) =>
                && renameDialog == Some(RenameDialog(note, Some(e))) && MenuKept()
              case Success(f) =>
                if renameFails then
                  && renameDialog == Some(RenameDialog(note, Some(RenameFailed))) && MenuKept()
                else
                  renameDialog.None? && Renamed(note, f, old(store), old(notes), old(favorites))
      ensures !closed && mode == Menu && Valid()
    {
      var note := renameDialog.value.target;
      match ValidateRename(typed, note, notes)
      case Failure(e) =>
        ShowRenameError(e);
      case Success(f) =>
        if renameFails {
          ShowRenameError(RenameFailed);
        } else {
          AcceptedNameIsFresh(typed, note, notes, f);
          AcceptRename(note, f);
        }
    }

    /** An accepted rename: the file is renamed, the dialog closes and the
        menu is rebuilt. */
    method AcceptRename(note: string, f: string)
      requires Valid() && !closed && mode == Menu
      requires renameDialog.Some? && renameDialog.value.target == note
      requires EndsWith(f, Extension) && (f in notes ==> f == note)
      modifies this`store, this`notes, this`currentIndex, this`favorites, this`favOrder, this`renameDialog,
               this`mode, this`visualToIndex, this`leftPane, this`rightPane
      ensures renameDialog.None? && Renamed(note, f, old(store), old(notes), old(favorites))
      ensures !closed && mode == Menu && Valid()
    {
      ApplyRename(note, f);
      SortedStays();
      LoadMenu();
    }

    /** The rename dialog stays open on the same note and shows `error`. */
    method ShowRenameError(error: RenameError)
      requires Valid() && renameDialog.Some?
      modifies this`renameDialog
      ensures renameDialog == Some(RenameDialog(old(renameDialog.value.target), Some(error)))
      ensures MenuKept() && Valid()
    {
      renameDialog := Some(RenameDialog(renameDialog.value.target, Some(error)));
    }

    /** Nothing the menu shows has changed: the directory, the list, the
        selection, the favorites and their order, the visual order and both
        panes. */
    twostate predicate MenuKept()
      reads this
    {
      && store == old(store) && notes == old(notes) && currentIndex == old(currentIndex)
      && favorites == old(favorites) && favOrder == old(favOrder) && visualToIndex == old(visualToIndex)
      && leftPane == old(leftPane) && rightPane == old(rightPane)
    }

    /** What an accepted rename leaves behind: the file and its entry carry
        the new name, the selection is on the renamed note, and a favorite
        stays one under its new name. */
    ghost predicate Renamed(note: string, f: string, store0: Store, notes0: seq<string>, favorites0: set<string>)
      reads this`store, this`notes, this`currentIndex, this`favorites
    {
      var i := IndexOf(notes0, note);
      && 0 <= i < |notes0| && note in store0
      && store == Rename(store0, note, f)
      && notes == notes0[i := f]
      && currentIndex == i
      && favorites == if note in favorites0 then favorites0 - {note} + {f} else favorites0
    }

    /** The file rename of process_rename, before the menu is rebuilt. */
    method ApplyRename(note: string, f: string)
      requires Core() && TimersMatch() && saveJob.None? && !closed && mode == Menu
      requires renameDialog.Some? && renameDialog.value.target == note
      requires ListSorted()
      requires EndsWith(f, Extension) && (f in notes ==> f == note)
      modifies this`store, this`notes, this`currentIndex, this`favorites, this`renameDialog
      ensures Renamed(note, f, old(store), old(notes), old(favorites))
      ensures Core() && TimersMatch() && saveJob.None? && MenuReady() && ListSorted()
    {
      RenamedNoteFiles(notes, store, note, f);
      var i := IndexOf(notes, note);
      store, notes, currentIndex, renameDialog := Rename(store, note, f), notes[i := f], i, None;
      if note in favorites {
        favorites := favorites - {note} + {f};
      }
    }

    /** close_dialog from Escape or "Annuler": nothing changes. */
    method CancelRename()
      requires Valid() && renameDialog.Some?
      modifies this`renameDialog
      ensures Valid() && renameDialog.None?
    {
      renameDialog := None;
    }

    // -------------------------------------------------------------------
    // Delete and its confirmation panel
    // -------------------------------------------------------------------

    /** delete_note: asks to confirm deleting the selected note, with
        "Annuler" highlighted. */
    method DeleteNote()
      requires Valid() && MenuReady()
      modifies this`confirmation
      ensures Valid() && !closed
      ensures confirmation == if currentIndex < 0 then None else Some(Confirmation(notes[currentIndex], CancelButton))
    {
      if |notes| == 0 || currentIndex < 0 {
        return;
      }
      ListOfSetUnique(notes, NoteFiles(store));
      confirmation := Some(Confirmation(notes[currentIndex], CancelButton));
    }

    /** Left (-1), Right and Tab (+1) in the confirmation panel. */
    method ConfirmMove(direction: int)
      requires Valid() && confirmation.Some?
      requires direction == 1 || direction == -1
      modifies this`confirmation
      ensures Valid()
      ensures confirmation == Some(old(confirmation.value).(selected := MoveButton(old(confirmation.value.selected), direction)))
    {
      var c := confirmation.value;
      confirmation := Some(c.(selected := MoveButton(c.selected, direction)));
    }

    /** Escape in the confirmation panel: it closes and nothing is deleted. */
    method ConfirmEscape()
      requires Valid() && confirmation.Some?
      modifies this`confirmation
      ensures Valid() && confirmation.None?
    {
      confirmation := None;
    }

    /** Return in the confirmation panel: it closes, and the note is deleted
        only when "Confirmer" is highlighted. */
    method ConfirmReturn(removeFails: bool)
      requires Valid() && !closed && mode == Menu && confirmation.Some?
      modifies this`confirmation, this`store, this`notes, this`currentIndex, this`favorites, this`favOrder,
               this`mode, this`visualToIndex, this`leftPane, this`rightPane
      ensures Valid() && MenuReady()
      ensures old(confirmation.value.selected) != ConfirmButton || removeFails ==> MenuKept()
      ensures old(confirmation.value.selected) == ConfirmButton ==>
                Deleted(old(confirmation.value.target), removeFails, old(store), old(notes), old(currentIndex),
                        old(favorites))
    {
      var c := confirmation.value;
      confirmation := None;
      if c.selected == ConfirmButton {
        DoDelete(c.target, removeFails);
      }
    }

    /** What do_delete leaves behind: nothing changes when the file cannot
        be removed; otherwise the note leaves the directory, the list and the
        favorites, and the selection keeps its index, clamped to the list. */
    ghost predicate Deleted(note: string, removeFails: bool, store0: Store, notes0: seq<string>, current0: int,
                            favorites0: set<string>)
      reads this`store, this`notes, this`currentIndex, this`favorites
    {
      if removeFails then store == store0 && notes == notes0 && favorites == favorites0
      else
        && store == store0 - {note}
        && notes == RemoveFirst(notes0, note)
        && favorites == favorites0 - {note}
        && currentIndex == ClampSelection(current0, |notes|)
    }

    /** do_delete. */
    method DoDelete(note: string, removeFails: bool)
      requires Valid() && MenuReady() && note in NoteFiles(store)
      modifies this`store, this`notes, this`currentIndex, this`favorites, this`favOrder, this`mode,
               this`visualToIndex, this`leftPane, this`rightPane
      ensures Deleted(note, removeFails, old(store), old(notes), old(currentIndex), old(favorites))
      ensures removeFails ==> MenuKept()
      ensures MenuReady() && Valid()
    {
      if !removeFails {
        RemoveNote(note);
        SortedStays();
        LoadMenu();
      }
    }

    /** The file removal of do_delete, before the menu is rebuilt. */
    method RemoveNote(note: string)
      requires Core() && TimersMatch() && saveJob.None? && MenuReady() && ListSorted()
      requires note in NoteFiles(store)
      modifies this`store, this`notes, this`currentIndex, this`favorites
      ensures Deleted(note, false, old(store), old(notes), old(currentIndex), old(favorites))
      ensures Core() && TimersMatch() && saveJob.None? && MenuReady() && ListSorted()
    {
      RemovedNoteFiles(notes, store, note);
      store := store - {note};
      notes := RemoveFirst(notes, note);
      if note in favorites {
        favorites := favorites - {note};
      }
      currentIndex := ClampSelection(currentIndex, |notes|);
    }

    // -------------------------------------------------------------------
    // The editor and its autosave
    // -------------------------------------------------------------------

    /** The status bar counts, shown only in the editor. */
    function EditorStatistics(): (r: Option<Statistics>)
      reads this`mode, this`rightPane
      ensures r.Some? <==> mode == Editor
      ensures r.Some? ==> r.value == TextStatistics(rightPane)
    {
      if mode != Editor then None else Some(TextStatistics(rightPane))
    }

    /** defer_save: cancels the pending save, if any, and schedules one
        500 ms from now. */
    method DeferSave(now: int)
      requires Core() && TimersMatch() && EditorReady()
      modifies this`saveJob, this`pendingSaves, this`nextTimerId
      ensures Valid()
      ensures pendingSaves == [Timer(old(nextTimerId), now + SaveDelay)]
      ensures saveJob == Some(old(nextTimerId))
    {
      if saveJob.Some? {
        pendingSaves := CancelTimer(pendingSaves, saveJob.value);
      }
      var id := nextTimerId;
      pendingSaves := pendingSaves + [Timer(id, now + SaveDelay)];
      saveJob := Some(id);
      nextTimerId := id + 1;
    }

    /** Tk's own Text bindings change the editor text: a key going down
        or a mouse paste. Nothing is scheduled; only a key release defers
        the save. */
    method EditText(text: string)
      requires Valid() && EditorReady()
      modifies this`rightPane
      ensures Valid() && EditorReady()
      ensures rightPane == text
    {
      rightPane := text;
    }

    /** A key released in the editor: the save is deferred. */
    method KeyReleased(now: int)
      requires Valid() && EditorReady()
      modifies this`saveJob, this`pendingSaves, this`nextTimerId
      ensures Valid() && EditorReady()
      ensures pendingSaves == [Timer(old(nextTimerId), now + SaveDelay)]
      ensures saveJob == Some(old(nextTimerId))
    {
      DeferSave(now);
    }

    /** save_now: writes the editor text, with Tk's final newline, to the
        open note; the job is cleared even when the write fails. */
    method SaveNow(failure: Option<FileEntry>, now: int)
      requires Core() && mode == Editor
      modifies this`store, this`saveJob, this`saveLog, this`flushed
      ensures Core()
      ensures saveLog == old(saveLog) + [(notePath, rightPane + TkTextEnd)]
      ensures store == SaveAttempt(old(store), notePath, rightPane + TkTextEnd, now, failure)
      ensures saveJob.None? && flushed == rightPane
    {
      SavedNoteFiles(store, notePath, rightPane + TkTextEnd, now, failure);
      store := SaveAttempt(store, notePath, rightPane + TkTextEnd, now, failure);
      saveLog := saveLog + [(notePath, rightPane + TkTextEnd)];
      saveJob := None;
      flushed := rightPane;
    }

    /** The pending save's deadline passed: Tk drops the callback and runs
        save_now. */
    method SaveTimerFires(failure: Option<FileEntry>, now: int)
      requires Valid() && !closed && |pendingSaves| > 0 && now >= pendingSaves[0].deadline
      modifies this`pendingSaves, this`store, this`saveJob, this`saveLog, this`flushed
      ensures Valid() && EditorReady()
      ensures pendingSaves == [] && saveJob.None?
      ensures saveLog == old(saveLog) + [(notePath, rightPane + TkTextEnd)]
      ensures store == SaveAttempt(old(store), notePath, rightPane + TkTextEnd, now, failure)
    {
      pendingSaves := pendingSaves[1..];
      SaveNow(failure, now);
    }

    /** back_to_menu: cancels the pending save, saves once whatever was
        pending, and shows the menu. */
    method BackToMenu(failure: Option<FileEntry>, now: int)
      requires Valid() && EditorReady()
      modifies this`pendingSaves, this`store, this`saveJob, this`saveLog, this`flushed, this`mode, this`notes,
               this`currentIndex, this`favOrder, this`visualToIndex, this`leftPane, this`rightPane
      ensures pendingSaves == [] && saveJob.None?
      ensures saveLog == old(saveLog) + [(old(notePath), old(rightPane) + TkTextEnd)]
      ensures store == SaveAttempt(old(store), old(notePath), old(rightPane) + TkTextEnd, now, failure)
      ensures notes == SortByMtime(old(notes), store)
      ensures currentIndex == old(currentIndex)
      ensures MenuReady() && Valid()
    {
      FlushEditor(failure, now);
      LoadMenu();
    }

    /** The first half of back_to_menu: the pending save is cancelled and
        the text is saved once. */
    method FlushEditor(failure: Option<FileEntry>, now: int)
      requires Valid() && EditorReady()
      modifies this`pendingSaves, this`store, this`saveJob, this`saveLog, this`flushed
      ensures Core() && TimersMatch() && pendingSaves == [] && saveJob.None?
      ensures saveLog == old(saveLog) + [(notePath, rightPane + TkTextEnd)]
      ensures store == SaveAttempt(old(store), notePath, rightPane + TkTextEnd, now, failure)
    {
      if saveJob.Some? {
        pendingSaves := CancelTimer(pendingSaves, saveJob.value);
      }
      SaveNow(failure, now);
    }

    /** quit_app: saves only when a save is pending in the editor, then
        closes the window. */
    method QuitApp(failure: Option<FileEntry>, now: int)
      requires Valid() && !closed
      modifies this`closed, this`pendingSaves, this`store, this`saveJob, this`saveLog, this`flushed
      ensures closed && pendingSaves == []
      ensures old(mode == Editor && saveJob.Some?) ==>
                && saveLog == old(saveLog) + [(notePath, rightPane + TkTextEnd)]
                && store == SaveAttempt(old(store), notePath, rightPane + TkTextEnd, now, failure)
      ensures !old(mode == Editor && saveJob.Some?) ==>
                saveLog == old(saveLog) && store == old(store) && flushed == old(flushed)
    {
      if mode == Editor && saveJob.Some? {
        pendingSaves := CancelTimer(pendingSaves, saveJob.value);
        SaveNow(failure, now);
      }
      closed := true;
    }
  }

  /** Typing twice within the delay leaves one pending save, and when it
      fires it writes the last text. */
  method DebounceScenario(app: App, first: string, second: string, now: int)
    requires app.Valid() && app.EditorReady()
    modifies app
    ensures app.saveLog == old(app.saveLog) + [(app.notePath, second + TkTextEnd)]
    ensures app.Valid() && app.saveJob.None? && app.pendingSaves == []
  {
    app.EditText(first);
    app.KeyReleased(now);
    app.EditText(second);
    app.KeyReleased(now + 100);
    assert |app.pendingSaves| == 1;
    app.SaveTimerFires(None, now + 100 + SaveDelay);
  }

  /** An edit with no key release after it (a paste, or a key still held)
      when nothing is pending, then the window closed: quit_app saves
      nothing, and the editor text differs from the last one saved. */
  method QuitLosesUnreleasedEdit(app: App, text: string, now: int)
    requires app.Valid() && app.EditorReady() && app.saveJob.None? && text != app.flushed
    modifies app
    ensures app.closed && app.rightPane == text && app.rightPane != app.flushed
    ensures app.saveLog == old(app.saveLog) && app.store == old(app.store)
  {
    app.EditText(text);
    app.QuitApp(None, now);
  }
}
