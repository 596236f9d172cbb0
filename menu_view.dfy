/** What the menu shows: the lines of the note list in the left pane
    (get_menu_text) and the preview of the selected note in the right pane
    (load_menu). */
module MenuView {
  import opened NoteText
  import opened NoteStore
  import opened Ordering

  const Title: string := "** NOTES DISPONIBLES **"
  const FavoritesHeader: string := "-- FAVORIS --"
  const NoNotesLines: seq<string> :=
    ["> AUCUNE NOTE DISPONIBLE", "", "Utilisez 'n' pour créer une nouvelle note"]

  /** One note in the list: bracketed when selected, padded with two spaces
      otherwise; favorites carry a star. */
  function NoteLine(note: string, star: bool, selected: bool): string
  {
    var text := (if star then "★ " else "") + DisplayName(note);
    if selected then "[ " + text + " ]" else "  " + text + "  "
  }

  /** The lines of the notes `idxs`, in order. */
  function NoteLines(notes: seq<string>, idxs: seq<int>, current: int, star: bool): (r: seq<string>)
    requires forall j :: 0 <= j < |idxs| ==> 0 <= idxs[j] < |notes|
    ensures |r| == |idxs|
    ensures forall j {:trigger r[j]} :: 0 <= j < |r| ==> r[j] == NoteLine(notes[idxs[j]], star, idxs[j] == current)
  {
    seq(|idxs|, j requires 0 <= j < |idxs| => NoteLine(notes[idxs[j]], star, idxs[j] == current))
  }

  /** One more index adds its line at the end. */
  lemma NoteLinesAppend(notes: seq<string>, idxs: seq<int>, i: int, current: int, star: bool)
    requires forall j :: 0 <= j < |idxs| ==> 0 <= idxs[j] < |notes|
    requires 0 <= i < |notes|
    ensures NoteLines(notes, idxs + [i], current, star)
         == NoteLines(notes, idxs, current, star) + [NoteLine(notes[i], star, i == current)]
  {
    assert (idxs + [i])[..|idxs|] == idxs;
  }

  function DayHeader(day: string): string
  {
    "-- " + day + " --"
  }

  /** The day groups `keys`: each a header, its non-favorite notes and a blank
      line. The header is there even when every note of the day is a favorite. */
  function GroupLines(notes: seq<string>, days: seq<int>, keys: seq<int>, favorites: set<string>,
                      current: int, dayLabel: int -> string): seq<string>
    requires |days| == |notes|
  {
    if |keys| == 0 then []
    else
      var n := |keys| - 1;
      GroupLines(notes, days, keys[..n], favorites, current, dayLabel)
        + [DayHeader(dayLabel(keys[n]))]
        + NoteLines(notes, NonFavorites(DayGroup(days, keys[n]), notes, favorites), current, false)
        + [""]
  }

  /** The favorites block: shown whenever the favorite set is non-empty, even
      when none of its notes exists any more. */
  function FavoriteLines(notes: seq<string>, favOrder: seq<string>, favorites: set<string>, current: int): seq<string>
  {
    if favorites == {} then []
    else [FavoritesHeader] + NoteLines(notes, FavoriteIndices(notes, ValidFavorites(favOrder, notes)), current, true) + [""]
  }

  /** The lines of get_menu_text, for a note list that is already sorted. */
  function MenuLines(notes: seq<string>, favOrder: seq<string>, favorites: set<string>, days: seq<int>,
                     current: int, dayLabel: int -> string): seq<string>
    requires |days| == |notes|
  {
    [Title, ""] +
    if |notes| == 0 then NoNotesLines
    else FavoriteLines(notes, favOrder, favorites, current) + GroupLines(notes, days, DayKeys(days), favorites, current, dayLabel)
  }

  // ---------------------------------------------------------------------
  // Exactly one highlighted line
  // ---------------------------------------------------------------------

  predicate IsSelectedLine(line: string)
  {
    |line| > 0 && line[0] == '['
  }

  function CountSelected(lines: seq<string>): nat
  {
    if |lines| == 0 then 0
    else CountSelected(lines[..|lines| - 1]) + (if IsSelectedLine(lines[|lines| - 1]) then 1 else 0)
  }

  function Occurrences(v: seq<int>, x: int): nat
  {
    if |v| == 0 then 0
    else Occurrences(v[..|v| - 1], x) + (if v[|v| - 1] == x then 1 else 0)
  }

  lemma {:induction false} CountSelectedAppend(a: seq<string>, b: seq<string>)
    ensures CountSelected(a + b) == CountSelected(a) + CountSelected(b)
  {
    if |b| == 0 {
      assert a + b == a;
    } else {
      var n := |b| - 1;
      assert (a + b)[..|a + b| - 1] == a + b[..n];
      assert (a + b)[|a + b| - 1] == b[n];
      CountSelectedAppend(a, b[..n]);
    }
  }

  lemma {:induction false} NoSelectedLines(lines: seq<string>)
    requires forall j :: 0 <= j < |lines| ==> !IsSelectedLine(lines[j])
    ensures CountSelected(lines) == 0
  {
    if |lines| > 0 {
      NoSelectedLines(lines[..|lines| - 1]);
    }
  }

  lemma {:induction false} OccurrencesAppend(a: seq<int>, b: seq<int>, x: int)
    ensures Occurrences(a + b, x) == Occurrences(a, x) + Occurrences(b, x)
  {
    if |b| == 0 {
      assert a + b == a;
    } else {
      var n := |b| - 1;
      assert (a + b)[..|a + b| - 1] == a + b[..n];
      assert (a + b)[|a + b| - 1] == b[n];
      OccurrencesAppend(a, b[..n], x);
    }
  }

  lemma {:induction false} OccurrencesNoDup(v: seq<int>, x: int)
    requires NoDup(v)
    ensures Occurrences(v, x) == if x in v then 1 else 0
  {
    if |v| > 0 {
      var n := |v| - 1;
      assert NoDup(v[..n]);
      OccurrencesNoDup(v[..n], x);
      assert v == v[..n] + [v[n]];
    }
  }

  /** A note line is highlighted exactly when it shows the selected note. */
  lemma {:induction false} NoteLinesSelected(notes: seq<string>, idxs: seq<int>, current: int, star: bool)
    requires forall j :: 0 <= j < |idxs| ==> 0 <= idxs[j] < |notes|
    ensures CountSelected(NoteLines(notes, idxs, current, star)) == Occurrences(idxs, current)
  {
    if |idxs| > 0 {
      var n := |idxs| - 1;
      NoteLinesSelected(notes, idxs[..n], current, star);
      var r := NoteLines(notes, idxs, current, star);
      assert r[..|r| - 1] == NoteLines(notes, idxs[..n], current, star);
    }
  }

  lemma {:induction false} GroupLinesSelected(notes: seq<string>, days: seq<int>, keys: seq<int>,
                                              favorites: set<string>, current: int, dayLabel: int -> string)
    requires |days| == |notes|
    ensures CountSelected(GroupLines(notes, days, keys, favorites, current, dayLabel))
         == Occurrences(Rest(days, keys, notes, favorites), current)
  {
    if |keys| > 0 {
      var n := |keys| - 1;
      var prev := GroupLines(notes, days, keys[..n], favorites, current, dayLabel);
      var idxs := NonFavorites(DayGroup(days, keys[n]), notes, favorites);
      var body := NoteLines(notes, idxs, current, false);
      GroupLinesSelected(notes, days, keys[..n], favorites, current, dayLabel);
      NoteLinesSelected(notes, idxs, current, false);
      CountSelectedAppend(prev, [DayHeader(dayLabel(keys[n]))]);
      CountSelectedAppend(prev + [DayHeader(dayLabel(keys[n]))], body);
      CountSelectedAppend(prev + [DayHeader(dayLabel(keys[n]))] + body, [""]);
      NoSelectedLines([DayHeader(dayLabel(keys[n]))]);
      NoSelectedLines([""]);
      OccurrencesAppend(Rest(days, keys[..n], notes, favorites), idxs, current);
    }
  }

  lemma FavoriteLinesSelected(notes: seq<string>, favOrder: seq<string>, favorites: set<string>, current: int)
    requires IsEnumeration(favOrder, favorites)
    ensures CountSelected(FavoriteLines(notes, favOrder, favorites, current))
         == Occurrences(FavoriteIndices(notes, ValidFavorites(favOrder, notes)), current)
  {
    var valid := ValidFavorites(favOrder, notes);
    var fav := FavoriteIndices(notes, valid);
    if favorites == {} {
      NoValidFavorites(notes, favOrder);
      assert fav == [];
    } else {
      var body := NoteLines(notes, fav, current, true);
      assert FavoriteLines(notes, favOrder, favorites, current) == [FavoritesHeader] + body + [""];
      NoteLinesSelected(notes, fav, current, true);
      BlockSelected(FavoritesHeader, body);
    }
  }

  lemma NoValidFavorites(notes: seq<string>, favOrder: seq<string>)
    requires IsEnumeration(favOrder, {})
    ensures FavoriteIndices(notes, ValidFavorites(favOrder, notes)) == []
  {
    EnumerationLength(favOrder, {});
  }

  /** A block of note lines under a header and followed by a blank line
      highlights as many lines as the note lines alone. */
  lemma BlockSelected(header: string, body: seq<string>)
    requires !IsSelectedLine(header)
    ensures CountSelected([header] + body + [""]) == CountSelected(body)
  {
    CountSelectedAppend([header], body);
    CountSelectedAppend([header] + body, [""]);
    NoSelectedLines([header]);
    NoSelectedLines([""]);
  }

  lemma MenuLinesShape(notes: seq<string>, favOrder: seq<string>, favorites: set<string>,
                       days: seq<int>, current: int, dayLabel: int -> string)
    requires |days| == |notes| && |notes| > 0
    ensures MenuLines(notes, favOrder, favorites, days, current, dayLabel)
         == [Title, ""] + (FavoriteLines(notes, favOrder, favorites, current)
                           + GroupLines(notes, days, DayKeys(days), favorites, current, dayLabel))
  {
  }

  lemma CountSelectedOfMenu(a: seq<string>, b: seq<string>)
    ensures CountSelected([Title, ""] + (a + b)) == CountSelected(a) + CountSelected(b)
  {
    NoSelectedLines([Title, ""]);
    CountSelectedAppend(a, b);
    CountSelectedAppend([Title, ""], a + b);
  }

  /** The highlighted lines of the menu are the lines of the visual positions
      that show the selected note. */
  lemma MenuSelectedLines(notes: seq<string>, favOrder: seq<string>, favorites: set<string>,
                          days: seq<int>, current: int, dayLabel: int -> string)
    requires |days| == |notes| && |notes| > 0 && IsEnumeration(favOrder, favorites)
    ensures CountSelected(MenuLines(notes, favOrder, favorites, days, current, dayLabel))
         == Occurrences(VisualOrder(notes, favOrder, favorites, days), current)
  {
    var fav := FavoriteIndices(notes, ValidFavorites(favOrder, notes));
    var rest := Rest(days, DayKeys(days), notes, favorites);
    var favLines := FavoriteLines(notes, favOrder, favorites, current);
    var groups := GroupLines(notes, days, DayKeys(days), favorites, current, dayLabel);
    MenuLinesShape(notes, favOrder, favorites, days, current, dayLabel);
    CountSelectedOfMenu(favLines, groups);
    FavoriteLinesSelected(notes, favOrder, favorites, current);
    GroupLinesSelected(notes, days, DayKeys(days), favorites, current, dayLabel);
    OccurrencesAppend(fav, rest, current);
  }

  /** The menu highlights exactly one line when the selection is an index of
      the list, and none otherwise. */
  lemma MenuHighlightsSelection(notes: seq<string>, favOrder: seq<string>, favorites: set<string>,
                                days: seq<int>, current: int, dayLabel: int -> string)
    requires |days| == |notes| && NoDup(notes) && IsEnumeration(favOrder, favorites)
    ensures CountSelected(MenuLines(notes, favOrder, favorites, days, current, dayLabel))
         == if 0 <= current < |notes| then 1 else 0
  {
    if |notes| == 0 {
      NoSelectedLines([Title, ""]);
      NoSelectedLines(NoNotesLines);
      CountSelectedAppend([Title, ""], NoNotesLines);
    } else {
      var v := VisualOrder(notes, favOrder, favorites, days);
      MenuSelectedLines(notes, favOrder, favorites, days, current, dayLabel);
      VisualOrderIsPermutation(notes, favOrder, favorites, days);
      OccurrencesNoDup(v, current);
      if 0 <= current < |notes| {
        assert current in v;
      }
    }
  }

  // ---------------------------------------------------------------------
  // The preview pane
  // ---------------------------------------------------------------------

  const NoSelectionText: string := "Créez une note avec la touche 'n' ou sélectionnez une note existante."
  const EmptyNoteText: string := "[ Note vide ]"
  const TruncationText: string := "\n\n[...] Note tronquée, appuyez sur Entrée pour voir tout"
  const ReadErrorPrefix: string := "ERREUR: Impossible de lire la note.\n"

  function PreviewHeader(note: string): string
  {
    ">> APERÇU: " + DisplayName(note) + " <<\n\n"
  }

  /** The message shown in place of a note that could not be read. */
  function ReadErrorText(error: string): string
  {
    ReadErrorPrefix + error
  }

  /** The pane shows a read error: it starts with the error notice. */
  predicate IsReadError(text: string)
  {
    |text| >= |ReadErrorPrefix| && text[..|ReadErrorPrefix|] == ReadErrorPrefix
  }

  lemma ReadErrorTextIsReadError(error: string)
    ensures IsReadError(ReadErrorText(error))
  {
    assert ReadErrorText(error)[..|ReadErrorPrefix|] == ReadErrorPrefix;
  }

  /** The right pane of the menu when the selected note can be read. */
  function PreviewPane(notes: seq<string>, current: int, store: Store): string
  {
    if |notes| > 0 && 0 <= current < |notes| then
      var note := notes[current];
      var p := Preview(ContentOf(store, note));
      PreviewHeader(note) + (if p == [] then EmptyNoteText else p) + (if |p| >= PreviewLimit then TruncationText else "")
    else NoSelectionText
  }

  /** The pane shows the header of the selected note, then its whole text when
      it is shorter than 800 characters and otherwise its first 800 followed
      by the truncation notice; an empty note is announced as such. */
  lemma PreviewPaneShows(notes: seq<string>, current: int, store: Store)
    requires 0 <= current < |notes|
    ensures var c := ContentOf(store, notes[current]);
            var h := PreviewHeader(notes[current]);
            && (|c| == 0 ==> PreviewPane(notes, current, store) == h + EmptyNoteText)
            && (0 < |c| < PreviewLimit ==> PreviewPane(notes, current, store) == h + c)
            && (|c| >= PreviewLimit ==> PreviewPane(notes, current, store) == h + c[..PreviewLimit] + TruncationText)
  {
    var c := ContentOf(store, notes[current]);
    TruncationMarkerExactly(c);
    if |c| >= PreviewLimit {
      assert Preview(c) == c[..PreviewLimit];
    }
  }
}
