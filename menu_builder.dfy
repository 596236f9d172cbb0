/** The loops of get_menu_text, each proved to compute the part of the visual
    order and of the menu lines that the specification functions define. */
module MenuBuilder {
  import opened NoteStore
  import opened Ordering
  import opened Wrappers
  import opened MenuView

  /** The comprehension that keeps the favorites still in the list, in the
      iteration order of the favorite set. */
  method CollectValidFavorites(favOrder: seq<string>, notes: seq<string>) returns (valid: seq<string>)
    ensures valid == ValidFavorites(favOrder, notes)
  {
    valid := [];
    var k := 0;
    while k < |favOrder|
      invariant 0 <= k <= |favOrder|
      invariant valid == ValidFavorites(favOrder[..k], notes)
    {
      assert favOrder[..k + 1][..k] == favOrder[..k];
      if favOrder[k] in notes {
        valid := valid + [favOrder[k]];
      }
      k := k + 1;
    }
    assert favOrder[..k] == favOrder;
  }

  /** The loop over the existing favorites: each is looked up in the list and
      shown with a star. */
  method ListFavorites(notes: seq<string>, valid: seq<string>, current: int) returns (shown: seq<int>, lines: seq<string>)
    requires forall j :: 0 <= j < |valid| ==> valid[j] in notes
    ensures shown == FavoriteIndices(notes, valid)
    ensures lines == NoteLines(notes, shown, current, true)
  {
    shown := [];
    lines := [];
    var j := 0;
    while j < |valid|
      invariant 0 <= j <= |valid|
      invariant shown == FavoriteIndices(notes, valid[..j])
      invariant lines == NoteLines(notes, shown, current, true)
    {
      var i := IndexOf(notes, valid[j]);
      assert valid[..j + 1][..j] == valid[..j];
      NoteLinesAppend(notes, shown, i, current, true);
      shown := shown + [i];
      lines := lines + [NoteLine(notes[i], true, i == current)];
      j := j + 1;
    }
    assert valid[..j] == valid;
  }

  /** What the grouping loop has built after the first `i` notes. */
  ghost predicate GroupedUpTo(days: seq<int>, i: int, keys: seq<int>, groups: map<int, seq<int>>)
    requires 0 <= i <= |days|
  {
    && keys == DayKeys(days[..i])
    && (forall k :: k in groups <==> k in keys)
    && (forall k :: k in groups ==> groups[k] == DayGroup(days[..i], k))
  }

  /** The loop that fills `notes_by_date`: the days in order of first
      appearance, and for each day the indices of its notes. */
  method GroupByDay(notes: seq<string>, store: Store, dayOf: int -> int) returns (keys: seq<int>, groups: map<int, seq<int>>)
    ensures keys == DayKeys(Days(notes, store, dayOf))
    ensures forall k :: k in groups <==> k in keys
    ensures forall k :: k in groups ==> groups[k] == DayGroup(Days(notes, store, dayOf), k)
  {
    ghost var days := Days(notes, store, dayOf);
    keys := [];
    groups := map[];
    var i := 0;
    while i < |notes|
      invariant 0 <= i <= |notes|
      invariant GroupedUpTo(days, i, keys, groups)
    {
      var day := dayOf(Mtime(store, notes[i]));
      ghost var before, beforeKeys := groups, keys;
      if day in groups {
        groups := groups[day := groups[day] + [i]];
      } else {
        keys := keys + [day];
        groups := groups[day := [i]];
      }
      GroupStep(days, i, beforeKeys, before, keys, groups);
      i := i + 1;
    }
    assert days[..i] == days;
  }

  /** One turn of the grouping loop keeps GroupedUpTo. */
  lemma GroupStep(days: seq<int>, i: int, keys: seq<int>, groups: map<int, seq<int>>,
                  keys': seq<int>, groups': map<int, seq<int>>)
    requires 0 <= i < |days| && GroupedUpTo(days, i, keys, groups)
    requires days[i] in groups ==> keys' == keys && groups' == groups[days[i] := groups[days[i]] + [i]]
    requires days[i] !in groups ==> keys' == keys + [days[i]] && groups' == groups[days[i] := [i]]
    ensures GroupedUpTo(days, i + 1, keys', groups')
  {
    GroupKeysStep(days, i, keys, groups, keys', groups');
    forall k | k in groups'
      ensures groups'[k] == DayGroup(days[..i + 1], k)
    {
      GroupOfDayStep(days, i, keys, groups, groups', k);
    }
  }

  lemma GroupKeysStep(days: seq<int>, i: int, keys: seq<int>, groups: map<int, seq<int>>,
                      keys': seq<int>, groups': map<int, seq<int>>)
    requires 0 <= i < |days| && GroupedUpTo(days, i, keys, groups)
    requires days[i] in groups ==> keys' == keys && groups' == groups[days[i] := groups[days[i]] + [i]]
    requires days[i] !in groups ==> keys' == keys + [days[i]] && groups' == groups[days[i] := [i]]
    ensures keys' == DayKeys(days[..i + 1])
    ensures forall k :: k in groups' <==> k in keys'
  {
    DayStep(days, i);
    assert forall k :: k in groups <==> k in keys;
    assert days[i] in groups <==> days[i] in keys;
  }

  lemma GroupOfDayStep(days: seq<int>, i: int, keys: seq<int>, groups: map<int, seq<int>>,
                       groups': map<int, seq<int>>, k: int)
    requires 0 <= i < |days| && GroupedUpTo(days, i, keys, groups)
    requires days[i] in groups ==> groups' == groups[days[i] := groups[days[i]] + [i]]
    requires days[i] !in groups ==> groups' == groups[days[i] := [i]]
    requires k in groups'
    ensures groups'[k] == DayGroup(days[..i + 1], k)
  {
    DayGroupStep(days, i, k);
    if k == days[i] && k !in groups {
      DayGroupEmpty(days[..i], k);
    }
  }

  /** Extending the days by one note extends the keys and the groups the way
      the loop body of GroupByDay does. */
  lemma DayStep(days: seq<int>, i: int)
    requires 0 <= i < |days|
    ensures DayKeys(days[..i + 1]) ==
              if days[i] in DayKeys(days[..i]) then DayKeys(days[..i]) else DayKeys(days[..i]) + [days[i]]
  {
    assert days[..i + 1][..i] == days[..i];
  }

  /** A day with no note has an empty group. */
  lemma DayGroupEmpty(days: seq<int>, k: int)
    requires k !in days
    ensures DayGroup(days, k) == []
  {
    var g := DayGroup(days, k);
    if |g| > 0 {
      assert g[0] in g;
    }
  }

  lemma DayGroupStep(days: seq<int>, i: int, k: int)
    requires 0 <= i < |days|
    ensures DayGroup(days[..i + 1], k) == DayGroup(days[..i], k) + (if days[i] == k then [i] else [])
  {
    assert days[..i + 1][..i] == days[..i];
  }

  /** The notes of one day, skipping the favorites. */
  method ListDay(notes: seq<string>, members: seq<int>, favorites: set<string>, current: int)
    returns (shown: seq<int>, lines: seq<string>)
    requires forall j :: 0 <= j < |members| ==> 0 <= members[j] < |notes|
    ensures shown == NonFavorites(members, notes, favorites)
    ensures lines == NoteLines(notes, shown, current, false)
  {
    shown := [];
    lines := [];
    var m := 0;
    while m < |members|
      invariant 0 <= m <= |members|
      invariant shown == NonFavorites(members[..m], notes, favorites)
      invariant lines == NoteLines(notes, shown, current, false)
    {
      var i := members[m];
      assert members[..m + 1][..m] == members[..m];
      if notes[i] !in favorites {
        NoteLinesAppend(notes, shown, i, current, false);
        shown := shown + [i];
        lines := lines + [NoteLine(notes[i], false, i == current)];
      }
      m := m + 1;
    }
    assert members[..m] == members;
  }

  /** The loop over the days: a header per day, its notes, a blank line. */
  method ListDayGroups(notes: seq<string>, ghost days: seq<int>, keys: seq<int>, groups: map<int, seq<int>>,
                       favorites: set<string>, current: int, dayLabel: int -> string)
    returns (shown: seq<int>, lines: seq<string>)
    requires |days| == |notes|
    requires forall k :: k in keys ==> k in groups && groups[k] == DayGroup(days, k)
    ensures shown == Rest(days, keys, notes, favorites)
    ensures lines == GroupLines(notes, days, keys, favorites, current, dayLabel)
  {
    shown := [];
    lines := [];
    var g := 0;
    while g < |keys|
      invariant 0 <= g <= |keys|
      invariant shown == Rest(days, keys[..g], notes, favorites)
      invariant lines == GroupLines(notes, days, keys[..g], favorites, current, dayLabel)
    {
      var day := keys[g];
      assert keys[..g + 1][..g] == keys[..g];
      assert day in keys;
      lines := lines + [DayHeader(dayLabel(day))];
      var dayShown, dayLines := ListDay(notes, groups[day], favorites, current);
      shown := shown + dayShown;
      lines := lines + dayLines + [""];
      g := g + 1;
    }
    assert keys[..g] == keys;
  }

  /** The first half of get_menu_text: the list sorted newest first, and the
      selected note looked up again in it. Without duplicates the lookup finds
      the note at the index it was taken from, so the selection stays put. */
  method SortedSelection(notes: seq<string>, store: Store, current: int) returns (sorted: seq<string>, selection: int)
    requires Unique(notes) && -1 <= current < |notes|
    ensures sorted == SortByMtime(notes, store)
    ensures |sorted| == |notes| && (forall x :: x in sorted <==> x in notes)
    ensures selection == current
  {
    selection := current;
    sorted := SortByMtime(notes, store);
    UniqueIffNoDup(notes);
    SortKeepsNoDup(notes, store);
    MultisetSameElements(notes, sorted);
    if |notes| > 0 && selection >= 0 {
      var selected := if selection < |sorted| then Some(sorted[selection]) else None;
      if selected.Some? && selected.value != "" {
        NoDupIndexOf(sorted, selection);
        selection := IndexOf(sorted, selected.value);
      }
    }
  }

  /** The second half of get_menu_text: the title, then the favorites that
      still exist, then the day groups, or the line saying there are no
      notes. Returns the visual order and the lines. */
  method MenuLayout(notes: seq<string>, store: Store, current: int, favorites: set<string>, favOrder: seq<string>,
                    dayOf: int -> int, dayLabel: int -> string)
    returns (order: seq<int>, lines: seq<string>)
    requires -1 <= current < |notes|
    requires IsEnumeration(favOrder, favorites)
    ensures order == VisualOrder(notes, favOrder, favorites, Days(notes, store, dayOf))
    ensures lines == MenuLines(notes, favOrder, favorites, Days(notes, store, dayOf), current, dayLabel)
  {
    lines := [Title, ""];
    order := [];
    if |notes| > 0 {
      var favShown: seq<int> := [];
      var favLines: seq<string> := [];
      if favorites != {} {
        var valid := CollectValidFavorites(favOrder, notes);
        favShown, favLines := ListFavorites(notes, valid, current);
        favLines := [FavoritesHeader] + favLines + [""];
      } else {
        NoValidFavorites(notes, favOrder);
      }
      ghost var days := Days(notes, store, dayOf);
      var keys, groups := GroupByDay(notes, store, dayOf);
      var restShown, restLines := ListDayGroups(notes, days, keys, groups, favorites, current, dayLabel);
      assert favLines == FavoriteLines(notes, favOrder, favorites, current);
      assert restLines == GroupLines(notes, days, DayKeys(days), favorites, current, dayLabel);
      order := favShown + restShown;
      lines := lines + (favLines + restLines);
    } else {
      lines := lines + NoNotesLines;
    }
  }

  /** A reordering keeps the same elements and the same length. */
  lemma MultisetSameElements(s: seq<string>, t: seq<string>)
    requires multiset(t) == multiset(s)
    ensures |t| == |s|
    ensures forall x :: x in t <==> x in s
  {
    assert |multiset(t)| == |multiset(s)|;
    forall x
      ensures x in t <==> x in s
    {
      assert x in t <==> x in multiset(t);
      assert x in s <==> x in multiset(s);
    }
  }

  /** In a list without duplicates, the first occurrence of the element at
      `i` is at `i`. */
  lemma NoDupIndexOf(s: seq<string>, i: int)
    requires NoDup(s) && 0 <= i < |s|
    ensures IndexOf(s, s[i]) == i
  {
  }
}
