/** The visual order of the note list (get_menu_text): the notes are sorted
    by modification time, newest first; the favorites that still exist come
    first, then the other notes grouped by calendar day, days in order of
    first appearance. `VisualOrder` gives the index into the sorted list of
    the note shown at each visual position. */
module Ordering {
  import opened NoteStore

  predicate NoDup<T(==)>(s: seq<T>)
  {
    forall i, j :: 0 <= i < j < |s| ==> s[i] != s[j]
  }

  /** No element occurs twice, stated by counting occurrences: the form a
      reordering keeps without further proof. */
  ghost predicate Unique<T(!new)>(s: seq<T>)
  {
    forall x :: multiset(s)[x] <= 1
  }

  predicate StrictlyIncreasing(s: seq<int>)
  {
    forall i, j :: 0 <= i < j < |s| ==> s[i] < s[j]
  }

  /** `e` lists every element of `s` exactly once: one iteration order of a set. */
  ghost predicate IsEnumeration<T(!new)>(e: seq<T>, s: set<T>)
  {
    Unique(e) && (forall x :: x in e <==> x in s)
  }

  /** An iteration order of a set, chosen arbitrarily, as iterating a Python
      set yields one. */
  method EnumerateSet<T(==, !new)>(s: set<T>) returns (e: seq<T>)
    ensures IsEnumeration(e, s)
  {
    e := [];
    var rest := s;
    while rest != {}
      invariant rest <= s
      invariant NoDup(e)
      invariant forall x :: x in e <==> x in s && x !in rest
      decreases |rest|
    {
      var x :| x in rest;
      e := e + [x];
      rest := rest - {x};
    }
    UniqueIffNoDup(e);
  }

  /** `s.index(x)`, with -1 where Python raises ValueError. */
  function IndexOf<T(==)>(s: seq<T>, x: T): (r: int)
    ensures r == -1 <==> x !in s
    ensures r != -1 ==> 0 <= r < |s| && s[r] == x && x !in s[..r]
  {
    if |s| == 0 then -1
    else if s[0] == x then 0
    else
      var k := IndexOf(s[1..], x);
      assert s[1..][..k + 1] == s[1..k + 2] by { if k != -1 {} }
      if k == -1 then -1 else k + 1
  }

  /** `s.remove(x)`: drops the first occurrence of `x`. */
  function RemoveFirst<T(==)>(s: seq<T>, x: T): seq<T>
  {
    if |s| == 0 then []
    else if s[0] == x then s[1..]
    else [s[0]] + RemoveFirst(s[1..], x)
  }

  /** The list without its first `x` is what lies before and after it; a
      list without `x` stays as it is. */
  lemma {:induction false} RemoveFirstSlices<T>(s: seq<T>, x: T)
    ensures x in s ==> RemoveFirst(s, x) == s[..IndexOf(s, x)] + s[IndexOf(s, x) + 1..]
    ensures x !in s ==> RemoveFirst(s, x) == s
    decreases |s|
  {
    if |s| > 0 && s[0] != x {
      assert s == [s[0]] + s[1..];
      RemoveFirstSlices(s[1..], x);
      if x in s {
        var k := IndexOf(s[1..], x);
        assert s[..k + 1] == [s[0]] + s[1..][..k];
        assert s[k + 2..] == s[1..][k + 1..];
      }
    }
  }

  /** `s.remove(x)` takes one `x` out of the multiset of the list. */
  lemma {:induction false} RemoveFirstMultiset<T>(s: seq<T>, x: T)
    requires x in s
    ensures multiset(RemoveFirst(s, x)) == multiset(s) - multiset{x}
    decreases |s|
  {
    assert s == [s[0]] + s[1..];
    if s[0] != x {
      RemoveFirstMultiset(s[1..], x);
    }
  }

  /** `v` lists each of 0 .. n-1 exactly once and nothing else. */
  ghost predicate IsPermutationOfRange(v: seq<int>, n: int)
  {
    && NoDup(v)
    && (forall j :: 0 <= j < |v| ==> 0 <= v[j] < n)
    && (forall i :: 0 <= i < n ==> i in v)
  }

  lemma {:induction false} NoDupCardinality<T>(s: seq<T>)
    requires NoDup(s)
    ensures |set x | x in s| == |s|
  {
    if |s| > 0 {
      var p := s[..|s| - 1];
      assert NoDup(p);
      NoDupCardinality(p);
      assert (set x | x in s) == (set x | x in p) + {s[|s| - 1]};
    }
  }

  /** The set {0, ..., n-1}. */
  function Range(n: nat): (r: set<int>)
    ensures forall i :: i in r <==> 0 <= i < n
    ensures |r| == n
  {
    if n == 0 then {} else Range(n - 1) + {n - 1}
  }

  lemma PermutationLength(v: seq<int>, n: nat)
    requires IsPermutationOfRange(v, n)
    ensures |v| == n
  {
    NoDupCardinality(v);
    assert (set x | x in v) == Range(n);
  }

  /** An enumeration of a set is as long as the set is large. */
  lemma EnumerationLength<T(!new)>(e: seq<T>, s: set<T>)
    requires IsEnumeration(e, s)
    ensures |e| == |s|
  {
    UniqueIffNoDup(e);
    NoDupCardinality(e);
    assert (set x | x in e) == s;
  }

  lemma NoDupAppend<T>(a: seq<T>, b: seq<T>)
    requires NoDup(a) && NoDup(b)
    requires forall x :: x in a ==> x !in b
    ensures NoDup(a + b)
  {
    forall i, j | 0 <= i < j < |a + b| ensures (a + b)[i] != (a + b)[j] {
      if j >= |a| && i < |a| {
        assert (a + b)[i] in a && (a + b)[j] in b;
      }
    }
  }

  // ---------------------------------------------------------------------
  // sorted(..., key=getmtime, reverse=True)
  // ---------------------------------------------------------------------

  predicate SortedByMtime(s: seq<string>, store: Store)
  {
    forall i, j :: 0 <= i < j < |s| ==> Mtime(store, s[i]) >= Mtime(store, s[j])
  }

  /** Inserts `x` before the first element that is not newer than it. */
  function InsertByMtime(x: string, s: seq<string>, store: Store): (r: seq<string>)
    ensures multiset(r) == multiset(s) + multiset{x}
  {
    if |s| == 0 || Mtime(store, x) >= Mtime(store, s[0]) then [x] + s
    else
      assert s == [s[0]] + s[1..];
      [s[0]] + InsertByMtime(x, s[1..], store)
  }

  /** A stable sort, newest first: notes with equal modification times keep
      their relative order, as Python's `sorted(..., reverse=True)` does. */
  function SortByMtime(s: seq<string>, store: Store): (r: seq<string>)
    ensures multiset(r) == multiset(s)
  {
    if |s| == 0 then []
    else
      assert s == [s[0]] + s[1..];
      InsertByMtime(s[0], SortByMtime(s[1..], store), store)
  }

  /** The list is newest first: sorting it changes nothing. */
  predicate NewestFirst(s: seq<string>, store: Store)
  {
    SortByMtime(s, store) == s
  }

  lemma {:induction false} InsertKeepsSorted(x: string, s: seq<string>, store: Store)
    requires SortedByMtime(s, store)
    ensures SortedByMtime(InsertByMtime(x, s, store), store)
  {
    if |s| == 0 || Mtime(store, x) >= Mtime(store, s[0]) {
    } else {
      InsertKeepsSorted(x, s[1..], store);
      var t := InsertByMtime(x, s[1..], store);
      forall y | y in t ensures Mtime(store, s[0]) >= Mtime(store, y) {
        assert y in multiset(t);
      }
    }
  }

  /** The sorted list is a rearrangement of the notes, newest first. */
  lemma {:induction false} SortIsSorted(s: seq<string>, store: Store)
    ensures SortedByMtime(SortByMtime(s, store), store)
    ensures multiset(SortByMtime(s, store)) == multiset(s)
  {
    if |s| > 0 {
      SortIsSorted(s[1..], store);
      InsertKeepsSorted(s[0], SortByMtime(s[1..], store), store);
    }
  }

  /** Sorting a list that is already newest first changes nothing: a rebuild
      with no modification time changed leaves the note list as it is. */
  lemma {:induction false} SortKeepsSortedList(s: seq<string>, store: Store)
    requires SortedByMtime(s, store)
    ensures SortByMtime(s, store) == s
  {
    if |s| > 0 {
      SortKeepsSortedList(s[1..], store);
    }
  }

  /** A list is left unchanged by the sort exactly when it is ordered newest
      first. */
  lemma NewestFirstIffSorted(s: seq<string>, store: Store)
    ensures NewestFirst(s, store) <==> SortedByMtime(s, store)
  {
    SortIsSorted(s, store);
    if SortedByMtime(s, store) {
      SortKeepsSortedList(s, store);
    }
  }

  /** Sorting twice sorts once: a rebuild of the menu with no modification
      time changed leaves the note list where the last rebuild put it. */
  lemma SortIdempotent(s: seq<string>, store: Store)
    ensures NewestFirst(SortByMtime(s, store), store)
  {
    SortIsSorted(s, store);
    SortKeepsSortedList(SortByMtime(s, store), store);
  }

  /** Sortedness depends only on the modification times: a list whose
      entries have, one by one, the times of a sorted list is sorted. This
      covers a rename, which keeps the file's time, and a store that lost a
      file that is not in the list. */
  lemma SortedByTimes(s: seq<string>, store: Store, t: seq<string>, store': Store)
    requires SortedByMtime(s, store) && |t| == |s|
    requires forall i :: 0 <= i < |s| ==> Mtime(store', t[i]) == Mtime(store, s[i])
    ensures SortedByMtime(t, store')
  {
  }

  /** Removing one note from a sorted list leaves it sorted. */
  lemma SortedAfterRemoval(s: seq<string>, store: Store, i: int)
    requires SortedByMtime(s, store) && 0 <= i < |s|
    ensures SortedByMtime(s[..i] + s[i + 1..], store)
  {
    var t := s[..i] + s[i + 1..];
    forall a, b | 0 <= a < b < |t| ensures Mtime(store, t[a]) >= Mtime(store, t[b]) {
      var a' := if a < i then a else a + 1;
      var b' := if b < i then b else b + 1;
      assert t[a] == s[a'] && t[b] == s[b'];
    }
  }

  /** A note strictly newer than every other note of the list comes first
      once the list is sorted. */
  lemma NewestComesFirst(s: seq<string>, store: Store, x: string)
    requires x in s
    requires forall y :: y in s && y != x ==> Mtime(store, y) < Mtime(store, x)
    ensures |SortByMtime(s, store)| == |s| > 0
    ensures SortByMtime(s, store)[0] == x
  {
    var r := SortByMtime(s, store);
    SortIsSorted(s, store);
    assert |r| == |multiset(r)| == |multiset(s)| == |s|;
    assert x in multiset(r);
    var k :| 0 <= k < |r| && r[k] == x;
    assert r[0] in multiset(s);
    assert Mtime(store, r[0]) >= Mtime(store, r[k]);
  }

  /** The notes of `s` modified at time `t`, in order. */
  function WithMtime(s: seq<string>, store: Store, t: int): seq<string>
  {
    if |s| == 0 then []
    else (if Mtime(store, s[0]) == t then [s[0]] else []) + WithMtime(s[1..], store, t)
  }

  lemma {:induction false} InsertStable(x: string, s: seq<string>, store: Store, t: int)
    ensures WithMtime(InsertByMtime(x, s, store), store, t)
         == (if Mtime(store, x) == t then [x] else []) + WithMtime(s, store, t)
  {
    if |s| == 0 || Mtime(store, x) >= Mtime(store, s[0]) {
      assert ([x] + s)[1..] == s;
    } else {
      InsertStable(x, s[1..], store, t);
      assert ([s[0]] + InsertByMtime(x, s[1..], store))[1..] == InsertByMtime(x, s[1..], store);
    }
  }

  /** Stability: the notes sharing one modification time appear in the sorted
      list in the order they had before. */
  lemma {:induction false} SortIsStable(s: seq<string>, store: Store, t: int)
    ensures WithMtime(SortByMtime(s, store), store, t) == WithMtime(s, store, t)
  {
    if |s| > 0 {
      SortIsStable(s[1..], store, t);
      InsertStable(s[0], SortByMtime(s[1..], store), store, t);
    }
  }

  lemma SortKeepsNoDup(s: seq<string>, store: Store)
    requires NoDup(s)
    ensures NoDup(SortByMtime(s, store))
  {
    var r := SortByMtime(s, store);
    forall i, j | 0 <= i < j < |r| ensures r[i] != r[j] {
      if r[i] == r[j] {
        MultisetAtLeastTwo(r, i, j);
        assert multiset(s)[r[i]] >= 2;
        NoDupMultiset(s, r[i]);
      }
    }
  }

  lemma MultisetAtLeastTwo<T>(s: seq<T>, i: int, j: int)
    requires 0 <= i < j < |s| && s[i] == s[j]
    ensures multiset(s)[s[i]] >= 2
  {
    assert s == s[..i] + [s[i]] + s[i + 1..j] + [s[j]] + s[j + 1..];
  }

  /** The two ways of saying that a list has no duplicates agree. */
  lemma UniqueIffNoDup<T(!new)>(s: seq<T>)
    ensures Unique(s) <==> NoDup(s)
  {
    if Unique(s) {
      forall i, j | 0 <= i < j < |s| ensures s[i] != s[j] {
        if s[i] == s[j] {
          MultisetAtLeastTwo(s, i, j);
        }
      }
    }
    if NoDup(s) {
      forall x ensures multiset(s)[x] <= 1 {
        NoDupMultiset(s, x);
      }
    }
  }

  lemma {:induction false} NoDupMultiset<T>(s: seq<T>, x: T)
    requires NoDup(s)
    ensures multiset(s)[x] <= 1
  {
    if |s| > 0 {
      var p := s[..|s| - 1];
      assert s == p + [s[|s| - 1]];
      assert NoDup(p);
      NoDupMultiset(p, x);
      if x == s[|s| - 1] {
        assert x !in p;
      }
    }
  }

  // ---------------------------------------------------------------------
  // Grouping by calendar day
  // ---------------------------------------------------------------------

  /** The calendar day of each note of the list. */
  function Days(notes: seq<string>, store: Store, dayOf: int -> int): (d: seq<int>)
    ensures |d| == |notes|
  {
    seq(|notes|, i requires 0 <= i < |notes| => dayOf(Mtime(store, notes[i])))
  }

  /** The keys of the `notes_by_date` dictionary in insertion order: each day
      once, in order of its first note. */
  function DayKeys(days: seq<int>): (keys: seq<int>)
    ensures forall k {:trigger k in keys} :: k in keys <==> k in days
  {
    if |days| == 0 then []
    else
      var n := |days| - 1;
      var ks := DayKeys(days[..n]);
      assert days == days[..n] + [days[n]];
      if days[n] in ks then ks else ks + [days[n]]
  }

  /** Each day is a key once. */
  lemma {:induction false} DayKeysNoDup(days: seq<int>)
    ensures NoDup(DayKeys(days))
  {
    if |days| > 0 {
      DayKeysNoDup(days[..|days| - 1]);
    }
  }

  /** The list of one day in `notes_by_date`: the indices of that day's notes,
      in list order. */
  function DayGroup(days: seq<int>, k: int): (r: seq<int>)
    ensures forall i {:trigger i in r} :: i in r <==> 0 <= i < |days| && days[i] == k
    ensures forall j :: 0 <= j < |r| ==> 0 <= r[j] < |days|
  {
    if |days| == 0 then []
    else
      var n := |days| - 1;
      var g := DayGroup(days[..n], k);
      assert forall j :: 0 <= j < |g| ==> g[j] in g;
      g + (if days[n] == k then [n] else [])
  }

  /** A day's notes appear in list order. */
  lemma {:induction false} DayGroupIncreasing(days: seq<int>, k: int)
    ensures StrictlyIncreasing(DayGroup(days, k))
  {
    if |days| > 0 {
      var n := |days| - 1;
      DayGroupIncreasing(days[..n], k);
      var g := DayGroup(days[..n], k);
      assert forall j :: 0 <= j < |g| ==> g[j] in g;
    }
  }

  /** The indices of `idxs`, in order, whose note is not a favorite (the
      `continue` of the day loop). */
  function NonFavorites(idxs: seq<int>, notes: seq<string>, favorites: set<string>): (r: seq<int>)
    requires forall j :: 0 <= j < |idxs| ==> 0 <= idxs[j] < |notes|
    ensures forall i {:trigger i in r} :: i in r <==> i in idxs && 0 <= i < |notes| && notes[i] !in favorites
    ensures forall j :: 0 <= j < |r| ==> 0 <= r[j] < |notes|
  {
    if |idxs| == 0 then []
    else
      var n := |idxs| - 1;
      var p := idxs[..n];
      assert idxs == p + [idxs[n]];
      NonFavorites(p, notes, favorites) + (if notes[idxs[n]] in favorites then [] else [idxs[n]])
  }

  lemma {:induction false} NonFavoritesIncreasing(idxs: seq<int>, notes: seq<string>, favorites: set<string>)
    requires forall j :: 0 <= j < |idxs| ==> 0 <= idxs[j] < |notes|
    requires StrictlyIncreasing(idxs)
    ensures StrictlyIncreasing(NonFavorites(idxs, notes, favorites))
  {
    if |idxs| > 0 {
      var n := |idxs| - 1;
      var p := idxs[..n];
      NonFavoritesIncreasing(p, notes, favorites);
      var r := NonFavorites(p, notes, favorites);
      forall x | x in r ensures x < idxs[n] {
        assert x in p;
      }
      IncreasingAppend(r, if notes[idxs[n]] in favorites then [] else [idxs[n]]);
    }
  }

  /** The non-favorite notes of the days `keys`, day after day. */
  function Rest(days: seq<int>, keys: seq<int>, notes: seq<string>, favorites: set<string>): (r: seq<int>)
    requires |days| == |notes|
    ensures forall i {:trigger i in r} :: i in r <==> 0 <= i < |notes| && days[i] in keys && notes[i] !in favorites
    ensures forall j :: 0 <= j < |r| ==> 0 <= r[j] < |notes|
  {
    if |keys| == 0 then []
    else
      var n := |keys| - 1;
      assert keys == keys[..n] + [keys[n]];
      Rest(days, keys[..n], notes, favorites) + NonFavorites(DayGroup(days, keys[n]), notes, favorites)
  }

  lemma {:induction false} RestNoDup(days: seq<int>, keys: seq<int>, notes: seq<string>, favorites: set<string>)
    requires |days| == |notes| && NoDup(keys)
    ensures NoDup(Rest(days, keys, notes, favorites))
  {
    if |keys| > 0 {
      var n := |keys| - 1;
      var p := keys[..n];
      assert NoDup(p);
      RestNoDup(days, p, notes, favorites);
      var a := Rest(days, p, notes, favorites);
      var b := NonFavorites(DayGroup(days, keys[n]), notes, favorites);
      DayGroupIncreasing(days, keys[n]);
      NonFavoritesIncreasing(DayGroup(days, keys[n]), notes, favorites);
      assert keys[n] !in p;
      forall x | x in a ensures x !in b {
        assert days[x] in p;
      }
      NoDupAppend(a, b);
    }
  }

  // ---------------------------------------------------------------------
  // Favorites block and the whole visual order
  // ---------------------------------------------------------------------

  /** `[note for note in self.favorites if note in self.notes]`, iterating the
      favorites in `favOrder`. */
  function ValidFavorites(favOrder: seq<string>, notes: seq<string>): (r: seq<string>)
    ensures forall f {:trigger f in r} :: f in r <==> f in favOrder && f in notes
    ensures forall j :: 0 <= j < |r| ==> r[j] in notes
    ensures |r| <= |favOrder|
  {
    if |favOrder| == 0 then []
    else
      var n := |favOrder| - 1;
      var p := favOrder[..n];
      assert favOrder == p + [favOrder[n]];
      var q := ValidFavorites(p, notes);
      assert forall j :: 0 <= j < |q| ==> q[j] in notes;
      q + (if favOrder[n] in notes then [favOrder[n]] else [])
  }

  /** The favorites of an order without repetitions are listed once each. */
  lemma {:induction false} ValidFavoritesNoDup(favOrder: seq<string>, notes: seq<string>)
    requires NoDup(favOrder)
    ensures NoDup(ValidFavorites(favOrder, notes))
  {
    if |favOrder| > 0 {
      var n := |favOrder| - 1;
      var p := favOrder[..n];
      assert favOrder == p + [favOrder[n]];
      assert NoDup(p) && favOrder[n] !in p;
      ValidFavoritesNoDup(p, notes);
      var q := ValidFavorites(p, notes);
      assert favOrder[n] !in q;
      NoDupAppend(q, if favOrder[n] in notes then [favOrder[n]] else []);
    }
  }

  /** `self.notes.index(note)` for each existing favorite. */
  function FavoriteIndices(notes: seq<string>, valid: seq<string>): (r: seq<int>)
    requires forall j :: 0 <= j < |valid| ==> valid[j] in notes
    ensures |r| == |valid|
    ensures forall j {:trigger r[j]} :: 0 <= j < |r| ==> 0 <= r[j] < |notes| && notes[r[j]] == valid[j]
  {
    if |valid| == 0 then []
    else
      var n := |valid| - 1;
      FavoriteIndices(notes, valid[..n]) + [IndexOf(notes, valid[n])]
  }

  /** The number of favorites listed under the favorites header. */
  function FavoriteCount(notes: seq<string>, favOrder: seq<string>): nat
  {
    |ValidFavorites(favOrder, notes)|
  }

  /** `visual_to_index` as get_menu_text builds it. */
  function VisualOrder(notes: seq<string>, favOrder: seq<string>, favorites: set<string>, days: seq<int>): seq<int>
    requires |days| == |notes|
  {
    FavoriteIndices(notes, ValidFavorites(favOrder, notes)) + Rest(days, DayKeys(days), notes, favorites)
  }

  lemma FavoriteIndicesNoDup(notes: seq<string>, valid: seq<string>)
    requires forall j :: 0 <= j < |valid| ==> valid[j] in notes
    requires NoDup(valid)
    ensures NoDup(FavoriteIndices(notes, valid))
  {
    var f := FavoriteIndices(notes, valid);
    forall i, j | 0 <= i < j < |f| ensures f[i] != f[j] {
      assert notes[f[i]] == valid[i] && notes[f[j]] == valid[j];
    }
  }

  lemma FavoriteIndicesCover(notes: seq<string>, valid: seq<string>, i: int)
    requires forall j :: 0 <= j < |valid| ==> valid[j] in notes
    requires NoDup(notes) && 0 <= i < |notes| && notes[i] in valid
    ensures i in FavoriteIndices(notes, valid)
  {
    var f := FavoriteIndices(notes, valid);
    var j :| 0 <= j < |valid| && valid[j] == notes[i];
    assert notes[f[j]] == notes[i];
  }

  lemma VisualOrderNoDup(notes: seq<string>, favOrder: seq<string>, favorites: set<string>, days: seq<int>)
    requires |days| == |notes| && IsEnumeration(favOrder, favorites)
    ensures NoDup(VisualOrder(notes, favOrder, favorites, days))
  {
    var valid := ValidFavorites(favOrder, notes);
    var f := FavoriteIndices(notes, valid);
    var r := Rest(days, DayKeys(days), notes, favorites);
    UniqueIffNoDup(favOrder);
    ValidFavoritesNoDup(favOrder, notes);
    FavoriteIndicesNoDup(notes, valid);
    DayKeysNoDup(days);
    RestNoDup(days, DayKeys(days), notes, favorites);
    forall x | x in f ensures x !in r {
      var j :| 0 <= j < |f| && f[j] == x;
      assert valid[j] in valid;
    }
    NoDupAppend(f, r);
  }

  lemma VisualOrderCovers(notes: seq<string>, favOrder: seq<string>, favorites: set<string>, days: seq<int>, i: int)
    requires |days| == |notes| && NoDup(notes) && IsEnumeration(favOrder, favorites)
    requires 0 <= i < |notes|
    ensures i in VisualOrder(notes, favOrder, favorites, days)
  {
    var valid := ValidFavorites(favOrder, notes);
    if notes[i] in favorites {
      FavoriteIndicesCover(notes, valid, i);
    } else {
      assert days[i] in DayKeys(days);
      assert i in Rest(days, DayKeys(days), notes, favorites);
    }
  }

  lemma VisualOrderFavoritesFirst(notes: seq<string>, favOrder: seq<string>, favorites: set<string>, days: seq<int>)
    requires |days| == |notes| && IsEnumeration(favOrder, favorites)
    ensures FavoriteCount(notes, favOrder) <= |VisualOrder(notes, favOrder, favorites, days)|
    ensures forall j :: 0 <= j < FavoriteCount(notes, favOrder) ==>
              notes[VisualOrder(notes, favOrder, favorites, days)[j]] in favorites
    ensures forall j :: FavoriteCount(notes, favOrder) <= j < |VisualOrder(notes, favOrder, favorites, days)| ==>
              notes[VisualOrder(notes, favOrder, favorites, days)[j]] !in favorites
  {
    var valid := ValidFavorites(favOrder, notes);
    var f := FavoriteIndices(notes, valid);
    var r := Rest(days, DayKeys(days), notes, favorites);
    var v := VisualOrder(notes, favOrder, favorites, days);
    assert v == f + r;
    forall j | 0 <= j < |f| ensures notes[v[j]] in favorites {
      assert valid[j] in valid;
    }
    forall j | |f| <= j < |v| ensures notes[v[j]] !in favorites {
      assert v[j] == r[j - |f|] && v[j] in r;
    }
  }

  /** Every note is shown exactly once: the visual order is a permutation of
      the list's indices; the existing favorites come first and the other
      notes after them. */
  lemma VisualOrderIsPermutation(notes: seq<string>, favOrder: seq<string>, favorites: set<string>, days: seq<int>)
    requires |days| == |notes| && NoDup(notes) && IsEnumeration(favOrder, favorites)
    ensures IsPermutationOfRange(VisualOrder(notes, favOrder, favorites, days), |notes|)
    ensures |VisualOrder(notes, favOrder, favorites, days)| == |notes|
    ensures FavoriteCount(notes, favOrder) <= |notes|
    ensures forall j :: 0 <= j < FavoriteCount(notes, favOrder) ==>
              notes[VisualOrder(notes, favOrder, favorites, days)[j]] in favorites
    ensures forall j :: FavoriteCount(notes, favOrder) <= j < |notes| ==>
              notes[VisualOrder(notes, favOrder, favorites, days)[j]] !in favorites
  {
    var v := VisualOrder(notes, favOrder, favorites, days);
    VisualOrderNoDup(notes, favOrder, favorites, days);
    forall i | 0 <= i < |notes| ensures i in v {
      VisualOrderCovers(notes, favOrder, favorites, days, i);
    }
    PermutationLength(v, |notes|);
    VisualOrderFavoritesFirst(notes, favOrder, favorites, days);
  }

  // ---------------------------------------------------------------------
  // With a day function that is monotone in the modification time
  // ---------------------------------------------------------------------

  ghost predicate Monotone(dayOf: int -> int)
  {
    forall a, b :: a <= b ==> dayOf(a) <= dayOf(b)
  }

  predicate NonIncreasing(s: seq<int>)
  {
    forall i, j :: 0 <= i < j < |s| ==> s[i] >= s[j]
  }

  predicate StrictlyDecreasing(s: seq<int>)
  {
    forall i, j :: 0 <= i < j < |s| ==> s[i] > s[j]
  }

  lemma {:induction false} DayKeysNewestFirst(days: seq<int>)
    requires NonIncreasing(days)
    ensures StrictlyDecreasing(DayKeys(days))
  {
    if |days| > 0 {
      var n := |days| - 1;
      var ks := DayKeys(days[..n]);
      DayKeysNewestFirst(days[..n]);
      if days[n] !in ks {
        forall k | k in ks ensures k > days[n] {
          assert k in days[..n];
        }
        assert forall j :: 0 <= j < |ks| ==> ks[j] in ks;
      }
    }
  }

  lemma IncreasingAppend(a: seq<int>, b: seq<int>)
    requires StrictlyIncreasing(a) && StrictlyIncreasing(b)
    requires forall x, y :: x in a && y in b ==> x < y
    ensures StrictlyIncreasing(a + b)
  {
    forall i, j | 0 <= i < j < |a + b| ensures (a + b)[i] < (a + b)[j] {
      if i < |a| && j >= |a| {
        assert (a + b)[i] in a && (a + b)[j] in b;
      }
    }
  }

  lemma {:induction false} RestIncreasing(days: seq<int>, keys: seq<int>, notes: seq<string>, favorites: set<string>)
    requires |days| == |notes| && NonIncreasing(days) && StrictlyDecreasing(keys)
    ensures StrictlyIncreasing(Rest(days, keys, notes, favorites))
  {
    if |keys| > 0 {
      var n := |keys| - 1;
      var p := keys[..n];
      RestIncreasing(days, p, notes, favorites);
      var a := Rest(days, p, notes, favorites);
      var b := NonFavorites(DayGroup(days, keys[n]), notes, favorites);
      DayGroupIncreasing(days, keys[n]);
      NonFavoritesIncreasing(DayGroup(days, keys[n]), notes, favorites);
      forall x, y | x in a && y in b ensures x < y {
        assert days[x] in p;
        assert days[x] > keys[n];
        assert days[y] == keys[n];
      }
      IncreasingAppend(a, b);
    }
  }

  /** With a monotone day function and a list sorted newest first, the day
      groups follow the list: the notes after the favorites block appear in
      list order. */
  lemma NonFavoritesInListOrder(notes: seq<string>, store: Store, dayOf: int -> int,
                                favOrder: seq<string>, favorites: set<string>)
    requires Monotone(dayOf) && SortedByMtime(notes, store)
    ensures var v := VisualOrder(notes, favOrder, favorites, Days(notes, store, dayOf));
      FavoriteCount(notes, favOrder) <= |v| && StrictlyIncreasing(v[FavoriteCount(notes, favOrder)..])
  {
    var days := Days(notes, store, dayOf);
    assert NonIncreasing(days) by {
      forall i, j | 0 <= i < j < |days| ensures days[i] >= days[j] {
        assert Mtime(store, notes[j]) <= Mtime(store, notes[i]);
      }
    }
    DayKeysNewestFirst(days);
    RestIncreasing(days, DayKeys(days), notes, favorites);
    var v := VisualOrder(notes, favOrder, favorites, days);
    var valid := ValidFavorites(favOrder, notes);
    assert v[|valid|..] == Rest(days, DayKeys(days), notes, favorites);
  }
}
