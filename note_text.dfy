/** Text helpers of the note browser: the `.txt` filter on the directory
    listing, the display name of a note, Python's whitespace handling
    (`strip`, `rstrip`, `split`), the editor statistics, the 800-character
    preview and the validation of a new name typed into the rename dialog. */
module NoteText {
  import opened Wrappers

  const Extension: string := ".txt"

  predicate EndsWith(s: string, suffix: string)
  {
    |suffix| <= |s| && s[|s| - |suffix|..] == suffix
  }

  /** The listing filter of the constructor: keep, in listing order, the
      entries whose name ends with ".txt". */
  function TxtNotes(listing: seq<string>): (r: seq<string>)
    ensures forall x {:trigger x in r} :: x in r <==> x in listing && EndsWith(x, Extension)
    ensures |r| <= |listing|
  {
    if |listing| == 0 then []
    else
      var rest := TxtNotes(listing[..|listing| - 1]);
      var last := listing[|listing| - 1];
      assert listing == listing[..|listing| - 1] + [last];
      if EndsWith(last, Extension) then rest + [last] else rest
  }

  // ---------------------------------------------------------------------
  // Display name: `note.replace(".txt", "")`
  // ---------------------------------------------------------------------

  /** True when ".txt" occurs somewhere in `s`. */
  predicate HasTxt(s: string)
  {
    |s| >= 4 && (s[..4] == Extension || HasTxt(s[1..]))
  }

  /** Python's `s.replace(".txt", "")`: every non-overlapping occurrence,
      scanning from the left, is removed, not only a trailing extension. */
  function DisplayName(s: string): (r: string)
    ensures |r| <= |s|
    ensures (|s| - |r|) % 4 == 0
    ensures !HasTxt(s) ==> r == s
  {
    if |s| < 4 then s
    else if s[..4] == Extension then DisplayName(s[4..])
    else [s[0]] + DisplayName(s[1..])
  }

  /** The intended reading: a file name made of a stem without ".txt" and the
      extension displays as that stem. */
  lemma {:induction false} DisplayNameOfStem(stem: string)
    requires !HasTxt(stem)
    ensures DisplayName(stem + Extension) == stem
  {
    var t := stem + Extension;
    if |stem| == 0 {
      assert t[4..] == [];
    } else {
      assert t[|stem|] == '.';
      assert t[..4] != Extension by {
        if |stem| >= 4 {
          assert t[..4] == stem[..4];
        } else {
          assert t[..4][|stem|] == '.' && Extension[|stem|] != '.';
        }
      }
      assert t[1..] == stem[1..] + Extension;
      assert !HasTxt(stem[1..]);
      DisplayNameOfStem(stem[1..]);
    }
  }

  /** Renaming a note to "a.txt" stores "a.txt.txt", which displays as "a". */
  lemma DisplayNameRemovesEveryOccurrence()
    ensures DisplayName("a.txt.txt") == "a"
  {
    assert "a.txt.txt"[..4][0] != Extension[0];
    assert "a.txt.txt"[1..] == ".txt.txt";
    assert ".txt.txt"[4..] == ".txt";
    assert ".txt"[4..] == "";
  }

  /** Removing occurrences can join two halves into a new ".txt": the
      displayed name of ".t.txtxt" still contains the extension. */
  lemma DisplayNameMayStillContainTxt()
    ensures DisplayName(".t.txtxt") == ".txt"
  {
    var s := ".t.txtxt";
    assert s[..4][2] != Extension[2];
    assert s[1..] == "t.txtxt";
    assert "t.txtxt"[..4][0] != Extension[0];
    assert "t.txtxt"[1..] == ".txtxt";
    assert ".txtxt"[..4] == Extension;
    assert ".txtxt"[4..] == "xt";
  }

  // ---------------------------------------------------------------------
  // Whitespace, as Python's str.isspace defines it
  // ---------------------------------------------------------------------

  predicate IsSpace(c: char)
  {
    c == ' ' || c == '\t' || c == '\n' || c == '\r' || c == '\U{0B}' || c == '\U{0C}'
    || ('\U{1C}' <= c <= '\U{1F}') || c == '\U{85}' || c == '\U{A0}' || c == '\U{1680}'
    || ('\U{2000}' <= c <= '\U{200A}') || c == '\U{2028}' || c == '\U{2029}'
    || c == '\U{202F}' || c == '\U{205F}' || c == '\U{3000}'
  }

  predicate NoSpace(s: string)
  {
    forall i :: 0 <= i < |s| ==> !IsSpace(s[i])
  }

  /** `s.rstrip()`: the longest prefix of `s` that does not end in whitespace. */
  function RStrip(s: string): (r: string)
    ensures |r| <= |s| && r == s[..|r|]
    ensures |r| == 0 || !IsSpace(r[|r| - 1])
    ensures forall i :: |r| <= i < |s| ==> IsSpace(s[i])
  {
    if |s| == 0 || !IsSpace(s[|s| - 1]) then s else RStrip(s[..|s| - 1])
  }

  /** `s.lstrip()`: the longest suffix of `s` that does not start with whitespace. */
  function LStrip(s: string): (r: string)
    ensures |r| <= |s| && r == s[|s| - |r|..]
    ensures |r| == 0 || !IsSpace(r[0])
    ensures forall i :: 0 <= i < |s| - |r| ==> IsSpace(s[i])
  {
    if |s| == 0 || !IsSpace(s[0]) then s else LStrip(s[1..])
  }

  /** `s.strip()`. */
  function Strip(s: string): string
  {
    LStrip(RStrip(s))
  }

  lemma StripTrims(s: string)
    ensures var r := Strip(s); |r| == 0 || (!IsSpace(r[0]) && !IsSpace(r[|r| - 1]))
    ensures Strip(s) == [] <==> forall i :: 0 <= i < |s| ==> IsSpace(s[i])
  {
    var rs := RStrip(s);
    var r := LStrip(rs);
    if |r| > 0 {
      assert r[|r| - 1] == rs[|rs| - 1];
    }
    if r == [] {
      assert |rs| == 0;
    }
  }

  // ---------------------------------------------------------------------
  // `s.split()` and the editor statistics
  // ---------------------------------------------------------------------

  /** The longest prefix of `s` without whitespace. */
  function TakeWord(s: string): (w: string)
    ensures |w| <= |s| && w == s[..|w|] && NoSpace(w)
    ensures |w| == |s| || IsSpace(s[|w|])
  {
    if |s| == 0 || IsSpace(s[0]) then []
    else
      var w := TakeWord(s[1..]);
      assert s[1..][..|w|] == s[1..|w| + 1];
      [s[0]] + w
  }

  /** `s.split()` with no argument: the maximal runs of non-whitespace
      characters, in order. */
  function Words(s: string): (r: seq<string>)
    ensures forall j :: 0 <= j < |r| ==> |r[j]| > 0 && NoSpace(r[j])
    decreases |s|
  {
    if |s| == 0 then []
    else if IsSpace(s[0]) then Words(s[1..])
    else
      var w := TakeWord(s);
      [w] + Words(s[|w|..])
  }

  function Concat(ws: seq<string>): string
  {
    if |ws| == 0 then [] else ws[0] + Concat(ws[1..])
  }

  /** The characters of `s` that are not whitespace, in order. */
  function NonSpace(s: string): (r: string)
    ensures NoSpace(r)
  {
    if |s| == 0 then []
    else if IsSpace(s[0]) then NonSpace(s[1..])
    else [s[0]] + NonSpace(s[1..])
  }

  lemma {:induction false} NonSpaceAppend(a: string, b: string)
    ensures NonSpace(a + b) == NonSpace(a) + NonSpace(b)
  {
    if |a| == 0 {
      assert a + b == b;
    } else {
      assert (a + b)[1..] == a[1..] + b;
      NonSpaceAppend(a[1..], b);
    }
  }

  lemma {:induction false} NonSpaceOfNoSpace(w: string)
    requires NoSpace(w)
    ensures NonSpace(w) == w
  {
    if |w| > 0 {
      NonSpaceOfNoSpace(w[1..]);
    }
  }

  /** Splitting loses exactly the whitespace: the words, glued together, are
      the non-whitespace characters of the text. */
  lemma {:induction false} WordsCoverNonSpace(s: string)
    ensures Concat(Words(s)) == NonSpace(s)
    decreases |s|
  {
    if |s| == 0 {
    } else if IsSpace(s[0]) {
      WordsCoverNonSpace(s[1..]);
    } else {
      var w := TakeWord(s);
      assert s == w + s[|w|..];
      WordsCoverNonSpace(s[|w|..]);
      NonSpaceAppend(w, s[|w|..]);
      NonSpaceOfNoSpace(w);
      assert Words(s) == [w] + Words(s[|w|..]);
      assert Words(s)[1..] == Words(s[|w|..]);
    }
  }

  /** `len(content.split())`. */
  function WordCount(content: string): nat
  {
    |Words(content)|
  }

  /** The number of positions of `s` where a word begins: a character that
      is not whitespace and comes first, or after whitespace when
      `afterSpace` (the text before `s` ended in whitespace or was empty). */
  function WordStarts(s: string, afterSpace: bool): nat
    decreases |s|
  {
    if |s| == 0 then 0
    else if IsSpace(s[0]) then WordStarts(s[1..], true)
    else (if afterSpace then 1 else 0) + WordStarts(s[1..], false)
  }

  /** Inside a word no further word begins. */
  lemma {:induction false} WordStartsSkipWord(s: string)
    ensures WordStarts(s, false) == WordStarts(s[|TakeWord(s)|..], false)
    decreases |s|
  {
    if |s| > 0 && !IsSpace(s[0]) {
      var w := TakeWord(s[1..]);
      WordStartsSkipWord(s[1..]);
      assert s[1..][|w|..] == s[|w| + 1..];
    }
  }

  /** `split()` counts one word per word start: the count is fixed by the
      text, whatever the split. */
  lemma {:induction false} WordCountIsWordStarts(s: string)
    ensures WordCount(s) == WordStarts(s, true)
    decreases |s|
  {
    if |s| > 0 {
      if IsSpace(s[0]) {
        WordCountIsWordStarts(s[1..]);
      } else {
        var w := TakeWord(s);
        var rest := s[|w|..];
        WordCountIsWordStarts(rest);
        WordStartsSkipWord(s);
        assert WordStarts(rest, false) == WordStarts(rest, true);
        assert Words(s) == [w] + Words(rest);
      }
    }
  }

  /** `len(content.rstrip())`. */
  function CharCount(content: string): nat
  {
    |RStrip(content)|
  }

  /** A text counts no words exactly when it is all whitespace, and every
      word holds at least one counted character. */
  lemma {:induction false} WordCountBounds(s: string)
    ensures WordCount(s) == 0 <==> NonSpace(s) == []
    ensures WordCount(s) <= |NonSpace(s)|
  {
    WordsCoverNonSpace(s);
    ConcatLength(Words(s));
  }

  lemma {:induction false} NonSpaceShorter(s: string)
    ensures |NonSpace(s)| <= |s|
  {
    if |s| > 0 {
      NonSpaceShorter(s[1..]);
    }
  }

  lemma {:induction false} NonSpaceOfSpaces(s: string)
    requires forall i :: 0 <= i < |s| ==> IsSpace(s[i])
    ensures NonSpace(s) == []
  {
    if |s| > 0 {
      NonSpaceOfSpaces(s[1..]);
    }
  }

  /** The word count never exceeds the character count: every word holds at
      least one character that `rstrip` keeps. */
  lemma WordsAtMostChars(s: string)
    ensures WordCount(s) <= CharCount(s)
  {
    var r := RStrip(s);
    var tail := s[|r|..];
    assert s == r + tail;
    NonSpaceAppend(r, tail);
    NonSpaceOfSpaces(tail);
    NonSpaceShorter(r);
    WordCountBounds(s);
  }

  lemma {:induction false} ConcatLength(ws: seq<string>)
    requires forall j :: 0 <= j < |ws| ==> |ws[j]| > 0
    ensures |ws| <= |Concat(ws)|
    ensures |ws| == 0 <==> Concat(ws) == []
  {
    if |ws| > 0 {
      ConcatLength(ws[1..]);
    }
  }

  // ---------------------------------------------------------------------
  // Preview of the selected note in the menu
  // ---------------------------------------------------------------------

  const PreviewLimit: nat := 800

  /** `f.read(800)`: at most the first 800 characters of the note. */
  function Preview(content: string): (p: string)
    ensures |p| <= PreviewLimit && |p| <= |content| && p == content[..|p|]
    ensures |p| == PreviewLimit || p == content
  {
    if |content| <= PreviewLimit then content else content[..PreviewLimit]
  }

  /** The truncation marker is shown when `len(preview) >= 800`. */
  predicate ShowsTruncationMarker(content: string)
  {
    |Preview(content)| >= PreviewLimit
  }

  /** The marker is shown exactly for notes of 800 characters or more, so a
      note of exactly 800 characters is announced as truncated although the
      preview shows all of it. */
  lemma TruncationMarkerExactly(content: string)
    ensures ShowsTruncationMarker(content) <==> |content| >= PreviewLimit
    ensures ShowsTruncationMarker(content) && |content| == PreviewLimit ==> Preview(content) == content
    ensures !ShowsTruncationMarker(content) ==> Preview(content) == content
  {
  }

  // ---------------------------------------------------------------------
  // Validation of a new name in the rename dialog
  // ---------------------------------------------------------------------

  datatype RenameError = EmptyName | InvalidCharacters | NameTaken | RenameFailed

  /** Characters refused in a note name. */
  predicate IsInvalidNameChar(c: char)
  {
    c == '/' || c == '\\' || c == ':' || c == '*' || c == '?' || c == '"' || c == '<' || c == '>' || c == '|'
  }

  predicate HasInvalidNameChar(s: string)
  {
    exists i :: 0 <= i < |s| && IsInvalidNameChar(s[i])
  }

  /** The three checks of `process_rename`, in the order the dialog makes
      them: the stripped name is empty, holds a refused character, or names
      another existing note. On success the new file name is the stripped
      name with ".txt" appended. */
  function ValidateRename(typed: string, note: string, notes: seq<string>): (r: Result<string, RenameError>)
    ensures r.Success? <==>
              Strip(typed) != [] && !HasInvalidNameChar(Strip(typed))
              && (Strip(typed) + Extension !in notes || Strip(typed) + Extension == note)
    ensures r.Success? ==> r.value == Strip(typed) + Extension
    ensures r == Failure(EmptyName) <==> Strip(typed) == []
    ensures r == Failure(InvalidCharacters) <==> Strip(typed) != [] && HasInvalidNameChar(Strip(typed))
    ensures r != Failure(RenameFailed)
  {
    var name := Strip(typed);
    if name == [] then Failure(EmptyName)
    else if HasInvalidNameChar(name) then Failure(InvalidCharacters)
    else if name + Extension in notes && name + Extension != note then Failure(NameTaken)
    else Success(name + Extension)
  }

  /** An accepted name is a note file name that collides with no other note,
      carries no surrounding whitespace and no refused character. */
  lemma AcceptedNameIsFresh(typed: string, note: string, notes: seq<string>, f: string)
    requires ValidateRename(typed, note, notes) == Success(f)
    ensures EndsWith(f, Extension)
    ensures f in notes ==> f == note
    ensures !IsSpace(f[0])
    ensures forall i :: 0 <= i < |f| ==> !IsInvalidNameChar(f[i])
  {
    var name := Strip(typed);
    StripTrims(typed);
    ExtensionIsValidName();
    ValidNameAppend(name, Extension);
    assert f[0] == name[0];
    assert f[|f| - 4..] == Extension;
  }

  lemma ExtensionIsValidName()
    ensures !HasInvalidNameChar(Extension)
  {
    forall i | 0 <= i < |Extension| ensures !IsInvalidNameChar(Extension[i]) {
      assert Extension[i] == '.' || Extension[i] == 't' || Extension[i] == 'x';
    }
  }

  /** Two names without refused characters make one without. */
  lemma ValidNameAppend(a: string, b: string)
    requires !HasInvalidNameChar(a) && !HasInvalidNameChar(b)
    ensures !HasInvalidNameChar(a + b)
  {
    forall i | 0 <= i < |a + b| ensures !IsInvalidNameChar((a + b)[i]) {
      if i < |a| { assert (a + b)[i] == a[i]; } else { assert (a + b)[i] == b[i - |a|]; }
    }
  }
}
