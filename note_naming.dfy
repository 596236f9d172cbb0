/** Names of new notes: `note_<timestamp>.txt`, and on a collision
    `note_<timestamp>_1.txt`, `note_<timestamp>_2.txt`, ... (create_new_note). */
module NoteNaming {

  predicate IsDigit(c: char)
  {
    '0' <= c <= '9'
  }

  predicate AllDigits(s: string)
  {
    forall i :: 0 <= i < |s| ==> IsDigit(s[i])
  }

  /** Decimal text of a natural number, as Python's f"{counter}" writes it. */
  function NatToString(n: nat): (s: string)
    ensures |s| > 0 && AllDigits(s)
  {
    if n < 10 then ["0123456789"[n]]
    else NatToString(n / 10) + ["0123456789"[n % 10]]
  }

  /** The value of a string of decimal digits. */
  function ParseNat(s: string): nat
    requires AllDigits(s)
  {
    if |s| == 0 then 0
    else 10 * ParseNat(s[..|s| - 1]) + (s[|s| - 1] as int - '0' as int)
  }

  /** Reading back the decimal text of `n` gives `n`. */
  lemma {:induction false} ParseNatToString(n: nat)
    ensures ParseNat(NatToString(n)) == n
  {
    var s := NatToString(n);
    if n < 10 {
      assert s[..|s| - 1] == [];
    } else {
      assert s[..|s| - 1] == NatToString(n / 10);
      ParseNatToString(n / 10);
    }
  }

  lemma NatToStringInjective(a: nat, b: nat)
    requires NatToString(a) == NatToString(b)
    ensures a == b
  {
    ParseNatToString(a);
    ParseNatToString(b);
  }

  /** The k-th name the creation loop tries: the plain name for k = 0, the
      name with suffix `_k` afterwards. */
  function Candidate(timestamp: string, k: nat): string
  {
    if k == 0 then "note_" + timestamp + ".txt"
    else "note_" + timestamp + "_" + NatToString(k) + ".txt"
  }

  /** Different attempts try different names, so the loop cannot revisit a
      name it has already found taken. */
  lemma CandidateInjective(timestamp: string, a: nat, b: nat)
    requires Candidate(timestamp, a) == Candidate(timestamp, b)
    ensures a == b
  {
    var p := "note_" + timestamp + "_";
    if a != 0 && b != 0 {
      var ca, cb := Candidate(timestamp, a), Candidate(timestamp, b);
      var da, db := NatToString(a), NatToString(b);
      assert |da| == |db|;
      assert ca == p + da + ".txt";
      assert cb == p + db + ".txt";
      assert ca[|p|..|p| + |da|] == da;
      assert cb[|p|..|p| + |db|] == db;
      NatToStringInjective(a, b);
    }
  }

  /** The first candidate name that is not in `taken`, as create_new_note
      finds it by probing the notes directory. Returns the name and the
      number of the attempt that succeeded. */
  method FreshNoteName(taken: set<string>, timestamp: string) returns (name: string, k: nat)
    ensures name == Candidate(timestamp, k)
    ensures name !in taken
    ensures forall j :: 0 <= j < k ==> Candidate(timestamp, j) in taken
  {
    name := "note_" + timestamp + ".txt";
    var counter := 1;
    ghost var unseen := taken;
    while name in taken
      invariant 1 <= counter && name == Candidate(timestamp, counter - 1)
      invariant forall j :: 0 <= j < counter - 1 ==> Candidate(timestamp, j) in taken
      invariant unseen <= taken
      invariant forall j :: 0 <= j < counter - 1 ==> Candidate(timestamp, j) !in unseen
      invariant forall f :: f in taken && f !in unseen ==> exists j :: 0 <= j < counter - 1 && Candidate(timestamp, j) == f
      decreases |unseen|
    {
      if name !in unseen {
        var j :| 0 <= j < counter - 1 && Candidate(timestamp, j) == name;
        CandidateInjective(timestamp, j, counter - 1);
      }
      unseen := unseen - {name};
      name := "note_" + timestamp + "_" + NatToString(counter) + ".txt";
      counter := counter + 1;
    }
    k := counter - 1;
  }
}
