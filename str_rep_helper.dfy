/**
 * Helpers for string representations: digit lookup through a char->digit
 * dictionary, alphabet validation and dictionary construction.
 */
module StrRepHelper {
  import opened Limbs
  import opened Errors

  /** The library's char->digit dictionary. */
  type Dictionary = map<char, uint32>

  predicate Distinct(s: string)
  {
    forall i, j :: 0 <= i < j < |s| ==> s[i] != s[j]
  }

  predicate Sorted(s: string)
  {
    forall i, j :: 0 <= i < j < |s| ==> s[i] <= s[j]
  }

  /** The error an alphabet is rejected with, or None when it is usable for the base. */
  function AlphabetError(alphabet: string, numberBase: nat): Option<Error>
  {
    if |alphabet| == 0 then Some(ArgumentNull)
    else if |alphabet| < numberBase then Some(Argument)
    else if !Distinct(alphabet) then Some(Argument)
    else None
  }

  /**
   * The digit a character stands for: an empty dictionary is an argument error,
   * an unknown character or a digit too big for the base a format error.
   */
  function GetDigit(charToDigits: Dictionary, ch: char, numberBase: nat): (r: Result<uint32>)
    ensures |charToDigits| == 0 ==> r == Failure(ArgumentNull)
    ensures |charToDigits| > 0 && ch !in charToDigits ==> r == Failure(Format)
    ensures r.Success? <==> |charToDigits| > 0 && ch in charToDigits && charToDigits[ch] < numberBase
    ensures r.Success? ==> r.value < numberBase && r.value == charToDigits[ch]
    ensures r.Failure? ==> r.error == ArgumentNull || r.error == Format
  {
    if |charToDigits| == 0 then Failure(ArgumentNull)
    else if ch !in charToDigits then Failure(Format)
    else if charToDigits[ch] >= numberBase then Failure(Format)
    else Success(charToDigits[ch])
  }

  /** Sorts the characters in place by insertion, as the alphabet check does. */
  method SortChars(a: array<char>)
    modifies a
    ensures Sorted(a[..])
    ensures multiset(a[..]) == multiset(old(a[..]))
  {
    if a.Length == 0 {
      return;
    }
    var next := 1;
    while next < a.Length
      invariant 1 <= next <= a.Length
      invariant Sorted(a[..next])
      invariant multiset(a[..]) == multiset(old(a[..]))
    {
      InsertAt(a, next);
      next := next + 1;
    }
    assert a[..next] == a[..];
  }

  /**
   * One pass of the insertion sort: a[next] is moved down past every bigger
   * character of the sorted prefix a[..next].
   */
  method InsertAt(a: array<char>, next: nat)
    requires next < a.Length && Sorted(a[..next])
    modifies a
    ensures Sorted(a[..next + 1])
    ensures multiset(a[..]) == multiset(old(a[..]))
  {
    var insert := a[next];
    assert a[..][next := insert] == a[..];
    var moveItem := MoveHole(a, next, insert);
    ghost var s := a[..];
    FillHoleSorted(s, moveItem, next, insert);
    a[moveItem] := insert;
    assert a[..] == s[moveItem := insert];
  }

  /** Shifts the characters of the sorted prefix that are bigger than x one place up. */
  method MoveHole(a: array<char>, next: nat, x: char) returns (moveItem: nat)
    requires next < a.Length && InsertState(a[..], next, next, x, a[..][next := x])
    modifies a
    ensures moveItem <= next && InsertState(a[..], moveItem, next, x, old(a[..][next := x]))
    ensures moveItem == 0 || a[moveItem - 1] <= x
  {
    moveItem := next;
    ghost var o := a[..][next := x];
    ghost var cur := a[..];
    while moveItem > 0 && a[moveItem - 1] > x
      invariant 0 <= moveItem <= next && a[..] == cur
      invariant InsertState(cur, moveItem, next, x, o)
    {
      cur := ShiftDown(a, moveItem, next, x, o, cur);
      moveItem := moveItem - 1;
    }
  }

  /** Moves the character below the hole into it: the hole goes one place down. */
  method ShiftDown(a: array<char>, m: nat, next: nat, x: char, ghost o: seq<char>, ghost s: seq<char>)
    returns (ghost s2: seq<char>)
    requires a[..] == s && 0 < m && InsertState(s, m, next, x, o) && s[m - 1] > x
    modifies a
    ensures a[..] == s2 && InsertState(s2, m - 1, next, x, o)
  {
    ShiftStep(s, m, next, x, o);
    a[m] := a[m - 1];
    s2 := s[m := s[m - 1]];
    assert a[..] == s2;
  }

  /** The state of one insertion pass: the hole at m, filled with x, gives back the original characters. */
  ghost predicate InsertState(s: seq<char>, m: nat, next: nat, x: char, o: seq<char>)
  {
    HoleSorted(s, m, next, x) && multiset(s[m := x]) == multiset(o)
  }

  /** Moving the hole one place down keeps the insertion state. */
  lemma {:induction false} ShiftStep(s: seq<char>, m: nat, next: nat, x: char, o: seq<char>)
    requires InsertState(s, m, next, x, o) && 0 < m && s[m - 1] > x
    ensures InsertState(s[m := s[m - 1]], m - 1, next, x, o)
  {
    ShiftKeepsMultiset(s, m, x);
    ShiftKeepsOrder(s, m, next, x);
  }

  /**
   * During one insertion pass s[..next+1] is sorted except for the hole at m,
   * and everything above the hole is bigger than the character being inserted.
   */
  ghost predicate HoleSorted(s: seq<char>, m: nat, next: nat, x: char)
  {
    m <= next < |s| &&
    (forall i, j :: 0 <= i < j <= next && i != m && j != m ==> s[i] <= s[j]) &&
    (forall i :: m < i <= next ==> x < s[i])
  }

  lemma {:induction false} ShiftKeepsOrder(s: seq<char>, m: nat, next: nat, x: char)
    requires HoleSorted(s, m, next, x) && 0 < m && s[m - 1] > x
    ensures HoleSorted(s[m := s[m - 1]], m - 1, next, x)
  {
  }

  lemma {:induction false} FillHoleSorted(s: seq<char>, m: nat, next: nat, x: char)
    requires HoleSorted(s, m, next, x) && (m == 0 || s[m - 1] <= x)
    ensures Sorted(s[m := x][..next + 1])
  {
    var t := s[m := x];
    forall i, j | 0 <= i < j <= next
      ensures t[i] <= t[j]
    {
      if j == m {
        assert s[i] <= s[m - 1] || i == m - 1;
      }
    }
  }

  /** Moving the hole of the insertion one place down keeps the characters. */
  lemma {:induction false} ShiftKeepsMultiset(s: seq<char>, m: nat, x: char)
    requires 0 < m < |s|
    ensures multiset(s[m := s[m - 1]][m - 1 := x]) == multiset(s[m := x])
  {
    var t := s[m := x];
    assert s[m := s[m - 1]][m - 1 := x] == t[m - 1 := t[m]][m := t[m - 1]];
  }

  /**
   * Validates a user alphabet: non-empty, at least numberBase characters, no
   * character twice. Repeats are found as equal neighbours after sorting a copy.
   */
  method AssertAlphabet(alphabet: string, numberBase: uint32) returns (err: Option<Error>)
    ensures err == AlphabetError(alphabet, numberBase)
  {
    if |alphabet| == 0 {
      return Some(ArgumentNull);
    }
    if |alphabet| < numberBase {
      return Some(Argument);
    }
    var sortedChars := new char[|alphabet|](i requires 0 <= i < |alphabet| => alphabet[i]);
    assert sortedChars[..] == alphabet;
    SortChars(sortedChars);
    var i := 0;
    while i < |alphabet|
      invariant 0 <= i <= |alphabet|
      invariant forall k :: 0 < k < i ==> sortedChars[k] != sortedChars[k - 1]
    {
      if i > 0 && sortedChars[i] == sortedChars[i - 1] {
        RepeatIsNotDistinct(sortedChars[..], i);
        DistinctMultiset(sortedChars[..]);
        DistinctMultiset(alphabet);
        return Some(Argument);
      }
      i := i + 1;
    }
    SortedStrictIsDistinct(sortedChars[..]);
    DistinctMultiset(sortedChars[..]);
    DistinctMultiset(alphabet);
    return None;
  }

  /**
   * The dictionary mapping alphabet[i] to i for every digit of the base,
   * after the alphabet has been validated.
   */
  method CharDictionaryFromAlphabet(alphabet: string, numberBase: uint32) returns (r: Result<Dictionary>)
    ensures r.Success? <==> AlphabetError(alphabet, numberBase) == None
    ensures r.Failure? ==> Some(r.error) == AlphabetError(alphabet, numberBase)
    ensures r.Success? ==> forall c :: c in r.value <==> c in alphabet[..numberBase]
    ensures r.Success? ==> forall i :: 0 <= i < numberBase ==> r.value[alphabet[i]] == i
    ensures r.Success? ==> |r.value| == numberBase as int
  {
    var err := AssertAlphabet(alphabet, numberBase);
    if err.Some? {
      return Failure(err.value);
    }
    var charToDigits: Dictionary := map[];
    var i: nat := 0;
    while i < numberBase
      invariant i <= numberBase <= |alphabet| && Distinct(alphabet)
      invariant IndexOfPrefix(charToDigits, alphabet, i)
    {
      AddEntry(charToDigits, alphabet, i);
      charToDigits := charToDigits[alphabet[i] := i];
      i := i + 1;
    }
    return Success(charToDigits);
  }

  /** m maps the first n characters of the alphabet, and nothing else, to their indices. */
  ghost predicate IndexOfPrefix(m: Dictionary, alphabet: string, n: nat)
    requires n <= |alphabet|
  {
    (forall c :: c in m <==> c in alphabet[..n]) &&
    (forall k :: 0 <= k < n ==> m[alphabet[k]] == k) &&
    |m| == n
  }

  /** Adding character n of a distinct alphabet extends the index of the first n to the first n + 1. */
  lemma {:induction false} AddEntry(m: Dictionary, alphabet: string, n: nat)
    requires n < |alphabet| && n < BASE && Distinct(alphabet) && IndexOfPrefix(m, alphabet, n)
    ensures IndexOfPrefix(m[alphabet[n] := n as uint32], alphabet, n + 1)
  {
    assert forall k :: 0 <= k < n ==> alphabet[k] != alphabet[n];
    assert alphabet[n] !in m;
    assert alphabet[..n + 1] == alphabet[..n] + [alphabet[n]];
  }

  /** Looking up a character of a validated alphabet gives back its position. */
  lemma {:induction false} GetDigitOfAlphabet(alphabet: string, numberBase: uint32, d: Dictionary, i: nat)
    requires AlphabetError(alphabet, numberBase) == None && i < numberBase
    requires forall c :: c in d <==> c in alphabet[..numberBase]
    requires forall k :: 0 <= k < numberBase ==> d[alphabet[k]] == k
    ensures GetDigit(d, alphabet[i], numberBase) == Success(i)
  {
    assert alphabet[..numberBase][i] == alphabet[i];
  }

  // ---------------------------------------------------------------------------
  // Distinctness through sorting

  lemma {:induction false} RepeatIsNotDistinct(s: string, i: nat)
    requires 0 < i < |s| && s[i] == s[i - 1]
    ensures !Distinct(s)
  {
  }

  lemma {:induction false} SortedStrictIsDistinct(s: string)
    requires Sorted(s)
    requires forall k :: 0 < k < |s| ==> s[k] != s[k - 1]
    ensures Distinct(s)
  {
    forall i, j | 0 <= i < j < |s|
      ensures s[i] != s[j]
    {
      assert s[i] <= s[j - 1] && s[j - 1] < s[j];
    }
  }

  /** A character at two positions occurs at least twice in the multiset. */
  lemma {:induction false} CountTwo(s: string, i: nat, j: nat)
    requires i < j < |s| && s[i] == s[j]
    ensures multiset(s)[s[i]] >= 2
  {
    assert s == s[..j] + [s[j]] + s[j + 1..];
    assert s[i] in multiset(s[..j]);
  }

  /** A string is repeat-free exactly when every character occurs at most once in its multiset. */
  lemma {:induction false} DistinctMultiset(s: string)
    ensures Distinct(s) <==> forall c :: multiset(s)[c] <= 1
  {
    if !Distinct(s) {
      var i, j :| 0 <= i < j < |s| && s[i] == s[j];
      CountTwo(s, i, j);
    } else if |s| > 0 {
      var t, c := s[..|s| - 1], s[|s| - 1];
      assert s == t + [c];
      assert Distinct(t);
      DistinctMultiset(t);
      assert c !in multiset(t);
      forall x
        ensures multiset(s)[x] <= 1
      {
        assert multiset(s)[x] == multiset(t)[x] + (if x == c then 1 else 0);
      }
    }
  }
}
