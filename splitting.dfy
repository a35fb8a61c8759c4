/** String.split with a literal separator (a pattern such as " /by " that holds no regular
    expression metacharacter), together with a direct description of its first two pieces. */
module Splitting {
  import opened Results

  /** sep occurs in s starting at position i. */
  predicate IsAt(s: string, sep: string, i: int) {
    0 <= i && i + |sep| <= |s| && s[i..i + |sep|] == sep
  }

  function IndexOfFrom(s: string, sep: string, from: nat): (r: Option<nat>)
    requires from <= |s|
    ensures r.Some? ==> from <= r.value && IsAt(s, sep, r.value)
    ensures r.Some? ==> forall j :: from <= j < r.value ==> !IsAt(s, sep, j)
    ensures r.None? ==> forall j :: from <= j ==> !IsAt(s, sep, j)
    decreases |s| - from
  {
    if IsAt(s, sep, from) then Some(from)
    else if from == |s| then None
    else IndexOfFrom(s, sep, from + 1)
  }

  /** The position of the leftmost occurrence of sep in s, if any. */
  function IndexOf(s: string, sep: string): (r: Option<nat>)
    ensures r.Some? ==> IsAt(s, sep, r.value) && forall j :: j < r.value ==> !IsAt(s, sep, j)
    ensures r.None? ==> forall j :: !IsAt(s, sep, j)
  {
    IndexOfFrom(s, sep, 0)
  }

  /** An occurrence in a prefix of s is an occurrence in s. */
  lemma IsAtPrefix(s: string, sep: string, n: nat, j: int)
    requires n <= |s| && IsAt(s[..n], sep, j)
    ensures IsAt(s, sep, j)
  {
    assert s[..n][j..j + |sep|] == s[j..j + |sep|];
  }

  /** Occurrences in a suffix of s are the occurrences in s, shifted. */
  lemma IsAtSuffix(s: string, sep: string, m: nat, j: int)
    requires m <= |s| && 0 <= j
    ensures IsAt(s[m..], sep, j) <==> IsAt(s, sep, m + j)
  {
    if 0 <= j && j + |sep| <= |s| - m {
      assert s[m..][j..j + |sep|] == s[m + j..m + j + |sep|];
    }
  }

  /** Every piece between occurrences of sep, scanning left to right (no limit, nothing dropped). */
  function SplitAll(s: string, sep: string): (ps: seq<string>)
    requires |sep| > 0
    ensures |ps| >= 1
    decreases |s|
  {
    match IndexOf(s, sep)
    case None => [s]
    case Some(i) => [s[..i]] + SplitAll(s[i + |sep|..], sep)
  }

  /** The pieces joined back with sep between them. */
  function Join(ps: seq<string>, sep: string): string
  {
    if |ps| == 0 then "" else if |ps| == 1 then ps[0] else ps[0] + sep + Join(ps[1..], sep)
  }

  lemma JoinCons(piece: string, tail: seq<string>, sep: string)
    requires |tail| >= 1
    ensures Join([piece] + tail, sep) == piece + sep + Join(tail, sep)
  {
    assert ([piece] + tail)[1..] == tail;
  }

  /** Joining the pieces gives back the string that was split. */
  lemma {:induction false} JoinSplitAll(s: string, sep: string)
    requires |sep| > 0
    ensures Join(SplitAll(s, sep), sep) == s
    decreases |s|
  {
    match IndexOf(s, sep)
    case None =>
    case Some(i) =>
      var rest := s[i + |sep|..];
      var tail := SplitAll(rest, sep);
      JoinSplitAll(rest, sep);
      JoinCons(s[..i], tail, sep);
      assert s[i..i + |sep|] == sep;
      assert s == s[..i] + s[i..i + |sep|] + rest;
  }

  /** No piece contains the separator. */
  lemma {:induction false} SplitAllPiecesFree(s: string, sep: string)
    requires |sep| > 0
    ensures forall k :: 0 <= k < |SplitAll(s, sep)| ==> IndexOf(SplitAll(s, sep)[k], sep).None?
    decreases |s|
  {
    match IndexOf(s, sep)
    case None =>
    case Some(i) =>
      var rest := s[i + |sep|..];
      SplitAllPiecesFree(rest, sep);
      var ps := SplitAll(s, sep);
      assert ps[1..] == SplitAll(rest, sep);
      if IndexOf(s[..i], sep).Some? {
        IsAtPrefix(s, sep, i, IndexOf(s[..i], sep).value);
      }
      forall k | 1 <= k < |ps| ensures IndexOf(ps[k], sep).None? {
        assert ps[k] == SplitAll(rest, sep)[k - 1];
      }
  }

  /** Removes the empty strings at the end, as String.split does with a zero limit. */
  function StripTrailingEmpty(ps: seq<string>): (r: seq<string>)
    ensures |r| <= |ps| && r == ps[..|r|]
    ensures forall k :: |r| <= k < |ps| ==> ps[k] == ""
    ensures |r| > 0 ==> r[|r| - 1] != ""
  {
    if |ps| > 0 && ps[|ps| - 1] == "" then StripTrailingEmpty(ps[..|ps| - 1]) else ps
  }

  /** s.split(sep) in Java: the input itself when sep does not occur, and otherwise
      every piece, with the trailing empty ones removed. */
  function Split(s: string, sep: string): (ps: seq<string>)
    requires |sep| > 0
    ensures IndexOf(s, sep).None? ==> ps == [s]
    ensures |ps| <= |SplitAll(s, sep)| && ps == SplitAll(s, sep)[..|ps|]
    ensures forall k :: |ps| <= k < |SplitAll(s, sep)| ==> SplitAll(s, sep)[k] == ""
    ensures IndexOf(s, sep).Some? && |ps| > 0 ==> ps[|ps| - 1] != ""
    ensures forall k :: 0 <= k < |ps| ==> IndexOf(ps[k], sep).None?
  {
    SplitAllPiecesFree(s, sep);
    if IndexOf(s, sep).None? then [s] else StripTrailingEmpty(SplitAll(s, sep))
  }

  /** The text before the first occurrence of sep, and the text from after it up to the
      second occurrence or the end; None when sep does not occur. */
  function FirstTwo(s: string, sep: string): (r: Option<(string, string)>)
    requires |sep| > 0
    ensures r.None? <==> forall j :: !IsAt(s, sep, j)
    ensures r.Some? ==>
      var name, second := r.value.0, r.value.1;
      var start := |name| + |sep|;
      && start + |second| <= |s|
      && s[..|name|] == name && IsAt(s, sep, |name|) && s[start..start + |second|] == second
      && (forall j :: j < |name| ==> !IsAt(s, sep, j))
      && (forall j :: start <= j < start + |second| ==> !IsAt(s, sep, j))
      && (start + |second| == |s| || IsAt(s, sep, start + |second|))
  {
    match IndexOf(s, sep)
    case None => None
    case Some(i) =>
      var start := i + |sep|;
      var rest := s[start..];
      var second := match IndexOf(rest, sep) case None => rest case Some(j) => rest[..j];
      FirstTwoSecond(s, sep, start, second);
      Some((s[..i], second))
  }

  lemma FirstTwoSecond(s: string, sep: string, start: nat, second: string)
    requires start <= |s|
    requires second == match IndexOf(s[start..], sep) case None => s[start..] case Some(j) => s[start..][..j]
    ensures start + |second| <= |s| && s[start..start + |second|] == second
    ensures forall j :: start <= j < start + |second| ==> !IsAt(s, sep, j)
    ensures start + |second| == |s| || IsAt(s, sep, start + |second|)
  {
    var rest := s[start..];
    assert s[start..start + |second|] == rest[..|second|];
    forall j | start <= j < start + |second| ensures !IsAt(s, sep, j) {
      IsAtSuffix(s, sep, start, j - start);
    }
    IsAtSuffix(s, sep, start, |second|);
  }

  /** The first two pieces of SplitAll are the ones FirstTwo describes. */
  lemma SplitAllFirstTwo(s: string, sep: string)
    requires |sep| > 0
    ensures FirstTwo(s, sep).Some? <==> |SplitAll(s, sep)| >= 2
    ensures FirstTwo(s, sep).Some? ==>
      SplitAll(s, sep)[0] == FirstTwo(s, sep).value.0 && SplitAll(s, sep)[1] == FirstTwo(s, sep).value.1
  {
  }

  /** What String.split leaves at indices 0 and 1: when there are two pieces they are the
      ones FirstTwo describes, and there are two whenever the second one is not empty. */
  lemma SplitFirstTwo(s: string, sep: string)
    requires |sep| > 0
    ensures |Split(s, sep)| >= 2 ==>
      FirstTwo(s, sep).Some? && Split(s, sep)[0] == FirstTwo(s, sep).value.0 && Split(s, sep)[1] == FirstTwo(s, sep).value.1
    ensures FirstTwo(s, sep).Some? && FirstTwo(s, sep).value.1 != "" ==> |Split(s, sep)| >= 2
  {
    SplitAllFirstTwo(s, sep);
  }

  /** FirstTwo read from the leftmost occurrence and the separator-free remainder. */
  lemma FirstTwoOfFreeRemainder(t: string, sep: string, name: string, second: string)
    requires |sep| > 0 && t == name + sep + second
    requires IndexOf(t, sep) == Some(|name|) && IndexOf(second, sep).None?
    ensures FirstTwo(t, sep) == Some((name, second))
  {
    assert t[..|name|] == name;
    assert t[|name| + |sep|..] == second;
  }

  /** An occurrence inside a slice of s is an occurrence in s that ends within the slice. */
  lemma IsAtSlice(s: string, sep: string, a: nat, b: nat, j: int)
    requires a <= b <= |s| && IsAt(s[a..b], sep, j)
    ensures IsAt(s, sep, a + j) && a + j + |sep| <= b
  {
    assert s[a..][..b - a] == s[a..b];
    IsAtPrefix(s[a..], sep, b - a, j);
    IsAtSuffix(s, sep, a, j);
  }

  /** A piece FirstTwo returns contains no occurrence of sep. */
  lemma SecondIsFree(s: string, sep: string)
    requires |sep| > 0 && FirstTwo(s, sep).Some?
    ensures IndexOf(FirstTwo(s, sep).value.1, sep).None?
  {
    var name, second := FirstTwo(s, sep).value.0, FirstTwo(s, sep).value.1;
    var start := |name| + |sep|;
    forall j ensures !IsAt(second, sep, j) {
      if IsAt(second, sep, j) {
        IsAtSlice(s, sep, start, start + |second|, j);
      }
    }
  }

  /** Cutting s right after the second piece keeps the leftmost occurrence. */
  lemma FirstOccurrenceKept(s: string, sep: string)
    requires |sep| > 0 && FirstTwo(s, sep).Some?
    ensures var name := FirstTwo(s, sep).value.0;
      IndexOf(name + sep + FirstTwo(s, sep).value.1, sep) == Some(|name|)
  {
    var name, second := FirstTwo(s, sep).value.0, FirstTwo(s, sep).value.1;
    var n := |name| + |sep| + |second|;
    var t := name + sep + second;
    assert t == s[..n];
    forall j | j < |name| ensures !IsAt(t, sep, j) {
      if IsAt(t, sep, j) { IsAtPrefix(s, sep, n, j); }
    }
    assert t[|name|..|name| + |sep|] == sep;
    assert IsAt(t, sep, |name|);
  }

  /** Text after a second occurrence of sep does not change the first two pieces. */
  lemma FirstTwoIgnoresTail(s: string, sep: string)
    requires |sep| > 0 && FirstTwo(s, sep).Some?
    ensures FirstTwo(FirstTwo(s, sep).value.0 + sep + FirstTwo(s, sep).value.1, sep) == FirstTwo(s, sep)
  {
    var name, second := FirstTwo(s, sep).value.0, FirstTwo(s, sep).value.1;
    FirstOccurrenceKept(s, sep);
    SecondIsFree(s, sep);
    FirstTwoOfFreeRemainder(name + sep + second, sep, name, second);
  }

  /** A string lacking one of the separator's characters holds no occurrence of it. */
  lemma MissingCharNoOccurrence(s: string, sep: string, k: nat)
    requires k < |sep| && forall i :: 0 <= i < |s| ==> s[i] != sep[k]
    ensures IndexOf(s, sep).None?
  {
    forall j | 0 <= j && j + |sep| <= |s| ensures !IsAt(s, sep, j) {
      assert s[j..j + |sep|][k] != sep[k];
    }
  }

  /** A name that does not hold sep's first character is cut off exactly at the sep after it. */
  lemma NameBeforeSeparator(name: string, sep: string)
    requires |sep| > 0 && forall i :: 0 <= i < |name| ==> name[i] != sep[0]
    ensures IndexOf(name + sep, sep) == Some(|name|)
  {
    var t := name + sep;
    forall j | 0 <= j < |name| ensures !IsAt(t, sep, j) {
      assert t[j..j + |sep|][0] != sep[0];
    }
    assert t[|name|..|name| + |sep|] == sep;
    assert IsAt(t, sep, |name|);
  }

  /** FirstTwo of name, sep and a separator-free remainder, when sep first occurs after name. */
  lemma FirstTwoOfParts(name: string, sep: string, second: string)
    requires |sep| > 0 && IndexOf(name + sep, sep) == Some(|name|) && IndexOf(second, sep).None?
    ensures FirstTwo(name + sep + second, sep) == Some((name, second))
  {
    var t := name + sep;
    var s := t + second;
    assert s[..|t|] == t;
    forall j | j < |name| ensures !IsAt(s, sep, j) {
      if IsAt(s, sep, j) {
        assert s[j..j + |sep|] == t[j..j + |sep|];
        assert IsAt(t, sep, j);
      }
    }
    assert s[|name|..|name| + |sep|] == t[|name|..|name| + |sep|];
    assert IsAt(s, sep, |name|);
    assert name + sep + second == s;
    FirstTwoOfFreeRemainder(s, sep, name, second);
  }
}
