/**
 * The java.lang.String operations the core relies on: isBlank, trim,
 * toLowerCase (ASCII letters only), contains/indexOf and split with a
 * literal separator.
 */
module JavaStrings {
  import opened Wrappers

  /** Character.isWhitespace, the test String.isBlank applies to every character. */
  predicate IsWhitespace(c: char) {
    || ('\t' <= c <= '\r')
    || ('\U{1C}' <= c <= ' ')
    || c == '\U{1680}'
    || ('\U{2000}' <= c <= '\U{2006}')
    || ('\U{2008}' <= c <= '\U{200A}')
    || c == '\U{2028}' || c == '\U{2029}' || c == '\U{205F}' || c == '\U{3000}'
  }

  /** String.isBlank: the string is empty or holds white space only. */
  predicate IsBlank(s: string) {
    forall i :: 0 <= i < |s| ==> IsWhitespace(s[i])
  }

  /** String.trim removes the characters at most U+0020 from the start ... */
  function TrimStart(s: string): (r: string)
    ensures |r| <= |s| && r == s[|s| - |r|..]
    ensures forall i :: 0 <= i < |s| - |r| ==> s[i] <= ' '
    ensures |r| > 0 ==> r[0] > ' '
    decreases |s|
  {
    if |s| > 0 && s[0] <= ' ' then TrimStart(s[1..]) else s
  }

  /** ... and from the end. */
  function TrimEnd(s: string): (r: string)
    ensures |r| <= |s| && r == s[..|r|]
    ensures forall i :: |r| <= i < |s| ==> s[i] <= ' '
    ensures |r| > 0 ==> r[|r| - 1] > ' '
    decreases |s|
  {
    if |s| > 0 && s[|s| - 1] <= ' ' then TrimEnd(s[..|s| - 1]) else s
  }

  /** String.trim. */
  function Trim(s: string): string {
    TrimEnd(TrimStart(s))
  }

  /**
   * What trim keeps is one contiguous stretch of `s` (a prefix of the suffix
   * TrimStart leaves) whose first and last characters are above U+0020.
   */
  lemma TrimIsInner(s: string)
    ensures |Trim(s)| <= |TrimStart(s)| <= |s|
    ensures Trim(s) == TrimStart(s)[..|Trim(s)|] && TrimStart(s) == s[|s| - |TrimStart(s)|..]
    ensures |Trim(s)| > 0 ==> Trim(s)[0] > ' ' && Trim(s)[|Trim(s)| - 1] > ' '
  {
  }

  function ToLowerChar(c: char): char {
    if 'A' <= c <= 'Z' then (c as int + 32) as char else c
  }

  function ToUpperChar(c: char): char {
    if 'a' <= c <= 'z' then (c as int - 32) as char else c
  }

  /** String.toLowerCase, restricted to the ASCII letters. */
  function ToLower(s: string): string {
    seq(|s|, i requires 0 <= i < |s| => ToLowerChar(s[i]))
  }

  /** toLowerCase keeps the length, leaves no capital behind and changes nothing but capitals. */
  lemma ToLowerLowers(s: string)
    ensures |ToLower(s)| == |s|
    ensures forall i :: 0 <= i < |s| ==> !('A' <= ToLower(s)[i] <= 'Z')
    ensures forall i :: 0 <= i < |s| && !('A' <= s[i] <= 'Z') ==> ToLower(s)[i] == s[i]
  {
  }

  /** String.toUpperCase, restricted to the ASCII letters. */
  function ToUpper(s: string): string {
    seq(|s|, i requires 0 <= i < |s| => ToUpperChar(s[i]))
  }

  /** `t` occurs in `s` starting at index `i`. */
  predicate OccursAt(s: string, t: string, i: int) {
    0 <= i && i + |t| <= |s| && s[i..i + |t|] == t
  }

  /** String.indexOf(t): the first index at which `t` occurs in `s`, None for -1. */
  function IndexOf(s: string, t: string): (r: Option<nat>)
    ensures r.Some? ==> OccursAt(s, t, r.value)
    ensures r.Some? ==> forall j :: 0 <= j < r.value ==> !OccursAt(s, t, j)
    ensures r.None? ==> forall j :: !OccursAt(s, t, j)
    decreases |s|
  {
    if |t| > |s| then None
    else if s[..|t|] == t then Some(0)
    else
      OccursInTail(s, t);
      match IndexOf(s[1..], t)
      case None => None
      case Some(k) => Some(k + 1)
  }

  /** An occurrence past index 0 is an occurrence in the tail, one place earlier. */
  lemma OccursInTail(s: string, t: string)
    requires |s| > 0
    ensures forall j :: 1 <= j ==> (OccursAt(s, t, j) <==> OccursAt(s[1..], t, j - 1))
  {
    forall j | 1 <= j
      ensures OccursAt(s, t, j) <==> OccursAt(s[1..], t, j - 1)
    {
      if j + |t| <= |s| {
        var here, inTail := s[j..j + |t|], s[1..][j - 1..j - 1 + |t|];
        assert forall k :: 0 <= k < |t| ==> here[k] == inTail[k];
        assert here == inTail;
      }
    }
  }

  /** String.contains. */
  predicate Contains(s: string, t: string) {
    IndexOf(s, t).Some?
  }

  /** A lower-case needle found in `s` is still found, at the same place, once `s` is lower-cased. */
  lemma LowerKeepsOccurrence(s: string, t: string, i: int)
    requires OccursAt(s, t, i) && ToLower(t) == t
    ensures OccursAt(ToLower(s), t, i)
  {
    var window := ToLower(s)[i..i + |t|];
    assert forall k :: 0 <= k < |t| ==> window[k] == ToLower(t)[k];
    assert window == t;
  }

  /** Trimming the start never cuts into an occurrence of a needle that starts above U+0020. */
  lemma TrimStartKeepsOccurrence(s: string, t: string, i: int)
    requires OccursAt(s, t, i) && |t| > 0 && t[0] > ' '
    ensures OccursAt(TrimStart(s), t, i - (|s| - |TrimStart(s)|))
  {
    var start := TrimStart(s);
    var cut := |s| - |start|;
    assert s[i] == t[0];
    assert cut <= i && start == s[cut..];
    var window, moved := start[i - cut..i - cut + |t|], s[i..i + |t|];
    forall k | 0 <= k < |t|
      ensures window[k] == moved[k]
    {
      assert window[k] == start[i - cut + k] == s[i + k];
    }
    assert window == moved;
  }

  /** Trimming the end never cuts into an occurrence of a needle that ends above U+0020. */
  lemma TrimEndKeepsOccurrence(s: string, t: string, i: int)
    requires OccursAt(s, t, i) && |t| > 0 && t[|t| - 1] > ' '
    ensures OccursAt(TrimEnd(s), t, i)
  {
    var kept := TrimEnd(s);
    assert s[i + |t| - 1] == t[|t| - 1];
    var window, orig := kept[i..i + |t|], s[i..i + |t|];
    assert forall k :: 0 <= k < |t| ==> window[k] == orig[k];
    assert window == orig;
  }

  /** Trimming never cuts into an occurrence of a needle that starts and ends above U+0020. */
  lemma TrimKeepsOccurrence(s: string, t: string, i: int)
    requires OccursAt(s, t, i) && |t| > 0 && t[0] > ' ' && t[|t| - 1] > ' '
    ensures Contains(Trim(s), t)
  {
    TrimStartKeepsOccurrence(s, t, i);
    TrimEndKeepsOccurrence(TrimStart(s), t, i - (|s| - |TrimStart(s)|));
  }

  /** An occurrence inside a slice is an occurrence in the whole string, shifted by the slice's start. */
  lemma OccursInSlice(s: string, lo: int, hi: int, t: string, i: int)
    requires 0 <= lo <= hi <= |s| && OccursAt(s[lo..hi], t, i)
    ensures OccursAt(s, t, lo + i)
  {
    var window, orig := s[lo..hi][i..i + |t|], s[lo + i..lo + i + |t|];
    assert forall k :: 0 <= k < |t| ==> window[k] == orig[k];
  }

  /** Whatever occurs in the trimmed string occurs in the string. */
  lemma ContainedInTrimmed(s: string, t: string)
    requires Contains(Trim(s), t)
    ensures Contains(s, t)
  {
    var start := TrimStart(s);
    var trimmed := TrimEnd(start);
    assert trimmed == Trim(s);
    var i := IndexOf(trimmed, t).value;
    assert OccursAt(start[0..|trimmed|], t, i) by { assert start[0..|trimmed|] == trimmed; }
    OccursInSlice(start, 0, |trimmed|, t, i);
    assert OccursAt(s[|s| - |start|..|s|], t, i) by { assert s[|s| - |start|..|s|] == start; }
    OccursInSlice(s, |s| - |start|, |s|, t, i);
  }

  /**
   * A needle that is lower case and has no edge characters at most U+0020 is
   * found in trim(toLowerCase(s)) whenever s contains it in any letter case.
   */
  lemma FoundIgnoringCase(s: string, t: string)
    requires Contains(ToLower(s), t)
    requires ToLower(t) == t && |t| > 0 && t[0] > ' ' && t[|t| - 1] > ' '
    ensures Contains(Trim(ToLower(s)), t)
  {
    TrimKeepsOccurrence(ToLower(s), t, IndexOf(ToLower(s), t).value);
  }

  /** Lower-casing forgets the letter case that upper-casing sets. */
  lemma LowerOfUpper(s: string)
    ensures ToLower(ToUpper(s)) == ToLower(s)
  {
    var a, b := ToLower(ToUpper(s)), ToLower(s);
    assert forall i :: 0 <= i < |s| ==> a[i] == b[i];
  }

  /** Lower-casing is idempotent. */
  lemma LowerIdempotent(s: string)
    ensures ToLower(ToLower(s)) == ToLower(s)
  {
    var a, b := ToLower(ToLower(s)), ToLower(s);
    assert forall i :: 0 <= i < |s| ==> a[i] == b[i];
  }

  // ---------------------------------------------------------------- split

  /** The pieces between successive non-overlapping occurrences of `sep`, left to right. */
  function SplitPieces(s: string, sep: string): (r: seq<string>)
    requires |sep| > 0
    ensures |r| > 0
    decreases |s|
  {
    match IndexOf(s, sep)
    case None => [s]
    case Some(k) => [s[..k]] + SplitPieces(s[k + |sep|..], sep)
  }

  /** Drops the trailing empty strings, as String.split with limit 0 does. */
  function DropTrailingEmpty(pieces: seq<string>): (r: seq<string>)
    ensures |r| <= |pieces| && r == pieces[..|r|]
    ensures |r| > 0 ==> r[|r| - 1] != ""
    ensures forall i :: |r| <= i < |pieces| ==> pieces[i] == ""
    decreases |pieces|
  {
    if |pieces| > 0 && pieces[|pieces| - 1] == "" then DropTrailingEmpty(pieces[..|pieces| - 1]) else pieces
  }

  /**
   * String.split(sep) with limit 0, for a separator with no regular-expression
   * metacharacters: a string without the separator splits into itself alone.
   */
  function Split(s: string, sep: string): (r: seq<string>)
    requires |sep| > 0
    ensures !Contains(s, sep) ==> r == [s]
    ensures Contains(s, sep) ==> |r| == 0 || r[|r| - 1] != ""
  {
    if IndexOf(s, sep).None? then [s] else DropTrailingEmpty(SplitPieces(s, sep))
  }

  /** `s` is `sep` written one or more times in a row. */
  predicate IsRepetition(s: string, sep: string)
    decreases |s|
  {
    && |sep| > 0 && |s| >= |sep| && s[..|sep|] == sep
    && (|s| == |sep| || IsRepetition(s[|sep|..], sep))
  }

  /** Every piece is empty exactly when `s` is empty or a repetition of `sep`. */
  lemma {:induction false} PiecesAllEmpty(s: string, sep: string)
    requires |sep| > 0
    ensures (forall i :: 0 <= i < |SplitPieces(s, sep)| ==> SplitPieces(s, sep)[i] == "")
        <==> (s == "" || IsRepetition(s, sep))
    decreases |s|
  {
    var pieces := SplitPieces(s, sep);
    match IndexOf(s, sep)
    case None =>
      assert pieces == [s] && pieces[0] == s;
    case Some(k) =>
      var rest := s[k + |sep|..];
      PiecesAllEmpty(rest, sep);
      assert pieces == [s[..k]] + SplitPieces(rest, sep);
      if k == 0 {
        assert s[..|sep|] == sep;
        assert rest == s[|sep|..];
        assert IsRepetition(s, sep) <==> (rest == "" || IsRepetition(rest, sep));
        var later := SplitPieces(rest, sep);
        assert forall i :: 0 <= i < |later| ==> later[i] == pieces[i + 1];
        assert (forall i :: 0 <= i < |pieces| ==> pieces[i] == "")
            <==> (forall i :: 0 <= i < |later| ==> later[i] == "");
      } else {
        assert SplitPieces(s, sep)[0] != "";
        assert !OccursAt(s, sep, 0);
        assert !(s == "" || IsRepetition(s, sep));
        assert !(forall i :: 0 <= i < |SplitPieces(s, sep)| ==> SplitPieces(s, sep)[i] == "");
      }
  }

  /** String.split returns no element at all exactly for a repetition of the separator. */
  lemma SplitEmptyExactly(s: string, sep: string)
    requires |sep| > 0
    ensures Split(s, sep) == [] <==> IsRepetition(s, sep)
  {
    match IndexOf(s, sep)
    case None =>
    case Some(k) =>
      PiecesAllEmpty(s, sep);
      var pieces := SplitPieces(s, sep);
      var kept := DropTrailingEmpty(pieces);
      if kept != [] {
        assert kept[|kept| - 1] == pieces[|kept| - 1];
      }
  }

  /** When String.split yields an element, the first is the text before the first separator. */
  lemma SplitHead(s: string, sep: string)
    requires |sep| > 0 && Split(s, sep) != []
    ensures Split(s, sep)[0] == if IndexOf(s, sep).None? then s else s[..IndexOf(s, sep).value]
  {
    if IndexOf(s, sep).Some? {
      var pieces := SplitPieces(s, sep);
      assert DropTrailingEmpty(pieces)[0] == pieces[0];
    }
  }
}
