/**
 * The string operations the cleaning steps apply to cells: Python's
 * `str.strip()`, `str.lower()`, `str.title()`, `str.replace(',', '')` and the
 * `astype(str)` conversion of a possibly missing cell.
 */
module Text {
  import opened Wrappers

  /** Python's `str.isspace()`: the characters `str.strip()` removes. */
  predicate IsSpace(c: char) {
    || ('\t' <= c <= '\r')
    || ('\U{1C}' <= c <= '\U{1F}')
    || c == ' ' || c == '\U{85}' || c == '\U{A0}' || c == '\U{1680}'
    || ('\U{2000}' <= c <= '\U{200A}')
    || c == '\U{2028}' || c == '\U{2029}' || c == '\U{202F}' || c == '\U{205F}' || c == '\U{3000}'
  }

  predicate AllSpace(s: string) {
    forall i :: 0 <= i < |s| ==> IsSpace(s[i])
  }

  /** No leading and no trailing whitespace. */
  predicate IsStripped(s: string) {
    |s| == 0 || (!IsSpace(s[0]) && !IsSpace(s[|s| - 1]))
  }

  /** Length of the run of whitespace at the start of `s`. */
  function LeadingSpace(s: string): (n: nat)
    ensures n <= |s|
    ensures n < |s| ==> !IsSpace(s[n])
    decreases |s|
  {
    if |s| > 0 && IsSpace(s[0]) then LeadingSpace(s[1..]) + 1 else 0
  }

  /** Length of the run of whitespace at the end of `s`. */
  function TrailingSpace(s: string): (n: nat)
    ensures n <= |s|
    ensures n < |s| ==> !IsSpace(s[|s| - 1 - n])
    decreases |s|
  {
    if |s| > 0 && IsSpace(s[|s| - 1]) then TrailingSpace(s[..|s| - 1]) + 1 else 0
  }

  /** The leading run is all whitespace. */
  lemma {:induction false} LeadingSpaceIsSpace(s: string)
    ensures AllSpace(s[..LeadingSpace(s)])
    decreases |s|
  {
    if |s| > 0 && IsSpace(s[0]) {
      var m := LeadingSpace(s[1..]);
      LeadingSpaceIsSpace(s[1..]);
      assert s[..m + 1] == [s[0]] + s[1..][..m];
    }
  }

  /** The trailing run is all whitespace. */
  lemma {:induction false} TrailingSpaceIsSpace(s: string)
    ensures AllSpace(s[|s| - TrailingSpace(s)..])
    decreases |s|
  {
    if |s| > 0 && IsSpace(s[|s| - 1]) {
      var t := s[..|s| - 1];
      var m := TrailingSpace(t);
      TrailingSpaceIsSpace(t);
      forall k | |s| - (m + 1) <= k < |s| ensures IsSpace(s[k]) {
        if k < |s| - 1 {
          assert s[k] == t[|t| - m..][k - (|t| - m)];
        }
      }
    }
  }

  /** `str.strip()`: the leading run is cut off, then the trailing run of what is left. */
  function Strip(s: string): (r: string)
    ensures IsStripped(r)
  {
    var t := s[LeadingSpace(s)..];
    t[..|t| - TrailingSpace(t)]
  }

  /** What `str.strip()` keeps is the middle of `s` once a whitespace-only head and tail are cut off. */
  lemma StripIsMiddle(s: string)
    ensures exists i, j :: 0 <= i <= j <= |s| && Strip(s) == s[i..j] && AllSpace(s[..i]) && AllSpace(s[j..])
  {
    var i := LeadingSpace(s);
    var t := s[i..];
    var n := TrailingSpace(t);
    LeadingSpaceIsSpace(s);
    TrailingSpaceIsSpace(t);
    var j := |s| - n;
    assert Strip(s) == s[i..j];
    assert s[j..] == t[|t| - n..];
  }

  /** A string without surrounding whitespace is its own strip. */
  lemma {:induction false} StripStripped(s: string)
    requires IsStripped(s)
    ensures Strip(s) == s
  {
    if |s| > 0 {
      assert LeadingSpace(s) == 0;
      assert s[0..] == s;
      assert TrailingSpace(s) == 0;
      assert s[..|s|] == s;
    }
  }

  /** `str.strip()` is idempotent. */
  lemma StripIdempotent(s: string)
    ensures Strip(Strip(s)) == Strip(s)
  {
    StripStripped(Strip(s));
  }

  /** `astype(str)`: a missing cell becomes the text "nan". */
  function AsText(v: Option<string>): string {
    match v
    case None => "nan"
    case Some(s) => s
  }

  /** `str.replace(c, '')`: every occurrence of `c` removed, everything else kept in order. */
  function RemoveAll(s: string, c: char): string
    decreases |s|
  {
    if s == [] then []
    else if s[0] == c then RemoveAll(s[1..], c)
    else [s[0]] + RemoveAll(s[1..], c)
  }

  /** `str.replace(c, '')` leaves no `c` behind and changes nothing in text without one. */
  lemma {:induction false} RemoveAllRemoves(s: string, c: char)
    ensures c !in RemoveAll(s, c)
    ensures c !in s ==> RemoveAll(s, c) == s
    decreases |s|
  {
    if s != [] {
      RemoveAllRemoves(s[1..], c);
      if c !in s {
        assert s == [s[0]] + s[1..];
      }
    }
  }

  predicate IsUpper(c: char) { 'A' <= c <= 'Z' }
  predicate IsLower(c: char) { 'a' <= c <= 'z' }
  predicate IsLetter(c: char) { IsUpper(c) || IsLower(c) }

  function LowerChar(c: char): char {
    if IsUpper(c) then (c as int + 32) as char else c
  }

  function UpperChar(c: char): char {
    if IsLower(c) then (c as int - 32) as char else c
  }

  /** `str.lower()` on ASCII letters. */
  function Lower(s: string): string {
    seq(|s|, i requires 0 <= i < |s| => LowerChar(s[i]))
  }

  /** No upper-case letter. */
  predicate IsLowercase(s: string) {
    forall i :: 0 <= i < |s| ==> !IsUpper(s[i])
  }

  /**
   * `str.title()` on ASCII: a letter that follows a letter becomes lower case,
   * any other letter upper case; `prevCased` says whether a letter came before.
   */
  function TitleFrom(s: string, prevCased: bool): (r: string)
    ensures |r| == |s|
    decreases |s|
  {
    if s == [] then []
    else
      var c := s[0];
      var c' := if !IsLetter(c) then c else if prevCased then LowerChar(c) else UpperChar(c);
      [c'] + TitleFrom(s[1..], IsLetter(c))
  }

  function Title(s: string): string {
    TitleFrom(s, false)
  }

  /**
   * Title case: every letter is upper case when it starts a word (nothing or a
   * non-letter before it) and lower case inside a word.
   */
  predicate IsTitleCased(s: string) {
    forall i :: 0 <= i < |s| ==> TitleCasedAt(s, i)
  }

  predicate TitleCasedAt(s: string, i: nat)
    requires i < |s|
  {
    IsLetter(s[i]) ==> if i > 0 && IsLetter(s[i - 1]) then IsLower(s[i]) else IsUpper(s[i])
  }

  /** What `str.title()` puts at position `i`, read off the input alone. */
  function TitleCharAt(s: string, i: nat): char
    requires i < |s|
  {
    if !IsLetter(s[i]) then s[i]
    else if i > 0 && IsLetter(s[i - 1]) then LowerChar(s[i])
    else UpperChar(s[i])
  }

  lemma {:induction false} TitleFromAt(s: string, prevCased: bool, i: nat)
    requires i < |s|
    ensures TitleFrom(s, prevCased)[i] ==
      if !IsLetter(s[i]) then s[i]
      else if (if i == 0 then prevCased else IsLetter(s[i - 1])) then LowerChar(s[i])
      else UpperChar(s[i])
    decreases i
  {
    if i > 0 {
      TitleFromAt(s[1..], IsLetter(s[0]), i - 1);
      assert s[1..][i - 1] == s[i];
      if i - 1 > 0 {
        assert s[1..][i - 2] == s[i - 1];
      }
    }
  }

  /** `str.title()` agrees position by position with the direct description. */
  lemma TitleAt(s: string, i: nat)
    requires i < |s|
    ensures |Title(s)| == |s| && Title(s)[i] == TitleCharAt(s, i)
  {
    TitleFromAt(s, false, i);
  }

  /** The result of `str.title()` is title-cased. */
  lemma TitleIsTitleCased(s: string)
    ensures IsTitleCased(Title(s))
  {
    var t := Title(s);
    forall i | 0 <= i < |t|
      ensures TitleCasedAt(t, i)
    {
      TitleAt(s, i);
      if i > 0 {
        TitleAt(s, i - 1);
      }
    }
  }

  /** A title-cased string is left unchanged by `str.title()`. */
  lemma TitleOfTitleCased(s: string)
    requires IsTitleCased(s)
    ensures Title(s) == s
  {
    forall i | 0 <= i < |s|
      ensures Title(s)[i] == s[i]
    {
      TitleAt(s, i);
      assert TitleCasedAt(s, i);
    }
    if |s| > 0 {
      TitleAt(s, 0);
    }
  }

  /** `str.title()` is idempotent. */
  lemma TitleIdempotent(s: string)
    ensures Title(Title(s)) == Title(s)
  {
    TitleIsTitleCased(s);
    TitleOfTitleCased(Title(s));
  }

  /** `str.title()` changes letters only, so it keeps a string free of surrounding whitespace. */
  lemma TitleKeepsStripped(s: string)
    requires IsStripped(s)
    ensures IsStripped(Title(s))
  {
    if |s| > 0 {
      TitleAt(s, 0);
      TitleAt(s, |s| - 1);
    }
  }

  /** `str.lower()` turns each upper-case letter into its own lower case and keeps every other character. */
  lemma LowerIsLowercase(s: string)
    ensures IsLowercase(Lower(s))
    ensures |Lower(s)| == |s|
    ensures forall i :: 0 <= i < |s| && !IsUpper(s[i]) ==> Lower(s)[i] == s[i]
    ensures forall i :: 0 <= i < |s| && IsUpper(s[i]) ==> IsLower(Lower(s)[i]) && UpperChar(Lower(s)[i]) == s[i]
  {
  }

  /** `str.lower()` is idempotent. */
  lemma LowerIdempotent(s: string)
    ensures Lower(Lower(s)) == Lower(s)
  {
  }

  /** `str.lower()` keeps a string free of surrounding whitespace. */
  lemma LowerKeepsStripped(s: string)
    requires IsStripped(s)
    ensures IsStripped(Lower(s))
  {
  }
}
