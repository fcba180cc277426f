/**
 This module models the three string methods the application applies to
 identifiers and field names: `strip()`, `lower()`/`upper()` and `title()`.
 Case mapping is modelled on ASCII letters only; the whitespace set of
 `strip()` is the full set of characters for which `str.isspace()` holds.
 */
module Text {

  /** The characters `str.isspace()` accepts, i.e. what `strip()` removes. */
  predicate IsSpace(c: char) {
    || c == ' '
    || '\t' <= c <= '\r'                 // tab, line feed, vertical tab, form feed, carriage return
    || '\U{1C}' <= c <= '\U{1F}'         // file, group, record and unit separators
    || c == '\U{85}' || c == '\U{A0}' || c == '\U{1680}'
    || '\U{2000}' <= c <= '\U{200A}'
    || c == '\U{2028}' || c == '\U{2029}' || c == '\U{202F}' || c == '\U{205F}' || c == '\U{3000}'
  }

  predicate IsUpper(c: char) { 'A' <= c <= 'Z' }

  predicate IsLower(c: char) { 'a' <= c <= 'z' }

  /** A cased character; `title()` starts a new word after any other character. */
  predicate IsLetter(c: char) { IsUpper(c) || IsLower(c) }

  function LowerChar(c: char): char {
    if IsUpper(c) then (c as int + 32) as char else c
  }

  function UpperChar(c: char): char {
    if IsLower(c) then (c as int - 32) as char else c
  }

  function Lower(s: string): string {
    seq(|s|, i requires 0 <= i < |s| => LowerChar(s[i]))
  }

  function Upper(s: string): string {
    seq(|s|, i requires 0 <= i < |s| => UpperChar(s[i]))
  }

  predicate AllSpace(s: string) {
    forall i :: 0 <= i < |s| ==> IsSpace(s[i])
  }

  /** `lstrip()`: drop whitespace from the front while there is any. */
  function TrimStart(s: string): string
    decreases |s|
  {
    if |s| > 0 && IsSpace(s[0]) then TrimStart(s[1..]) else s
  }

  /** `rstrip()`: drop whitespace from the back while there is any. */
  function TrimEnd(s: string): string
    decreases |s|
  {
    if |s| > 0 && IsSpace(s[|s| - 1]) then TrimEnd(s[..|s| - 1]) else s
  }

  /** `strip()`. */
  function Trim(s: string): string {
    TrimEnd(TrimStart(s))
  }

  /** The length of the longest all-whitespace prefix. */
  function LeadingSpace(s: string): (n: nat)
    ensures n <= |s|
    ensures forall i :: 0 <= i < n ==> IsSpace(s[i])
    ensures n < |s| ==> !IsSpace(s[n])
    decreases |s|
  {
    if |s| > 0 && IsSpace(s[0]) then
      var n := LeadingSpace(s[1..]);
      assert forall i :: 1 <= i < n + 1 ==> s[i] == s[1..][i - 1];
      n + 1
    else 0
  }

  /** Where the longest all-whitespace suffix begins. */
  function TrailingSpace(s: string): (b: nat)
    ensures b <= |s|
    ensures forall i :: b <= i < |s| ==> IsSpace(s[i])
    ensures b > 0 ==> !IsSpace(s[b - 1])
    decreases |s|
  {
    if |s| > 0 && IsSpace(s[|s| - 1]) then
      var b := TrailingSpace(s[..|s| - 1]);
      assert forall i :: b <= i < |s| - 1 ==> s[i] == s[..|s| - 1][i];
      b
    else |s|
  }

  /** `lstrip()` removes exactly a whitespace prefix that ends at a non-space
      or at the end of the string. */
  lemma {:induction false} TrimStartExact(s: string, a: nat)
    requires a <= |s| && (a < |s| ==> !IsSpace(s[a]))
    requires forall i :: 0 <= i < a ==> IsSpace(s[i])
    ensures TrimStart(s) == s[a..]
    decreases a
  {
    if a > 0 {
      assert s[1..][a - 1..] == s[a..];
      assert forall i :: 0 <= i < a - 1 ==> s[1..][i] == s[i + 1];
      TrimStartExact(s[1..], a - 1);
    }
  }

  /** `rstrip()` removes exactly a whitespace suffix that starts after a
      non-space or at the start of the string. */
  lemma {:induction false} TrimEndExact(s: string, b: nat)
    requires b <= |s| && (b > 0 ==> !IsSpace(s[b - 1]))
    requires forall i :: b <= i < |s| ==> IsSpace(s[i])
    ensures TrimEnd(s) == s[..b]
    decreases |s| - b
  {
    if b < |s| {
      var t := s[..|s| - 1];
      assert t[..b] == s[..b];
      assert forall i :: b <= i < |t| ==> t[i] == s[i];
      TrimEndExact(t, b);
    }
  }

  /** Stripping keeps exactly the infix between a whitespace prefix and a
      whitespace suffix whose ends are not whitespace: the characterisation
      of `strip()` independent of how it scans. */
  lemma TrimExact(s: string, a: nat, b: nat)
    requires a <= b <= |s|
    requires forall i :: 0 <= i < a ==> IsSpace(s[i])
    requires forall i :: b <= i < |s| ==> IsSpace(s[i])
    requires a < b ==> !IsSpace(s[a]) && !IsSpace(s[b - 1])
    ensures Trim(s) == s[a..b]
  {
    if a == b {
      TrimStartExact(s, |s|);
      assert TrimEnd([]) == [];
    } else {
      TrimStartExact(s, a);
      TrimExactTail(s, a, b);
    }
  }

  lemma TrimExactTail(s: string, a: nat, b: nat)
    requires a < b <= |s| && !IsSpace(s[b - 1])
    requires forall i :: b <= i < |s| ==> IsSpace(s[i])
    ensures TrimEnd(s[a..]) == s[a..b]
  {
    var u := s[a..];
    forall i | b - a <= i < |u| ensures IsSpace(u[i]) {
      assert u[i] == s[a + i];
    }
    assert u[b - a - 1] == s[b - 1];
    TrimEndExact(u, b - a);
    assert u[..b - a] == s[a..b];
  }

  /** A string strips to nothing exactly when it is all whitespace. */
  lemma TrimEmpty(s: string)
    ensures Trim(s) == [] <==> AllSpace(s)
  {
    var a, b := TrimBounds(s);
    if a < b {
      assert Trim(s)[0] == s[a];
    }
  }

  lemma PaddedPrefixSpace(pre: string, q: string, post: string, a: nat)
    requires AllSpace(pre) && a <= |q|
    requires forall i :: 0 <= i < a ==> IsSpace(q[i])
    ensures forall i :: 0 <= i < |pre| + a ==> IsSpace((pre + q + post)[i])
  {
    forall i | 0 <= i < |pre| + a ensures IsSpace((pre + q + post)[i]) {
      if i >= |pre| { assert (pre + q + post)[i] == q[i - |pre|]; }
    }
  }

  lemma PaddedSuffixSpace(pre: string, q: string, post: string, b: nat)
    requires AllSpace(post) && b <= |q|
    requires forall i :: b <= i < |q| ==> IsSpace(q[i])
    ensures forall i :: |pre| + b <= i < |pre + q + post| ==> IsSpace((pre + q + post)[i])
  {
    forall i | |pre| + b <= i < |pre + q + post| ensures IsSpace((pre + q + post)[i]) {
      if i < |pre| + |q| { assert (pre + q + post)[i] == q[i - |pre|]; }
      else { assert (pre + q + post)[i] == post[i - |pre| - |q|]; }
    }
  }

  /** The offsets of what `strip()` keeps: every string has them. */
  lemma TrimBounds(q: string) returns (a: nat, b: nat)
    ensures a <= b <= |q| && Trim(q) == q[a..b]
    ensures forall i :: 0 <= i < a ==> IsSpace(q[i])
    ensures forall i :: b <= i < |q| ==> IsSpace(q[i])
    ensures a < b ==> !IsSpace(q[a]) && !IsSpace(q[b - 1])
  {
    a := LeadingSpace(q);
    if a == |q| {
      b := a;
    } else {
      b := TrailingSpace(q);
      assert a < b;
    }
    TrimExact(q, a, b);
  }

  lemma SliceOfPadded<T>(pre: seq<T>, q: seq<T>, post: seq<T>, a: nat, b: nat)
    requires a <= b <= |q|
    ensures (pre + q + post)[|pre| + a..|pre| + b] == q[a..b]
    ensures a < b ==> (pre + q + post)[|pre| + a] == q[a] && (pre + q + post)[|pre| + b - 1] == q[b - 1]
  {
    assert pre + q + post == pre + (q + post);
  }

  /** Whitespace added around a string does not change what `strip()` keeps. */
  lemma TrimIgnoresPadding(q: string, pre: string, post: string)
    requires AllSpace(pre) && AllSpace(post)
    ensures Trim(pre + q + post) == Trim(q)
  {
    var a, b := TrimBounds(q);
    PaddedPrefixSpace(pre, q, post, a);
    PaddedSuffixSpace(pre, q, post, b);
    SliceOfPadded(pre, q, post, a, b);
    TrimExact(pre + q + post, |pre| + a, |pre| + b);
    assert Trim(pre + q + post) == q[a..b];
  }

  /** Lowercasing never turns whitespace into non-whitespace or back, so it
      commutes with `strip()`. */
  lemma {:induction false} TrimStartLower(s: string)
    ensures TrimStart(Lower(s)) == Lower(TrimStart(s))
    decreases |s|
  {
    if |s| > 0 {
      var l := Lower(s);
      assert l[0] == LowerChar(s[0]);
      if IsSpace(s[0]) {
        assert IsSpace(l[0]);
        assert l[1..] == Lower(s[1..]);
        TrimStartLower(s[1..]);
      } else {
        assert !IsSpace(l[0]);
      }
    }
  }

  lemma {:induction false} TrimEndLower(s: string)
    ensures TrimEnd(Lower(s)) == Lower(TrimEnd(s))
    decreases |s|
  {
    if |s| > 0 {
      var l := Lower(s);
      assert l[|s| - 1] == LowerChar(s[|s| - 1]);
      if IsSpace(s[|s| - 1]) {
        assert IsSpace(l[|s| - 1]);
        assert l[..|s| - 1] == Lower(s[..|s| - 1]);
        TrimEndLower(s[..|s| - 1]);
      } else {
        assert !IsSpace(l[|s| - 1]);
      }
    }
  }

  lemma TrimLower(s: string)
    ensures Trim(Lower(s)) == Lower(Trim(s))
  {
    TrimStartLower(s);
    TrimEndLower(TrimStart(s));
  }

  /** Lowercasing forgets every earlier case change. */
  lemma LowerUpper(s: string)
    ensures Lower(Upper(s)) == Lower(s)
  {
  }

  /** True when `s[i]` is a letter that begins a run of letters. */
  predicate StartsWord(s: string, i: nat)
    requires i < |s|
  {
    IsLetter(s[i]) && (i == 0 || !IsLetter(s[i - 1]))
  }

  /** `StartsWord` for a suffix of a longer string: `prevCased` says whether
      the character just before `s` was cased. */
  predicate OpensWord(s: string, i: nat, prevCased: bool)
    requires i < |s|
  {
    IsLetter(s[i]) && (if i == 0 then !prevCased else !IsLetter(s[i - 1]))
  }

  /** `title()`: a character is lowercased when the one before it is cased
      and title-cased otherwise (characters without case are kept). */
  function Title(s: string): string {
    seq(|s|, i requires 0 <= i < |s| => if i > 0 && IsLetter(s[i - 1]) then LowerChar(s[i]) else UpperChar(s[i]))
  }

  /** The left-to-right scan `title()` performs, carrying whether the last
      character was cased; a reference for `Title`. */
  function TitleFrom(s: string, prevCased: bool): string
    decreases |s|
  {
    if |s| == 0 then []
    else [if prevCased then LowerChar(s[0]) else UpperChar(s[0])] + TitleFrom(s[1..], IsLetter(s[0]))
  }

  lemma {:induction false} TitleFromAt(s: string, prevCased: bool)
    ensures |TitleFrom(s, prevCased)| == |s|
    ensures forall i :: 0 <= i < |s| ==>
      TitleFrom(s, prevCased)[i] == (if OpensWord(s, i, prevCased) then UpperChar(s[i]) else LowerChar(s[i]))
    decreases |s|
  {
    if |s| > 0 {
      var rest := TitleFrom(s[1..], IsLetter(s[0]));
      TitleFromAt(s[1..], IsLetter(s[0]));
      var r := TitleFrom(s, prevCased);
      assert r == [if prevCased then LowerChar(s[0]) else UpperChar(s[0])] + rest;
      assert forall i :: 1 <= i < |s| ==>
        r[i] == rest[i - 1] && s[1..][i - 1] == s[i] && OpensWord(s, i, prevCased) == OpensWord(s[1..], i - 1, IsLetter(s[0]));
    }
  }

  /** `title()` uppercases every letter that starts a run of letters and
      lowercases every other letter; other characters are kept. */
  lemma TitleAt(s: string)
    ensures |Title(s)| == |s|
    ensures forall i :: 0 <= i < |s| ==>
      Title(s)[i] == (if StartsWord(s, i) then UpperChar(s[i]) else LowerChar(s[i]))
  {
  }

  /** The scan and the pointwise definition agree. */
  lemma TitleScan(s: string)
    ensures TitleFrom(s, false) == Title(s)
  {
    TitleFromAt(s, false);
    assert forall i :: 0 <= i < |s| ==> StartsWord(s, i) == OpensWord(s, i, false);
  }

  /** Title-casing an already title-cased name changes nothing. */
  lemma TitleIdempotent(s: string)
    ensures Title(Title(s)) == Title(s)
  {
    var t := Title(s);
    assert forall i :: 0 <= i < |s| ==> (IsLetter(t[i]) <==> IsLetter(s[i]));
    assert forall i :: 0 <= i < |s| ==> (StartsWord(t, i) <==> StartsWord(s, i));
  }

  /** The field names of the reference table, title-cased. */
  lemma TitleSnp()
    ensures Title("SNP") == "Snp"
  {
  }

  lemma TitleGenotype()
    ensures Title("Genotype") == "Genotype"
  {
  }

  lemma TitleRiskLevel()
    ensures Title("Risk Level") == "Risk Level"
  {
  }
}
