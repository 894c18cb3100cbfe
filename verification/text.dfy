/**
 * String helpers shared by the editor (JavaScript `String.prototype.trim`) and the
 * API (Python `str.strip` and `str.lower`).
 */
module Text {

  /** The two whitespace conventions in play: JavaScript's and Python's. */
  datatype Dialect = Js | Py

  /** Characters both runtimes treat as white space. */
  predicate CommonSpace(c: char) {
    c == ' ' || c == '\t' || c == '\n' || c == '\r' || c == '\U{000B}' || c == '\U{000C}'
    || c == '\U{00A0}' || c == '\U{1680}' || ('\U{2000}' <= c <= '\U{200A}')
    || c == '\U{2028}' || c == '\U{2029}' || c == '\U{202F}' || c == '\U{205F}' || c == '\U{3000}'
  }

  /** White space as seen by `trim` (JavaScript, which also strips the BOM) or by
      `strip` (Python, which also strips the ASCII separators 0x1C-0x1F and NEL). */
  predicate IsSpace(d: Dialect, c: char) {
    CommonSpace(c) ||
    match d
    case Js => c == '\U{FEFF}'
    case Py => ('\U{001C}' <= c <= '\U{001F}') || c == '\U{0085}'
  }

  /** `s` without its leading white space (`TrimStartSlice` says which part of `s`
      it is). */
  function TrimStart(d: Dialect, s: string): (r: string)
    ensures |r| <= |s|
    ensures r == [] || !IsSpace(d, r[0])
  {
    if s != [] && IsSpace(d, s[0]) then TrimStart(d, s[1..]) else s
  }

  /** What `TrimStart` drops is white space, and what it keeps is a suffix of `s`. */
  lemma {:induction false} TrimStartSlice(d: Dialect, s: string)
    ensures TrimStart(d, s) == s[|s| - |TrimStart(d, s)|..]
    ensures forall k :: 0 <= k < |s| - |TrimStart(d, s)| ==> IsSpace(d, s[k])
  {
    if s != [] && IsSpace(d, s[0]) {
      TrimStartSlice(d, s[1..]);
      forall k | 0 < k < |s| - |TrimStart(d, s)| ensures IsSpace(d, s[k]) {
        assert s[k] == s[1..][k - 1];
      }
    }
  }

  /** `s` without its trailing white space (`TrimEndSlice` says which part of `s` it
      is). */
  function TrimEnd(d: Dialect, s: string): (r: string)
    ensures |r| <= |s|
    ensures r == [] || !IsSpace(d, r[|r| - 1])
  {
    if s != [] && IsSpace(d, s[|s| - 1]) then TrimEnd(d, s[..|s| - 1]) else s
  }

  /** What `TrimEnd` drops is white space, and what it keeps is a prefix of `s`. */
  lemma {:induction false} TrimEndSlice(d: Dialect, s: string)
    ensures TrimEnd(d, s) == s[..|TrimEnd(d, s)|]
    ensures forall k :: |TrimEnd(d, s)| <= k < |s| ==> IsSpace(d, s[k])
  {
    if s != [] && IsSpace(d, s[|s| - 1]) {
      TrimEndSlice(d, s[..|s| - 1]);
      forall k | |TrimEnd(d, s)| <= k < |s| - 1 ensures IsSpace(d, s[k]) {
        assert s[k] == s[..|s| - 1][k];
      }
    }
  }

  /** How many white-space characters `s` starts with. */
  function Leading(d: Dialect, s: string): (n: nat)
    ensures n <= |s|
  {
    |s| - |TrimStart(d, s)|
  }

  /** Every character of `s` is white space. */
  predicate Blank(d: Dialect, s: string) {
    forall k :: 0 <= k < |s| ==> IsSpace(d, s[k])
  }

  /** `s.trim()` / `s.strip()`: what is left after dropping white space at both
      ends; it neither starts nor ends with white space, and it is empty exactly
      when `s` is blank. `TrimSlice` says which part of `s` it is. */
  function Trim(d: Dialect, s: string): (r: string)
    ensures |r| <= |s|
    ensures r == [] || (!IsSpace(d, r[0]) && !IsSpace(d, r[|r| - 1]))
    ensures r == [] <==> Blank(d, s)
  {
    var t := TrimStart(d, s);
    var r := TrimEnd(d, t);
    TrimStartSlice(d, s);
    TrimEndSlice(d, t);
    assert Blank(d, s) ==> t == [] by {
      if t != [] {
        assert t[0] == s[|s| - |t|];
      }
    }
    r
  }

  /** The trimmed string is the slice of `s` after its leading white space, and
      everything outside that slice is white space. */
  lemma TrimSlice(d: Dialect, s: string)
    ensures Leading(d, s) + |Trim(d, s)| <= |s|
    ensures Trim(d, s) == s[Leading(d, s)..Leading(d, s) + |Trim(d, s)|]
    ensures forall k :: 0 <= k < Leading(d, s) ==> IsSpace(d, s[k])
    ensures forall k :: Leading(d, s) + |Trim(d, s)| <= k < |s| ==> IsSpace(d, s[k])
  {
    var t := TrimStart(d, s);
    var r := TrimEnd(d, t);
    TrimStartSlice(d, s);
    TrimEndSlice(d, t);
    assert r == s[|s| - |t|..|s| - |t| + |r|];
    assert forall k :: |s| - |t| + |r| <= k < |s| ==> s[k] == t[k - (|s| - |t|)];
  }

  /** Trimming twice is trimming once. */
  lemma TrimIdempotent(d: Dialect, s: string)
    ensures Trim(d, Trim(d, s)) == Trim(d, s)
  {
    var r := Trim(d, s);
    assert TrimStart(d, r) == r;
    assert TrimEnd(d, r) == r;
  }

  /** ASCII lower-casing of one character: an upper-case ASCII letter becomes the
      letter 32 code points above it, its lower-case form; nothing else changes. */
  function LowerChar(c: char): (r: char)
    ensures 'A' <= c <= 'Z' ==> r as int == c as int + 32 && 'a' <= r <= 'z'
    ensures !('A' <= c <= 'Z') ==> r == c
  {
    if 'A' <= c <= 'Z' then (c as int + 32) as char else c
  }

  /** `s.lower()`, on the ASCII letters: each character is lower-cased on its own,
      so no upper-case ASCII letter is left and nothing else is touched. */
  function Lower(s: string): (r: string)
    ensures |r| == |s|
    ensures forall k :: 0 <= k < |s| ==> r[k] == LowerChar(s[k])
    ensures forall k :: 0 <= k < |s| ==> !('A' <= r[k] <= 'Z')
    ensures forall k :: 0 <= k < |s| && !('A' <= s[k] <= 'Z') ==> r[k] == s[k]
  {
    if s == [] then [] else [LowerChar(s[0])] + Lower(s[1..])
  }

  /** Two strings that differ only in the case of their ASCII letters lower-case
      to the same string. */
  lemma LowerAgrees(a: string, b: string)
    requires |a| == |b|
    requires forall k :: 0 <= k < |a| ==> LowerChar(a[k]) == LowerChar(b[k])
    ensures Lower(a) == Lower(b)
  {
    assert forall k :: 0 <= k < |a| ==> Lower(a)[k] == Lower(b)[k];
  }

  /** Lower-casing twice is lower-casing once. */
  lemma LowerIdempotent(s: string)
    ensures Lower(Lower(s)) == Lower(s)
  {
    assert forall k :: 0 <= k < |s| ==> Lower(Lower(s))[k] == Lower(s)[k];
  }

  /** Lower-casing keeps the string blank or non-blank as it was: an e-mail that
      is empty after `strip().lower()` was empty after `strip()`. */
  lemma LowerEmpty(s: string)
    ensures Lower(s) == [] <==> s == []
  {
  }
}
