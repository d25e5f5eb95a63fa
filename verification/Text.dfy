/** The string primitives the site relies on: JavaScript's `trim`,
    `split`, `join`, `includes`, `replace` with a one-character pattern and
    ASCII case mapping, and Python's `str.strip`.  Strings are sequences of
    Unicode scalar values.  JavaScript strings are UTF-16 code units, but
    none of the operations modelled here (per-character trimming,
    splitting, and the `\w` and `\s` classes) tells the two apart. */
module Text {

  /** The ECMAScript WhiteSpace and LineTerminator code points: what
      `String.prototype.trim` removes at both ends. */
  predicate IsJsSpace(c: char) {
    || c == '\t' || c == '\n' || c == '\U{000B}' || c == '\U{000C}' || c == '\r'
    || c == ' ' || c == '\U{00A0}' || c == '\U{1680}'
    || ('\U{2000}' <= c <= '\U{200A}')
    || c == '\U{2028}' || c == '\U{2029}' || c == '\U{202F}' || c == '\U{205F}'
    || c == '\U{3000}' || c == '\U{FEFF}'
  }

  /** The code points for which Python's `str.isspace` holds: what
      `str.strip()` without arguments removes at both ends.  It differs from
      `IsJsSpace` on U+001C..U+001F, U+0085 (Python only) and U+FEFF
      (JavaScript only). */
  predicate IsPySpace(c: char) {
    || c == '\t' || c == '\n' || c == '\U{000B}' || c == '\U{000C}' || c == '\r'
    || ('\U{001C}' <= c <= '\U{001F}')
    || c == ' ' || c == '\U{0085}' || c == '\U{00A0}' || c == '\U{1680}'
    || ('\U{2000}' <= c <= '\U{200A}')
    || c == '\U{2028}' || c == '\U{2029}' || c == '\U{202F}' || c == '\U{205F}'
    || c == '\U{3000}'
  }

  /** A character on which the two whitespace notions agree. */
  predicate SameSpaceness(c: char) {
    IsJsSpace(c) <==> IsPySpace(c)
  }

  /** Number of leading characters that are spaces. */
  function Lead(s: string, isSpace: char -> bool): (n: nat)
    ensures n <= |s|
    ensures forall k :: 0 <= k < n ==> isSpace(s[k])
    ensures n < |s| ==> !isSpace(s[n])
  {
    if s == [] || !isSpace(s[0]) then 0 else 1 + Lead(s[1..], isSpace)
  }

  /** Number of trailing characters that are spaces. */
  function Trail(s: string, isSpace: char -> bool): (n: nat)
    ensures n <= |s|
    ensures forall k :: |s| - n <= k < |s| ==> isSpace(s[k])
    ensures n < |s| ==> !isSpace(s[|s| - 1 - n])
  {
    if s == [] || !isSpace(s[|s| - 1]) then 0 else 1 + Trail(s[..|s| - 1], isSpace)
  }

  /** `s` without the spaces at either end. */
  function Trim(s: string, isSpace: char -> bool): (r: string)
    ensures |r| <= |s|
    ensures r == [] <==> forall k :: 0 <= k < |s| ==> isSpace(s[k])
    ensures r != [] ==> !isSpace(r[0]) && !isSpace(r[|r| - 1])
    ensures forall k :: 0 <= k < |r| ==> r[k] in s
  {
    var i := Lead(s, isSpace);
    if i == |s| then [] else
      assert !isSpace(s[i]);
      s[i..|s| - Trail(s, isSpace)]
  }

  /** JavaScript `s.trim()`. */
  function JsTrim(s: string): string {
    Trim(s, IsJsSpace)
  }

  /** Python `s.strip()`. */
  function PyStrip(s: string): string {
    Trim(s, IsPySpace)
  }

  /** Trimming a string that has no space at either end leaves it as it is. */
  lemma TrimTrimmed(s: string, isSpace: char -> bool)
    requires s != [] ==> !isSpace(s[0]) && !isSpace(s[|s| - 1])
    ensures Trim(s, isSpace) == s
  {
    if s != [] {
      assert Lead(s, isSpace) == 0;
      assert Trail(s, isSpace) == 0;
    }
  }

  /** Leading spaces in front of a trimmed, non-empty string are all that
      trimming removes. */
  /** The trimmed string is a slice of the original. */
  lemma TrimIsSlice(s: string, isSpace: char -> bool) returns (i: nat, j: nat)
    ensures i <= j <= |s| && Trim(s, isSpace) == s[i..j]
  {
    i := Lead(s, isSpace);
    if i == |s| {
      j := i;
    } else {
      j := |s| - Trail(s, isSpace);
    }
  }

  lemma {:induction false} TrimAfterPadding(pad: string, s: string, isSpace: char -> bool)
    requires forall k :: 0 <= k < |pad| ==> isSpace(pad[k])
    requires s != [] && !isSpace(s[0]) && !isSpace(s[|s| - 1])
    ensures Trim(pad + s, isSpace) == s
  {
    var t := pad + s;
    LeadOfPadded(pad, s, isSpace);
    assert Trail(t, isSpace) == 0 by {
      assert t[|t| - 1] == s[|s| - 1];
    }
    assert t[|pad|..|t|] == s;
  }

  /** `Lead` counts exactly the qualifying prefix. */
  lemma {:induction false} LeadOfPadded(pad: string, s: string, isSpace: char -> bool)
    requires forall k :: 0 <= k < |pad| ==> isSpace(pad[k])
    requires s != [] ==> !isSpace(s[0])
    ensures Lead(pad + s, isSpace) == |pad|
  {
    if pad != [] {
      assert (pad + s)[1..] == pad[1..] + s;
      LeadOfPadded(pad[1..], s, isSpace);
    } else {
      assert pad + s == s;
    }
  }

  /** Position of the first `c` in `s`. */
  function IndexOf(s: string, c: char): (i: nat)
    requires c in s
    ensures i < |s| && s[i] == c && c !in s[..i]
  {
    if s[0] == c then 0 else
      var j := IndexOf(s[1..], c);
      assert s[..j + 1] == [s[0]] + s[1..][..j];
      1 + j
  }

  lemma IndexOfAfter(a: string, c: char, b: string)
    requires c !in a
    ensures IndexOf(a + [c] + b, c) == |a|
  {
    var s := a + [c] + b;
    var i := IndexOf(s, c);
    assert s[..|a|] == a;
    assert i >= |a| by {
      if i < |a| {
        assert false;
      }
    }
    assert s[|a|] == c;
    assert i <= |a| by {
      if i > |a| {
        assert false;
      }
    }
  }

  /** JavaScript `s.split(sep)` and Python `s.split(sep)` for a one-character
      separator: the pieces between consecutive separators, always at least
      one (the empty string splits into `[""]`). */
  function Split(s: string, sep: char): (parts: seq<string>)
    decreases |s|
    ensures |parts| >= 1
    ensures forall k :: 0 <= k < |parts| ==> sep !in parts[k]
  {
    if sep in s then
      var i := IndexOf(s, sep);
      [s[..i]] + Split(s[i + 1..], sep)
    else [s]
  }

  /** Every character of a part comes from the split string. */
  lemma {:induction false} SplitChars(s: string, sep: char)
    decreases |s|
    ensures forall k, i :: 0 <= k < |Split(s, sep)| && 0 <= i < |Split(s, sep)[k]| ==> Split(s, sep)[k][i] in s
  {
    if sep in s {
      var i := IndexOf(s, sep);
      SplitChars(s[i + 1..], sep);
      var rest := Split(s[i + 1..], sep);
      assert Split(s, sep) == [s[..i]] + rest;
      forall k, j | 0 <= k < |Split(s, sep)| && 0 <= j < |Split(s, sep)[k]| ensures Split(s, sep)[k][j] in s {
        if k == 0 {
          assert Split(s, sep)[0][j] == s[j];
        } else {
          assert Split(s, sep)[k] == rest[k - 1];
          var c := rest[k - 1][j];
          assert c in s[i + 1..];
        }
      }
    }
  }

  /** JavaScript `parts.join(sep)`. */
  function Join(parts: seq<string>, sep: string): string
  {
    if |parts| == 0 then ""
    else if |parts| == 1 then parts[0]
    else parts[0] + sep + Join(parts[1..], sep)
  }

  lemma SplitNoSeparator(a: string, sep: char)
    requires sep !in a
    ensures Split(a, sep) == [a]
  {
  }

  lemma SplitAfter(a: string, sep: char, b: string)
    requires sep !in a
    ensures Split(a + [sep] + b, sep) == [a] + Split(b, sep)
  {
    var s := a + [sep] + b;
    assert s[|a|] == sep;
    IndexOfAfter(a, sep, b);
    assert s[..|a|] == a;
    assert s[|a| + 1..] == b;
  }

  /** JavaScript `s.startsWith(p)`. */
  predicate StartsWith(s: string, p: string) {
    |p| <= |s| && s[..|p|] == p
  }

  /** JavaScript `s.endsWith(p)`. */
  predicate EndsWith(s: string, p: string) {
    |p| <= |s| && s[|s| - |p|..] == p
  }

  /** JavaScript `s.includes(sub)`: `sub` occurs at some position of `s`. */
  predicate Contains(s: string, sub: string)
    decreases |s|
  {
    StartsWith(s, sub) || (s != [] && Contains(s[1..], sub))
  }

  lemma {:induction false} ContainsAt(s: string, sub: string, i: nat)
    requires i + |sub| <= |s| && s[i..i + |sub|] == sub
    ensures Contains(s, sub)
    decreases i
  {
    if i > 0 {
      assert s[1..][i - 1..i - 1 + |sub|] == s[i..i + |sub|];
      ContainsAt(s[1..], sub, i - 1);
    }
  }

  lemma {:induction false} ContainsWitness(s: string, sub: string) returns (i: nat)
    requires Contains(s, sub)
    ensures i + |sub| <= |s| && s[i..i + |sub|] == sub
    decreases |s|
  {
    if StartsWith(s, sub) {
      i := 0;
    } else {
      var j := ContainsWitness(s[1..], sub);
      assert s[1..][j..j + |sub|] == s[j + 1..j + 1 + |sub|];
      i := j + 1;
    }
  }

  /** JavaScript `s.replace(/x/g, y)` for single characters `x` and `y`. */
  function ReplaceChar(s: string, from: char, to: char): (r: string)
    ensures |r| == |s|
    ensures forall k :: 0 <= k < |s| ==> r[k] == (if s[k] == from then to else s[k])
  {
    if s == [] then [] else [if s[0] == from then to else s[0]] + ReplaceChar(s[1..], from, to)
  }

  /** The characters of `s` that satisfy `keep`, in order: JavaScript
      `s.replace(/[^...]+/g, "")` for a character class. */
  function KeepChars(s: string, keep: char -> bool): (r: string)
    ensures |r| <= |s|
    ensures forall k :: 0 <= k < |r| ==> keep(r[k])
    ensures (forall k :: 0 <= k < |s| ==> keep(s[k])) ==> r == s
  {
    if s == [] then []
    else if keep(s[0]) then [s[0]] + KeepChars(s[1..], keep)
    else KeepChars(s[1..], keep)
  }

  predicate IsDigit(c: char) { '0' <= c <= '9' }
  predicate IsUpperAscii(c: char) { 'A' <= c <= 'Z' }
  predicate IsLowerAscii(c: char) { 'a' <= c <= 'z' }

  /** The regular-expression class `\w`, i.e. `[A-Za-z0-9_]`. */
  predicate IsWordChar(c: char) {
    IsUpperAscii(c) || IsLowerAscii(c) || IsDigit(c) || c == '_'
  }

  /** The class `[\w-]` that the slug keeps. */
  predicate IsWordOrHyphen(c: char) {
    IsWordChar(c) || c == '-'
  }

  /** The capital letters of the modern Greek alphabet, plain (U+0391..U+03A9)
      and with tonos or dialytika. */
  predicate IsUpperGreek(c: char) {
    || ('\U{0391}' <= c <= '\U{03A9}' && c != '\U{03A2}')
    || c == '\U{0386}' || ('\U{0388}' <= c <= '\U{038A}') || c == '\U{038C}'
    || c == '\U{038E}' || c == '\U{038F}' || c == '\U{03AA}' || c == '\U{03AB}'
  }

  /** Lower-case mapping of one character, exact on ASCII and on the Greek
      capitals (a capital sigma always becomes the medial form); every other
      character is kept. */
  function LowerChar(c: char): (d: char)
    ensures !IsUpperAscii(d) && !IsUpperGreek(d)
    ensures IsUpperAscii(c) ==> IsLowerAscii(d) && d as int == c as int + 32
    ensures IsLowerAscii(d) ==> IsUpperAscii(c) || IsLowerAscii(c)
    ensures !IsUpperAscii(c) && !IsUpperGreek(c) ==> d == c
    ensures IsUpperGreek(c) ==> '\U{03AC}' <= d <= '\U{03CE}'
  {
    if IsUpperAscii(c) then (c as int + 32) as char
    else if '\U{0391}' <= c <= '\U{03AB}' && c != '\U{03A2}' then (c as int + 32) as char
    else if c == '\U{0386}' then '\U{03AC}'
    else if '\U{0388}' <= c <= '\U{038A}' then (c as int + 37) as char
    else if c == '\U{038C}' then '\U{03CC}'
    else if c == '\U{038E}' || c == '\U{038F}' then (c as int + 63) as char
    else c
  }

  function UpperChar(c: char): (d: char)
    ensures !IsLowerAscii(d)
    ensures IsLowerAscii(c) ==> IsUpperAscii(d) && d as int == c as int - 32
    ensures !IsLowerAscii(c) ==> d == c
  {
    if IsLowerAscii(c) then (c as int - 32) as char else c
  }

  /** `s.toLowerCase()`, character by character as `LowerChar`. */
  function Lower(s: string): (r: string)
    ensures |r| == |s|
    ensures forall k :: 0 <= k < |s| ==> r[k] == LowerChar(s[k])
  {
    if s == [] then [] else [LowerChar(s[0])] + Lower(s[1..])
  }
}
