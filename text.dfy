/** The JavaScript string primitives the source relies on, over `string`
    (a sequence of Unicode scalar values): the `\s` class and `trim`,
    ASCII and Spanish case mapping, `includes`/`indexOf`, `startsWith`/
    `endsWith`, `split`/`join` and decimal rendering of numbers. */
module Text {
  import opened Wrappers

  // ---------------------------------------------------------------------
  // Character classes
  // ---------------------------------------------------------------------

  /** The characters matched by the regular-expression class `\s`, which
      are also the ones `String.prototype.trim` removes. */
  predicate IsWhitespace(c: char) {
    || c == '\t' || c == '\n' || c == '\U{000B}' || c == '\U{000C}' || c == '\r' || c == ' '
    || c == '\U{00A0}' || c == '\U{1680}' || ('\U{2000}' <= c <= '\U{200A}')
    || c == '\U{2028}' || c == '\U{2029}' || c == '\U{202F}' || c == '\U{205F}'
    || c == '\U{3000}' || c == '\U{FEFF}'
  }

  /** The characters that `.` in a regular expression does not match. */
  predicate IsLineTerminator(c: char) {
    c == '\n' || c == '\r' || c == '\U{2028}' || c == '\U{2029}'
  }

  predicate IsDigit(c: char) { '0' <= c <= '9' }
  predicate IsAsciiUpper(c: char) { 'A' <= c <= 'Z' }
  predicate IsAsciiLower(c: char) { 'a' <= c <= 'z' }
  predicate IsAsciiLetter(c: char) { IsAsciiUpper(c) || IsAsciiLower(c) }

  /** `[A-Z0-9]` without the `i` flag. */
  predicate IsUpperAlnum(c: char) { IsAsciiUpper(c) || IsDigit(c) }

  /** `[A-Z0-9]` under the `i` flag. */
  predicate IsAlnum(c: char) { IsAsciiLetter(c) || IsDigit(c) }

  predicate IsHyphen(c: char) { c == '-' }

  /** The characters removed from a plate: `-` and `\s`. */
  predicate IsPlateSeparator(c: char) { IsHyphen(c) || IsWhitespace(c) }

  /** Every character of `s` satisfies `p`. */
  predicate All(s: string, p: char -> bool) {
    forall i :: 0 <= i < |s| ==> p(s[i])
  }

  /** `^[class]+$`: a non-empty run of characters of one class. */
  predicate NonEmptyAll(s: string, p: char -> bool) {
    |s| > 0 && All(s, p)
  }

  /** `^.+$`: a non-empty string with no line terminator. */
  predicate OneLine(s: string) {
    |s| > 0 && NoneOf(s, IsLineTerminator)
  }

  /** The length of the longest prefix of `s` whose characters satisfy `p`:
      how far a greedy `[class]*` reaches. */
  function Span(s: string, p: char -> bool): (n: nat)
    ensures n <= |s| && All(s[..n], p) && (n < |s| ==> !p(s[n]))
  {
    if s == [] || !p(s[0]) then 0
    else
      var n := Span(s[1..], p);
      assert s[..n + 1] == [s[0]] + s[1..][..n];
      n + 1
  }

  /** `s` has no character satisfying `p`. */
  predicate NoneOf(s: string, p: char -> bool) {
    forall i :: 0 <= i < |s| ==> !p(s[i])
  }

  // ---------------------------------------------------------------------
  // Case mapping (ASCII and the accented letters of Spanish)
  // ---------------------------------------------------------------------

  function UpperChar(c: char): char {
    if IsAsciiLower(c) then (c as int - 32) as char
    else if c == 'á' then 'Á' else if c == 'é' then 'É' else if c == 'í' then 'Í'
    else if c == 'ó' then 'Ó' else if c == 'ú' then 'Ú' else if c == 'ñ' then 'Ñ'
    else if c == 'ü' then 'Ü'
    else c
  }

  function LowerChar(c: char): char {
    if IsAsciiUpper(c) then (c as int + 32) as char
    else if c == 'Á' then 'á' else if c == 'É' then 'é' else if c == 'Í' then 'í'
    else if c == 'Ó' then 'ó' else if c == 'Ú' then 'ú' else if c == 'Ñ' then 'ñ'
    else if c == 'Ü' then 'ü'
    else c
  }

  /** `toUpperCase`. */
  function Upper(s: string): (r: string)
    ensures |r| == |s|
    ensures forall i :: 0 <= i < |s| ==> r[i] == UpperChar(s[i])
  {
    seq(|s|, i requires 0 <= i < |s| => UpperChar(s[i]))
  }

  /** `toLowerCase`. */
  function Lower(s: string): (r: string)
    ensures |r| == |s|
    ensures forall i :: 0 <= i < |s| ==> r[i] == LowerChar(s[i])
  {
    seq(|s|, i requires 0 <= i < |s| => LowerChar(s[i]))
  }

  /** Upper-casing twice is upper-casing once. */
  lemma UpperIdempotent(s: string)
    ensures Upper(Upper(s)) == Upper(s)
  {
    forall i | 0 <= i < |s| ensures UpperChar(UpperChar(s[i])) == UpperChar(s[i]) {}
  }

  // ---------------------------------------------------------------------
  // Trimming
  // ---------------------------------------------------------------------

  /** `s` neither starts nor ends with whitespace. */
  predicate IsTrimmed(s: string) {
    s == [] || (!IsWhitespace(s[0]) && !IsWhitespace(s[|s| - 1]))
  }

  function TrimStart(s: string): (r: string)
    ensures |r| <= |s| && r == s[|s| - |r|..]
    ensures r == [] || !IsWhitespace(r[0])
    ensures forall i :: 0 <= i < |s| - |r| ==> IsWhitespace(s[i])
  {
    if s != [] && IsWhitespace(s[0]) then TrimStart(s[1..]) else s
  }

  function TrimEnd(s: string): (r: string)
    ensures |r| <= |s| && r == s[..|r|]
    ensures r == [] || !IsWhitespace(r[|r| - 1])
    ensures forall i :: |r| <= i < |s| ==> IsWhitespace(s[i])
  {
    if s != [] && IsWhitespace(s[|s| - 1]) then TrimEnd(s[..|s| - 1]) else s
  }

  /** `String.prototype.trim`. */
  function Trim(s: string): (r: string)
    ensures IsTrimmed(r)
    ensures |r| <= |s|
  {
    TrimStart(TrimEnd(s))
  }

  /** Trimming removes whitespace and nothing else, and only at the ends:
      the result is an infix of the input with whitespace on either side. */
  lemma TrimRemovesOnlyWhitespace(s: string)
    ensures exists k: nat :: TrimmedAt(s, Trim(s), k)
  {
    var t := TrimEnd(s);
    var r := Trim(s);
    var k := |t| - |r|;
    assert r == s[k..|t|];
    assert TrimmedAt(s, r, k);
  }

  /** `r` sits at index `k` of `s`, with only whitespace before and after. */
  predicate TrimmedAt(s: string, r: string, k: nat) {
    && OccursAt(s, r, k)
    && (forall i :: 0 <= i < k ==> IsWhitespace(s[i]))
    && (forall i :: k + |r| <= i < |s| ==> IsWhitespace(s[i]))
  }

  lemma TrimOfTrimmed(s: string)
    requires IsTrimmed(s)
    ensures Trim(s) == s
  {
  }

  /** Trimming ignores whitespace already removed from the end. */
  lemma TrimOfTrimEnd(s: string)
    ensures Trim(TrimEnd(s)) == Trim(s)
  {
    var t := TrimEnd(s);
    assert TrimEnd(t) == t;
  }

  /** Whitespace appended to a string does not survive `trimEnd`. */
  lemma {:induction false} TrimEndAppendWhitespace(s: string, ws: string)
    requires All(ws, IsWhitespace)
    ensures TrimEnd(s + ws) == TrimEnd(s)
    decreases |ws|
  {
    if ws != [] {
      var ws' := ws[..|ws| - 1];
      assert (s + ws)[..|s + ws| - 1] == s + ws';
      TrimEndAppendWhitespace(s, ws');
    } else {
      assert s + ws == s;
    }
  }

  lemma TrimAllWhitespace(s: string)
    requires All(s, IsWhitespace)
    ensures Trim(s) == ""
  {
    if s != [] {
      assert IsWhitespace(s[0]);
      TrimAllWhitespace(s[1..]);
    }
  }

  // ---------------------------------------------------------------------
  // Searching
  // ---------------------------------------------------------------------

  predicate StartsWith(s: string, prefix: string) {
    |prefix| <= |s| && s[..|prefix|] == prefix
  }

  predicate EndsWith(s: string, suffix: string) {
    |suffix| <= |s| && s[|s| - |suffix|..] == suffix
  }

  /** `sub` occurs in `s` starting at index `i`. */
  predicate OccursAt(s: string, sub: string, i: nat) {
    i + |sub| <= |s| && s[i..i + |sub|] == sub
  }

  /** `s.indexOf(sub, from)`: the first occurrence at or after `from`. */
  function IndexFrom(s: string, sub: string, from: nat): (r: Option<nat>)
    decreases |s| - from
    ensures r.Some? ==> from <= r.value && OccursAt(s, sub, r.value)
    ensures forall j :: from <= j && (r.None? || j < r.value) ==> !OccursAt(s, sub, j)
  {
    if from + |sub| > |s| then None
    else if s[from..from + |sub|] == sub then Some(from)
    else IndexFrom(s, sub, from + 1)
  }

  function IndexOf(s: string, sub: string): Option<nat> {
    IndexFrom(s, sub, 0)
  }

  /** `s.includes(sub)`. */
  predicate Contains(s: string, sub: string) {
    IndexOf(s, sub).Some?
  }

  lemma ContainsAt(s: string, sub: string, i: nat)
    requires OccursAt(s, sub, i)
    ensures Contains(s, sub)
  {
  }

  lemma ContainsInfix(a: string, b: string, c: string)
    ensures Contains(a + b + c, b)
  {
    assert (a + b + c)[|a|..|a| + |b|] == b;
    ContainsAt(a + b + c, b, |a|);
  }

  // ---------------------------------------------------------------------
  // Filtering, splitting and joining
  // ---------------------------------------------------------------------

  /** `s` with every character satisfying `p` removed
      (`s.replace(/[...]/g, "")`). */
  function RemoveWhere(s: string, p: char -> bool): (r: string)
    ensures |r| <= |s|
    ensures NoneOf(r, p)
  {
    if s == [] then []
    else if p(s[0]) then RemoveWhere(s[1..], p)
    else [s[0]] + RemoveWhere(s[1..], p)
  }

  /** A string with nothing to remove is unchanged. */
  lemma {:induction false} RemoveWhereNothing(s: string, p: char -> bool)
    requires NoneOf(s, p)
    ensures RemoveWhere(s, p) == s
  {
    if s != [] {
      assert forall i :: 0 <= i < |s| - 1 ==> s[1..][i] == s[i + 1];
      RemoveWhereNothing(s[1..], p);
    }
  }

  /** Removing characters works piece by piece. */
  lemma {:induction false} RemoveWhereAppend(a: string, b: string, p: char -> bool)
    ensures RemoveWhere(a + b, p) == RemoveWhere(a, p) + RemoveWhere(b, p)
  {
    if a == [] {
      assert a + b == b;
    } else {
      assert (a + b)[1..] == a[1..] + b;
      RemoveWhereAppend(a[1..], b, p);
    }
  }

  /** `s.split(sep)` for a non-empty separator. */
  function Split(s: string, sep: string): (parts: seq<string>)
    requires |sep| > 0
    ensures |parts| >= 1
    decreases |s|
  {
    var i := IndexOf(s, sep);
    if i.None? then [s] else [s[..i.value]] + Split(s[i.value + |sep|..], sep)
  }

  /** `parts.join(sep)`. */
  function Join(parts: seq<string>, sep: string): string {
    if |parts| == 0 then ""
    else if |parts| == 1 then parts[0]
    else parts[0] + sep + Join(parts[1..], sep)
  }

  /** Joining the pieces of a split restores the string. */
  lemma {:induction false} JoinSplit(s: string, sep: string)
    requires |sep| > 0
    ensures Join(Split(s, sep), sep) == s
    decreases |s|
  {
    var found := IndexOf(s, sep);
    if found.Some? {
      var i := found.value;
      var rest := s[i + |sep|..];
      var parts := Split(rest, sep);
      JoinSplit(rest, sep);
      var all := [s[..i]] + parts;
      assert Split(s, sep) == all;
      assert all[1..] == parts;
      assert Join(all, sep) == s[..i] + sep + Join(parts, sep);
      assert s[i..i + |sep|] == sep;
      assert s == s[..i] + s[i..i + |sep|] + rest;
    }
  }

  /** The last piece of a split holds no separator. */
  lemma {:induction false} SplitLastHasNoSeparator(s: string, sep: string)
    requires |sep| > 0
    ensures !Contains(Split(s, sep)[|Split(s, sep)| - 1], sep)
    decreases |s|
  {
    var found := IndexOf(s, sep);
    if found.Some? {
      var rest := s[found.value + |sep|..];
      SplitLastHasNoSeparator(rest, sep);
      assert Split(s, sep) == [s[..found.value]] + Split(rest, sep);
    }
  }

  /** Joining a list with one more element appended. */
  lemma {:induction false} JoinSnoc(parts: seq<string>, last: string, sep: string)
    requires |parts| > 0
    ensures Join(parts + [last], sep) == Join(parts, sep) + sep + last
  {
    if |parts| == 1 {
      assert parts + [last] == [parts[0], last];
    } else {
      assert (parts + [last])[1..] == parts[1..] + [last];
      JoinSnoc(parts[1..], last, sep);
    }
  }

  /** Every element of a list occurs in its join. */
  lemma {:induction false} JoinContainsElement(parts: seq<string>, sep: string, k: nat)
    requires k < |parts|
    ensures Contains(Join(parts, sep), parts[k])
  {
    if |parts| == 1 {
      ContainsInfix("", parts[0], "");
    } else if k == 0 {
      ContainsInfix("", parts[0], sep + Join(parts[1..], sep));
      assert "" + parts[0] + (sep + Join(parts[1..], sep)) == Join(parts, sep);
    } else {
      JoinContainsElement(parts[1..], sep, k - 1);
      assert parts[1..][k - 1] == parts[k];
      ContainsInSuffix(parts[0] + sep, Join(parts[1..], sep), parts[k]);
    }
  }

  /** What a text contains, the text with anything before it contains. */
  lemma ContainsInSuffix(a: string, b: string, sub: string)
    requires Contains(b, sub)
    ensures Contains(a + b, sub)
  {
    var i := IndexOf(b, sub).value;
    assert (a + b)[|a| + i..|a| + i + |sub|] == b[i..i + |sub|];
    ContainsAt(a + b, sub, |a| + i);
  }

  // ---------------------------------------------------------------------
  // Decimal numbers
  // ---------------------------------------------------------------------

  function DigitChar(d: nat): (c: char)
    requires d < 10
    ensures IsDigit(c)
  {
    ('0' as int + d) as char
  }

  function DigitValue(c: char): (d: nat)
    requires IsDigit(c)
    ensures d < 10 && DigitChar(d) == c
  {
    c as int - '0' as int
  }

  /** Template-literal rendering `${n}` of a non-negative integer. */
  function NatToString(n: nat): (s: string)
    ensures |s| >= 1 && All(s, IsDigit)
  {
    if n < 10 then [DigitChar(n)] else NatToString(n / 10) + [DigitChar(n % 10)]
  }

  /** The number a run of decimal digits denotes. */
  function DigitsValue(s: string): nat
    requires All(s, IsDigit)
  {
    if s == [] then 0 else DigitsValue(s[..|s| - 1]) * 10 + DigitValue(s[|s| - 1])
  }

  /** Reading back a rendered number gives the number. */
  lemma {:induction false} DigitsValueOfNatToString(n: nat)
    ensures DigitsValue(NatToString(n)) == n
  {
    var s := NatToString(n);
    if n >= 10 {
      DigitsValueOfNatToString(n / 10);
      assert s[..|s| - 1] == NatToString(n / 10);
    }
  }

  // ---------------------------------------------------------------------
  // Line breaks
  // ---------------------------------------------------------------------

  predicate IsBreak(c: char) { c == '\r' || c == '\n' }

  /** `text.replace(/\r?\n|\r/g, " ")`, the first step of the SOAP and
      circulation permit extractors: each CRLF pair, LF and CR becomes one
      space. */
  function SpaceLineBreaks(s: string): (r: string)
    ensures |r| <= |s|
  {
    if s == [] then []
    else if s[0] == '\r' && |s| >= 2 && s[1] == '\n' then " " + SpaceLineBreaks(s[2..])
    else if IsBreak(s[0]) then " " + SpaceLineBreaks(s[1..])
    else [s[0]] + SpaceLineBreaks(s[1..])
  }

  /** No line break is left. */
  lemma {:induction false} SpaceLineBreaksNoBreak(s: string)
    ensures NoneOf(SpaceLineBreaks(s), IsBreak)
    decreases |s|
  {
    if s == [] {
    } else if s[0] == '\r' && |s| >= 2 && s[1] == '\n' {
      SpaceLineBreaksNoBreak(s[2..]);
      NoneOfCons(' ', SpaceLineBreaks(s[2..]), IsBreak);
    } else if IsBreak(s[0]) {
      SpaceLineBreaksNoBreak(s[1..]);
      NoneOfCons(' ', SpaceLineBreaks(s[1..]), IsBreak);
    } else {
      SpaceLineBreaksNoBreak(s[1..]);
      NoneOfCons(s[0], SpaceLineBreaks(s[1..]), IsBreak);
    }
  }

  lemma NoneOfCons(c: char, s: string, p: char -> bool)
    requires !p(c) && NoneOf(s, p)
    ensures NoneOf([c] + s, p)
  {
    forall i | 0 <= i < |s| + 1 ensures !p(([c] + s)[i]) {
      if i > 0 {
        assert ([c] + s)[i] == s[i - 1];
      }
    }
  }

  /** A text without line breaks is left as it is. */
  lemma SpaceLineBreaksUnchanged(s: string)
    requires NoneOf(s, IsBreak)
    ensures SpaceLineBreaks(s) == s
  {
    SpaceLineBreaksPrefix(s, "");
    assert s + "" == s;
  }

  /** Replacing the line breaks a second time changes nothing. */
  lemma SpaceLineBreaksIdempotent(s: string)
    ensures SpaceLineBreaks(SpaceLineBreaks(s)) == SpaceLineBreaks(s)
  {
    SpaceLineBreaksNoBreak(s);
    SpaceLineBreaksUnchanged(SpaceLineBreaks(s));
  }

  /** A CRLF pair and a lone line break both give a single space. */
  lemma SpaceLineBreaksExamples(a: string, b: string)
    requires NoneOf(a, IsBreak) && NoneOf(b, IsBreak)
    ensures SpaceLineBreaks(a + "\r\n" + b) == a + " " + b
    ensures SpaceLineBreaks(a + "\n" + b) == a + " " + b
    ensures SpaceLineBreaks(a + "\r" + b) == a + " " + b
  {
    SpaceLineBreakAfter(a, "\r\n", b);
    SpaceLineBreakAfter(a, "\n", b);
    SpaceLineBreakAfter(a, "\r", b);
  }

  /** One line break between two break-free parts. */
  lemma SpaceLineBreakAfter(a: string, br: string, b: string)
    requires NoneOf(a, IsBreak) && NoneOf(b, IsBreak)
    requires br == "\r\n" || br == "\n" || br == "\r"
    ensures SpaceLineBreaks(a + br + b) == a + " " + b
  {
    assert a + br + b == a + (br + b);
    SpaceLineBreaksPrefix(a, br + b);
    assert (br + b)[|br|..] == b;
    SpaceLineBreaksUnchanged(b);
    assert SpaceLineBreaks(br + b) == " " + SpaceLineBreaks(b);
  }

  /** Text before the first line break is copied unchanged. */
  lemma {:induction false} SpaceLineBreaksPrefix(a: string, b: string)
    requires NoneOf(a, IsBreak)
    ensures SpaceLineBreaks(a + b) == a + SpaceLineBreaks(b)
  {
    if a != [] {
      assert (a + b)[1..] == a[1..] + b;
      assert !IsBreak(a[0]);
      assert NoneOf(a[1..], IsBreak) by {
        forall i | 0 <= i < |a| - 1 ensures !IsBreak(a[1..][i]) {
          assert a[1..][i] == a[i + 1];
        }
      }
      SpaceLineBreaksPrefix(a[1..], b);
      assert [a[0]] + (a[1..] + SpaceLineBreaks(b)) == a + SpaceLineBreaks(b);
    } else {
      assert a + b == b;
    }
  }
}
