/** The value parsers of src/utils/parse/parseUtils.ts: dates written
    "dd/MON/yyyy", integers as `parseInt(…, 10)` reads them, and the "x"
    marks of bit fields. */
module ParseUtils {
  import opened Wrappers
  import opened Text

  // ---------------------------------------------------------------------
  // parseDate
  // ---------------------------------------------------------------------

  /** The keys of `MONTHS_MAP`, in the order of their values 0..11. */
  const Months: seq<string> :=
    ["JAN", "FEB", "MAR", "APR", "MAY", "JUN", "JUL", "AUG", "SEP", "OCT", "NOV", "DEC"]

  /** `MONTHS_MAP[m]`, `None` for `undefined`. */
  function MonthIndex(m: string): (r: Option<nat>)
    ensures r.Some? ==> r.value < 12 && Months[r.value] == m
    ensures r.None? ==> forall i :: 0 <= i < |Months| ==> Months[i] != m
  {
    MonthFrom(m, 0)
  }

  function MonthFrom(m: string, i: nat): (r: Option<nat>)
    requires i <= |Months|
    ensures r.Some? ==> i <= r.value < 12 && Months[r.value] == m
    ensures r.None? ==> forall j :: i <= j < |Months| ==> Months[j] != m
    decreases |Months| - i
  {
    if i == |Months| then None
    else if Months[i] == m then Some(i)
    else MonthFrom(m, i + 1)
  }

  /** What `new Date(year, monthIndex, day)` is built from. */
  datatype DateParts = DateParts(year: nat, monthIndex: nat, day: nat)

  /** `^(\d{1,2})\/([A-Z]{3})\/(\d{4})$` with a day of `d` digits. */
  predicate DateShape(t: string, d: nat) {
    && (d == 1 || d == 2)
    && |t| == d + 9
    && All(t[..d], IsDigit)
    && t[d] == '/'
    && All(t[d + 1..d + 4], IsAsciiUpper)
    && t[d + 4] == '/'
    && All(t[d + 5..], IsDigit)
  }

  /** The date read from a string already trimmed and upper-cased. */
  function DateOf(t: string): (r: Option<DateParts>)
    ensures r.Some? <==> Readable(t)
    ensures r.Some? ==> ReadsAs(t, r.value)
  {
    var d := if |t| == 10 then 1 else 2;
    if !DateShape(t, d) then None
    else
      var month := MonthIndex(t[d + 1..d + 4]);
      if month.None? then None
      else
        DigitsBelow(t[..d]);
        DigitsBelow(t[d + 5..]);
        assert Pow10(1) == 10 && Pow10(2) == 100 && Pow10(4) == 10000;
        Some(DateParts(DigitsValue(t[d + 5..]), month.value, DigitsValue(t[..d])))
  }

  /** A trimmed, upper-cased text `parseDate` accepts: it matches
      `^(\d{1,2})\/([A-Z]{3})\/(\d{4})$` and its three letters are a key
      of `MONTHS_MAP`. */
  predicate Readable(t: string) {
    |t| >= 10 && var d := |t| - 9;
    DateShape(t, d) && MonthIndex(t[d + 1..d + 4]).Some?
  }

  /** `date` is what `t` spells: its month index is the one of its three
      letters, its day and year are the numbers its digit runs denote. */
  predicate ReadsAs(t: string, date: DateParts) {
    |t| >= 10 && var d := |t| - 9;
    && DateShape(t, d)
    && date.monthIndex < 12 && Months[date.monthIndex] == t[d + 1..d + 4]
    && date.day == DigitsValue(t[..d]) < 100
    && date.year == DigitsValue(t[d + 5..]) < 10000
  }

  /** `parseDate`: `None` for the empty string, for anything that is not
      one or two digits, three letters and four digits separated by `/`
      once trimmed and upper-cased, and for a month outside the twelve
      English abbreviations; otherwise the year, month index and day the
      text spells. */
  function ParseDate(value: string): (r: Option<DateParts>)
    ensures value == "" ==> r.None?
    ensures r.Some? <==> value != "" && Readable(Upper(Trim(value)))
    ensures r.Some? ==> ReadsAs(Upper(Trim(value)), r.value)
  {
    if value == "" then None else DateOf(Upper(Trim(value)))
  }

  /** A run of `n` digits denotes a number below 10^n. */
  lemma {:induction false} DigitsBelow(s: string)
    requires All(s, IsDigit)
    ensures DigitsValue(s) < Pow10(|s|)
    decreases |s|
  {
    if s != [] {
      DigitsBelow(s[..|s| - 1]);
    }
  }

  function Pow10(n: nat): (p: nat)
    ensures p >= 1
  {
    if n == 0 then 1 else 10 * Pow10(n - 1)
  }

  /** A day of one or two digits, a known month and a year of four
      digits, separated by `/`, are read back; leading zeros are allowed,
      and any digits at all, "0/JAN/0000" included, are accepted. */
  lemma ParseDateOfParts(ds: string, m: nat, ys: string)
    requires 1 <= |ds| <= 2 && All(ds, IsDigit) && m < 12 && |ys| == 4 && All(ys, IsDigit)
    ensures ParseDate(ds + "/" + Months[m] + "/" + ys) == Some(DateParts(DigitsValue(ys), m, DigitsValue(ds)))
  {
    var value := ds + "/" + Months[m] + "/" + ys;
    var d := |ds|;
    assert value[..d] == ds && value[d + 1..d + 4] == Months[m] && value[d + 5..] == ys;
    assert value[d] == '/' && value[d + 4] == '/';
    assert All(Months[m], IsAsciiUpper);
    DatePlain(value, d);
    TrimOfTrimmed(value);
    assert DateShape(value, d);
    DateOfShape(value, d, m);
  }

  /** A text of the date's shape naming month `m` reads as its digits and
      `m`. */
  lemma DateOfShape(t: string, d: nat, m: nat)
    requires DateShape(t, d) && m < 12 && t[d + 1..d + 4] == Months[m]
    ensures DateOf(t) == Some(DateParts(DigitsValue(t[d + 5..]), m, DigitsValue(t[..d])))
  {
    MonthIndexOf(m);
  }

  /** A text of the date's shape is trimmed and upper-case already. */
  lemma DatePlain(t: string, d: nat)
    requires DateShape(t, d)
    ensures IsTrimmed(t) && Upper(t) == t
  {
    assert t[0] == t[..d][0] && t[|t| - 1] == t[d + 5..][3];
    forall i | 0 <= i < |t| ensures UpperChar(t[i]) == t[i] {
      if i < d {
        assert t[i] == t[..d][i];
      } else if d < i < d + 4 {
        assert t[i] == t[d + 1..d + 4][i - d - 1];
      } else if i > d + 4 {
        assert t[i] == t[d + 5..][i - d - 5];
      }
    }
  }

  /** Each abbreviation is found at its own index. */
  lemma MonthIndexOf(m: nat)
    requires m < 12
    ensures MonthIndex(Months[m]) == Some(m)
  {
    var r := MonthIndex(Months[m]);
    if r != Some(m) {
      assert Months[r.value] == Months[m];
    }
  }

  // Letter case and surrounding whitespace.

  lemma UpperKeepsWhitespace(c: char)
    ensures IsWhitespace(UpperChar(c)) <==> IsWhitespace(c)
  {
  }

  /** Two strings whose characters are whitespace at the same places
      keep the same range under `trimEnd`, `trimStart` and `trim`. */
  lemma {:induction false} TrimEndAlike(a: string, b: string)
    requires |a| == |b| && forall i :: 0 <= i < |a| ==> (IsWhitespace(a[i]) <==> IsWhitespace(b[i]))
    ensures |TrimEnd(a)| == |TrimEnd(b)|
    decreases |a|
  {
    if a != [] && IsWhitespace(a[|a| - 1]) {
      TrimEndAlike(a[..|a| - 1], b[..|b| - 1]);
    }
  }

  lemma {:induction false} TrimStartAlike(a: string, b: string)
    requires |a| == |b| && forall i :: 0 <= i < |a| ==> (IsWhitespace(a[i]) <==> IsWhitespace(b[i]))
    ensures |TrimStart(a)| == |TrimStart(b)|
    decreases |a|
  {
    if a != [] && IsWhitespace(a[0]) {
      TrimStartAlike(a[1..], b[1..]);
    }
  }

  /** Upper-casing commutes with trimming up to the case of what is kept:
      strings equal up to case are equal once trimmed and upper-cased. */
  lemma TrimUpperAlike(a: string, b: string)
    requires |a| == |b| && forall i :: 0 <= i < |a| ==> UpperChar(a[i]) == UpperChar(b[i])
    ensures Upper(Trim(a)) == Upper(Trim(b))
  {
    WhitespaceAlike(a, b);
    var lo, hi := TrimAlike(a, b);
    UpperAlike(a, b, lo, hi);
  }

  lemma WhitespaceAlike(a: string, b: string)
    requires |a| == |b| && forall i :: 0 <= i < |a| ==> UpperChar(a[i]) == UpperChar(b[i])
    ensures forall i :: 0 <= i < |a| ==> (IsWhitespace(a[i]) <==> IsWhitespace(b[i]))
  {
    forall i | 0 <= i < |a| ensures IsWhitespace(a[i]) <==> IsWhitespace(b[i]) {
      UpperKeepsWhitespace(a[i]);
      UpperKeepsWhitespace(b[i]);
    }
  }

  /** Strings with whitespace at the same places are trimmed to the same
      range. */
  lemma TrimAlike(a: string, b: string) returns (lo: nat, hi: nat)
    requires |a| == |b| && forall i :: 0 <= i < |a| ==> (IsWhitespace(a[i]) <==> IsWhitespace(b[i]))
    ensures lo <= hi <= |a| && Trim(a) == a[lo..hi] && Trim(b) == b[lo..hi]
  {
    TrimEndAlike(a, b);
    var ta, tb := TrimEnd(a), TrimEnd(b);
    hi := |ta|;
    AlikePrefix(a, b, hi);
    TrimStartAlike(ta, tb);
    lo := hi - |TrimStart(ta)|;
    SuffixOfPrefix(a, lo, hi);
    SuffixOfPrefix(b, lo, hi);
  }

  lemma AlikePrefix(a: string, b: string, n: nat)
    requires n <= |a| == |b| && forall i :: 0 <= i < |a| ==> (IsWhitespace(a[i]) <==> IsWhitespace(b[i]))
    ensures forall i :: 0 <= i < n ==> (IsWhitespace(a[..n][i]) <==> IsWhitespace(b[..n][i]))
  {
  }

  lemma SuffixOfPrefix(s: string, lo: nat, hi: nat)
    requires lo <= hi <= |s|
    ensures s[..hi][lo..] == s[lo..hi]
  {
  }

  lemma UpperAlike(a: string, b: string, lo: nat, hi: nat)
    requires lo <= hi <= |a| == |b| && forall i :: 0 <= i < |a| ==> UpperChar(a[i]) == UpperChar(b[i])
    ensures Upper(a[lo..hi]) == Upper(b[lo..hi])
  {
    forall i | 0 <= i < hi - lo ensures Upper(a[lo..hi])[i] == Upper(b[lo..hi])[i] {
      assert a[lo..hi][i] == a[lo + i] && b[lo..hi][i] == b[lo + i];
    }
  }

  /** `parseDate` ignores letter case. */
  lemma ParseDateIgnoresCase(a: string, b: string)
    requires |a| == |b| && forall i :: 0 <= i < |a| ==> UpperChar(a[i]) == UpperChar(b[i])
    ensures ParseDate(a) == ParseDate(b)
  {
    TrimUpperAlike(a, b);
  }

  /** In particular, upper-cased input reads the same... */
  lemma ParseDateOfUpper(value: string)
    ensures ParseDate(Upper(value)) == ParseDate(value)
  {
    var u := Upper(value);
    forall i | 0 <= i < |value| ensures UpperChar(u[i]) == UpperChar(value[i]) {
      UpperCharTwice(value[i]);
    }
    ParseDateIgnoresCase(u, value);
  }

  /** ... and so does lower-cased input. */
  lemma ParseDateOfLower(value: string)
    ensures ParseDate(Lower(value)) == ParseDate(value)
  {
    var l := Lower(value);
    forall i | 0 <= i < |value| ensures UpperChar(l[i]) == UpperChar(value[i]) {
      UpperOfLower(value[i]);
    }
    ParseDateIgnoresCase(l, value);
  }

  lemma UpperCharTwice(c: char)
    ensures UpperChar(UpperChar(c)) == UpperChar(c)
  {
  }

  lemma UpperOfLower(c: char)
    ensures UpperChar(LowerChar(c)) == UpperChar(c)
  {
  }

  /** `trimEnd` of `p + v` keeps `p` when `v` has something to keep. */
  lemma {:induction false} TrimEndAfterPrefix(p: string, v: string)
    requires TrimEnd(v) != []
    ensures TrimEnd(p + v) == p + TrimEnd(v)
    decreases |v|
  {
    if IsWhitespace(v[|v| - 1]) {
      assert (p + v)[..|p + v| - 1] == p + v[..|v| - 1];
      TrimEndAfterPrefix(p, v[..|v| - 1]);
    }
  }

  /** `trimStart` skips leading whitespace. */
  lemma {:induction false} TrimStartAfterWhitespace(ws: string, v: string)
    requires All(ws, IsWhitespace)
    ensures TrimStart(ws + v) == TrimStart(v)
    decreases |ws|
  {
    if ws != [] {
      assert (ws + v)[1..] == ws[1..] + v;
      TrimStartAfterWhitespace(ws[1..], v);
    } else {
      assert ws + v == v;
    }
  }

  /** Whitespace around a string does not survive `trim`. */
  lemma TrimSurrounded(ws: string, v: string, ws': string)
    requires All(ws, IsWhitespace) && All(ws', IsWhitespace)
    ensures Trim(ws + v + ws') == Trim(v)
  {
    TrimEndAppendWhitespace(ws + v, ws');
    if TrimEnd(v) == [] {
      assert All(ws + v, IsWhitespace);
      TrimAllWhitespace(ws + v);
      TrimOfTrimEnd(ws + v);
      assert All(v, IsWhitespace);
      TrimAllWhitespace(v);
    } else {
      TrimEndAfterPrefix(ws, v);
      TrimStartAfterWhitespace(ws, TrimEnd(v));
    }
  }

  /** `parseDate` ignores whitespace around the date. */
  lemma ParseDateIgnoresWhitespace(ws: string, value: string, ws': string)
    requires All(ws, IsWhitespace) && All(ws', IsWhitespace)
    ensures ParseDate(ws + value + ws') == ParseDate(value)
  {
    TrimSurrounded(ws, value, ws');
    if value == "" {
      TrimEmpty();
      DateOfEmpty();
    }
  }

  lemma TrimEmpty()
    ensures Trim("") == ""
  {
  }

  lemma DateOfEmpty()
    ensures DateOf(Upper("")) == None
  {
    assert Upper("") == "";
    assert !DateShape("", 2);
  }

  // ---------------------------------------------------------------------
  // parseIntOrNull
  // ---------------------------------------------------------------------

  /** `parseInt(s, 10)`: leading whitespace is skipped, an optional sign
      is read, then the longest run of decimal digits; `None` stands for
      `NaN`, when that run is empty. */
  function ParseInt(s: string): (r: Option<int>)
    ensures r.Some? <==> LeadingDigits(s)
  {
    var t := TrimStart(s);
    if |t| > 0 && t[0] == '-' then
      var u := Unsigned(t[1..]);
      if u.None? then None else Some(-(u.value as int))
    else if |t| > 0 && t[0] == '+' then Unsigned(t[1..])
    else Unsigned(t)
  }

  /** The longest leading run of decimal digits and the number it
      denotes, `None` when there is none. */
  function Unsigned(u: string): (r: Option<nat>)
    ensures r.Some? <==> (|u| > 0 && IsDigit(u[0]))
  {
    var n := Span(u, IsDigit);
    if n == 0 then None else Some(DigitsValue(u[..n]))
  }

  /** After leading whitespace and an optional sign comes a digit. */
  predicate LeadingDigits(s: string) {
    var t := TrimStart(s);
    var start := if |t| > 0 && (t[0] == '-' || t[0] == '+') then 1 else 0;
    start < |t| && IsDigit(t[start])
  }

  /** `parseIntOrNull`: `parseInt` of the trimmed value, `None` exactly
      when the trimmed string has no leading (optionally signed) digit. */
  function ParseIntOrNull(value: string): (r: Option<int>)
    ensures r.None? <==> !LeadingDigits(Trim(value))
  {
    ParseInt(Trim(value))
  }

  /** A run of digits followed by something else reads as its value. */
  lemma UnsignedOfDigits(s: string, rest: string)
    requires |s| > 0 && All(s, IsDigit) && (rest == [] || !IsDigit(rest[0]))
    ensures Unsigned(s + rest) == Some(DigitsValue(s))
  {
    SpanOfDigits(s, rest);
    assert (s + rest)[..|s|] == s;
  }

  /** A rendered number reads back, whatever follows it that is not a
      digit... */
  lemma ParseIntOfNatToString(n: nat, rest: string)
    requires rest == [] || !IsDigit(rest[0])
    ensures ParseInt(NatToString(n) + rest) == Some(n)
  {
    var s := NatToString(n);
    var t := s + rest;
    assert t[0] == s[0];
    ParseIntOfDigitLed(t);
    UnsignedOfDigits(s, rest);
    DigitsValueOfNatToString(n);
  }

  /** A text that starts with a digit is read without sign or padding. */
  lemma ParseIntOfDigitLed(t: string)
    requires |t| > 0 && IsDigit(t[0])
    ensures ParseInt(t) == Unsigned(t)
  {
    assert !IsWhitespace(t[0]);
    assert TrimStart(t) == t;
  }

  /** ... and with a minus sign before it, its negation. */
  lemma ParseIntOfNegated(n: nat, rest: string)
    requires rest == [] || !IsDigit(rest[0])
    ensures ParseInt("-" + NatToString(n) + rest) == Some(-(n as int))
  {
    UnsignedOfDigits(NatToString(n), rest);
    DigitsValueOfNatToString(n);
    MinusBefore(NatToString(n), rest, n);
  }

  lemma MinusBefore(s: string, rest: string, x: nat)
    requires Unsigned(s + rest) == Some(x)
    ensures ParseInt("-" + s + rest) == Some(-(x as int))
  {
    assert "-" + s + rest == "-" + (s + rest);
    MinusThen(s + rest, x);
  }

  lemma MinusThen(u: string, x: nat)
    requires Unsigned(u) == Some(x)
    ensures ParseInt("-" + u) == Some(-(x as int))
  {
    AfterSign("-", u);
    AfterMinus("-" + u);
  }

  /** What follows a leading minus sign is read and negated. */
  lemma AfterMinus(t: string)
    requires |t| > 0 && t[0] == '-'
    ensures ParseInt(t) == if Unsigned(t[1..]).None? then None else Some(-(Unsigned(t[1..]).value as int))
  {
    assert TrimStart(t) == t;
  }

  lemma AfterSign(sign: string, u: string)
    requires |sign| == 1
    ensures (sign + u)[1..] == u && (sign + u)[0] == sign[0]
  {
  }

  lemma {:induction false} SpanOfDigits(s: string, rest: string)
    requires All(s, IsDigit) && (rest == [] || !IsDigit(rest[0]))
    ensures Span(s + rest, IsDigit) == |s|
    decreases |s|
  {
    if s == [] {
      assert s + rest == rest;
    } else {
      assert (s + rest)[1..] == s[1..] + rest;
      SpanOfDigits(s[1..], rest);
    }
  }

  /** `parseIntOrNull` of a rendered number, possibly padded with
      whitespace, is that number. */
  lemma ParseIntOrNullOfNatToString(ws: string, n: nat, ws': string)
    requires All(ws, IsWhitespace) && All(ws', IsWhitespace)
    ensures ParseIntOrNull(ws + NatToString(n) + ws') == Some(n)
  {
    var s := NatToString(n);
    TrimSurrounded(ws, s, ws');
    NatToStringTrimmed(n);
    ParseIntOfNatToStringAlone(n);
  }

  /** A rendered number has no whitespace to trim. */
  lemma NatToStringTrimmed(n: nat)
    ensures Trim(NatToString(n)) == NatToString(n)
  {
    var s := NatToString(n);
    assert IsTrimmed(s) by {
      assert IsDigit(s[0]) && IsDigit(s[|s| - 1]);
    }
    TrimOfTrimmed(s);
  }

  /** A rendered number on its own reads as itself. */
  lemma ParseIntOfNatToStringAlone(n: nat)
    ensures ParseInt(NatToString(n)) == Some(n)
  {
    ParseIntOfNatToString(n, []);
    assert NatToString(n) + [] == NatToString(n);
  }

  // ---------------------------------------------------------------------
  // parseBit
  // ---------------------------------------------------------------------

  /** `parseBit`: the trimmed value lower-cases to "x" or is "1". */
  function ParseBit(value: string): (b: bool)
    ensures b <==> Trim(value) in {"x", "X", "1"}
  {
    var t := Trim(value);
    assert Lower(t) == "x" <==> t in {"x", "X"} by {
      if |t| == 1 {
        assert Lower(t) == [LowerChar(t[0])];
        assert t == [t[0]];
      }
    }
    Lower(t) == "x" || t == "1"
  }
}
