/**
 * The usage probe: turning the text printed by `df -k --output=size,used <mount>`
 * into one `Sample` (dashapp.py, get_disk_space). Running `df` and reading the
 * clock are not modelled: the report text and the current epoch second are inputs.
 */
module Probe {
  import opened Base

  /** Why a report yields no sample; each one is an exception raised by the source. */
  datatype ProbeError =
    | NoDataLine               // the report has no second line (IndexError)
    | MissingField(index: nat) // the second line has no field number `index` (IndexError)
    | NotAnInteger(index: nat) // field `index`, commas removed, is not an integer (ValueError)

  // ---------------------------------------------------------------------------
  // Lines: Python's str.split("\n")
  // ---------------------------------------------------------------------------

  /** Python's `s.split(sep)` for a one-character separator: the pieces between separators. */
  function SplitOn(s: string, sep: char): (parts: seq<string>)
    ensures |parts| >= 1
    ensures |parts| >= 2 <==> sep in s
    ensures forall k :: 0 <= k < |parts| ==> sep !in parts[k]
  {
    if s == [] then [""]
    else
      var rest := SplitOn(s[1..], sep);
      assert sep in s <==> s[0] == sep || sep in s[1..] by {
        assert s == [s[0]] + s[1..];
      }
      if s[0] == sep then [""] + rest
      else [[s[0]] + rest[0]] + rest[1..]
  }

  /** A separator-free prefix followed by a separator becomes the first piece. */
  lemma {:induction false} SplitAfterPiece(a: string, b: string, sep: char)
    requires sep !in a
    ensures SplitOn(a + [sep] + b, sep) == [a] + SplitOn(b, sep)
  {
    if a == [] {
      assert a + [sep] + b == [sep] + b;
      assert ([sep] + b)[1..] == b;
    } else {
      assert (a + [sep] + b)[1..] == a[1..] + [sep] + b;
      SplitAfterPiece(a[1..], b, sep);
      assert [a[0]] + a[1..] == a;
    }
  }

  /** Text without a separator is a single piece. */
  lemma {:induction false} SplitWhole(a: string, sep: char)
    requires sep !in a
    ensures SplitOn(a, sep) == [a]
  {
    if a != [] {
      SplitWhole(a[1..], sep);
      assert [a[0]] + a[1..] == a;
    }
  }

  // ---------------------------------------------------------------------------
  // Fields: Python's str.split() with no argument
  // ---------------------------------------------------------------------------

  /** The ASCII characters for which Python's `str.isspace` holds. */
  predicate IsSpace(c: char) {
    c == ' ' || c == '\t' || c == '\n' || c == '\r' || c == '\U{000B}' || c == '\U{000C}'
    || ('\U{001C}' <= c <= '\U{001F}')
  }

  /** A field of `str.split()`: non-empty, with no whitespace. */
  predicate IsWord(w: string) {
    |w| > 0 && forall k :: 0 <= k < |w| ==> !IsSpace(w[k])
  }

  /** Length of the run of non-whitespace characters that starts `s`. */
  function WordLength(s: string): (n: nat)
    ensures n <= |s|
    ensures forall k :: 0 <= k < n ==> !IsSpace(s[k])
    ensures n < |s| ==> IsSpace(s[n])
  {
    if s == [] || IsSpace(s[0]) then 0 else 1 + WordLength(s[1..])
  }

  /** Python's `s.split()`: the maximal runs of non-whitespace characters, in order. */
  function Fields(s: string): (fs: seq<string>)
    ensures forall k :: 0 <= k < |fs| ==> IsWord(fs[k])
    decreases |s|
  {
    if s == [] then []
    else if IsSpace(s[0]) then Fields(s[1..])
    else
      var n := WordLength(s);
      [s[..n]] + Fields(s[n..])
  }

  /** Leading whitespace produces no field. */
  lemma {:induction false} FieldsSkipSpace(p: string, s: string)
    requires forall k :: 0 <= k < |p| ==> IsSpace(p[k])
    ensures Fields(p + s) == Fields(s)
  {
    if p == [] {
      assert p + s == s;
    } else {
      assert (p + s)[1..] == p[1..] + s;
      FieldsSkipSpace(p[1..], s);
    }
  }

  /** A word followed by whitespace (or by nothing) is the next field. */
  lemma FieldsWord(w: string, t: string)
    requires IsWord(w)
    requires t == [] || IsSpace(t[0])
    ensures Fields(w + t) == [w] + Fields(t)
  {
    var s := w + t;
    assert s[0] == w[0];
    var n := WordLength(s);
    assert forall k :: 0 <= k < |w| ==> s[k] == w[k];
    assert |w| < |s| ==> s[|w|] == t[0];
    assert n == |w|;
    assert s[..n] == w;
    assert s[n..] == t;
  }

  // ---------------------------------------------------------------------------
  // Numbers: str.replace(",", "") and Python's int()
  // ---------------------------------------------------------------------------

  predicate IsDigit(c: char) {
    '0' <= c <= '9'
  }

  predicate AllDigits(s: string) {
    forall k :: 0 <= k < |s| ==> IsDigit(s[k])
  }

  function DigitValue(c: char): nat
    requires IsDigit(c)
  {
    (c as int) - ('0' as int)
  }

  function Pow10(k: nat): nat {
    if k == 0 then 1 else 10 * Pow10(k - 1)
  }

  /** Value of a string of decimal digits, most significant digit first. */
  function DigitsValue(s: string): nat
    requires AllDigits(s)
  {
    if s == [] then 0 else DigitsValue(s[..|s| - 1]) * 10 + DigitValue(s[|s| - 1])
  }

  /** `s` with every occurrence of `c` deleted (`s.replace(c, "")`). */
  function RemoveChar(s: string, c: char): (r: string)
    ensures |r| <= |s|
    ensures forall x :: x in r <==> x in s && x != c
  {
    if s == [] then []
    else
      assert s == [s[0]] + s[1..];
      (if s[0] == c then [] else [s[0]]) + RemoveChar(s[1..], c)
  }

  /** The digits accepted by Python's `int()` in base 10: digit groups joined by single underscores. */
  predicate WellFormedDigits(s: string) {
    && |s| > 0 && IsDigit(s[0]) && IsDigit(s[|s| - 1])
    && (forall k :: 0 <= k < |s| ==> IsDigit(s[k]) || s[k] == '_')
    && (forall k :: 0 <= k < |s| - 1 ==> s[k] == '_' ==> IsDigit(s[k + 1]))
  }

  /** Digit groups lose their underscores and leave only digits behind. */
  lemma DropUnderscores(s: string)
    requires WellFormedDigits(s)
    ensures AllDigits(RemoveChar(s, '_'))
  {
    var r := RemoveChar(s, '_');
    forall k | 0 <= k < |r| ensures IsDigit(r[k]) {
      assert r[k] in r;
      assert r[k] in s;
      var j :| 0 <= j < |s| && s[j] == r[k];
    }
  }

  /** A character that may appear in a string Python's `int()` accepts. */
  predicate IsNumeral(c: char) {
    IsDigit(c) || c == '_' || c == '+' || c == '-'
  }

  /** Python's `int(s)` for a base-10 string without surrounding whitespace. */
  function ParseInt(s: string): (r: Option<int>)
    ensures r.Some? ==> forall k :: 0 <= k < |s| ==> IsNumeral(s[k])
    ensures AllDigits(s) && |s| > 0 ==> r == Some(DigitsValue(s))
  {
    if |s| > 0 && (s[0] == '+' || s[0] == '-') then
      var body := s[1..];
      if WellFormedDigits(body) then
        DropUnderscores(body);
        var n: int := DigitsValue(RemoveChar(body, '_'));
        Some(if s[0] == '-' then -n else n)
      else None
    else if WellFormedDigits(s) then
      DropUnderscores(s);
      NoSuchChar(s, '_');
      Some(DigitsValue(RemoveChar(s, '_')))
    else None
  }

  /** Deleting a character that does not occur changes nothing. */
  lemma {:induction false} NoSuchChar(s: string, c: char)
    ensures c !in s ==> RemoveChar(s, c) == s
  {
    if s != [] && c !in s {
      NoSuchChar(s[1..], c);
      assert [s[0]] + s[1..] == s;
    }
  }

  // ---------------------------------------------------------------------------
  // The probe
  // ---------------------------------------------------------------------------

  /**
   * get_disk_space on a captured report: the two fields of the second line,
   * commas removed, read as integers and multiplied by 1000 (kilobytes to bytes),
   * stamped with `now`. Failures are reported in the order the source raises them.
   */
  function ParseDiskSpace(output: string, now: int): (r: Result<Sample, ProbeError>)
    ensures r.Ok? ==> r.value.timestamp == now && r.value.size % 1000 == 0 && r.value.used % 1000 == 0
    ensures '\n' !in output ==> r == Err(NoDataLine)
  {
    var lines := SplitOn(output, '\n');
    if |lines| < 2 then Err(NoDataLine)
    else
      var stats := Fields(lines[1]);
      if |stats| < 1 then Err(MissingField(0))
      else match ParseInt(RemoveChar(stats[0], ','))
        case None => Err(NotAnInteger(0))
        case Some(size) =>
          if |stats| < 2 then Err(MissingField(1))
          else match ParseInt(RemoveChar(stats[1], ','))
            case None => Err(NotAnInteger(1))
            case Some(used) => Ok(Sample(now, size * 1000, used * 1000))
  }

  /** A first field holding a character `int()` never accepts (other than a comma) is refused. */
  lemma NonNumericSizeRejected(output: string, now: int, k: nat)
    requires '\n' in output
    requires |Fields(SplitOn(output, '\n')[1])| >= 1
    requires var f := Fields(SplitOn(output, '\n')[1])[0]; k < |f| && f[k] != ',' && !IsNumeral(f[k])
    ensures ParseDiskSpace(output, now) == Err(NotAnInteger(0))
  {
    var f := Fields(SplitOn(output, '\n')[1])[0];
    var d := RemoveChar(f, ',');
    assert f[k] in f;
    assert f[k] in d;
    var j :| 0 <= j < |d| && d[j] == f[k];
  }

  /** A second field holding a character `int()` never accepts (other than a comma) is refused, once the first parses. */
  lemma NonNumericUsedRejected(output: string, now: int, k: nat)
    requires '\n' in output
    requires |Fields(SplitOn(output, '\n')[1])| >= 2
    requires ParseInt(RemoveChar(Fields(SplitOn(output, '\n')[1])[0], ',')).Some?
    requires var f := Fields(SplitOn(output, '\n')[1])[1]; k < |f| && f[k] != ',' && !IsNumeral(f[k])
    ensures ParseDiskSpace(output, now) == Err(NotAnInteger(1))
  {
    var f := Fields(SplitOn(output, '\n')[1])[1];
    var d := RemoveChar(f, ',');
    assert f[k] in f;
    assert f[k] in d;
    var j :| 0 <= j < |d| && d[j] == f[k];
  }

  /** A second line of whitespace only has no first field. */
  lemma BlankLineRejected(output: string, now: int)
    requires '\n' in output
    requires forall k :: 0 <= k < |SplitOn(output, '\n')[1]| ==> IsSpace(SplitOn(output, '\n')[1][k])
    ensures ParseDiskSpace(output, now) == Err(MissingField(0))
  {
    FieldsOfBlank(SplitOn(output, '\n')[1]);
    NoFieldRejected(output, now);
  }

  /** A second line without fields fails on the first field. */
  lemma NoFieldRejected(output: string, now: int)
    requires '\n' in output
    requires Fields(SplitOn(output, '\n')[1]) == []
    ensures ParseDiskSpace(output, now) == Err(MissingField(0))
  {
  }

  /** Whitespace alone has no fields. */
  lemma {:induction false} FieldsOfBlank(s: string)
    requires forall k :: 0 <= k < |s| ==> IsSpace(s[k])
    ensures Fields(s) == []
  {
    if s != [] {
      FieldsOfBlank(s[1..]);
    }
  }

  /** A report whose second line has a single field fails on the second field, if the first parses. */
  lemma MissingUsedRejected(output: string, now: int)
    requires '\n' in output
    requires |Fields(SplitOn(output, '\n')[1])| == 1
    requires ParseInt(RemoveChar(Fields(SplitOn(output, '\n')[1])[0], ',')).Some?
    ensures ParseDiskSpace(output, now) == Err(MissingField(1))
  {
  }

  // ---------------------------------------------------------------------------
  // What `df` prints, and the round trip
  // ---------------------------------------------------------------------------

  function Digit(d: nat): (c: char)
    requires d < 10
    ensures IsDigit(c) && DigitValue(c) == d
  {
    ('0' as int + d) as char
  }

  /** `n` in decimal, without separators. */
  function Decimal(n: nat): (s: string)
    ensures |s| > 0 && AllDigits(s) && DigitsValue(s) == n
  {
    if n < 10 then [Digit(n)]
    else
      var s := Decimal(n / 10) + [Digit(n % 10)];
      assert s[..|s| - 1] == Decimal(n / 10);
      s
  }

  /** `n < 1000` as exactly three digits, zero-padded. */
  function Pad3(n: nat): (s: string)
    requires n < 1000
    ensures |s| == 3 && AllDigits(s) && DigitsValue(s) == n
  {
    var a, b, c := Digit(n / 100), Digit(n / 10 % 10), Digit(n % 10);
    var s := [a, b, c];
    assert s[..2] == [a, b] && [a, b][..1] == [a] && [a][..0] == [];
    assert DigitsValue([a]) == n / 100;
    assert DigitsValue([a, b]) == n / 100 * 10 + n / 10 % 10;
    assert DigitsValue(s) == (n / 100 * 10 + n / 10 % 10) * 10 + n % 10;
    assert n / 10 == n / 100 * 10 + n / 10 % 10;
    s
  }

  /** `n` in decimal with a comma between groups of three digits, the rendering whose commas `get_disk_space` strips. */
  function Grouped(n: nat): (s: string)
    ensures |s| > 0 && IsDigit(s[0])
    ensures forall k :: 0 <= k < |s| ==> IsDigit(s[k]) || s[k] == ','
  {
    if n < 1000 then Decimal(n)
    else Grouped(n / 1000) + [','] + Pad3(n % 1000)
  }

  lemma {:induction false} RemoveCharAppend(a: string, b: string, c: char)
    ensures RemoveChar(a + b, c) == RemoveChar(a, c) + RemoveChar(b, c)
  {
    if a == [] {
      assert a + b == b;
    } else {
      assert (a + b)[1..] == a[1..] + b;
      RemoveCharAppend(a[1..], b, c);
    }
  }

  lemma {:induction false} DigitsValueAppend(a: string, b: string)
    requires AllDigits(a) && AllDigits(b)
    ensures AllDigits(a + b)
    ensures DigitsValue(a + b) == DigitsValue(a) * Pow10(|b|) + DigitsValue(b)
  {
    if b == [] {
      assert a + b == a;
    } else {
      var b' := b[..|b| - 1];
      var d := DigitValue(b[|b| - 1]);
      assert (a + b)[..|a + b| - 1] == a + b';
      DigitsValueAppend(a, b');
      assert b[..|b| - 1] == b';
      assert DigitsValue(b) == DigitsValue(b') * 10 + d;
      ShiftDigit(DigitsValue(a), DigitsValue(b'), Pow10(|b'|), d);
    }
  }

  lemma ShiftDigit(x: int, y: int, p: int, d: int)
    ensures (x * p + y) * 10 + d == x * (10 * p) + (y * 10 + d)
  {
  }

  /** Removing the commas of `Grouped(n)` leaves the digits of `n`. */
  lemma {:induction false} GroupedDigits(n: nat)
    ensures var d := RemoveChar(Grouped(n), ',');
      |d| > 0 && AllDigits(d) && DigitsValue(d) == n
  {
    if n < 1000 {
      NoSuchChar(Decimal(n), ',');
    } else {
      var g, p := Grouped(n / 1000), Pad3(n % 1000);
      GroupedDigits(n / 1000);
      var dg := RemoveChar(g, ',');
      RemoveCharAppend(g + [','], p, ',');
      RemoveCharAppend(g, [','], ',');
      assert RemoveChar([','], ',') == [];
      assert dg + [] == dg;
      NoSuchChar(p, ',');
      assert RemoveChar(Grouped(n), ',') == dg + p;
      DigitsValueAppend(dg, p);
      assert Pow10(3) == 1000;
      assert DigitsValue(dg + p) == n / 1000 * 1000 + n % 1000;
    }
  }

  /** `int(Grouped(n).replace(",", ""))` is `n`. */
  lemma ParseGrouped(n: nat)
    ensures ParseInt(RemoveChar(Grouped(n), ',')) == Some(n)
  {
    GroupedDigits(n);
  }

  /** Spaces and tabs only. */
  predicate Blanks(s: string) {
    forall k :: 0 <= k < |s| ==> s[k] == ' ' || s[k] == '\t'
  }

  /** The second line of `header`, newline, `line`, `tail` is `line`. */
  lemma SecondLine(header: string, line: string, tail: string)
    requires '\n' !in header && '\n' !in line
    requires tail == [] || tail[0] == '\n'
    ensures SplitOn(header + "\n" + line + tail, '\n')[1] == line
  {
    var rest := line + tail;
    assert header + "\n" + line + tail == header + ['\n'] + rest;
    SplitAfterPiece(header, rest, '\n');
    RestFirstPiece(line, tail);
  }

  lemma RestFirstPiece(line: string, tail: string)
    requires '\n' !in line
    requires tail == [] || tail[0] == '\n'
    ensures SplitOn(line + tail, '\n')[0] == line
  {
    if tail == [] {
      assert line + tail == line;
      SplitWhole(line, '\n');
    } else {
      assert line + tail == line + ['\n'] + tail[1..];
      SplitAfterPiece(line, tail[1..], '\n');
    }
  }

  /**
   * A numeric field as `df` may print it: a digit first, then digits and
   * thousands separators. `df -k` prints plain digits; the separators appear
   * only under a grouping locale, and they are what `get_disk_space` strips.
   */
  predicate DfNumber(f: string) {
    |f| > 0 && IsDigit(f[0]) &&
    forall k :: 0 <= k < |f| ==> IsDigit(f[k]) || f[k] == ','
  }

  /** Without its commas a numeric field is a non-empty run of digits. */
  lemma DfNumberDigits(f: string)
    requires DfNumber(f)
    ensures var d := RemoveChar(f, ','); |d| > 0 && AllDigits(d)
  {
    var d := RemoveChar(f, ',');
    assert f[0] in f && f[0] != ',';
    assert f[0] in d;
    forall k | 0 <= k < |d| ensures IsDigit(d[k]) {
      assert d[k] in d;
    }
  }

  /** The value `int(f.replace(",", ""))` of a numeric field. */
  function FieldValue(f: string): nat
    requires DfNumber(f)
  {
    DfNumberDigits(f);
    DigitsValue(RemoveChar(f, ','))
  }

  /** `int()` reads a numeric field, once its commas are removed, as its value. */
  lemma ParseNumberField(f: string)
    requires DfNumber(f)
    ensures ParseInt(RemoveChar(f, ',')) == Some(FieldValue(f))
  {
    DfNumberDigits(f);
  }

  /** A numeric field is one field, and holds no newline. */
  lemma DfNumberIsWord(f: string)
    requires DfNumber(f)
    ensures IsWord(f) && '\n' !in f
  {
    forall k | 0 <= k < |f| ensures !IsSpace(f[k]) && f[k] != '\n' { }
  }

  /** Both renderings of `n` are numeric fields worth `n`. */
  lemma RenderingsAreNumbers(n: nat)
    ensures DfNumber(Decimal(n)) && FieldValue(Decimal(n)) == n
    ensures DfNumber(Grouped(n)) && FieldValue(Grouped(n)) == n
  {
    var d := Decimal(n);
    assert d[0] in d;
    NoSuchChar(d, ',');
    GroupedDigits(n);
  }

  /** A line of two numeric fields, blank-separated, has exactly those two fields. */
  lemma TwoFields(pad: string, a: string, gap: string, b: string)
    requires Blanks(pad) && Blanks(gap) && |gap| > 0
    requires DfNumber(a) && DfNumber(b)
    ensures var line := pad + a + gap + b;
      '\n' !in line && Fields(line) == [a, b]
  {
    var line := pad + a + gap + b;
    DfNumberIsWord(a);
    DfNumberIsWord(b);
    assert '\n' !in pad && '\n' !in gap by {
      forall k | 0 <= k < |pad| ensures pad[k] != '\n' { }
      forall k | 0 <= k < |gap| ensures gap[k] != '\n' { }
    }
    assert line == pad + (a + (gap + b));
    FieldsSkipSpace(pad, a + (gap + b));
    FieldsWord(a, gap + b);
    FieldsSkipSpace(gap, b);
    FieldsWord(b, []);
    assert b + [] == b;
  }

  /**
   * A report whose second line holds two numeric fields `a` and `b`, separated
   * by blanks, yields `(now, value(a) * 1000, value(b) * 1000)`, whatever the
   * header line and whatever further lines follow.
   */
  lemma ParseReport(header: string, pad: string, a: string, gap: string, b: string,
                    tail: string, now: int)
    requires '\n' !in header
    requires Blanks(pad) && Blanks(gap) && |gap| > 0
    requires DfNumber(a) && DfNumber(b)
    requires tail == [] || tail[0] == '\n'
    ensures ParseDiskSpace(header + "\n" + pad + a + gap + b + tail, now)
         == Ok(Sample(now, FieldValue(a) * 1000, FieldValue(b) * 1000))
  {
    var line := pad + a + gap + b;
    SameText(header, pad, a, gap, b, tail);
    TwoFields(pad, a, gap, b);
    ParseNumberField(a);
    ParseNumberField(b);
    ReportLine(header, line, tail, now, a, b, FieldValue(a), FieldValue(b));
  }

  lemma SameText(header: string, pad: string, a: string, gap: string, b: string, tail: string)
    ensures header + "\n" + pad + a + gap + b + tail == header + "\n" + (pad + a + gap + b) + tail
  {
  }

  /** The second line decides the sample. */
  lemma ReportLine(header: string, line: string, tail: string, now: int,
                   a: string, b: string, size: int, used: int)
    requires '\n' !in header && '\n' !in line
    requires tail == [] || tail[0] == '\n'
    requires Fields(line) == [a, b]
    requires ParseInt(RemoveChar(a, ',')) == Some(size) && ParseInt(RemoveChar(b, ',')) == Some(used)
    ensures ParseDiskSpace(header + "\n" + line + tail, now) == Ok(Sample(now, size * 1000, used * 1000))
  {
    SecondLine(header, line, tail);
    ParseTwoFields(header + "\n" + line + tail, now, a, b, size, used);
  }

  /** The report `df -k` prints, plain decimal sizes in KiB, yields the sizes in bytes. */
  lemma ParsePlainReport(header: string, pad: string, gap: string, tail: string,
                         size: nat, used: nat, now: int)
    requires '\n' !in header
    requires Blanks(pad) && Blanks(gap) && |gap| > 0
    requires tail == [] || tail[0] == '\n'
    ensures ParseDiskSpace(header + "\n" + pad + Decimal(size) + gap + Decimal(used) + tail, now)
         == Ok(Sample(now, size * 1000, used * 1000))
  {
    RenderingsAreNumbers(size);
    RenderingsAreNumbers(used);
    ParseReport(header, pad, Decimal(size), gap, Decimal(used), tail, now);
  }

  /** The same report with comma-grouped sizes yields the same sample. */
  lemma ParseDfReport(header: string, pad: string, gap: string, tail: string,
                      size: nat, used: nat, now: int)
    requires '\n' !in header
    requires Blanks(pad) && Blanks(gap) && |gap| > 0
    requires tail == [] || tail[0] == '\n'
    ensures ParseDiskSpace(header + "\n" + pad + Grouped(size) + gap + Grouped(used) + tail, now)
         == Ok(Sample(now, size * 1000, used * 1000))
  {
    RenderingsAreNumbers(size);
    RenderingsAreNumbers(used);
    ParseReport(header, pad, Grouped(size), gap, Grouped(used), tail, now);
  }

  /** A second line of exactly two fields that `int()` reads as `size` and `used` gives the sample. */
  lemma ParseTwoFields(output: string, now: int, a: string, b: string, size: int, used: int)
    requires '\n' in output
    requires Fields(SplitOn(output, '\n')[1]) == [a, b]
    requires ParseInt(RemoveChar(a, ',')) == Some(size) && ParseInt(RemoveChar(b, ',')) == Some(used)
    ensures ParseDiskSpace(output, now) == Ok(Sample(now, size * 1000, used * 1000))
  {
  }
}
