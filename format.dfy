/**
 * Human-readable magnitudes (format_number) and the status row built from the
 * newest sample (free_disk). Numbers are exact reals: the rounding to two
 * decimals done by `:.2f` is not modelled, so a formatted value is the number
 * that gets printed together with its suffix.
 */
module Format {
  import opened Base

  /** The magnitude suffixes format_number tries, in order. */
  const SUFFIXES: seq<string> := ["", "k", "M", "G", "T"]

  /** The text f"{magnitude:.2f}{suffix}", before rounding. */
  datatype Formatted = Formatted(magnitude: real, suffix: string)

  function Abs(x: real): real {
    if x < 0.0 then -x else x
  }

  function Pow1000(i: nat): (p: real)
    ensures p >= 1.0
  {
    if i == 0 then 1.0 else 1000.0 * Pow1000(i - 1)
  }

  /** `x` divided by 1000, `j` times over. */
  function Down(x: real, j: nat): real
    decreases j
  {
    if j == 0 then x else Down(x / 1000.0, j - 1)
  }

  /**
   * What format_number returns once the value has become `x` and suffix number
   * `i` is next: print `x` if it is below 1000, else divide and try the next
   * suffix; past the last suffix the function ends without a value.
   */
  function FormatFrom(x: real, i: nat): (r: Option<Formatted>)
    ensures r.Some? ==> exists j :: i <= j < |SUFFIXES| && r.value.suffix == SUFFIXES[j]
    decreases |SUFFIXES| - i
  {
    if i >= |SUFFIXES| then None
    else if Abs(x) < 1000.0 then Some(Formatted(x, SUFFIXES[i]))
    else FormatFrom(x / 1000.0, i + 1)
  }

  /** What format_number returns for `num`; `None` is Python's None. */
  function FormatSpec(num: real): (r: Option<Formatted>)
    ensures r.Some? ==> r.value.suffix in SUFFIXES
    ensures Abs(num) < 1000.0 ==> r == Some(Formatted(num, ""))
  {
    FormatFrom(num, 0)
  }

  /** format_number: divide by 1000 until the value is below 1000, moving one suffix on each time. */
  method FormatNumber(num: real) returns (r: Option<Formatted>)
    ensures r == FormatSpec(num)
  {
    var x := num;
    for i := 0 to |SUFFIXES|
      invariant FormatSpec(num) == FormatFrom(x, i)
    {
      if Abs(x) < 1000.0 {
        return Some(Formatted(x, SUFFIXES[i]));
      }
      x := x / 1000.0;
    }
    return None;
  }

  // ---------------------------------------------------------------------------
  // Arithmetic of repeated division
  // ---------------------------------------------------------------------------

  lemma Regroup(m: real, p: real, x: real)
    requires m * p == x / 1000.0
    ensures m * (1000.0 * p) == x
  {
  }

  /** Dividing j times by 1000 is dividing by 1000^j. */
  lemma {:induction false} DownIsDivision(x: real, j: nat)
    ensures Down(x, j) * Pow1000(j) == x
    decreases j
  {
    if j > 0 {
      DownIsDivision(x / 1000.0, j - 1);
      Regroup(Down(x / 1000.0, j - 1), Pow1000(j - 1), x);
    }
  }

  lemma ScaleLess(a: real, b: real, p: real)
    requires p > 0.0
    ensures a < b <==> a * p < b * p
  {
    assert b * p - a * p == (b - a) * p;
  }

  lemma AbsTimes(a: real, p: real)
    requires p > 0.0
    ensures Abs(a * p) == Abs(a) * p
  {
    if a < 0.0 {
      assert a * p < 0.0;
    }
  }

  /** After j divisions the value is below 1000 exactly when |x| < 1000^(j+1). */
  lemma DownBelow(x: real, j: nat)
    ensures Abs(Down(x, j)) < 1000.0 <==> Abs(x) < Pow1000(j + 1)
  {
    var d, p := Down(x, j), Pow1000(j);
    DownIsDivision(x, j);
    AbsTimes(d, p);
    ScaleLess(Abs(d), 1000.0, p);
    assert Abs(x) == Abs(d) * p by { assert d * p == x; }
    assert Pow1000(j + 1) == 1000.0 * p;
  }

  lemma {:induction false} Pow1000Grows(i: nat, j: nat)
    requires i <= j
    ensures Pow1000(i) <= Pow1000(j)
  {
    if i < j {
      Pow1000Grows(i, j - 1);
    }
  }

  // ---------------------------------------------------------------------------
  // What format_number prints
  // ---------------------------------------------------------------------------

  lemma {:induction false} FirstFitFrom(x: real, k: nat, j: nat)
    requires k + j < |SUFFIXES|
    requires Abs(Down(x, j)) < 1000.0
    requires forall l :: 0 <= l < j ==> Abs(Down(x, l)) >= 1000.0
    ensures FormatFrom(x, k) == Some(Formatted(Down(x, j), SUFFIXES[k + j]))
    decreases j
  {
    if j > 0 {
      assert Abs(Down(x, 0)) >= 1000.0;
      var y := x / 1000.0;
      forall l | 0 <= l < j - 1 ensures Abs(Down(y, l)) >= 1000.0 {
        assert Down(x, l + 1) == Down(y, l);
      }
      FirstFitFrom(y, k + 1, j - 1);
    }
  }

  /**
   * The suffix chosen is the first one that fits: if `1000^i <= |num| < 1000^(i+1)`
   * (or i = 0 and |num| < 1000), format_number prints `num / 1000^i`, which is
   * below 1000 in absolute value, followed by suffix number i.
   */
  lemma FirstFit(num: real, i: nat)
    requires i < |SUFFIXES|
    requires Abs(num) < Pow1000(i + 1)
    requires i > 0 ==> Abs(num) >= Pow1000(i)
    ensures FormatSpec(num) == Some(Formatted(Down(num, i), SUFFIXES[i]))
    ensures Down(num, i) * Pow1000(i) == num && Abs(Down(num, i)) < 1000.0
  {
    DownBelow(num, i);
    DownIsDivision(num, i);
    forall l | 0 <= l < i ensures Abs(Down(num, l)) >= 1000.0 {
      DownBelow(num, l);
      Pow1000Grows(l + 1, i);
    }
    FirstFitFrom(num, 0, i);
  }

  /** Values below 1000 in absolute value are printed as they are, with no suffix. */
  lemma SmallHasNoSuffix(num: real)
    requires Abs(num) < 1000.0
    ensures FormatSpec(num) == Some(Formatted(num, ""))
  {
    FirstFit(num, 0);
  }

  lemma {:induction false} AllTooBig(x: real, k: nat)
    requires k <= |SUFFIXES|
    requires forall l :: 0 <= l < |SUFFIXES| - k ==> Abs(Down(x, l)) >= 1000.0
    ensures FormatFrom(x, k) == None
    decreases |SUFFIXES| - k
  {
    if k < |SUFFIXES| {
      assert Abs(Down(x, 0)) >= 1000.0;
      var y := x / 1000.0;
      forall l | 0 <= l < |SUFFIXES| - k - 1 ensures Abs(Down(y, l)) >= 1000.0 {
        assert Down(x, l + 1) == Down(y, l);
      }
      AllTooBig(y, k + 1);
    }
  }

  lemma {:induction false} SomeIfFits(x: real, k: nat, j: nat)
    requires k + j < |SUFFIXES|
    requires Abs(Down(x, j)) < 1000.0
    ensures FormatFrom(x, k).Some?
    decreases j
  {
    if Abs(x) >= 1000.0 {
      SomeIfFits(x / 1000.0, k + 1, j - 1);
    }
  }

  /** format_number returns None exactly when all five suffixes are used up: |num| >= 1000^5. */
  lemma NoneIffHuge(num: real)
    ensures FormatSpec(num).None? <==> Abs(num) >= Pow1000(|SUFFIXES|)
  {
    if Abs(num) >= Pow1000(|SUFFIXES|) {
      forall l | 0 <= l < |SUFFIXES| ensures Abs(Down(num, l)) >= 1000.0 {
        DownBelow(num, l);
        Pow1000Grows(l + 1, |SUFFIXES|);
      }
      AllTooBig(num, 0);
    } else {
      DownBelow(num, |SUFFIXES| - 1);
      SomeIfFits(num, 0, |SUFFIXES| - 1);
    }
  }

  lemma {:induction false} SomeFrom(x: real, k: nat) returns (j: nat)
    requires FormatFrom(x, k).Some?
    ensures k + j < |SUFFIXES|
    ensures FormatFrom(x, k).value == Formatted(Down(x, j), SUFFIXES[k + j])
    ensures Abs(Down(x, j)) < 1000.0
    decreases |SUFFIXES| - k
  {
    if Abs(x) < 1000.0 {
      j := 0;
    } else {
      var y := x / 1000.0;
      assert FormatFrom(x, k) == FormatFrom(y, k + 1);
      var j' := SomeFrom(y, k + 1);
      j := j' + 1;
      assert Down(x, j) == Down(y, j');
    }
  }

  /**
   * Whatever format_number prints is `num` divided by the power of 1000 that
   * matches its suffix, and is below 1000 in absolute value.
   */
  lemma FormatSound(num: real) returns (f: Formatted, i: nat)
    requires FormatSpec(num).Some?
    ensures FormatSpec(num) == Some(f) && i < |SUFFIXES|
    ensures f.suffix == SUFFIXES[i] && f.magnitude * Pow1000(i) == num && Abs(f.magnitude) < 1000.0
  {
    i := SomeFrom(num, 0);
    f := FormatSpec(num).value;
    DownIsDivision(num, i);
  }

  /** Worked examples: 999, 1000, 1 500 000 and 0. */
  lemma FormatExamples()
    ensures FormatSpec(999.0) == Some(Formatted(999.0, ""))
    ensures FormatSpec(1000.0) == Some(Formatted(1.0, "k"))
    ensures FormatSpec(1500000.0) == Some(Formatted(1.5, "M"))
    ensures FormatSpec(0.0) == Some(Formatted(0.0, ""))
  {
    SmallHasNoSuffix(999.0);
    SmallHasNoSuffix(0.0);
    FirstFit(1000.0, 1);
    FirstFit(1500000.0, 2);
  }

  // ---------------------------------------------------------------------------
  // free_disk
  // ---------------------------------------------------------------------------

  /** One cell of the status row after `applymap`. */
  datatype Cell =
    | Text(formatted: Formatted) // the string format_number returned
    | NoText                     // format_number returned None
    | NotANumber                 // a NaN, left in place by the notnull guard

  /** The status row: the newest sample's index and its four formatted columns. */
  datatype Status = Status(timestamp: int, size: Cell, used: Cell, free: Cell, usage: Cell)

  function CellOf(o: Option<Formatted>): (c: Cell)
    ensures c.Text? <==> o.Some?
    ensures c.Text? ==> c.formatted == o.value
    ensures c != NotANumber
  {
    match o
    case Some(f) => Text(f)
    case None => NoText
  }

  /**
   * The usage column, used / size * 100. With size 0 the frame holds NaN (0 / 0),
   * kept as it is, or an infinity, for which format_number runs out of suffixes.
   */
  function UsageCell(size: int, used: int): (c: Cell)
    ensures c == NotANumber <==> size == 0 && used == 0
    ensures c.Text? <==> size != 0 && Abs(used as real / size as real * 100.0) < Pow1000(|SUFFIXES|)
  {
    if size != 0 then
      var usage := used as real / size as real * 100.0;
      NoneIffHuge(usage);
      CellOf(FormatSpec(usage))
    else if used == 0 then NotANumber
    else NoText
  }

  /** The status row free_disk builds from the newest sample `last`. */
  function StatusOf(last: Sample): (s: Status)
    ensures s.timestamp == last.timestamp
    ensures s.size != NotANumber && s.used != NotANumber && s.free != NotANumber
    ensures s.usage == UsageCell(last.size, last.used)
  {
    Status(last.timestamp,
           CellOf(FormatSpec(last.size as real)),
           CellOf(FormatSpec(last.used as real)),
           CellOf(FormatSpec((last.size - last.used) as real)),
           UsageCell(last.size, last.used))
  }

  /**
   * free_disk: keep only the last row of the frame, add `free` and `usage[%]`,
   * and format every column. An empty frame gives an empty table.
   */
  method FreeDisk(frame: seq<Sample>) returns (r: Option<Status>)
    ensures r.None? <==> frame == []
    ensures frame != [] ==> r == Some(StatusOf(frame[|frame| - 1]))
  {
    if frame == [] {
      return None;
    }
    var last := frame[|frame| - 1];
    var free := last.size - last.used;
    var size := FormatNumber(last.size as real);
    var used := FormatNumber(last.used as real);
    var freeText := FormatNumber(free as real);
    var usage: Cell;
    if last.size != 0 {
      var percent := FormatNumber(last.used as real / last.size as real * 100.0);
      usage := CellOf(percent);
    } else if last.used == 0 {
      usage := NotANumber;
    } else {
      usage := NoText;
    }
    r := Some(Status(last.timestamp, CellOf(size), CellOf(used), CellOf(freeText), usage));
  }

  /**
   * Every column of the status row shows text exactly when its value is below
   * 1000^5; beyond that format_number gives None.
   */
  lemma StatusTextIff(last: Sample)
    ensures StatusOf(last).size.Text? <==> Abs(last.size as real) < Pow1000(|SUFFIXES|)
    ensures StatusOf(last).used.Text? <==> Abs(last.used as real) < Pow1000(|SUFFIXES|)
    ensures StatusOf(last).free.Text? <==> Abs((last.size - last.used) as real) < Pow1000(|SUFFIXES|)
  {
    NoneIffHuge(last.size as real);
    NoneIffHuge(last.used as real);
    NoneIffHuge((last.size - last.used) as real);
  }

  /** A volume that is partly used shows its usage as a plain percentage, without a suffix. */
  lemma UsageIsPlainPercent(size: int, used: int) returns (f: Formatted)
    requires 0 <= used <= size && size > 0
    ensures UsageCell(size, used) == Text(f)
    ensures f.suffix == "" && 0.0 <= f.magnitude <= 100.0 && f.magnitude * size as real == used as real * 100.0
  {
    var p := Percent(used, size);
    PlainUsageCell(size, used, p);
    f := Formatted(p, "");
  }

  /** used / size * 100 lies in [0, 100] and times size gives used * 100. */
  lemma Percent(used: int, size: int) returns (p: real)
    requires 0 <= used <= size && size > 0
    ensures p == used as real / size as real * 100.0
    ensures 0.0 <= p <= 100.0 && p * size as real == used as real * 100.0
  {
    var q := used as real / size as real;
    assert q * size as real == used as real;
    assert q <= 1.0;
    p := q * 100.0;
  }

  /** A usage below 1000 % is its cell's text, without a suffix. */
  lemma PlainUsageCell(size: int, used: int, p: real)
    requires size != 0 && p == used as real / size as real * 100.0 && Abs(p) < 1000.0
    ensures UsageCell(size, used) == Text(Formatted(p, ""))
  {
    SmallHasNoSuffix(p);
  }

  /** The free column prints size - used, scaled to its suffix, while that difference is below 1000^5. */
  lemma FreeIsDifference(last: Sample) returns (f: Formatted, i: nat)
    requires Abs((last.size - last.used) as real) < Pow1000(5)
    ensures StatusOf(last).free == Text(f) && i < |SUFFIXES|
    ensures f.suffix == SUFFIXES[i] && f.magnitude * Pow1000(i) == (last.size - last.used) as real
  {
    var d := (last.size - last.used) as real;
    NoneIffHuge(d);
    f, i := FormatSound(d);
  }

  /** Worked example of a status row: 1 GB volume, 250 MB used. */
  lemma StatusExample(t: int)
    ensures StatusOf(Sample(t, 1000000000, 250000000)) ==
      Status(t, Text(Formatted(1.0, "G")), Text(Formatted(250.0, "M")),
             Text(Formatted(750.0, "M")), Text(Formatted(25.0, "")))
  {
    FirstFit(1000000000.0, 3);
    FirstFit(250000000.0, 2);
    FirstFit(750000000.0, 2);
    SmallHasNoSuffix(25.0);
    assert 250000000 as real / 1000000000 as real * 100.0 == 25.0;
  }
}
