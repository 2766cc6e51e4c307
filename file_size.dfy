/**
 * `FileSize`: an immutable 64-bit byte count with unit conversions, a
 * unit-choosing renderer and a small parser.  The `From…` factories shift a
 * 32-bit `int`, so they wrap, and the tera-, peta- and exabyte shifts are
 * reduced modulo 32; the model keeps both effects.
 */
module FileSizes {
  import opened Results
  import opened MachineIntegers
  import opened DotNetStrings

  const Kilobyte: int64 := 1024
  const Megabyte: int64 := 1048576
  const Gigabyte: int64 := 1073741824
  const Terabyte: int64 := 1099511627776
  const Petabyte: int64 := 1125899906842624
  const Exabyte: int64 := 1152921504606846976

  /** 16 TB minus 4 KB, the largest NTFS volume with 4 KB clusters. */
  const MaxImplementedBytes: int64 := Terabyte * 16 - 4 * Kilobyte

  /** 16 EB minus 1 KB, a `BigInteger` in the source, so computed without wrap-around. */
  const MaxTheoreticalBytes: int := Exabyte as int * 16 - Kilobyte as int

  /** The `(threshold, suffix)` table `ToString` scans from the top down. */
  const ByteThresholds: seq<(int64, string)> := [
    (1, " Byte"), (2, " Bytes"), (Kilobyte, " KB"), (Megabyte, " MB"),
    (Gigabyte, " GB"), (Terabyte, " TB"), (Petabyte, " PB"), (Exabyte, " EB")
  ]

  function Power(b: int, e: nat): int
  {
    if e == 0 then 1 else b * Power(b, e - 1)
  }

  /** The unit constants are the powers 1024^1 .. 1024^6. */
  lemma UnitsArePowersOf1024()
    ensures Kilobyte as int == Power(1024, 1) && Megabyte as int == Power(1024, 2)
    ensures Gigabyte as int == Power(1024, 3) && Terabyte as int == Power(1024, 4)
    ensures Petabyte as int == Power(1024, 5) && Exabyte as int == Power(1024, 6)
    ensures MaxTheoreticalBytes == TWO_64 - 1024
  {
  }

  datatype FileSize = FileSize(bytes: int64)

  /** `Ensure(bytes)`: it would throw above `MaxTheoreticalBytes`, which exceeds every `long`, so it never throws. */
  function Ensure(bytes: int64): (o: Outcome)
    ensures o == Completed
  {
    if bytes as int > MaxTheoreticalBytes then Raised(ArgumentOutOfRangeException) else Completed
  }

  /** The private constructor: `Ensure`, then store the count; so it stores every `long`, negatives included. */
  function New(bytes: int64): (r: Result<FileSize>)
    ensures r == Ok(FileSize(bytes))
  {
    match Ensure(bytes)
    case Raised(e) => Throws(e)
    case Completed => Ok(FileSize(bytes))
  }

  /** `FromBytes(bytes)`: any `long` is stored as it is. */
  function FromBytes(bytes: int64): (r: FileSize)
    ensures r.bytes == bytes
  {
    New(bytes).value
  }

  /** `FromKilobytes(n)`: `n << 10` on `int`, so n·1024 wrapped to 32 bits; exact while it fits. */
  function FromKilobytes(n: int32): (r: FileSize)
    ensures r.bytes as int == WrapInt32(n as int * Kilobyte as int) as int
    ensures -0x20_0000 <= n < 0x20_0000 ==> r.bytes as int == n as int * Kilobyte as int
  {
    Pow2Of10();
    New(ShiftLeftInt32(n, 10) as int64).value
  }

  /** `FromMegabytes(n)`: `n << 20` on `int`, so n·2^20 wrapped to 32 bits. */
  function FromMegabytes(n: int32): (r: FileSize)
    ensures r.bytes as int == WrapInt32(n as int * Megabyte as int) as int
    ensures -0x800 <= n < 0x800 ==> r.bytes as int == n as int * Megabyte as int
  {
    Pow2Of20();
    New(ShiftLeftInt32(n, 20) as int64).value
  }

  /** `FromGigabytes(n)`: `n << 30` on `int`; only -2, -1, 0 and 1 gigabytes fit. */
  function FromGigabytes(n: int32): (r: FileSize)
    ensures r.bytes as int == WrapInt32(n as int * Gigabyte as int) as int
    ensures -2 <= n < 2 ==> r.bytes as int == n as int * Gigabyte as int
  {
    Pow2Of30();
    New(ShiftLeftInt32(n, 30) as int64).value
  }

  /** `FromTerabytes(n)`: `n << 40` on `int` shifts by 40 mod 32 = 8, so it yields 256·n bytes, wrapped. */
  function FromTerabytes(n: int32): (r: FileSize)
    ensures r.bytes as int == WrapInt32(n as int * 0x100) as int
    ensures -0x80_0000 <= n < 0x80_0000 ==> r.bytes as int == n as int * 0x100
  {
    Pow2Of8();
    New(ShiftLeftInt32(n, 40) as int64).value
  }

  /** `FromPetabytes(n)`: `n << 50` shifts by 18, so it yields 2^18·n bytes, wrapped. */
  function FromPetabytes(n: int32): (r: FileSize)
    ensures r.bytes as int == WrapInt32(n as int * 0x4_0000) as int
    ensures -0x2000 <= n < 0x2000 ==> r.bytes as int == n as int * 0x4_0000
  {
    Pow2Of18();
    New(ShiftLeftInt32(n, 50) as int64).value
  }

  /** `FromExabytes(n)`: `n << 60` shifts by 28, so it yields 2^28·n bytes, wrapped. */
  function FromExabytes(n: int32): (r: FileSize)
    ensures r.bytes as int == WrapInt32(n as int * 0x1000_0000) as int
    ensures -8 <= n < 8 ==> r.bytes as int == n as int * 0x1000_0000
  {
    Pow2Of28();
    New(ShiftLeftInt32(n, 60) as int64).value
  }

  /** One terabyte, petabyte or exabyte from the factories is 2^8, 2^18 or 2^28 bytes. */
  lemma LargeFactoriesShiftModulo32()
    ensures FromTerabytes(1).bytes == 256 && FromTerabytes(1).bytes != Terabyte
    ensures FromPetabytes(1).bytes == 0x4_0000 && FromExabytes(1).bytes == 0x1000_0000
  {
  }

  /** Two gigabytes overflow the `int` to its minimum. */
  lemma TwoGigabytesOverflow()
    ensures FromGigabytes(2).bytes as int == -TWO_31
  {
    assert WrapInt32(2 * Gigabyte as int) as int == -TWO_31;
  }

  /** 20 and 200 gigabytes are multiples of 2^32 bytes, so both wrap to 0. */
  lemma ManyGigabytesWrapToZero()
    ensures FromGigabytes(20).bytes == 0 && FromGigabytes(200).bytes == 0
  {
    assert WrapInt32(20 * Gigabyte as int) == 0;
    assert WrapInt32(200 * Gigabyte as int) == 0;
  }

  /** `AsBytes()`: the stored count, which `FromBytes` turns back into the same size. */
  function AsBytes(size: FileSize): (r: int64)
    ensures FromBytes(r) == size
  {
    size.bytes
  }

  /** `ToKilobytes()`: `Bytes >> 10`, the floor of `Bytes / 1024`. */
  function ToKilobytes(size: FileSize): (r: int)
    ensures r * Kilobyte as int <= size.bytes as int < r * Kilobyte as int + Kilobyte as int
  {
    Pow2Of10();
    ShiftRightInt64(size.bytes, 10) as int
  }

  /** `ToMegabytes()`: `Bytes >> 20`. */
  function ToMegabytes(size: FileSize): (r: int)
    ensures r * Megabyte as int <= size.bytes as int < r * Megabyte as int + Megabyte as int
  {
    Pow2Of20();
    ShiftRightInt64(size.bytes, 20) as int
  }

  /** `ToGigabytes()`: `Bytes >> 30`. */
  function ToGigabytes(size: FileSize): (r: int)
    ensures r * Gigabyte as int <= size.bytes as int < r * Gigabyte as int + Gigabyte as int
  {
    Pow2Of30();
    ShiftRightInt64(size.bytes, 30) as int
  }

  /** `ToTerabytes()`: `Bytes >> 40`. */
  function ToTerabytes(size: FileSize): (r: int)
    ensures r * Terabyte as int <= size.bytes as int < r * Terabyte as int + Terabyte as int
  {
    Pow2Of40();
    ShiftRightInt64(size.bytes, 40) as int
  }

  /** `ToPetabytes()`: `Bytes >> 50`. */
  function ToPetabytes(size: FileSize): (r: int)
    ensures r * Petabyte as int <= size.bytes as int < r * Petabyte as int + Petabyte as int
  {
    Pow2Of50();
    ShiftRightInt64(size.bytes, 50) as int
  }

  /** `ToExabytes()`: `Bytes >> 60`. */
  function ToExabytes(size: FileSize): (r: int)
    ensures r * Exabyte as int <= size.bytes as int < r * Exabyte as int + Exabyte as int
  {
    Pow2Of60();
    ShiftRightInt64(size.bytes, 60) as int
  }

  /** A whole number of units converts back to that number, for every unit. */
  lemma WholeUnitsConvertBack(n: int64)
    requires -8 <= n <= 7
    ensures ToKilobytes(FromBytes(n * Kilobyte)) == n as int
    ensures ToMegabytes(FromBytes(n * Megabyte)) == n as int
    ensures ToGigabytes(FromBytes(n * Gigabyte)) == n as int
    ensures ToTerabytes(FromBytes(n * Terabyte)) == n as int
    ensures ToPetabytes(FromBytes(n * Petabyte)) == n as int
    ensures ToExabytes(FromBytes(n * Exabyte)) == n as int
  {
  }

  /** `Equals(other)`: equal byte counts, which for this value type is plain equality. */
  function Equals(size: FileSize, other: FileSize): (b: bool)
    ensures b <==> size == other
  {
    size.bytes == other.bytes
  }

  // ToString

  /**
   * What `ToString` returns: an exact text, or `(double)Bytes / threshold`
   * followed by the threshold's suffix (the floating-point formatting of the
   * quotient is not modelled).
   */
  datatype Rendering =
    | Text(text: string)
    | Scaled(bytes: int64, threshold: int64, suffix: string)

  /** The row of `ByteThresholds` that `ToString` divides by: the largest at 1..7 not above `bytes`, or 0 for none. */
  function UnitIndex(bytes: int64): (t: nat)
    ensures t < |ByteThresholds|
  {
    if bytes >= Exabyte then 7
    else if bytes >= Petabyte then 6
    else if bytes >= Terabyte then 5
    else if bytes >= Gigabyte then 4
    else if bytes >= Megabyte then 3
    else if bytes >= Kilobyte then 2
    else if bytes >= 2 then 1
    else 0
  }

  /** The reference rendering of a size. */
  function Rendered(size: FileSize): Rendering
  {
    if size.bytes == 0 then Text("0 Bytes")
    else
      var t := UnitIndex(size.bytes);
      if t == 0 then Text(Decimal(size.bytes as int) + " Bytes")
      else Scaled(size.bytes, ByteThresholds[t].0, ByteThresholds[t].1)
  }

  /**
   * `UnitIndex` picks the largest threshold at rows 1..7 that is not above the
   * count; 1 and the negative counts match none, and the singular " Byte" row 0
   * is never chosen.
   */
  lemma UnitIndexIsLargestThreshold(bytes: int64)
    ensures UnitIndex(bytes) == 0 <==> bytes < 2
    ensures UnitIndex(bytes) != 0 ==>
      && ByteThresholds[UnitIndex(bytes)].0 <= bytes
      && forall j :: UnitIndex(bytes) < j < |ByteThresholds| ==> bytes < ByteThresholds[j].0
    ensures Rendered(FileSize(bytes)).Scaled? ==> Rendered(FileSize(bytes)).suffix != " Byte"
  {
  }

  /** `ToString()`: the table is scanned from its top row down to row 1. */
  method ToString(size: FileSize) returns (r: Rendering)
    ensures r == Rendered(size)
    ensures size.bytes == 0 ==> r == Text("0 Bytes")
    ensures 2 <= size.bytes < Kilobyte ==> r == Scaled(size.bytes, 2, " Bytes")
  {
    if size.bytes == 0 {
      return Text("0 Bytes");
    }
    var t := |ByteThresholds| - 1;
    while t > 0
      invariant 0 <= t < |ByteThresholds|
      invariant forall j :: t < j < |ByteThresholds| ==> size.bytes < ByteThresholds[j].0
    {
      if size.bytes >= ByteThresholds[t].0 {
        return Scaled(size.bytes, ByteThresholds[t].0, ByteThresholds[t].1);
      }
      t := t - 1;
    }
    return Text(Decimal(size.bytes as int) + " Bytes");
  }

  /** The renderings the tests expect: 1 MB, 2 MB and 138244259840 bytes = 128.75 GB. */
  lemma RenderedExamples()
    ensures Rendered(FromBytes(Megabyte)) == Scaled(Megabyte, Megabyte, " MB")
    ensures Rendered(FromBytes(2 * Megabyte)) == Scaled(2 * Megabyte, Megabyte, " MB")
    ensures Rendered(FromBytes(138244259840)) == Scaled(138244259840, Gigabyte, " GB")
    ensures 138244259840 * 4 == 515 * Gigabyte as int
    ensures Rendered(FromBytes(226497536)) == Scaled(226497536, Megabyte, " MB")
    ensures 226497536 * 1024 == (216 * 1024 + 5) * Megabyte as int
    ensures Rendered(FromBytes(342360064)) == Scaled(342360064, Megabyte, " MB")
    ensures 342360064 * 2 == 653 * Megabyte as int
    ensures Rendered(FromBytes(1)) == Text("1 Bytes")
  {
  }

  // Parsing

  datatype Unit = Bytes | Kilobytes | Megabytes | Gigabytes | Terabytes | Petabytes | Exabytes

  /** The `switch` on the unit marker; note `ex` rather than `eb` for exabytes. */
  function UnitOf(marker: string): Option<Unit>
  {
    if marker == "b" || marker == "byte" || marker == "bytes" then Some(Bytes)
    else if marker == "kilobyte" || marker == "kilobytes" || marker == "kb" then Some(Kilobytes)
    else if marker == "megabyte" || marker == "megabytes" || marker == "mb" then Some(Megabytes)
    else if marker == "gigabyte" || marker == "gigabytes" || marker == "gb" then Some(Gigabytes)
    else if marker == "terabyte" || marker == "terabytes" || marker == "tb" then Some(Terabytes)
    else if marker == "petabyte" || marker == "petabytes" || marker == "pb" then Some(Petabytes)
    else if marker == "exabyte" || marker == "exabytes" || marker == "ex" then Some(Exabytes)
    else None
  }

  /** The longest prefix of decimal digits. */
  function LeadingDigits(s: string): (d: string)
    ensures |d| <= |s| && d == s[..|d|]
    ensures forall i :: 0 <= i < |d| ==> IsDigit(d[i])
    ensures |d| < |s| ==> !IsDigit(s[|d|])
  {
    if s != [] && IsDigit(s[0]) then [s[0]] + LeadingDigits(s[1..]) else []
  }

  function DigitsValue(d: string): (n: nat)
    requires forall i :: 0 <= i < |d| ==> IsDigit(d[i])
  {
    if d == [] then 0
    else
      var last := d[|d| - 1];
      assert IsDigit(last);
      DigitsValue(d[..|d| - 1]) * 10 + (last as int - '0' as int)
  }

  /** `long.TryParse` on a string of decimal digits: it fails on the empty string and above `long.MaxValue`. */
  function ParseLong(d: string): (r: Option<int64>)
    requires forall i :: 0 <= i < |d| ==> IsDigit(d[i])
    ensures r.Some? <==> d != [] && DigitsValue(d) < TWO_63
  {
    if d == [] || DigitsValue(d) >= TWO_63 then None else Some(DigitsValue(d) as int64)
  }

  /** The marker: the input with every occurrence of the digits removed, lower-cased and trimmed. */
  function Marker(s: string, digits: string): string
    requires digits != []
  {
    Trim(ToLowerInvariant(RemoveAll(s, digits)))
  }

  /** The size a recognised unit builds; the count is truncated to `int` for every unit but bytes. */
  function Build(unit: Unit, count: int64): FileSize
  {
    match unit
    case Bytes => New(count).value
    case Kilobytes => FromKilobytes(WrapInt32(count as int))
    case Megabytes => FromMegabytes(WrapInt32(count as int))
    case Gigabytes => FromGigabytes(WrapInt32(count as int))
    case Terabytes => FromTerabytes(WrapInt32(count as int))
    case Petabytes => FromPetabytes(WrapInt32(count as int))
    case Exabytes => FromExabytes(WrapInt32(count as int))
  }

  /** The reference meaning of `TryParse`: the size it produces, or `None` where it returns false. */
  function ParseSpec(size: Option<string>): Option<FileSize>
  {
    if IsNullOrWhiteSpace(size) then None
    else
      var digits := LeadingDigits(size.value);
      match ParseLong(digits)
      case None => None
      case Some(count) =>
        match UnitOf(Marker(size.value, digits))
        case None => None
        case Some(unit) => Some(Build(unit, count))
  }

  /** A run of digits that stops at the end or at a non-digit is the leading digit run. */
  lemma {:induction false} LeadingDigitsAt(s: string, i: nat)
    requires i <= |s|
    requires forall j :: 0 <= j < i ==> IsDigit(s[j])
    requires i == |s| || !IsDigit(s[i])
    ensures LeadingDigits(s) == s[..i]
  {
    if i > 0 {
      LeadingDigitsAt(s[1..], i - 1);
      assert s[..i] == [s[0]] + s[1..][..i - 1];
    }
  }

  /**
   * `TryParse(size, out result)`: false for null or white space, for a
   * missing or overflowing leading count, and for an unknown marker.
   */
  method TryParse(size: Option<string>) returns (ok: bool, result: Option<FileSize>)
    ensures result == ParseSpec(size)
    ensures ok <==> result.Some?
    ensures IsNullOrWhiteSpace(size) ==> !ok
    ensures size.Some? && LeadingDigits(size.value) == [] ==> !ok
    ensures size.Some? && DigitsValue(LeadingDigits(size.value)) >= TWO_63 ==> !ok
  {
    if IsNullOrWhiteSpace(size) {
      return false, None;
    }
    var s := size.value;
    var intBuilder := "";
    var i := 0;
    while i < |s|
      invariant 0 <= i <= |s|
      invariant intBuilder == s[..i]
      invariant forall j :: 0 <= j < i ==> IsDigit(s[j])
    {
      if IsDigit(s[i]) {
        intBuilder := intBuilder + [s[i]];
        i := i + 1;
      } else {
        break;
      }
    }
    LeadingDigitsAt(s, i);
    var count := ParseLong(intBuilder);
    if count.None? {
      return false, None;
    }
    var marker := Marker(s, intBuilder);
    var unit := UnitOf(marker);
    if unit.None? {
      return false, None;
    }
    return true, Some(Build(unit.value, count.value));
  }

  /** `Parse(size)`: `ArgumentNullException` for null or white space, `FormatException` where `TryParse` fails. */
  method Parse(size: Option<string>) returns (r: Result<FileSize>)
    ensures IsNullOrWhiteSpace(size) ==> r == Throws(ArgumentNullException)
    ensures !IsNullOrWhiteSpace(size) && ParseSpec(size).None? ==> r == Throws(FormatException)
    ensures ParseSpec(size).Some? ==> r == Ok(ParseSpec(size).value)
  {
    if IsNullOrWhiteSpace(size) {
      return Throws(ArgumentNullException);
    }
    var ok, result := TryParse(size);
    if ok {
      return Ok(result.value);
    }
    return Throws(FormatException);
  }

  /** Parsing a digit run of length `i` with value `count` and then `marker`, step by step. */
  lemma ParseSpecSteps(s: string, i: nat, count: int64, marker: string)
    requires 0 < i <= |s|
    requires forall j :: 0 <= j < i ==> IsDigit(s[j])
    requires i == |s| || !IsDigit(s[i])
    requires DigitsValue(s[..i]) == count as int
    requires Marker(s, s[..i]) == marker
    ensures ParseSpec(Some(s)) == if UnitOf(marker).Some? then Some(Build(UnitOf(marker).value, count)) else None
  {
    assert !IsWhiteSpace(s[0]);
    LeadingDigitsAt(s, i);
  }

  /** `d` is a non-empty run of decimal digits worth `n`. */
  predicate IsCount(d: string, n: int)
  {
    d != [] && (forall j :: 0 <= j < |d| ==> IsDigit(d[j])) && DigitsValue(d) == n
  }

  /** `rest` holds no digit and reads as the marker `m` once lower-cased and trimmed. */
  predicate IsMarkerText(rest: string, m: string)
  {
    (forall j :: 0 <= j < |rest| ==> !IsDigit(rest[j])) && Trim(ToLowerInvariant(rest)) == m
  }

  /** Parsing a count `digits` followed by a `rest` without digits whose marker is `marker`. */
  lemma ParseCountThenMarker(digits: string, rest: string, count: int64, marker: string)
    requires IsCount(digits, count as int)
    requires IsMarkerText(rest, marker)
    ensures ParseSpec(Some(digits + rest)) == if UnitOf(marker).Some? then Some(Build(UnitOf(marker).value, count)) else None
  {
    var s := digits + rest;
    assert s[..|digits|] == digits;
    assert forall j :: !OccursAt(rest, digits, j);
    RemoveLeadingOnly(digits, rest);
    if |digits| < |s| {
      assert s[|digits|] == rest[0];
    }
    ParseSpecSteps(s, |digits|, count, marker);
  }

  lemma Count1()
    ensures IsCount("1", 1)
  {
  }

  lemma Count20()
    ensures IsCount("20", 20)
  {
    assert "20"[..1] == "2";
  }

  lemma Count100()
    ensures IsCount("100", 100)
  {
    assert "100"[..2] == "10";
    assert "10"[..1] == "1";
  }

  lemma Count200()
    ensures IsCount("200", 200)
  {
    assert "200"[..2] == "20";
    Count20();
  }

  lemma Count1000()
    ensures IsCount("1000", 1000)
  {
    assert "1000"[..3] == "100";
    Count100();
  }

  lemma Count4294967297()
    ensures IsCount("4294967297", 4294967297)
  {
    assert "4294967297"[..9] == "429496729";
    assert "429496729"[..8] == "42949672";
    assert "42949672"[..7] == "4294967";
    assert "4294967"[..6] == "429496";
    assert "429496"[..5] == "42949";
    assert "42949"[..4] == "4294";
    assert "4294"[..3] == "429";
    assert "429"[..2] == "42";
    assert "42"[..1] == "4";
  }

  lemma MarkerB()
    ensures IsMarkerText("b", "b") && UnitOf("b") == Some(Bytes)
  {
    LowerOfLower("b");
    TrimOfTrimmed("b");
  }

  lemma MarkerKb()
    ensures IsMarkerText("kb", "kb") && UnitOf("kb") == Some(Kilobytes)
  {
    LowerOfLower("kb");
    TrimOfTrimmed("kb");
  }

  lemma MarkerGB()
    ensures IsMarkerText("GB", "gb") && UnitOf("gb") == Some(Gigabytes)
  {
    assert ToLowerInvariant("GB") == "gb";
    TrimOfTrimmed("gb");
  }

  lemma MarkerGigabytes()
    ensures IsMarkerText(" gigabytes", "gigabytes") && UnitOf("gigabytes") == Some(Gigabytes)
  {
    LowerOfLower(" gigabytes");
    TrimLeadingSpace("gigabytes");
  }

  lemma MarkerEx()
    ensures IsMarkerText("ex", "ex") && UnitOf("ex") == Some(Exabytes)
  {
    LowerOfLower("ex");
    TrimOfTrimmed("ex");
  }

  lemma MarkerEb()
    ensures IsMarkerText("eb", "eb") && UnitOf("eb") == None
  {
    LowerOfLower("eb");
    TrimOfTrimmed("eb");
  }

  lemma BuildGigabytes()
    ensures Build(Gigabytes, 20) == FileSize(0) && Build(Gigabytes, 200) == FileSize(0)
  {
    assert WrapInt32(20) == 20 && WrapInt32(200) == 200;
    ManyGigabytesWrapToZero();
  }

  lemma BuildExabytes1()
    ensures Build(Exabytes, 1) == FileSize(0x1000_0000)
  {
    assert WrapInt32(1) == 1;
    LargeFactoriesShiftModulo32();
  }

  lemma BuildKilobytesTruncated()
    ensures Build(Kilobytes, 4294967297) == FileSize(1024)
  {
    assert WrapInt32(4294967297) == 1;
  }

  /** `100b` is one hundred bytes. */
  lemma Parse100b()
    ensures ParseSpec(Some("100b")) == Some(FileSize(100))
  {
    Count100();
    MarkerB();
    ParseCountThenMarker("100", "b", 100, "b");
    assert "100" + "b" == "100b";
  }

  /** `1000kb` is 1000 kilobytes. */
  lemma Parse1000kb()
    ensures ParseSpec(Some("1000kb")) == Some(FileSize(1024000))
  {
    Count1000();
    MarkerKb();
    ParseCountThenMarker("1000", "kb", 1000, "kb");
    assert "1000" + "kb" == "1000kb";
  }

  /** `20GB` parses, to 0 bytes: 20 << 30 wraps around. */
  lemma Parse20GB()
    ensures ParseSpec(Some("20GB")) == Some(FileSize(0))
  {
    Count20();
    MarkerGB();
    BuildGigabytes();
    ParseCountThenMarker("20", "GB", 20, "gb");
    assert "20" + "GB" == "20GB";
  }

  /** `200 gigabytes` parses, to 0 bytes as well. */
  lemma Parse200Gigabytes()
    ensures ParseSpec(Some("200 gigabytes")) == Some(FileSize(0))
  {
    Count200();
    MarkerGigabytes();
    BuildGigabytes();
    ParseCountThenMarker("200", " gigabytes", 200, "gigabytes");
    SpacedInput();
  }

  lemma SpacedInput()
    ensures "200" + " gigabytes" == "200 gigabytes"
  {
  }

  /** The exabyte marker is `ex`: `1ex` parses to 2^28 bytes. */
  lemma ExabyteMarkerIsEx()
    ensures ParseSpec(Some("1ex")) == Some(FileSize(0x1000_0000))
  {
    Count1();
    MarkerEx();
    BuildExabytes1();
    ParseCountThenMarker("1", "ex", 1, "ex");
    assert "1" + "ex" == "1ex";
  }

  /** `eb` is not a marker, so `1eb` is rejected. */
  lemma ExabyteMarkerIsNotEb()
    ensures ParseSpec(Some("1eb")) == None
  {
    Count1();
    MarkerEb();
    ParseCountThenMarker("1", "eb", 1, "eb");
    assert "1" + "eb" == "1eb";
  }

  /** The count is truncated to `int` before a unit factory: 2^32 + 1 kilobytes is one kilobyte. */
  lemma CountTruncatedToInt()
    ensures ParseSpec(Some("4294967297kb")) == Some(FileSize(1024))
  {
    Count4294967297();
    MarkerKb();
    BuildKilobytesTruncated();
    ParseCountThenMarker("4294967297", "kb", 4294967297, "kb");
    assert "4294967297" + "kb" == "4294967297kb";
  }

  /** Every occurrence of the count is removed from the marker, so `10b10` is ten bytes. */
  lemma MarkerDropsEveryCopyOfTheCount()
    ensures ParseSpec(Some("10b10")) == Some(FileSize(10))
  {
    var s := "10b10";
    assert s[..2] == "10" && s[2..] == "b10";
    assert DigitsValue("10") == 10 by {
      assert "10"[..1] == "1";
    }
    assert RemoveAll(s, "10") == "b" by {
      assert "b10"[1..] == "10";
      assert RemoveAll("b10", "10") == "b" + RemoveAll("10", "10");
      assert "10"[2..] == "";
    }
    MarkerB();
    ParseSpecSteps(s, 2, 10, "b");
  }

  /** Leading white space or a sign leaves no leading count, so parsing fails. */
  lemma ParseNeedsLeadingCount()
    ensures ParseSpec(Some(" 5mb")) == None
    ensures ParseSpec(Some("-5kb")) == None
  {
    assert !IsWhiteSpace(" 5mb"[1]);
    LeadingDigitsAt(" 5mb", 0);
    assert !IsWhiteSpace("-5kb"[0]);
    LeadingDigitsAt("-5kb", 0);
  }
}

