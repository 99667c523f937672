/** Sizes and durations as `config.toml` spells them (`clift-core/src/config/units.rs`, and their renderers in
    `clift-core/src/config/io.rs`). */
module Units {
  import opened Prelude
  import Decimal
  import Text

  const U64_LIMIT: nat := 0x1_0000_0000_0000_0000
  const KIB: nat := 1024
  const MIB: nat := 1024 * 1024
  const GIB: nat := 1024 * 1024 * 1024

  datatype Error = Empty | NoNumber | BadNumber | NoUnit | UnknownUnit | TooLarge

  /** How many digits the text starts with. */
  function LeadingDigits(s: string): (n: nat)
    ensures n <= |s| && Decimal.AllDigits(s[..n]) && (n < |s| ==> !Decimal.IsDigit(s[n]))
  {
    if s == "" || !Decimal.IsDigit(s[0]) then 0
    else
      var n := 1 + LeadingDigits(s[1..]);
      assert s[..n] == [s[0]] + s[1..][..n - 1];
      n
  }

  /** `checked_mul` */
  function Scaled(number: nat, scale: Result<nat, Error>): Result<nat, Error> {
    match scale
    case Err(error) => Err(error)
    case Ok(times) => if number * times < U64_LIMIT then Ok(number * times) else Err(TooLarge)
  }

  /** A number and the unit after it, scaled by what the unit is worth. */
  function ParseUnits(value: string, worth: string -> Result<nat, Error>): Result<nat, Error> {
    var trimmed := Text.Trim(value);
    if trimmed == "" then Err(Empty)
    else
      var split := LeadingDigits(trimmed);
      var digits, suffix := trimmed[..split], Text.Trim(trimmed[split..]);
      if digits == "" then Err(NoNumber)
      else if Decimal.Value(digits) >= U64_LIMIT then Err(BadNumber)
      else Scaled(Decimal.Value(digits), worth(Text.Lower(suffix)))
  }

  function SizeUnit(suffix: string): Result<nat, Error> {
    match suffix
    case "" => Ok(1)
    case "b" => Ok(1)
    case "kib" => Ok(KIB)
    case "k" => Ok(KIB)
    case "mib" => Ok(MIB)
    case "m" => Ok(MIB)
    case "gib" => Ok(GIB)
    case "g" => Ok(GIB)
    case _ => Err(UnknownUnit)
  }

  function DurationUnit(suffix: string): Result<nat, Error> {
    match suffix
    case "s" => Ok(1)
    case "m" => Ok(60)
    case "h" => Ok(3600)
    case "d" => Ok(86400)
    case "" => Err(NoUnit)
    case _ => Err(UnknownUnit)
  }

  function ParseSize(value: string): Result<nat, Error> {
    ParseUnits(value, SizeUnit)
  }

  function ParseDuration(value: string): Result<nat, Error> {
    ParseUnits(value, DurationUnit)
  }

  function RenderSize(bytes: nat): string {
    if bytes >= GIB && bytes % GIB == 0 then Decimal.Digits(bytes / GIB) + "GiB"
    else if bytes >= MIB && bytes % MIB == 0 then Decimal.Digits(bytes / MIB) + "MiB"
    else if bytes >= KIB && bytes % KIB == 0 then Decimal.Digits(bytes / KIB) + "KiB"
    else Decimal.Digits(bytes) + "B"
  }

  function RenderDuration(seconds: nat): string {
    if seconds >= 86400 && seconds % 86400 == 0 then Decimal.Digits(seconds / 86400) + "d"
    else if seconds >= 3600 && seconds % 3600 == 0 then Decimal.Digits(seconds / 3600) + "h"
    else if seconds >= 60 && seconds % 60 == 0 then Decimal.Digits(seconds / 60) + "m"
    else Decimal.Digits(seconds) + "s"
  }

  predicate IsLetter(c: char) {
    'A' <= c <= 'Z' || 'a' <= c <= 'z'
  }

  lemma {:induction false} DigitsLead(digits: string, suffix: string)
    requires Decimal.AllDigits(digits) && suffix != "" && !Decimal.IsDigit(suffix[0])
    ensures LeadingDigits(digits + suffix) == |digits|
  {
    if digits == "" {
      assert digits + suffix == suffix;
    } else {
      assert (digits + suffix)[1..] == digits[1..] + suffix;
      DigitsLead(digits[1..], suffix);
    }
  }

  /** A number written with a unit is read back as that many of the unit, if that fits. */
  lemma NumberWithUnit(number: nat, suffix: string, worth: string -> Result<nat, Error>)
    requires number < U64_LIMIT && suffix != "" && forall i :: 0 <= i < |suffix| ==> IsLetter(suffix[i])
    ensures ParseUnits(Decimal.Digits(number) + suffix, worth) == Scaled(number, worth(Text.Lower(suffix)))
  {
    hide Text.Trim, Text.Lower, Decimal.Value, Decimal.Digits, LeadingDigits, Scaled;
    var digits := Decimal.Digits(number);
    var text := digits + suffix;
    assert Decimal.IsDigit(text[0]) && IsLetter(text[|text| - 1]);
    Text.NothingToTrim(text);
    Text.NothingToTrim(suffix);
    DigitsLead(digits, suffix);
    Decimal.ValueOfDigits(number);
    assert text[..|digits|] == digits && text[|digits|..] == suffix;
  }

  lemma SizeUnits()
    ensures SizeUnit(Text.Lower("GiB")) == Ok(GIB) && SizeUnit(Text.Lower("MiB")) == Ok(MIB)
    ensures SizeUnit(Text.Lower("KiB")) == Ok(KIB) && SizeUnit(Text.Lower("B")) == Ok(1)
  {
    assert Text.Lower("GiB") == "gib";
    assert Text.Lower("MiB") == "mib";
    assert Text.Lower("KiB") == "kib";
    assert Text.Lower("B") == "b";
  }

  lemma DurationUnits()
    ensures DurationUnit(Text.Lower("d")) == Ok(86400) && DurationUnit(Text.Lower("h")) == Ok(3600)
    ensures DurationUnit(Text.Lower("m")) == Ok(60) && DurationUnit(Text.Lower("s")) == Ok(1)
  {
    assert Text.Lower("d") == "d";
    assert Text.Lower("h") == "h";
    assert Text.Lower("m") == "m";
    assert Text.Lower("s") == "s";
  }

  lemma BinaryUnits(number: nat)
    requires number < U64_LIMIT
    ensures ParseSize(Decimal.Digits(number) + "GiB") == Scaled(number, Ok(GIB))
    ensures ParseSize(Decimal.Digits(number) + "MiB") == Scaled(number, Ok(MIB))
    ensures ParseSize(Decimal.Digits(number) + "KiB") == Scaled(number, Ok(KIB))
    ensures ParseSize(Decimal.Digits(number) + "B") == Scaled(number, Ok(1))
  {
    hide ParseUnits, Scaled, Decimal.Digits, Text.Lower, SizeUnit;
    SizeUnits();
    NumberWithUnit(number, "GiB", SizeUnit);
    NumberWithUnit(number, "MiB", SizeUnit);
    NumberWithUnit(number, "KiB", SizeUnit);
    NumberWithUnit(number, "B", SizeUnit);
  }

  lemma TimeUnits(number: nat)
    requires number < U64_LIMIT
    ensures ParseDuration(Decimal.Digits(number) + "d") == Scaled(number, Ok(86400))
    ensures ParseDuration(Decimal.Digits(number) + "h") == Scaled(number, Ok(3600))
    ensures ParseDuration(Decimal.Digits(number) + "m") == Scaled(number, Ok(60))
    ensures ParseDuration(Decimal.Digits(number) + "s") == Scaled(number, Ok(1))
  {
    hide ParseUnits, Scaled, Decimal.Digits, Text.Lower, DurationUnit;
    DurationUnits();
    NumberWithUnit(number, "d", DurationUnit);
    NumberWithUnit(number, "h", DurationUnit);
    NumberWithUnit(number, "m", DurationUnit);
    NumberWithUnit(number, "s", DurationUnit);
  }

  /** Dividing by a unit that fits exactly and scaling again loses nothing. */
  lemma ScaledBack(total: nat, scale: nat)
    requires total < U64_LIMIT && scale > 0 && total % scale == 0
    ensures total / scale < U64_LIMIT && Scaled(total / scale, Ok(scale)) == Ok(total)
  {
    assert total / scale <= total;
  }

  /** Every size comes back from its spelling, and none is refused for being too large. */
  lemma SizesRoundTrip(bytes: nat)
    requires bytes < U64_LIMIT
    ensures ParseSize(RenderSize(bytes)) == Ok(bytes)
  {
    hide ParseSize, Scaled, Decimal.Digits;
    var scale :=
      if bytes >= GIB && bytes % GIB == 0 then GIB
      else if bytes >= MIB && bytes % MIB == 0 then MIB
      else if bytes >= KIB && bytes % KIB == 0 then KIB
      else 1;
    ScaledBack(bytes, scale);
    BinaryUnits(bytes / scale);
  }

  /** So does every duration. */
  lemma DurationsRoundTrip(seconds: nat)
    requires seconds < U64_LIMIT
    ensures ParseDuration(RenderDuration(seconds)) == Ok(seconds)
  {
    hide ParseDuration, Scaled, Decimal.Digits;
    var scale :=
      if seconds >= 86400 && seconds % 86400 == 0 then 86400
      else if seconds >= 3600 && seconds % 3600 == 0 then 3600
      else if seconds >= 60 && seconds % 60 == 0 then 60
      else 1;
    ScaledBack(seconds, scale);
    TimeUnits(seconds / scale);
  }
}
