/** The lifetime a client may ask for, as each relay reads it from the query of the request: `requested_ttl` in
    `clift-relayd/src/server.rs`, which takes the text as it is, and `requestedTtl` in
    `relay/cloudflare/src/index.ts`, which is given it decoded as a form. Characters are bytes here; a byte outside ASCII
    is never part of a name or a number that counts, however it is decoded. */
module Lifetimes {
  import opened Prelude
  import opened ObjectStore
  import opened Text
  import Decimal

  datatype Lifetime = Granted(seconds: nat) | NotANumber | Zero

  /** An optional plus sign and at least one digit: what both relays take for a whole number. */
  predicate IsWholeNumber(value: string) {
    var digits := if value != [] && value[0] == '+' then value[1..] else value;
    digits != [] && Decimal.AllDigits(digits)
  }

  function Number(value: string): nat
    requires IsWholeNumber(value)
  {
    Decimal.Value(if value[0] == '+' then value[1..] else value)
  }

  /** A pair taken apart at its first equals sign, if it has one. */
  function NameAndValue(pair: string): (string, Option<string>) {
    if pair == "" then ("", None)
    else if pair[0] == '=' then ("", Some(pair[1..]))
    else
      var (name, value) := NameAndValue(pair[1..]);
      ([pair[0]] + name, value)
  }

  // ---------- The daemon ----------

  function DaemonGrants(value: string, maximum: nat): Lifetime {
    if !IsWholeNumber(value) || Number(value) > U64_MAX then NotANumber
    else if Number(value) == 0 then Zero
    else Granted(Min(Number(value), maximum))
  }

  /** The first value of that name, spelled out. */
  function DaemonValue(pairs: seq<string>): Option<string> {
    if pairs == [] then None
    else
      var (key, value) := NameAndValue(pairs[0]);
      if value.Some? && key == "ttl" then value else DaemonValue(pairs[1..])
  }

  function DaemonReads(pairs: seq<string>, maximum: nat): Lifetime {
    match DaemonValue(pairs)
    case None => Granted(maximum)
    case Some(value) => DaemonGrants(value, maximum)
  }

  function DaemonTtl(query: string, maximum: nat): Lifetime {
    DaemonReads(Split(query, '&'), maximum)
  }

  // ---------- The Worker ----------

  function HexValue(c: char): Option<nat> {
    if '0' <= c <= '9' then Some((c - '0') as nat)
    else if 'a' <= c <= 'f' then Some((c - 'a') as nat + 10)
    else if 'A' <= c <= 'F' then Some((c - 'A') as nat + 10)
    else None
  }

  /** A plus sign stands for a space, and a percent sign with two hexadecimal digits for the byte they spell. */
  function Decoded(s: string): string {
    if s == "" then ""
    else if s[0] == '+' then " " + Decoded(s[1..])
    else if s[0] == '%' && |s| > 2 && HexValue(s[1]).Some? && HexValue(s[2]).Some?
    then [(16 * HexValue(s[1]).value + HexValue(s[2]).value) as char] + Decoded(s[3..])
    else [s[0]] + Decoded(s[1..])
  }

  function WorkerGrants(value: string, maximum: nat): Lifetime {
    if !IsWholeNumber(value) then NotANumber
    else if Number(value) == 0 then Zero
    else Granted(Min(Number(value), maximum))
  }

  function OrEmpty(value: Option<string>): string {
    if value.Some? then value.value else ""
  }

  function WorkerReads(pairs: seq<string>, maximum: nat): Lifetime {
    if pairs == [] then Granted(maximum)
    else
      var (key, value) := NameAndValue(pairs[0]);
      if Decoded(key) == "ttl" then WorkerGrants(Decoded(OrEmpty(value)), maximum)
      else WorkerReads(pairs[1..], maximum)
  }

  function WorkerTtl(query: string, maximum: nat): Lifetime {
    WorkerReads(Split(query, '&'), maximum)
  }

  // ---------- Where they differ ----------

  /** Text that both take: with a percent sign the daemon never sees a number, with a plus sign the Worker never does, and
      otherwise only the daemon minds a number of more than 64 bits. */
  predicate ValueDiffers(value: string) {
    if '%' in value then IsWholeNumber(Decoded(value))
    else if '+' in value then IsWholeNumber(value) && Number(value) <= U64_MAX
    else IsWholeNumber(value) && Number(value) > U64_MAX
  }

  /** What the daemon takes for a number. */
  predicate Fits(value: string) {
    IsWholeNumber(value) && Number(value) <= U64_MAX
  }

  /** A number the Worker reads, and a value the daemon reads elsewhere or not at all: refused by both, or by both granted
      the same, which without a value is the maximum. */
  predicate ComeToTheSame(number: string, elsewhere: Option<string>, maximum: nat) {
    match elsewhere
    case None => IsWholeNumber(number) && Number(number) > 0 && Number(number) >= maximum
    case Some(value) =>
      if !Fits(value) then !IsWholeNumber(number)
      else
        && IsWholeNumber(number) && (Number(number) == 0 <==> Number(value) == 0)
        && (Number(number) == Number(value) || (Number(number) >= maximum && Number(value) >= maximum))
  }

  /** The first pair the Worker takes decides. If it has a value and the name is spelled out, the daemon takes it too. If
      not, the daemon passes over it and goes by what follows: without a value the Worker refuses, and with the name
      written in percent signs it takes this value. */
  predicate Differs(pairs: seq<string>, maximum: nat) {
    pairs != []
    && var (key, value) := NameAndValue(pairs[0]);
       if Decoded(key) != "ttl" then Differs(pairs[1..], maximum)
       else if value.Some? && key == "ttl" then ValueDiffers(value.value)
       else !ComeToTheSame(Decoded(OrEmpty(value)), DaemonValue(pairs[1..]), maximum)
  }

  lemma {:induction false} DecodedPlain(s: string)
    requires '%' !in s
    ensures |Decoded(s)| == |s|
    ensures forall i :: 0 <= i < |s| ==> Decoded(s)[i] == if s[i] == '+' then ' ' else s[i]
  {
    if s != "" {
      DecodedPlain(s[1..]);
    }
  }

  /** A whole number has nothing but digits in it, after the sign. */
  lemma NumberIsDigits(value: string, i: nat)
    requires IsWholeNumber(value) && i < |value|
    ensures Decimal.IsDigit(value[i]) || (i == 0 && value[0] == '+')
  {
    if value[0] == '+' && i > 0 {
      assert value[i] == value[1..][i - 1];
    }
  }

  lemma ValueDecides(value: string, maximum: nat)
    ensures DaemonGrants(value, maximum) != WorkerGrants(Decoded(value), maximum) <==> ValueDiffers(value)
  {
    if '%' in value {
      var i :| 0 <= i < |value| && value[i] == '%';
      if IsWholeNumber(value) {
        NumberIsDigits(value, i);
        assert false;
      }
    } else {
      DecodedPlain(value);
      if '+' in value {
        var i :| 0 <= i < |value| && value[i] == '+';
        if IsWholeNumber(Decoded(value)) {
          NumberIsDigits(Decoded(value), i);
          assert false;
        }
      } else {
        assert Decoded(value) == value;
      }
    }
  }

  lemma NotAlone()
    ensures Decoded("ttl") == "ttl" && Decoded("") == "" && !IsWholeNumber("")
  {
    DecodedPlain("ttl");
  }

  lemma ElsewhereDecides(number: string, pairs: seq<string>, maximum: nat)
    ensures WorkerGrants(number, maximum) == DaemonReads(pairs, maximum)
       <==> ComeToTheSame(number, DaemonValue(pairs), maximum)
  {
    hide IsWholeNumber, Number, DaemonValue;
  }

  lemma {:induction false} PairsDecide(pairs: seq<string>, maximum: nat)
    ensures DaemonReads(pairs, maximum) != WorkerReads(pairs, maximum) <==> Differs(pairs, maximum)
  {
    if pairs != [] {
      hide Decoded, IsWholeNumber, ComeToTheSame, ValueDiffers, DaemonGrants, WorkerGrants;
      var (key, value) := NameAndValue(pairs[0]);
      NotAlone();
      PairsDecide(pairs[1..], maximum);
      ElsewhereDecides(Decoded(OrEmpty(value)), pairs[1..], maximum);
      if value.Some? {
        ValueDecides(value.value, maximum);
      }
    }
  }

  /** The exact set of queries, for every maximum, that the daemon and the Worker answer differently. */
  lemma TheTwinsDifferExactlyWhen(query: string, maximum: nat)
    ensures DaemonTtl(query, maximum) != WorkerTtl(query, maximum) <==> Differs(Split(query, '&'), maximum)
  {
    PairsDecide(Split(query, '&'), maximum);
  }

  lemma {:induction false} OnePair(key: string, value: string)
    requires '=' !in key
    ensures NameAndValue(key + "=" + value) == (key, Some(value))
  {
    var pair := key + "=" + value;
    if key == "" {
      assert pair == "=" + value && pair[1..] == value;
    } else {
      assert pair[1..] == key[1..] + "=" + value;
      OnePair(key[1..], value);
      assert [key[0]] + key[1..] == key;
    }
  }

  lemma {:induction false} NoPair(key: string)
    requires '=' !in key
    ensures NameAndValue(key) == (key, None)
  {
    if key != "" {
      NoPair(key[1..]);
      assert [key[0]] + key[1..] == key;
    }
  }

  lemma Read(query: string, value: string, maximum: nat)
    requires query == "ttl=" + value && '&' !in value
    ensures DaemonTtl(query, maximum) == DaemonGrants(value, maximum)
    ensures WorkerTtl(query, maximum) == WorkerGrants(Decoded(value), maximum)
  {
    hide Decoded, Split, IsWholeNumber, NameAndValue;
    assert query == "ttl" + "=" + value;
    SplitOne(query, '&');
    NotAlone();
    OnePair("ttl", value);
    assert [query][1..] == [];
  }

  /** The query a Clift client sends is read alike, and as it was meant. */
  lemma AClientIsUnderstood(seconds: U64, maximum: nat)
    ensures var query := "ttl=" + Decimal.Digits(seconds);
            var meant := if seconds == 0 then Zero else Granted(Min(seconds, maximum));
            DaemonTtl(query, maximum) == meant == WorkerTtl(query, maximum)
  {
    var digits := Decimal.Digits(seconds);
    Decimal.ValueOfDigits(seconds);
    forall i | 0 <= i < |digits| ensures digits[i] != '+' && digits[i] != '%' && digits[i] != '&' {
      assert Decimal.IsDigit(digits[i]);
    }
    DecodedPlain(digits);
    assert Decoded(digits) == digits && digits[0] != '+';
    Read("ttl=" + digits, digits, maximum);
  }

  lemma NoValue(maximum: nat)
    ensures DaemonTtl("ttl", maximum) == Granted(maximum) && WorkerTtl("ttl", maximum) == NotANumber
  {
    hide Decoded, Split, IsWholeNumber, NameAndValue;
    SplitOne("ttl", '&');
    NotAlone();
    NoPair("ttl");
    assert ["ttl"][1..] == [] && DaemonValue([]) == None;
    assert DaemonValue(["ttl"]) == DaemonValue(["ttl"][1..]);
  }

  lemma Sixty()
    ensures Decimal.AllDigits("60") && Decimal.Value("60") == 60
    ensures IsWholeNumber("60") && Number("60") == 60 && IsWholeNumber("+60") && Number("+60") == 60
  {
    assert "60"[..1] == "6" && "6"[..0] == "" && "60"[1..] == "0" && "0"[1..] == "" && "+60"[1..] == "60";
  }

  lemma SixtySpelled()
    ensures Decoded("%36%30") == "60" && !IsWholeNumber("%36%30")
  {
    assert "%36%30"[3..] == "%30" && "%30"[3..] == "";
    assert Decoded("%30") == "0";
    if IsWholeNumber("%36%30") {
      NumberIsDigits("%36%30", 0);
      assert false;
    }
  }

  lemma SignedSixty()
    ensures !IsWholeNumber(Decoded("+60"))
  {
    DecodedPlain("+60");
    if IsWholeNumber(Decoded("+60")) {
      NumberIsDigits(Decoded("+60"), 0);
      assert false;
    }
  }

  /** One query of each kind: a sign the form turns into a space, a name without a value, and digits in percent signs. */
  lemma ThreeQueriesReadDifferently(maximum: nat)
    ensures DaemonTtl("ttl=+60", maximum) == Granted(Min(60, maximum)) && WorkerTtl("ttl=+60", maximum) == NotANumber
    ensures DaemonTtl("ttl", maximum) == Granted(maximum) && WorkerTtl("ttl", maximum) == NotANumber
    ensures DaemonTtl("ttl=%36%30", maximum) == NotANumber
         && WorkerTtl("ttl=%36%30", maximum) == Granted(Min(60, maximum))
  {
    hide Decoded, DaemonTtl, WorkerTtl, IsWholeNumber, Number;
    Read("ttl=+60", "+60", maximum);
    Read("ttl=%36%30", "%36%30", maximum);
    NoValue(maximum);
    Sixty();
    SixtySpelled();
    SignedSixty();
  }

  /** A number of more than 64 bits is none to the daemon, and the Worker cuts it down. */
  lemma ALongNumberReadsDifferently(number: nat, maximum: nat)
    requires number > U64_MAX
    ensures var query := "ttl=" + Decimal.Digits(number);
            DaemonTtl(query, maximum) == NotANumber && WorkerTtl(query, maximum) == Granted(Min(number, maximum))
  {
    var digits := Decimal.Digits(number);
    Decimal.ValueOfDigits(number);
    forall i | 0 <= i < |digits| ensures digits[i] != '+' && digits[i] != '%' && digits[i] != '&' {
      assert Decimal.IsDigit(digits[i]);
    }
    DecodedPlain(digits);
    assert Decoded(digits) == digits && digits[0] != '+';
    Read("ttl=" + digits, digits, maximum);
  }

  lemma NameSpelled()
    ensures Decoded("%74tl") == "ttl" && '=' !in "%74tl" && '&' !in "%74tl" && "%74tl" != "ttl"
  {
    assert "%74tl"[3..] == "tl";
    DecodedPlain("tl");
    assert Decoded("tl") == "tl";
  }

  /** The name written with a percent sign is the Worker's alone: the daemon grants its maximum. */
  lemma ASpelledNameReadsDifferently(maximum: nat)
    ensures DaemonTtl("%74tl=60", maximum) == Granted(maximum) && WorkerTtl("%74tl=60", maximum) == Granted(Min(60, maximum))
  {
    hide Decoded, Split, IsWholeNumber, Number, NameAndValue;
    var query := "%74tl=60";
    assert query == "%74tl" + "=" + "60";
    NameSpelled();
    SplitOne(query, '&');
    OnePair("%74tl", "60");
    assert [query][1..] == [] && DaemonValue([]) == None;
    assert DaemonValue([query]) == DaemonValue([query][1..]);
    PlainSixty();
    Sixty();
  }

  lemma PlainSixty()
    ensures Decoded("60") == "60"
  {
    DecodedPlain("60");
  }
}
