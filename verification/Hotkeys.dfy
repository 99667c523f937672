/** Key combinations (`clift-core/src/hotkey.rs`): their parser, their canonical spelling and the two refusals. */
module Hotkeys {
  import opened Prelude
  import Decimal
  import Text

  datatype Modifier = Command | Control | Alternate | Shift

  datatype Modifiers = Modifiers(command: bool, control: bool, option: bool, shift: bool)

  datatype Key = Letter(letter: char) | DigitKey(digit: nat) | FunctionKey(index: nat)

  datatype Hotkey = Hotkey(modifiers: Modifiers, key: Key)

  datatype Error = Blank | EmptyPart | NoSuchFunctionKey | NotAKey | NotAModifier | Twice | NoModifier | PasteKey

  const NO_MODIFIERS := Modifiers(false, false, false, false)

  function Has(modifiers: Modifiers, m: Modifier): bool {
    match m
    case Command => modifiers.command
    case Control => modifiers.control
    case Alternate => modifiers.option
    case Shift => modifiers.shift
  }

  function With(modifiers: Modifiers, m: Modifier): Modifiers {
    match m
    case Command => modifiers.(command := true)
    case Control => modifiers.(control := true)
    case Alternate => modifiers.(option := true)
    case Shift => modifiers.(shift := true)
  }

  function ModifierOf(token: string): Option<Modifier> {
    if token == "cmd" || token == "command" || token == "super" || token == "win" || token == "meta" then Some(Command)
    else if token == "ctrl" || token == "control" then Some(Control)
    else if token == "alt" || token == "option" || token == "opt" then Some(Alternate)
    else if token == "shift" then Some(Shift)
    else None
  }

  // ---------- Keys ----------

  /** An 8-bit number. A plus sign cannot occur: the combination has been split at it. */
  function ParseIndex(s: string): Option<nat> {
    if s != "" && Decimal.AllDigits(s) && Decimal.Value(s) < 256 then Some(Decimal.Value(s)) else None
  }

  function ParseKey(token: string): Result<Key, Error> {
    if token != "" && token[0] == 'f' && ParseIndex(token[1..]).Some? then
      var index := ParseIndex(token[1..]).value;
      if 1 <= index <= 12 then Ok(FunctionKey(index)) else Err(NoSuchFunctionKey)
    else if |token| == 1 && 'a' <= token[0] <= 'z' then Ok(Letter(token[0]))
    else if |token| == 1 && Decimal.IsDigit(token[0]) then Ok(DigitKey(token[0] as int - '0' as int))
    else Err(NotAKey)
  }

  function RenderKey(key: Key): string {
    match key
    case Letter(letter) => [letter]
    case DigitKey(digit) => Decimal.Digits(digit)
    case FunctionKey(index) => "f" + Decimal.Digits(index)
  }

  /** A key that has a name of its own. */
  predicate WellFormed(key: Key) {
    match key
    case Letter(letter) => 'a' <= letter <= 'z'
    case DigitKey(digit) => digit < 10
    case FunctionKey(index) => 1 <= index <= 12
  }

  lemma KeysRoundTrip(key: Key)
    requires WellFormed(key)
    ensures ParseKey(RenderKey(key)) == Ok(key)
  {
    match key
    case Letter(letter) =>
      assert ParseIndex([letter][1..]).None?;
    case DigitKey(digit) =>
      assert Decimal.Digits(digit) == [Decimal.Digit(digit)];
    case FunctionKey(index) =>
      Decimal.ValueOfDigits(index);
      assert ("f" + Decimal.Digits(index))[1..] == Decimal.Digits(index);
  }

  // ---------- Combinations ----------

  predicate AnyModifier(m: Modifiers) {
    m.command || m.control || m.option || m.shift
  }

  predicate OnlyHas(modifiers: Modifiers, m: Modifier) {
    forall other :: Has(modifiers, other) <==> other == m
  }

  lemma AllFour(modifiers: Modifiers)
    ensures AnyModifier(modifiers) <==> exists m :: Has(modifiers, m)
    ensures OnlyHas(modifiers, Command) <==> modifiers == NO_MODIFIERS.(command := true)
    ensures OnlyHas(modifiers, Control) <==> modifiers == NO_MODIFIERS.(control := true)
  {
    assert Has(modifiers, Command) == modifiers.command && Has(modifiers, Control) == modifiers.control;
    assert Has(modifiers, Alternate) == modifiers.option && Has(modifiers, Shift) == modifiers.shift;
  }

  /** `Hotkey::new`: never without a modifier, and never the ordinary paste key. */
  function New(modifiers: Modifiers, key: Key): (result: Result<Hotkey, Error>)
    ensures result.Ok? ==> result.value == Hotkey(modifiers, key)
    ensures result == Err(NoModifier) <==> forall m :: !Has(modifiers, m)
    ensures result == Err(PasteKey) <==>
      key == Letter('v') && exists m :: (m == Command || m == Control) && OnlyHas(modifiers, m)
    ensures result.Err? ==> result.error == NoModifier || result.error == PasteKey
  {
    AllFour(modifiers);
    if !AnyModifier(modifiers) then Err(NoModifier)
    else if key == Letter('v')
            && (modifiers == NO_MODIFIERS.(command := true) || modifiers == NO_MODIFIERS.(control := true))
    then Err(PasteKey)
    else Ok(Hotkey(modifiers, key))
  }

  /** The parts of a combination, trimmed and in lower case. */
  function Tokens(spec: string): (tokens: seq<string>)
    ensures tokens != []
  {
    var parts := Text.Split(Text.Trim(spec), '+');
    seq(|parts|, i requires 0 <= i < |parts| => Text.Lower(Text.Trim(parts[i])))
  }

  /** The modifiers a list of tokens names, in order. */
  function Kinds(tokens: seq<string>): seq<Option<Modifier>> {
    seq(|tokens|, i requires 0 <= i < |tokens| => ModifierOf(tokens[i]))
  }

  /** The modifiers named, each at most once. */
  function Named(kinds: seq<Option<Modifier>>): Result<Modifiers, Error> {
    if kinds == [] then Ok(NO_MODIFIERS)
    else
      var last := kinds[|kinds| - 1];
      match Named(kinds[..|kinds| - 1])
      case Err(error) => Err(error)
      case Ok(modifiers) =>
        if last.None? then Err(NotAModifier)
        else if Has(modifiers, last.value) then Err(Twice)
        else Ok(With(modifiers, last.value))
  }

  function ParseTokens(tokens: seq<string>): Result<Hotkey, Error>
    requires tokens != []
  {
    match ParseKey(tokens[|tokens| - 1])
    case Err(error) => Err(error)
    case Ok(key) =>
      match Named(Kinds(tokens[..|tokens| - 1]))
      case Err(error) => Err(error)
      case Ok(modifiers) => New(modifiers, key)
  }

  function ParseSpec(spec: string): Result<Hotkey, Error> {
    if Text.Trim(spec) == "" then Err(Blank)
    else if "" in Tokens(spec) then Err(EmptyPart)
    else ParseTokens(Tokens(spec))
  }

  method Parse(spec: string) returns (result: Result<Hotkey, Error>)
    ensures result == ParseSpec(spec)
  {
    if Text.Trim(spec) == "" {
      return Err(Blank);
    }
    var tokens := Tokens(spec);
    if "" in tokens {
      return Err(EmptyPart);
    }
    hide Tokens, ParseTokens;
    result := ParseParts(tokens);
  }

  /** The last part is the key; each of the others fills one slot, which must be free. */
  method ParseParts(tokens: seq<string>) returns (result: Result<Hotkey, Error>)
    requires tokens != []
    ensures result == ParseTokens(tokens)
  {
    hide ParseKey, New, ModifierOf;
    var last := |tokens| - 1;
    var key := ParseKey(tokens[last]);
    if key.Err? {
      return Err(key.error);
    }
    var modifiers := NO_MODIFIERS;
    ghost var kinds := Kinds(tokens[..last]);
    for i := 0 to last
      invariant Named(kinds[..i]) == Ok(modifiers)
    {
      assert kinds[..i + 1][..i] == kinds[..i] && kinds[i] == ModifierOf(tokens[i]);
      var slot := ModifierOf(tokens[i]);
      if slot.None? {
        NamedStops(kinds, i + 1);
        return Err(NotAModifier);
      }
      if Has(modifiers, slot.value) {
        NamedStops(kinds, i + 1);
        return Err(Twice);
      }
      modifiers := With(modifiers, slot.value);
    }
    assert kinds[..last] == kinds;
    return New(modifiers, key.value);
  }

  lemma {:induction false} NamedStops(kinds: seq<Option<Modifier>>, count: nat)
    requires count <= |kinds| && Named(kinds[..count]).Err?
    ensures Named(kinds) == Named(kinds[..count])
  {
    if count < |kinds| {
      assert kinds[..|kinds| - 1][..count] == kinds[..count];
      NamedStops(kinds[..|kinds| - 1], count);
    } else {
      assert kinds[..count] == kinds;
    }
  }

  // ---------- What a combination means ----------

  /** Only how often each modifier is named matters: exactly what is named once is held, and nothing may be named twice
      or not be a modifier. */
  lemma {:induction false} NamedMeaning(kinds: seq<Option<Modifier>>)
    ensures Named(kinds).Ok? <==> None !in kinds && forall m :: multiset(kinds)[Some(m)] <= 1
    ensures Named(kinds).Ok? ==> forall m :: Has(Named(kinds).value, m) <==> multiset(kinds)[Some(m)] == 1
  {
    if kinds != [] {
      var front, last := kinds[..|kinds| - 1], kinds[|kinds| - 1];
      NamedMeaning(front);
      assert kinds == front + [last];
      if last.Some? && Named(front).Ok? {
        WithAdds(Named(front).value, last.value);
      }
      hide Has, With;
      assert forall m :: multiset(kinds)[Some(m)] == multiset(front)[Some(m)] + if last == Some(m) then 1 else 0;
      if last.Some? && Named(front).Ok? && Has(Named(front).value, last.value) {
        assert multiset(kinds)[Some(last.value)] == 2;
      }
    }
  }

  lemma WithAdds(modifiers: Modifiers, m: Modifier)
    ensures forall n :: Has(With(modifiers, m), n) <==> Has(modifiers, n) || n == m
  {
  }

  lemma SameModifiers(a: Modifiers, b: Modifiers)
    requires forall m :: Has(a, m) <==> Has(b, m)
    ensures a == b
  {
    assert Has(a, Command) == Has(b, Command) && Has(a, Control) == Has(b, Control);
    assert Has(a, Alternate) == Has(b, Alternate) && Has(a, Shift) == Has(b, Shift);
  }

  /** The order of the modifiers and the names chosen for them do not matter. */
  lemma OrderAndAliasesDoNotMatter(tokens: seq<string>, others: seq<string>)
    requires tokens != [] && others != []
    requires ParseKey(tokens[|tokens| - 1]) == ParseKey(others[|others| - 1])
    requires multiset(Kinds(tokens[..|tokens| - 1])) == multiset(Kinds(others[..|others| - 1]))
    ensures ParseTokens(tokens).Ok? <==> ParseTokens(others).Ok?
    ensures ParseTokens(tokens).Ok? ==> ParseTokens(tokens) == ParseTokens(others)
  {
    hide Kinds, ParseKey, ModifierOf;
    var some, same := Kinds(tokens[..|tokens| - 1]), Kinds(others[..|others| - 1]);
    NamedMeaning(some);
    NamedMeaning(same);
    assert None in some <==> None in multiset(some);
    assert None in same <==> None in multiset(same);
    if Named(some).Ok? {
      SameModifiers(Named(some).value, Named(same).value);
    }
  }

  lemma TokensOfLower(spec: string, i: nat)
    ensures |Tokens(spec)| == |Text.Split(Text.Trim(Text.Lower(spec)), '+')|
    ensures i < |Tokens(spec)| ==> Tokens(spec)[i] == Text.Trim(Text.Split(Text.Trim(Text.Lower(spec)), '+')[i])
  {
    hide Text.Lower, Text.Trim, Text.Split;
    Text.LowerTrim(spec);
    Text.LowerSplit(Text.Trim(spec), '+', i);
    if i < |Tokens(spec)| {
      Text.LowerTrim(Text.Split(Text.Trim(spec), '+')[i]);
    }
  }

  /** Nor does the case anything is written in. */
  lemma CaseDoesNotMatter(spec: string, other: string)
    requires Text.Lower(spec) == Text.Lower(other)
    ensures ParseSpec(spec) == ParseSpec(other)
  {
    hide Text.Lower, Text.Trim, Text.Split, ParseTokens, Tokens;
    Text.LowerTrim(spec);
    Text.LowerTrim(other);
    LowerEmpty(Text.Trim(spec), Text.Trim(other));
    TokensOfLower(spec, 0);
    TokensOfLower(other, 0);
    forall i | 0 <= i < |Tokens(spec)| ensures Tokens(spec)[i] == Tokens(other)[i] {
      TokensOfLower(spec, i);
      TokensOfLower(other, i);
    }
    assert Tokens(spec) == Tokens(other);
  }

  lemma LowerEmpty(a: string, b: string)
    requires Text.Lower(a) == Text.Lower(b)
    ensures a == "" <==> b == ""
  {
    assert |a| == |Text.Lower(a)| && |b| == |Text.Lower(b)|;
  }

  // ---------- The canonical spelling ----------

  function Names(m: Modifiers): seq<string> {
    (if m.command then ["cmd"] else []) + (if m.control then ["ctrl"] else [])
    + (if m.option then ["alt"] else []) + (if m.shift then ["shift"] else [])
  }

  method Render(hotkey: Hotkey) returns (text: string)
    ensures text == Spelling(hotkey)
  {
    var parts: seq<string> := [];
    if hotkey.modifiers.command {
      parts := parts + ["cmd"];
    }
    if hotkey.modifiers.control {
      parts := parts + ["ctrl"];
    }
    if hotkey.modifiers.option {
      parts := parts + ["alt"];
    }
    if hotkey.modifiers.shift {
      parts := parts + ["shift"];
    }
    assert parts == Names(hotkey.modifiers);
    parts := parts + [RenderKey(hotkey.key)];
    text := Text.Join(parts, '+');
  }

  function Spelling(hotkey: Hotkey): string {
    Text.Join(Names(hotkey.modifiers) + [RenderKey(hotkey.key)], '+')
  }

  /** A part of a canonical spelling: lower-case letters and digits, and at least one. */
  predicate Plain(part: string) {
    part != "" && forall i :: 0 <= i < |part| ==> 'a' <= part[i] <= 'z' || Decimal.IsDigit(part[i])
  }

  lemma PlainStays(part: string)
    requires Plain(part)
    ensures '+' !in part && Text.Trim(part) == part && Text.Lower(part) == part
    ensures !Text.IsSpace(part[0]) && !Text.IsSpace(part[|part| - 1])
  {
    Text.NothingToTrim(part);
  }

  predicate BareEnds(text: string) {
    text != "" && !Text.IsSpace(text[0]) && !Text.IsSpace(text[|text| - 1])
  }

  lemma PlainEnds(part: string)
    requires Plain(part)
    ensures BareEnds(part)
  {
  }

  lemma CatEnds(a: string, b: string)
    requires BareEnds(a) && BareEnds(b)
    ensures BareEnds(a + ['+'] + b)
  {
    hide Text.IsSpace;
  }

  lemma {:induction false} JoinedEnds(parts: seq<string>)
    requires parts != [] && forall i :: 0 <= i < |parts| ==> Plain(parts[i])
    ensures BareEnds(Text.Join(parts, '+'))
  {
    hide Plain, BareEnds;
    PlainEnds(parts[0]);
    if |parts| > 1 {
      JoinedEnds(parts[1..]);
      CatEnds(parts[0], Text.Join(parts[1..], '+'));
    }
  }

  /** Plain parts are read back as they are. */
  lemma PlainTokens(parts: seq<string>)
    requires parts != [] && forall i :: 0 <= i < |parts| ==> Plain(parts[i])
    ensures Text.Trim(Text.Join(parts, '+')) != "" && Tokens(Text.Join(parts, '+')) == parts && "" !in parts
  {
    hide Text.Trim, Text.Lower, Text.Split, Text.Join;
    var text := Text.Join(parts, '+');
    JoinedEnds(parts);
    Text.NothingToTrim(text);
    forall i | 0 <= i < |parts|
      ensures '+' !in parts[i] && Text.Trim(parts[i]) == parts[i] && Text.Lower(parts[i]) == parts[i]
    {
      PlainStays(parts[i]);
    }
    hide Plain;
    Text.SplitJoined(parts, '+');
  }

  lemma NamesArePlain(m: Modifiers)
    ensures forall i :: 0 <= i < |Names(m)| ==> Plain(Names(m)[i])
  {
    assert Plain("cmd") && Plain("ctrl") && Plain("alt") && Plain("shift");
    hide Plain;
  }

  lemma AliasesOfNames()
    ensures ModifierOf("cmd") == Some(Command) && ModifierOf("ctrl") == Some(Control)
    ensures ModifierOf("alt") == Some(Alternate) && ModifierOf("shift") == Some(Shift)
  {
    assert "alt"[0] == 'a' && "shift"[0] == 's' && "shift"[1] == 'h' && "ctrl"[0] == 'c' && "ctrl"[1] == 't';
  }

  function KindsOf(m: Modifiers): seq<Option<Modifier>> {
    (if m.command then [Some(Command)] else []) + (if m.control then [Some(Control)] else [])
    + (if m.option then [Some(Alternate)] else []) + (if m.shift then [Some(Shift)] else [])
  }

  lemma KindsCat(a: seq<string>, b: seq<string>)
    ensures Kinds(a + b) == Kinds(a) + Kinds(b)
  {
    hide ModifierOf;
  }

  lemma KindsOne(token: string)
    ensures Kinds([token]) == [ModifierOf(token)] && Kinds([]) == []
  {
    hide ModifierOf;
  }

  lemma NamesKinds(m: Modifiers)
    ensures Kinds(Names(m)) == KindsOf(m)
  {
    hide Kinds, ModifierOf;
    AliasesOfNames();
    KindsOne("cmd");
    KindsOne("ctrl");
    KindsOne("alt");
    KindsOne("shift");
    var a, b := if m.command then ["cmd"] else [], if m.control then ["ctrl"] else [];
    var c, d := if m.option then ["alt"] else [], if m.shift then ["shift"] else [];
    KindsCat(a + b + c, d);
    KindsCat(a + b, c);
    KindsCat(a, b);
  }

  lemma NamedMore(kinds: seq<Option<Modifier>>, modifiers: Modifiers, held: bool, m: Modifier)
    requires Named(kinds) == Ok(modifiers) && !Has(modifiers, m)
    ensures Named(kinds + if held then [Some(m)] else []) == Ok(if held then With(modifiers, m) else modifiers)
  {
    hide Has, With;
    assert (kinds + [Some(m)])[..|kinds|] == kinds;
    assert kinds + [] == kinds;
  }

  lemma NoneNamed()
    ensures Named([]) == Ok(NO_MODIFIERS)
  {
  }

  lemma KindsAreNamed(m: Modifiers)
    ensures Named(KindsOf(m)) == Ok(m)
  {
    hide Named;
    NoneNamed();
    var none: seq<Option<Modifier>> := [];
    var a := if m.command then [Some(Command)] else [];
    var b := if m.control then [Some(Control)] else [];
    var c := if m.option then [Some(Alternate)] else [];
    NamedMore(none, NO_MODIFIERS, m.command, Command);
    assert none + a == a;
    NamedMore(a, NO_MODIFIERS.(command := m.command), m.control, Control);
    NamedMore(a + b, NO_MODIFIERS.(command := m.command, control := m.control), m.option, Alternate);
    NamedMore(a + b + c, m.(shift := false), m.shift, Shift);
  }

  lemma ParsedKeyIsWellFormed(token: string)
    ensures ParseKey(token).Ok? ==> WellFormed(ParseKey(token).value)
  {
  }

  lemma RenderedKeyIsPlain(key: Key)
    requires WellFormed(key)
    ensures Plain(RenderKey(key))
  {
  }

  /** Every combination that may be taken comes back from its spelling, exactly when its key is one that has a name. */
  lemma CombinationsRoundTrip(modifiers: Modifiers, key: Key)
    requires New(modifiers, key).Ok?
    ensures ParseSpec(Spelling(Hotkey(modifiers, key))) == Ok(Hotkey(modifiers, key)) <==> WellFormed(key)
  {
    hide Kinds, Named, ParseKey, RenderKey, Tokens, Names, WellFormed, Plain, KindsOf, Text.Join, Text.Trim;
    var spec := Spelling(Hotkey(modifiers, key));
    if WellFormed(key) {
      var names := Names(modifiers);
      var parts := names + [RenderKey(key)];
      NamesArePlain(modifiers);
      RenderedKeyIsPlain(key);
      PlainTokens(parts);
      assert parts[..|parts| - 1] == names && parts[|parts| - 1] == RenderKey(key);
      NamesKinds(modifiers);
      KindsAreNamed(modifiers);
      KeysRoundTrip(key);
    } else {
      var tokens := Tokens(spec);
      ParsedKeyIsWellFormed(tokens[|tokens| - 1]);
    }
  }

  /** Such as the thirteenth function key, which has none. */
  lemma TheThirteenthFunctionKey()
    ensures var modifiers := NO_MODIFIERS.(control := true);
            && New(modifiers, FunctionKey(13)) == Ok(Hotkey(modifiers, FunctionKey(13)))
            && ParseSpec(Spelling(Hotkey(modifiers, FunctionKey(13)))) != Ok(Hotkey(modifiers, FunctionKey(13)))
  {
    hide ParseSpec, Spelling;
    CombinationsRoundTrip(NO_MODIFIERS.(control := true), FunctionKey(13));
  }
}
