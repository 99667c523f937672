/** Reading and writing one configuration value by dotted key (`clift-core/src/config/edit.rs`). A document is a table
    of values; `set` walks down to the last table, making the missing ones on its way. */
module ConfigEdit {
  import opened Prelude
  import Decimal
  import Text

  datatype Value =
    | Words(words: string)
    | Integer(number: int)
    | Flag(flag: bool)
    | Nested(entries: Table)
    | Other(rendered: string)

  type Table = map<string, Value>

  datatype Kind = TextKind | CountKind | FlagKind

  datatype Error = UnknownKey | NotSet | DoesNotFit | NotATable

  /** The keys that are not a target's, as the parts between their dots. */
  const FIXED_KEYS: map<seq<string>, Kind> := map[
    ["mode"] := TextKind,
    ["default_target"] := TextKind,
    ["relay", "url"] := TextKind,
    ["relay", "max_bytes"] := TextKind,
    ["relay", "ttl"] := TextKind,
    ["hotkey", "combination"] := TextKind,
    ["connection", "reuse"] := FlagKind,
    ["connection", "persist"] := TextKind,
    ["defaults", "max_file_size"] := TextKind,
    ["defaults", "max_batch_size"] := TextKind,
    ["defaults", "max_files"] := CountKind,
    ["defaults", "retention"] := TextKind,
    ["defaults", "format"] := TextKind]

  const TARGET_FIELDS: map<string, Kind> := map[
    "ssh_host" := TextKind,
    "remote_dir" := TextKind,
    "format" := TextKind,
    "remote_home" := TextKind,
    "remote_cache_home" := TextKind,
    "last_success_at" := TextKind]

  // ---------- Keys ----------

  /** The parts between the dots. */
  function Split(key: string): (parts: seq<string>)
    ensures parts != []
  {
    Text.Split(key, '.')
  }

  function KindOf(key: string): Option<Kind> {
    KindOfParts(Split(key))
  }

  function KindOfParts(parts: seq<string>): Option<Kind> {
    if parts in FIXED_KEYS then Some(FIXED_KEYS[parts])
    else if |parts| == 3 && parts[0] == "targets" && parts[2] in TARGET_FIELDS then Some(TARGET_FIELDS[parts[2]])
    else None
  }

  // ---------- Paths in a table ----------

  function At(table: Table, path: seq<string>): Option<Value>
    decreases |path|
  {
    if path == [] then Some(Nested(table))
    else if path[0] !in table then None
    else if |path| == 1 then Some(table[path[0]])
    else if table[path[0]].Nested? then At(table[path[0]].entries, path[1..])
    else None
  }

  /** The table under a name, or an empty one. */
  function Below(table: Table, name: string): Table {
    if name in table && table[name].Nested? then table[name].entries else map[]
  }

  function Put(table: Table, path: seq<string>, value: Value): Table
    requires path != []
    decreases |path|
  {
    if |path| == 1 then table[path[0] := value]
    else table[path[0] := Nested(Put(Below(table, path[0]), path[1..], value))]
  }

  /** Every name on the way is a table or missing. */
  predicate Open(table: Table, parents: seq<string>)
    decreases |parents|
  {
    parents == [] || parents[0] !in table
    || (table[parents[0]].Nested? && Open(table[parents[0]].entries, parents[1..]))
  }

  /** The missing tables on the way, made. */
  function Ensured(table: Table, parents: seq<string>): Table
    decreases |parents|
  {
    if parents == [] then table
    else table[parents[0] := Nested(Ensured(Below(table, parents[0]), parents[1..]))]
  }

  /** The table at the end of an ensured way. */
  function Reached(table: Table, parents: seq<string>): Table
    decreases |parents|
  {
    if parents == [] then table else Reached(Below(table, parents[0]), parents[1..])
  }

  predicate Unrelated(p: seq<string>, q: seq<string>) {
    !(p <= q) && !(q <= p)
  }

  lemma UnrelatedBelow(p: seq<string>, q: seq<string>)
    requires p != [] && q != [] && Unrelated(p, q) && p[0] == q[0]
    ensures |p| > 1 && |q| > 1 && Unrelated(p[1..], q[1..])
  {
    assert p == [p[0]] + p[1..] && q == [q[0]] + q[1..];
  }

  lemma {:induction false} PutThenAt(table: Table, path: seq<string>, value: Value)
    requires path != []
    ensures At(Put(table, path, value), path) == Some(value)
    decreases |path|
  {
    if |path| > 1 {
      PutThenAt(Below(table, path[0]), path[1..], value);
    }
  }

  /** Nothing beside the path changes. */
  lemma {:induction false} PutElsewhere(table: Table, path: seq<string>, value: Value, other: seq<string>)
    requires path != [] && Unrelated(path, other) && Open(table, path[..|path| - 1])
    ensures At(Put(table, path, value), other) == At(table, other)
    decreases |path|
  {
    if other != [] && other[0] == path[0] {
      UnrelatedBelow(path, other);
      assert path[..|path| - 1][1..] == path[1..][..|path[1..]| - 1];
      PutElsewhere(Below(table, path[0]), path[1..], value, other[1..]);
    }
  }

  lemma {:induction false} PutKeepsOpen(table: Table, path: seq<string>, value: Value, other: seq<string>)
    requires path != [] && other != [] && Unrelated(path, other) && Open(table, path[..|path| - 1])
    ensures Open(Put(table, path, value), other[..|other| - 1]) <==> Open(table, other[..|other| - 1])
    decreases |path|
  {
    if other[0] == path[0] {
      UnrelatedBelow(path, other);
      assert path[..|path| - 1][1..] == path[1..][..|path[1..]| - 1];
      assert other[..|other| - 1][1..] == other[1..][..|other[1..]| - 1];
      PutKeepsOpen(Below(table, path[0]), path[1..], value, other[1..]);
    }
  }

  function Entry(below: Table, path: seq<string>, value: Value): Value
    requires path != []
  {
    if |path| == 1 then value else Nested(Put(below, path[1..], value))
  }

  lemma PutHead(table: Table, path: seq<string>, value: Value)
    requires path != []
    ensures Put(table, path, value) == table[path[0] := Entry(Below(table, path[0]), path, value)]
  {
  }

  lemma PutTwiceBelow(table: Table, p: seq<string>, v: Value, q: seq<string>, w: Value)
    requires |p| > 1 && |q| > 1 && p[0] == q[0]
    ensures Put(Put(table, p, v), q, w)
         == table[p[0] := Nested(Put(Put(Below(table, p[0]), p[1..], v), q[1..], w))]
  {
    var once := Put(table, p, v);
    assert Below(once, q[0]) == Put(Below(table, p[0]), p[1..], v);
    assert once[q[0] := Nested(Put(Below(once, q[0]), q[1..], w))]
        == table[q[0] := Nested(Put(Below(once, q[0]), q[1..], w))];
  }

  lemma PutTwiceBeside(table: Table, p: seq<string>, v: Value, q: seq<string>, w: Value)
    requires p != [] && q != [] && p[0] != q[0]
    ensures Put(Put(table, p, v), q, w)
         == table[p[0] := Entry(Below(table, p[0]), p, v)][q[0] := Entry(Below(table, q[0]), q, w)]
  {
    PutHead(table, p, v);
    PutHead(Put(table, p, v), q, w);
    hide Put, Entry;
  }

  lemma {:induction false} PutsCommute(table: Table, p: seq<string>, v: Value, q: seq<string>, w: Value)
    requires p != [] && q != [] && Unrelated(p, q)
    ensures Put(Put(table, p, v), q, w) == Put(Put(table, q, w), p, v)
    decreases |p|
  {
    hide Put, Entry, Below;
    if p[0] == q[0] {
      UnrelatedBelow(p, q);
      PutsCommute(Below(table, p[0]), p[1..], v, q[1..], w);
      PutTwiceBelow(table, p, v, q, w);
      PutTwiceBelow(table, q, w, p, v);
    } else {
      PutTwiceBeside(table, p, v, q, w);
      PutTwiceBeside(table, q, w, p, v);
      var x, y := Entry(Below(table, p[0]), p, v), Entry(Below(table, q[0]), q, w);
      assert table[p[0] := x][q[0] := y] == table[q[0] := y][p[0] := x];
    }
  }

  /** Making the tables on the way first makes no difference to what is put at its end. */
  lemma {:induction false} PutEnsured(table: Table, path: seq<string>, value: Value, count: nat)
    requires count < |path|
    ensures Put(Ensured(table, path[..count]), path, value) == Put(table, path, value)
    decreases |path|
  {
    if count > 0 {
      assert path[..count][1..] == path[1..][..count - 1];
      PutEnsured(Below(table, path[0]), path[1..], value, count - 1);
      var below := Ensured(Below(table, path[0]), path[1..][..count - 1]);
      assert Below(Ensured(table, path[..count]), path[0]) == below;
    }
  }

  lemma {:induction false} EnsuredOneMore(table: Table, path: seq<string>, count: nat)
    requires count < |path| && Open(table, path[..count])
    ensures At(Ensured(table, path[..count]), path[..count]) == Some(Nested(Reached(table, path[..count])))
    ensures path[count] !in Reached(table, path[..count]) ==>
      Open(table, path[..count + 1])
      && Put(Ensured(table, path[..count]), path[..count + 1], Nested(map[])) == Ensured(table, path[..count + 1])
    ensures path[count] in Reached(table, path[..count]) ==>
      Ensured(table, path[..count]) == table
      && (Open(table, path[..count + 1]) <==> Reached(table, path[..count])[path[count]].Nested?)
      && (Open(table, path[..count + 1]) ==> Ensured(table, path[..count + 1]) == table)
    decreases |path|
  {
    if count == 0 {
      assert path[..1] == [path[0]] && path[..1][1..] == [];
      if path[0] in table && table[path[0]].Nested? {
        assert table[path[0] := table[path[0]]] == table;
      }
    } else {
      assert path[..count][1..] == path[1..][..count - 1] && path[..count + 1][1..] == path[1..][..count];
      EnsuredOneMore(Below(table, path[0]), path[1..], count - 1);
      var below := Ensured(Below(table, path[0]), path[1..][..count - 1]);
      assert Below(Ensured(table, path[..count]), path[0]) == below;
      if path[count] in Reached(table, path[..count]) {
        assert path[0] in table && table[path[0]].Nested?;
        assert table[path[0] := table[path[0]]] == table;
      }
    }
  }

  // ---------- Values ----------

  /** `i64` text: an optional sign, at least one digit, and a number that fits. */
  function ParseCount(value: string): Option<int> {
    var negative := value != "" && value[0] == '-';
    var digits := if value != "" && (value[0] == '-' || value[0] == '+') then value[1..] else value;
    if digits == "" || !Decimal.AllDigits(digits) then None
    else
      var magnitude: int := Decimal.Value(digits);
      var number := if negative then -magnitude else magnitude;
      if -0x8000_0000_0000_0000 <= number < 0x8000_0000_0000_0000 then Some(number) else None
  }

  function Parsed(kind: Kind, value: string): Option<Value> {
    match kind
    case TextKind => Some(Words(value))
    case CountKind =>
      (match ParseCount(value)
       case None => None
       case Some(number) => Some(Integer(number)))
    case FlagKind =>
      if value == "true" then Some(Flag(true)) else if value == "false" then Some(Flag(false)) else None
  }

  function CountText(number: int): string {
    if number < 0 then "-" + Decimal.Digits(-number) else Decimal.Digits(number)
  }

  /** The text of a value that is not a table. */
  function Rendered(value: Value): string
    requires !value.Nested?
  {
    match value
    case Words(words) => words
    case Integer(number) => CountText(number)
    case Flag(flag) => if flag then "true" else "false"
    case Other(rendered) => rendered
  }

  /** The text a value reads back as: unchanged, except for whole numbers, which lose a plus sign and leading zeros. */
  function Canonical(kind: Kind, value: string): string
    requires Parsed(kind, value).Some?
  {
    if kind == CountKind then CountText(ParseCount(value).value) else value
  }

  /** A canonical count reads back as the same number. */
  lemma CanonicalCounts(number: int)
    requires -0x8000_0000_0000_0000 <= number < 0x8000_0000_0000_0000
    ensures ParseCount(CountText(number)) == Some(number)
  {
    var magnitude := if number < 0 then -number else number;
    Decimal.ValueOfDigits(magnitude);
    var text := CountText(number);
    if number < 0 {
      assert text[1..] == Decimal.Digits(magnitude);
    }
  }

  // ---------- The document ----------

  /** A settable key is one bare word, two words in a section, or a field of a target. */
  predicate Shape(parts: seq<string>) {
    || (|parts| == 1 && (parts[0] == "mode" || parts[0] == "default_target"))
    || (|parts| == 2 && (parts[0] == "relay" || parts[0] == "hotkey" || parts[0] == "connection" || parts[0] == "defaults"))
    || (|parts| == 3 && parts[0] == "targets")
  }

  lemma SettableShape(parts: seq<string>)
    requires KindOfParts(parts).Some?
    ensures Shape(parts)
  {
    if parts in FIXED_KEYS {
      FixedShape(parts);
    }
    hide FIXED_KEYS, TARGET_FIELDS;
  }

  lemma FixedShape(parts: seq<string>)
    requires parts in FIXED_KEYS
    ensures Shape(parts)
  {
  }

  lemma WordsDiffer()
    ensures "mode" != "default_target" && "targets" != "mode" && "targets" != "default_target"
    ensures "mode" !in ["relay", "hotkey", "connection", "defaults"]
    ensures "default_target" !in ["relay", "hotkey", "connection", "defaults"]
    ensures "targets" !in ["relay", "hotkey", "connection", "defaults"]
  {
    assert "default_target"[7] != "defaults"[7];
    assert "relay"[0] == 'r' && "hotkey"[0] == 'h' && "connection"[0] == 'c' && "mode"[0] == 'm' && "targets"[0] == 't';
  }

  /** Two different settable keys lie side by side: neither path leads through the other. */
  lemma SettableKeysAreUnrelated(key: string, other: string)
    requires KindOf(key).Some? && KindOf(other).Some? && key != other
    ensures Unrelated(Split(key), Split(other))
  {
    hide KindOfParts, FIXED_KEYS, TARGET_FIELDS;
    var p, q := Split(key), Split(other);
    assert Text.Join(p, '.') == key && Text.Join(q, '.') == other;
    SettableShape(p);
    SettableShape(q);
    WordsDiffer();
    hide Split, Text.Split, Text.Join, KindOf;
    if |p| == |q| {
      assert p <= q ==> p == q;
      assert q <= p ==> p == q;
    } else {
      assert p[0] != q[0];
    }
  }

  // ---------- Get and set ----------

  function GetIn(table: Table, key: string): Result<Value, Error> {
    if KindOf(key).None? then Err(UnknownKey)
    else
      match At(table, Split(key))
      case None => Err(NotSet)
      case Some(value) => Ok(value)
  }

  function Parents(key: string): seq<string> {
    Split(key)[..|Split(key)| - 1]
  }

  /** What `set` comes to. Nothing but the document it is given is changed, and only when everything fits. */
  function SetIn(table: Table, key: string, value: string): Result<Table, Error> {
    match KindOf(key)
    case None => Err(UnknownKey)
    case Some(kind) =>
      match Parsed(kind, value)
      case None => Err(DoesNotFit)
      case Some(parsed) =>
        if Open(table, Parents(key)) then Ok(Put(table, Split(key), parsed)) else Err(NotATable)
  }

  lemma NothingEnsured(table: Table)
    ensures Open(table, []) && Ensured(table, []) == table && Reached(table, []) == table
  {
  }

  class Document {
    var root: Table

    constructor (root: Table)
      ensures this.root == root
    {
      this.root := root;
    }

    method Get(key: string) returns (result: Result<Value, Error>)
      ensures result == GetIn(root, key)
    {
      if KindOf(key) == None {
        return Err(UnknownKey);
      }
      hide KindOf;
      var parts := Split(key);
      var current := Nested(root);
      for i := 0 to |parts|
        invariant At(root, parts) == (if current.Nested? || i == |parts| then Onward(current, parts[i..]) else None)
      {
        if !current.Nested? {
          return Err(NotSet);
        }
        assert parts[i..][0] == parts[i] && parts[i..][1..] == parts[i + 1..];
        if parts[i] !in current.entries {
          return Err(NotSet);
        }
        current := current.entries[parts[i]];
      }
      return Ok(current);
    }

    /** Makes the missing tables on its way down, and still leaves the document as it was when it fails. */
    method Set(key: string, value: string) returns (result: Result<(), Error>)
      modifies this
      ensures SetIn(old(root), key, value).Ok? ==> result == Ok(()) && root == SetIn(old(root), key, value).value
      ensures SetIn(old(root), key, value).Err? ==>
        result == Err(SetIn(old(root), key, value).error) && root == old(root)
    {
      var kind := KindOf(key);
      if kind == None {
        return Err(UnknownKey);
      }
      var parsed := Parsed(kind.value, value);
      if parsed == None {
        return Err(DoesNotFit);
      }
      hide KindOf, Parsed, Ensured, Reached, Open, Put;
      var parts := Split(key);
      var last := |parts| - 1;
      var cursor := root;
      assert parts[..0] == [];
      NothingEnsured(root);
      for i := 0 to last
        invariant Open(old(root), parts[..i])
        invariant root == Ensured(old(root), parts[..i]) && cursor == Reached(old(root), parts[..i])
      {
        EnsuredOneMore(old(root), parts, i);
        ReachedOneMore(old(root), parts, i);
        if Open(old(root), parts[..last]) {
          StaysClosed(old(root), parts, i + 1, last);
        }
        if parts[i] !in cursor {
          root := Put(root, parts[..i + 1], Nested(map[]));
          cursor := map[];
        } else if cursor[parts[i]].Nested? {
          cursor := cursor[parts[i]].entries;
        } else {
          return Err(NotATable);
        }
      }
      PutEnsured(old(root), parts, parsed.value, last);
      root := Put(root, parts, parsed.value);
      return Ok(());
    }
  }

  function Onward(current: Value, path: seq<string>): Option<Value> {
    if path == [] then Some(current) else if current.Nested? then At(current.entries, path) else None
  }

  lemma {:induction false} ReachedOneMore(table: Table, path: seq<string>, count: nat)
    requires count < |path|
    ensures Reached(table, path[..count + 1]) == Below(Reached(table, path[..count]), path[count])
    decreases |path|
  {
    if count == 0 {
      assert path[..1] == [path[0]] && path[..1][1..] == [];
    } else {
      assert path[..count][1..] == path[1..][..count - 1] && path[..count + 1][1..] == path[1..][..count];
      ReachedOneMore(Below(table, path[0]), path[1..], count - 1);
    }
  }

  lemma {:induction false} StaysClosed(table: Table, path: seq<string>, count: nat, last: nat)
    requires count <= last <= |path| && Open(table, path[..last])
    ensures Open(table, path[..count])
    decreases |path|
  {
    if count > 0 {
      assert path[..count][1..] == path[1..][..count - 1] && path[..last][1..] == path[1..][..last - 1];
      if path[0] in table {
        StaysClosed(table[path[0]].entries, path[1..], count - 1, last - 1);
      }
    }
  }

  // ---------- What editing promises ----------

  /** What was set is what is read, in its canonical spelling. */
  lemma SetThenGet(table: Table, key: string, value: string)
    requires SetIn(table, key, value).Ok?
    ensures var read := GetIn(SetIn(table, key, value).value, key);
            read.Ok? && !read.value.Nested? && Rendered(read.value) == Canonical(KindOf(key).value, value)
  {
    PutThenAt(table, Split(key), Parsed(KindOf(key).value, value).value);
    hide KindOf, Split;
  }

  /** Anything beside the key is read as before, whether this build knows it or not. */
  lemma SetLeavesTheRest(table: Table, key: string, value: string, other: seq<string>)
    requires SetIn(table, key, value).Ok? && Unrelated(Split(key), other)
    ensures At(SetIn(table, key, value).value, other) == At(table, other)
  {
    PutElsewhere(table, Split(key), Parsed(KindOf(key).value, value).value, other);
  }

  lemma SetLeavesOtherKeys(table: Table, key: string, value: string, other: string)
    requires SetIn(table, key, value).Ok? && key != other
    ensures GetIn(SetIn(table, key, value).value, other) == GetIn(table, other)
  {
    if KindOf(other).Some? {
      hide KindOf;
      SettableKeysAreUnrelated(key, other);
      SetLeavesTheRest(table, key, value, Split(other));
    }
  }

  /** Two edits that succeed one after the other succeed in the other order too, and come to the same document. */
  lemma SetsCommute(table: Table, key: string, value: string, other: string, another: string)
    requires key != other && SetIn(table, key, value).Ok?
    requires SetIn(SetIn(table, key, value).value, other, another).Ok?
    ensures SetIn(table, other, another).Ok?
    ensures SetIn(SetIn(table, other, another).value, key, value) == SetIn(SetIn(table, key, value).value, other, another)
  {
    hide KindOf, Parsed, Split;
    var p, q := Split(key), Split(other);
    var v, w := Parsed(KindOf(key).value, value).value, Parsed(KindOf(other).value, another).value;
    SettableKeysAreUnrelated(key, other);
    PutKeepsOpen(table, p, v, q);
    PutKeepsOpen(table, q, w, p);
    PutsCommute(table, p, v, q, w);
    hide Put, Open, Unrelated;
  }
}
