/** The few text operations of Rust's `str` that more than one parser here uses. */
module Text {

  /** Characters with the Unicode `White_Space` property. */
  predicate IsSpace(c: char) {
    || '\t' <= c <= '\r' || c == ' ' || c == '\U{85}' || c == '\U{A0}' || c == '\U{1680}'
    || '\U{2000}' <= c <= '\U{200A}' || c == '\U{2028}' || c == '\U{2029}' || c == '\U{202F}'
    || c == '\U{205F}' || c == '\U{3000}'
  }

  function TrimStart(s: string): (t: string)
    ensures |t| <= |s| && t == s[|s| - |t|..]
    ensures t == "" || !IsSpace(t[0])
  {
    if s != "" && IsSpace(s[0]) then TrimStart(s[1..]) else s
  }

  function TrimEnd(s: string): (t: string)
    ensures t <= s
    ensures t == "" || !IsSpace(t[|t| - 1])
  {
    if s != "" && IsSpace(s[|s| - 1]) then TrimEnd(s[..|s| - 1]) else s
  }

  function Trim(s: string): string {
    TrimEnd(TrimStart(s))
  }

  lemma NothingToTrim(s: string)
    requires s == "" || (!IsSpace(s[0]) && !IsSpace(s[|s| - 1]))
    ensures Trim(s) == s
  {
  }

  function LowerChar(c: char): char {
    if 'A' <= c <= 'Z' then (c as int + 32) as char else c
  }

  /** `to_ascii_lowercase` */
  function Lower(s: string): (t: string)
    ensures |t| == |s|
    ensures forall i :: 0 <= i < |s| ==> t[i] == LowerChar(s[i])
  {
    seq(|s|, i requires 0 <= i < |s| => LowerChar(s[i]))
  }

  function Split(s: string, separator: char): (parts: seq<string>)
    ensures parts != [] && Join(parts, separator) == s
    ensures forall i :: 0 <= i < |parts| ==> separator !in parts[i]
  {
    if s == "" then [""]
    else
      var rest := Split(s[1..], separator);
      if s[0] == separator then [""] + rest else [[s[0]] + rest[0]] + rest[1..]
  }

  function Join(parts: seq<string>, separator: char): string {
    if parts == [] then "" else if |parts| == 1 then parts[0] else parts[0] + [separator] + Join(parts[1..], separator)
  }

  lemma {:induction false} SplitOne(part: string, separator: char)
    requires separator !in part
    ensures Split(part, separator) == [part]
  {
    if part != "" {
      SplitOne(part[1..], separator);
    }
  }

  lemma {:induction false} SplitHead(part: string, rest: string, separator: char)
    requires separator !in part
    ensures Split(part + [separator] + rest, separator) == [part] + Split(rest, separator)
  {
    var s := part + [separator] + rest;
    if part == "" {
      assert s[1..] == rest;
    } else {
      assert s[1..] == part[1..] + [separator] + rest;
      SplitHead(part[1..], rest, separator);
      var parts := Split(s[1..], separator);
      assert parts[0] == part[1..] && parts[1..] == Split(rest, separator);
      assert [s[0]] + parts[0] == part;
    }
  }

  /** Parts without the separator come back from their joined text. */
  lemma {:induction false} SplitJoined(parts: seq<string>, separator: char)
    requires parts != [] && forall i :: 0 <= i < |parts| ==> separator !in parts[i]
    ensures Split(Join(parts, separator), separator) == parts
  {
    if |parts| == 1 {
      SplitOne(parts[0], separator);
    } else {
      SplitJoined(parts[1..], separator);
      SplitHead(parts[0], Join(parts[1..], separator), separator);
    }
  }

  // ---------- Lower case goes with the rest ----------

  lemma LowerCat(a: string, b: string)
    ensures Lower(a + b) == Lower(a) + Lower(b)
  {
  }

  lemma SpaceLower(c: char)
    ensures IsSpace(LowerChar(c)) <==> IsSpace(c)
  {
  }

  lemma LowerHead(s: string)
    requires s != ""
    ensures Lower(s) != "" && Lower(s)[0] == LowerChar(s[0]) && Lower(s)[1..] == Lower(s[1..])
  {
  }

  lemma LowerLast(s: string)
    requires s != ""
    ensures Lower(s) != "" && Lower(s)[|Lower(s)| - 1] == LowerChar(s[|s| - 1])
    ensures Lower(s)[..|Lower(s)| - 1] == Lower(s[..|s| - 1])
  {
  }

  lemma {:induction false} LowerTrimStart(s: string)
    ensures TrimStart(Lower(s)) == Lower(TrimStart(s))
  {
    if s == "" {
      assert Lower(s) == "";
    } else {
      hide IsSpace, LowerChar, Lower;
      LowerHead(s);
      SpaceLower(s[0]);
      if IsSpace(s[0]) {
        LowerTrimStart(s[1..]);
      }
    }
  }

  lemma {:induction false} LowerTrimEnd(s: string)
    ensures TrimEnd(Lower(s)) == Lower(TrimEnd(s))
  {
    if s == "" {
      assert Lower(s) == "";
    } else {
      hide IsSpace, LowerChar, Lower;
      LowerLast(s);
      SpaceLower(s[|s| - 1]);
      if IsSpace(s[|s| - 1]) {
        LowerTrimEnd(s[..|s| - 1]);
      }
    }
  }

  lemma LowerTrim(s: string)
    ensures Trim(Lower(s)) == Lower(Trim(s))
  {
    LowerTrimStart(s);
    LowerTrimEnd(TrimStart(s));
  }

  /** A separator that is not a letter splits text at the same places in either case. */
  lemma {:induction false} LowerSplit(s: string, separator: char, i: nat)
    requires !('A' <= separator <= 'Z') && !('a' <= separator <= 'z')
    ensures |Split(Lower(s), separator)| == |Split(s, separator)|
    ensures i < |Split(s, separator)| ==> Split(Lower(s), separator)[i] == Lower(Split(s, separator)[i])
  {
    if s != "" {
      assert Lower(s)[1..] == Lower(s[1..]);
      var rest := Split(s[1..], separator);
      if s[0] == separator {
        if i > 0 {
          LowerSplit(s[1..], separator, i - 1);
        } else {
          LowerSplit(s[1..], separator, 0);
        }
      } else {
        LowerSplit(s[1..], separator, i);
        if i == 0 {
          LowerCat([s[0]], rest[0]);
          assert Lower([s[0]]) == [LowerChar(s[0])];
        }
      }
    }
  }
}
