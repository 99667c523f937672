/** The login items (`clift-inject/src/autostart.rs`): each platform's definition is written as text, and the program it
    starts is read back out of that text. */
module Autostart {
  import opened Prelude

  // ---------- Rust's `str` operations used here ----------

  predicate StartsWith(s: string, pattern: string) {
    |s| >= |pattern| && s[..|pattern|] == pattern
  }

  /** `str::replace`: leftmost matches that do not overlap. */
  function Replace(s: string, from: string, to: string): string
    requires from != ""
  {
    if s == "" then ""
    else if StartsWith(s, from) then to + Replace(s[|from|..], from, to)
    else [s[0]] + Replace(s[1..], from, to)
  }

  /** `str::find`: where the first match starts. */
  function Find(s: string, pattern: string): (at: Option<nat>)
    ensures at.Some? ==> at.value + |pattern| <= |s|
  {
    if StartsWith(s, pattern) then Some(0)
    else if s == "" then None
    else
      match Find(s[1..], pattern)
      case None => None
      case Some(at) => Some(at + 1)
  }

  /** `str::split_once` */
  function SplitOnce(s: string, pattern: string): Option<(string, string)> {
    match Find(s, pattern)
    case None => None
    case Some(at) => Some((s[..at], s[at + |pattern|..]))
  }

  lemma {:induction false} FindsAfter(before: string, pattern: string, after: string)
    requires forall i :: 0 <= i < |before| ==> !StartsWith((before + pattern + after)[i..], pattern)
    ensures SplitOnce(before + pattern + after, pattern) == Some((before, after))
  {
    var s := before + pattern + after;
    if before == "" {
      assert s == pattern + after;
    } else {
      assert s[0..] == s && !StartsWith(s, pattern);
      assert s[1..] == before[1..] + pattern + after;
      forall i | 0 <= i < |before[1..]| ensures !StartsWith((before[1..] + pattern + after)[i..], pattern) {
        assert s[1..][i..] == s[i + 1..];
      }
      FindsAfter(before[1..], pattern, after);
      var at := Find(s, pattern).value;
      assert at == |before| by {
        assert s[1..][..at - 1] == before[1..];
      }
      assert s[..at] == before && s[at + |pattern|..] == after;
    }
  }

  // ---------- macOS: a property list ----------

  /** How the three characters with a meaning in a property list are written; `lt` and `gt` say whether the angle
      brackets already are. */
  function Encode(value: string, lt: bool, gt: bool): string {
    if value == "" then ""
    else
      var c := value[0];
      (if c == '&' then "&amp;" else if lt && c == '<' then "&lt;" else if gt && c == '>' then "&gt;" else [c])
      + Encode(value[1..], lt, gt)
  }

  function Escape(value: string): string {
    Replace(Replace(Replace(value, "&", "&amp;"), "<", "&lt;"), ">", "&gt;")
  }

  function Unescape(text: string): string {
    Replace(Replace(Replace(text, "&lt;", "<"), "&gt;", ">"), "&amp;", "&")
  }

  lemma Skip(c: char, rest: string, from: string, to: string)
    requires from != "" && c != from[0]
    ensures Replace([c] + rest, from, to) == [c] + Replace(rest, from, to)
  {
    assert ([c] + rest)[1..] == rest;
  }

  lemma SkipAmp(rest: string, from: string, to: string)
    requires |from| >= 2 && from[0] == '&' && from[1] != 'a'
    ensures Replace("&amp;" + rest, from, to) == "&amp;" + Replace(rest, from, to)
  {
    var s := "&amp;" + rest;
    assert |s| >= |from| ==> s[..|from|][1] == 'a';
    assert s[1..] == ['a'] + (['m'] + (['p'] + ([';'] + rest)));
    Skip('a', ['m'] + (['p'] + ([';'] + rest)), from, to);
    Skip('m', ['p'] + ([';'] + rest), from, to);
    Skip('p', [';'] + rest, from, to);
    Skip(';', rest, from, to);
  }

  lemma SkipGt(rest: string)
    ensures Replace("&gt;" + rest, "&lt;", "<") == "&gt;" + Replace(rest, "&lt;", "<")
  {
    var s := "&gt;" + rest;
    assert s[..4][1] == 'g';
    assert s[1..] == ['g'] + (['t'] + ([';'] + rest));
    Skip('g', ['t'] + ([';'] + rest), "&lt;", "<");
    Skip('t', [';'] + rest, "&lt;", "<");
    Skip(';', rest, "&lt;", "<");
  }

  lemma Hit(rest: string, from: string, to: string)
    requires from != ""
    ensures Replace(from + rest, from, to) == to + Replace(rest, from, to)
  {
    assert (from + rest)[|from|..] == rest && (from + rest)[..|from|] == from;
  }

  lemma {:induction false} EscapeIsEncode(value: string)
    ensures Replace(value, "&", "&amp;") == Encode(value, false, false)
    ensures Replace(Encode(value, false, false), "<", "&lt;") == Encode(value, true, false)
    ensures Replace(Encode(value, true, false), ">", "&gt;") == Encode(value, true, true)
    ensures Escape(value) == Encode(value, true, true)
  {
    if value != "" {
      var c, rest := value[0], value[1..];
      EscapeIsEncode(rest);
      EscapeStep(c, rest);
    }
  }

  lemma EscapeStep(c: char, rest: string)
    requires Replace(rest, "&", "&amp;") == Encode(rest, false, false)
    requires Replace(Encode(rest, false, false), "<", "&lt;") == Encode(rest, true, false)
    requires Replace(Encode(rest, true, false), ">", "&gt;") == Encode(rest, true, true)
    ensures var value := [c] + rest;
            && Replace(value, "&", "&amp;") == Encode(value, false, false)
            && Replace(Encode(value, false, false), "<", "&lt;") == Encode(value, true, false)
            && Replace(Encode(value, true, false), ">", "&gt;") == Encode(value, true, true)
  {
    var value := [c] + rest;
    assert value[1..] == rest;
    var none, some := Encode(rest, false, false), Encode(rest, true, false);
    if c == '&' {
      Hit(rest, "&", "&amp;");
      PassAll("&amp;", none, "<", "&lt;");
      PassAll("&amp;", some, ">", "&gt;");
    } else {
      Skip(c, rest, "&", "&amp;");
      if c == '<' {
        Hit(none, "<", "&lt;");
        PassAll("&lt;", some, ">", "&gt;");
      } else {
        Skip(c, none, "<", "&lt;");
        if c == '>' {
          Hit(some, ">", "&gt;");
        } else {
          Skip(c, some, ">", "&gt;");
        }
      }
    }
  }

  /** Text without the replaced character is passed over. */
  lemma {:induction false} PassAll(before: string, rest: string, from: string, to: string)
    requires from != "" && from[0] !in before
    ensures Replace(before + rest, from, to) == before + Replace(rest, from, to)
  {
    if before == "" {
      assert before + rest == rest;
    } else {
      PassAll(before[1..], rest, from, to);
      Skip(before[0], before[1..] + rest, from, to);
      assert before + rest == [before[0]] + (before[1..] + rest);
      assert before + Replace(rest, from, to) == [before[0]] + (before[1..] + Replace(rest, from, to));
    }
  }

  lemma {:induction false} UnescapeSteps(value: string)
    ensures Replace(Encode(value, true, true), "&lt;", "<") == Encode(value, false, true)
    ensures Replace(Encode(value, false, true), "&gt;", ">") == Encode(value, false, false)
    ensures Replace(Encode(value, false, false), "&amp;", "&") == value
  {
    if value != "" {
      var c, rest := value[0], value[1..];
      UnescapeSteps(rest);
      assert value == [c] + rest;
      var all, one, none := Encode(rest, true, true), Encode(rest, false, true), Encode(rest, false, false);
      if c == '&' {
        SkipAmp(all, "&lt;", "<");
        SkipAmp(one, "&gt;", ">");
        Hit(none, "&amp;", "&");
      } else {
        if c == '<' {
          Hit(all, "&lt;", "<");
        } else if c == '>' {
          SkipGt(all);
        } else {
          Skip(c, all, "&lt;", "<");
        }
        if c == '>' {
          Hit(one, "&gt;", ">");
        } else {
          Skip(c, one, "&gt;", ">");
        }
        Skip(c, none, "&amp;", "&");
      }
    }
  }

  /** Whatever the text, entities spelled in it included, escaping is undone exactly. */
  lemma EscapingIsUndone(value: string)
    ensures Unescape(Escape(value)) == value
  {
    EscapeIsEncode(value);
    UnescapeSteps(value);
  }

  lemma {:induction false} NoBrackets(value: string)
    ensures forall i :: 0 <= i < |Encode(value, true, true)| ==> Encode(value, true, true)[i] !in "<>"
  {
    if value != "" {
      NoBrackets(value[1..]);
    }
  }

  // The definition up to the program, line by line.
  const XML := "<?xml version=\"1.0\" encoding=\"UTF-8\"?>\n"
  const DOCTYPE := "<!DOCTYPE plist PUBLIC \"-//Apple//DTD "
  const DOCTYPE_NAME := "PLIST 1.0//EN\" \"http://www.apple.com/"
  const DOCTYPE_FILE := "DTDs/PropertyList-1.0.dtd\">\n"
  const OPENING := "<plist version=\"1.0\">\n<dict>\n"
  const LABEL_KEY := "\t<key>Label</key>\n"
  const LABEL := "\t<string>dev.clift.hotkey</string>\n\t"
  const ARGUMENTS_KEY := "<key>ProgramArguments</key>"
  const ARRAY_LINE := "\n\t<array>\n"
  const TABS := "\t\t"
  const ARRAY := ARRAY_LINE + TABS
  const OPEN := "<string>"
  const CLOSE := "</string>"
  const AFTER_ARGUMENTS :=
    "\t</array>\n\t<key>RunAtLoad</key>\n\t<true/>\n\t<key>KeepAlive</key>\n\t<true/>\n\t<key>ProcessType</key>\n"
    + "\t<string>Interactive</string>\n\t<key>StandardOutPath</key>\n\t<string>"
  const BETWEEN_LOGS := "</string>\n\t<key>StandardErrorPath</key>\n\t<string>"
  const ENDING := "</string>\n</dict>\n</plist>\n"

  const HEAD := XML + DOCTYPE + DOCTYPE_NAME + DOCTYPE_FILE + OPENING + LABEL_KEY + LABEL

  function Item(text: string): string {
    TABS + OPEN + Escape(text) + CLOSE + "\n"
  }

  function Arguments(arguments: seq<string>): string {
    if arguments == [] then "" else Arguments(arguments[..|arguments| - 1]) + Item(arguments[|arguments| - 1])
  }

  function AfterProgram(arguments: seq<string>, log: string): string {
    "\n" + Arguments(arguments) + AFTER_ARGUMENTS + Escape(log) + BETWEEN_LOGS + Escape(log) + ENDING
  }

  function PropertyListOf(program: string, arguments: seq<string>, log: string): string {
    HEAD + ARGUMENTS_KEY + ARRAY + OPEN + Escape(program) + CLOSE + AfterProgram(arguments, log)
  }

  /** `document` of the macOS platform, which collects the arguments in a loop. */
  method PropertyList(program: string, arguments: seq<string>, log: string) returns (document: string)
    ensures document == PropertyListOf(program, arguments, log)
    ensures FirstProgramArgument(document) == Some(program)
  {
    hide Item, Escape;
    var argv := Item(program);
    for i := 0 to |arguments|
      invariant argv == Item(program) + Arguments(arguments[..i])
    {
      assert arguments[..i + 1][..i] == arguments[..i];
      OneMoreItem(Item(program), Arguments(arguments[..i]), Item(arguments[i]));
      argv := argv + Item(arguments[i]);
    }
    assert arguments[..|arguments|] == arguments;
    document := HEAD + ARGUMENTS_KEY + ARRAY_LINE + argv
              + AFTER_ARGUMENTS + Escape(log) + BETWEEN_LOGS + Escape(log) + ENDING;
    Assembled(program, arguments, log);
    TheProgramIsReadBack(program, arguments, log);
  }

  lemma OneMoreItem(a: string, b: string, c: string)
    ensures a + b + c == a + (b + c)
  {
  }

  lemma Assembled(program: string, arguments: seq<string>, log: string)
    ensures PropertyListOf(program, arguments, log)
         == HEAD + ARGUMENTS_KEY + ARRAY_LINE + (Item(program) + Arguments(arguments))
            + AFTER_ARGUMENTS + Escape(log) + BETWEEN_LOGS + Escape(log) + ENDING
  {
    RegroupAll(HEAD, ARGUMENTS_KEY, ARRAY_LINE, TABS, OPEN, Escape(program), CLOSE, "\n", Arguments(arguments),
               AFTER_ARGUMENTS, Escape(log), BETWEEN_LOGS, ENDING);
    hide HEAD, ARGUMENTS_KEY, ARRAY_LINE, TABS, OPEN, CLOSE, AFTER_ARGUMENTS, BETWEEN_LOGS, ENDING, Escape, Arguments;
  }

  lemma RegroupAll(h: string, k: string, a: string, t: string, o: string, v: string, c: string, n: string,
                   args: string, r: string, log: string, b: string, e: string)
    ensures h + k + (a + t) + o + v + c + (n + args + r + log + b + log + e)
         == h + k + a + (t + o + v + c + n + args) + r + log + b + log + e
  {
  }

  /** `first_program_argument` */
  function FirstProgramArgument(document: string): Option<string> {
    match SplitOnce(document, ARGUMENTS_KEY)
    case None => None
    case Some((_, items)) =>
      match SplitOnce(items, OPEN)
      case None => None
      case Some((_, open)) =>
        match SplitOnce(open, CLOSE)
        case None => None
        case Some((value, _)) => Some(Unescape(value))
  }

  /** A text that lacks one of the pattern's characters, apart from a short end with no start of the pattern in it, has
      no match starting in it. */
  lemma NoMatchWithin(before: string, rest: string, pattern: string, k: nat)
    requires k < |pattern| && pattern[k] !in before && |before| >= k
    requires forall i :: |before| - k <= i < |before| ==> !StartsWith((before + rest)[i..], pattern)
    ensures forall i :: 0 <= i < |before| ==> !StartsWith((before + rest)[i..], pattern)
  {
    forall i | 0 <= i < |before| - k ensures !StartsWith((before + rest)[i..], pattern) {
      assert (before + rest)[i..][k] == before[i + k];
    }
  }

  lemma LineLacksU1()
    ensures 'u' !in XML
  {
  }

  lemma LineLacksU2()
    ensures 'u' !in DOCTYPE
  {
  }

  lemma LineLacksU3()
    ensures 'u' !in DOCTYPE_NAME
  {
  }

  lemma LineLacksU4()
    ensures 'u' !in DOCTYPE_FILE
  {
  }

  lemma LineLacksU5()
    ensures 'u' !in OPENING && 'u' !in LABEL_KEY
  {
  }

  lemma LineLacksU6()
    ensures 'u' !in LABEL
  {
  }

  lemma InNone(c: char, p1: string, p2: string, p3: string, p4: string, p5: string, p6: string, p7: string)
    requires c !in p1 && c !in p2 && c !in p3 && c !in p4 && c !in p5 && c !in p6 && c !in p7
    ensures c !in p1 + p2 + p3 + p4 + p5 + p6 + p7
  {
  }

  lemma HeadLacksU()
    ensures 'u' !in HEAD
  {
    LineLacksU1();
    LineLacksU2();
    LineLacksU3();
    LineLacksU4();
    LineLacksU5();
    LineLacksU6();
    InNone('u', XML, DOCTYPE, DOCTYPE_NAME, DOCTYPE_FILE, OPENING, LABEL_KEY, LABEL);
  }

  lemma EndOfLabel()
    ensures |LABEL| == 36 && forall j :: 21 <= j < 36 && LABEL[j] == '<' ==> j < 35 && LABEL[j + 1] == '/'
  {
  }

  lemma KeyPattern()
    ensures |ARGUMENTS_KEY| == 27 && ARGUMENTS_KEY[0] == '<' && ARGUMENTS_KEY[1] == 'k' && ARGUMENTS_KEY[15] == 'u'
  {
  }

  /** The key is found where it is, not in the lines before it. */
  lemma FindsTheKey(front: string, last: string, key: string, rest: string)
    requires 'u' !in front + last
    requires |last| == 36 && forall j :: 21 <= j < 36 && last[j] == '<' ==> j < 35 && last[j + 1] == '/'
    requires |key| == 27 && key[0] == '<' && key[1] == 'k' && key[15] == 'u'
    ensures SplitOnce(front + last + key + rest, key) == Some((front + last, rest))
  {
    var before := front + last;
    var s := before + key + rest;
    forall i | |before| - 15 <= i < |before| ensures !StartsWith(s[i..], key) {
      var j := i - |front|;
      assert s[i..][0] == last[j];
      if last[j] == '<' {
        assert s[i..][1] == last[j + 1];
      }
    }
    assert s == before + (key + rest);
    NoMatchWithin(before, key + rest, key, 15);
    FindsAfter(before, key, rest);
  }

  lemma ArrayIsShort()
    ensures |ARRAY| == 12 && forall j :: 0 <= j < 12 && ARRAY[j] == '<' ==> j < 11 && ARRAY[j + 1] == 'a'
    ensures |OPEN| == 8 && OPEN[0] == '<' && OPEN[1] == 's' && CLOSE[0] == '<' && |CLOSE| == 9
  {
  }

  /** The first string of the array is the one right after it opens. */
  lemma FindsTheString(before: string, open: string, rest: string)
    requires forall j :: 0 <= j < |before| && before[j] == '<' ==> j < |before| - 1 && before[j + 1] == 'a'
    requires |open| >= 2 && open[0] == '<' && open[1] == 's'
    ensures SplitOnce(before + open + rest, open) == Some((before, rest))
  {
    var s := before + open + rest;
    forall i | 0 <= i < |before| ensures !StartsWith(s[i..], open) {
      assert s[i..][0] == before[i];
      if before[i] == '<' {
        assert s[i..][1] == before[i + 1];
      }
    }
    FindsAfter(before, open, rest);
  }

  lemma FindsTheEnd(value: string, close: string, rest: string)
    requires forall i :: 0 <= i < |value| ==> value[i] != '<'
    requires close != "" && close[0] == '<'
    ensures SplitOnce(value + close + rest, close) == Some((value, rest))
  {
    var s := value + close + rest;
    forall i | 0 <= i < |value| ensures !StartsWith(s[i..], close) {
      assert s[i..][0] == value[i];
    }
    FindsAfter(value, close, rest);
  }

  /** The program is read back exactly, whatever it and the arguments and the log are. */
  lemma TheProgramIsReadBack(program: string, arguments: seq<string>, log: string)
    ensures FirstProgramArgument(PropertyListOf(program, arguments, log)) == Some(program)
  {
    var rest := AfterProgram(arguments, log);
    HeadLacksU();
    EndOfLabel();
    KeyPattern();
    ArrayIsShort();
    EscapeIsEncode(program);
    NoBrackets(program);
    EscapingIsUndone(program);
    var front := XML + DOCTYPE + DOCTYPE_NAME + DOCTYPE_FILE + OPENING + LABEL_KEY;
    var value := Escape(program);
    var items := ARRAY + OPEN + (value + CLOSE + rest);
    assert HEAD == front + LABEL;
    Regroup(front, LABEL, ARGUMENTS_KEY, ARRAY, OPEN, value, CLOSE, rest);
    FindsTheKey(front, LABEL, ARGUMENTS_KEY, items);
    FindsTheString(ARRAY, OPEN, value + CLOSE + rest);
    FindsTheEnd(value, CLOSE, rest);
    hide *;
  }

  lemma Regroup(a: string, b: string, c: string, d: string, e: string, f: string, g: string, h: string)
    ensures a + b + c + d + e + f + g + h == a + b + c + (d + e + (f + g + h))
  {
  }

  // ---------- Windows: a script ----------

  const QUOTE := '"'
  const COMMENT_START := "' Starts the Clift hotkey helper when "
  const COMMENT_END := "you log in, without a console window.\r"
  const MANAGED_START := "' Managed by clift. Remove it "
  const MANAGED_END := "with: clift hotkey --uninstall\r"
  const EXPLICIT := "Option Explicit\r"
  const DIM := "Dim program, logFile, shell\r"
  const PROGRAM := "program = \""
  const LOG_FILE := "logFile = \""
  const SET_SHELL := "Set shell = CreateObject(\"WScript.Shell\")\r\n"
  const RUN := "shell.Run \"cmd.exe /c \"\"\"\"\" & program & \"\"\""
  const RUN_END := " >> \"\"\" & logFile & \"\"\" 2>&1\"\"\", 0, False\r\n"

  /** Every quote in a script string is doubled. */
  function Double(value: string): string {
    Replace(value, "\"", "\"\"")
  }

  function Undouble(value: string): string {
    Replace(value, "\"\"", "\"")
  }

  lemma {:induction false} DoublingIsUndone(value: string)
    ensures Undouble(Double(value)) == value
    ensures forall i :: 0 <= i < |Double(value)| ==> Double(value)[i] == QUOTE || Double(value)[i] in value
    ensures '\n' in value <==> '\n' in Double(value)
  {
    if value != "" {
      var c, rest := value[0], value[1..];
      DoublingIsUndone(rest);
      assert value == [c] + rest;
      if c == QUOTE {
        Hit(rest, "\"", "\"\"");
        Hit(Double(rest), "\"\"", "\"");
      } else {
        Skip(c, rest, "\"", "\"\"");
        Skip(c, Double(rest), "\"\"", "\"");
      }
    }
  }

  /** Where the first line ends. */
  function LineEnd(s: string): (n: nat)
    ensures n <= |s| && '\n' !in s[..n] && (n < |s| ==> s[n] == '\n')
  {
    if s == "" || s[0] == '\n' then 0
    else
      var n := 1 + LineEnd(s[1..]);
      assert s[..n] == [s[0]] + s[1..][..n - 1];
      n
  }

  /** `trim_end_matches('\r')` */
  function TrimReturns(s: string): (t: string)
    ensures t <= s
  {
    if s != "" && s[|s| - 1] == '\r' then TrimReturns(s[..|s| - 1]) else s
  }

  /** The rest of the first line that starts with the prefix. */
  function FirstLineAfter(document: string, prefix: string): Option<string>
    decreases |document|
  {
    if document == "" then None
    else
      var n := LineEnd(document);
      var line := TrimReturns(document[..n]);
      if prefix <= line then Some(line[|prefix|..])
      else if n == |document| then None
      else FirstLineAfter(document[n + 1..], prefix)
  }

  /** `program_in` */
  function ProgramIn(document: string): Option<string> {
    match FirstLineAfter(document, PROGRAM)
    case None => None
    case Some(line) =>
      if line != "" && line[|line| - 1] == QUOTE then Some(Undouble(line[..|line| - 1])) else None
  }

  lemma {:induction false} LineEndsAt(line: string, rest: string)
    requires '\n' !in line
    ensures LineEnd(line + "\n" + rest) == |line|
  {
    var s := line + "\n" + rest;
    if line != "" {
      LineEndsAt(line[1..], rest);
      assert s[1..] == line[1..] + "\n" + rest;
    }
  }

  /** A line that does not start with the prefix is passed over. */
  lemma PassLine(line: string, rest: string, prefix: string)
    requires '\n' !in line && prefix != "" && (line == "" || line[0] != prefix[0])
    ensures FirstLineAfter(line + ("\n" + rest), prefix) == FirstLineAfter(rest, prefix)
  {
    var s := line + "\n" + rest;
    assert s == line + ("\n" + rest);
    LineEndsAt(line, rest);
    assert s[..|line|] == line && s[|line| + 1..] == rest;
    assert TrimReturns(line) <= line;
  }

  function Tail(arguments: seq<string>): string {
    if arguments == [] then "" else Tail(arguments[..|arguments| - 1]) + " " + Double(arguments[|arguments| - 1])
  }

  function AfterProgramLine(arguments: seq<string>, log: string): string {
    LOG_FILE + Double(log) + "\"\r\n" + SET_SHELL + RUN + Tail(arguments) + RUN_END
  }

  function ScriptOf(program: string, arguments: seq<string>, log: string): string {
    COMMENT_START + COMMENT_END + ("\n" + (MANAGED_START + MANAGED_END + ("\n" + (EXPLICIT + ("\n" + (DIM + ("\n"
      + (PROGRAM + Double(program) + "\"\r\n" + AfterProgramLine(arguments, log)))))))))
  }

  lemma {:induction false} TrimmedToQuote(line: string)
    requires line != "" && line[|line| - 1] == QUOTE
    ensures TrimReturns(line + "\r") == line
  {
    assert (line + "\r")[..|line|] == line;
  }

  lemma CommentLine()
    ensures '\n' !in COMMENT_START && '\n' !in COMMENT_END && |COMMENT_START| == 38 && COMMENT_START[0] == '\''
  {
  }

  lemma ManagedLine()
    ensures '\n' !in MANAGED_START && '\n' !in MANAGED_END && |MANAGED_START| == 30 && MANAGED_START[0] == '\''
  {
  }

  lemma DeclarationLines()
    ensures '\n' !in EXPLICIT && |EXPLICIT| == 16 && EXPLICIT[0] == 'O'
    ensures '\n' !in DIM && |DIM| == 28 && DIM[0] == 'D'
  {
  }

  lemma ProgramLine()
    ensures |PROGRAM| == 11 && PROGRAM[0] == 'p' && '\n' !in PROGRAM
  {
  }

  /** The four lines before it do not look like the program's line. */
  lemma ReachesTheProgram(program: string, arguments: seq<string>, log: string)
    ensures FirstLineAfter(ScriptOf(program, arguments, log), PROGRAM)
         == FirstLineAfter(PROGRAM + Double(program) + "\"\r\n" + AfterProgramLine(arguments, log), PROGRAM)
  {
    CommentLine();
    ManagedLine();
    DeclarationLines();
    ProgramLine();
    hide Double, AfterProgramLine, COMMENT_START, COMMENT_END, MANAGED_START, MANAGED_END, EXPLICIT, DIM, PROGRAM;
    var s4 := PROGRAM + Double(program) + "\"\r\n" + AfterProgramLine(arguments, log);
    var s3 := DIM + ("\n" + s4);
    var s2 := EXPLICIT + ("\n" + s3);
    var s1 := MANAGED_START + MANAGED_END + ("\n" + s2);
    PassLine(DIM, s4, PROGRAM);
    PassLine(EXPLICIT, s3, PROGRAM);
    PassLine(MANAGED_START + MANAGED_END, s2, PROGRAM);
    PassLine(COMMENT_START + COMMENT_END, s1, PROGRAM);
  }

  lemma {:induction false} OneLineOnly(document: string, prefix: string)
    ensures FirstLineAfter(document, prefix).Some? ==> '\n' !in FirstLineAfter(document, prefix).value
    decreases |document|
  {
    if document != "" {
      var n := LineEnd(document);
      var line := TrimReturns(document[..n]);
      if !(prefix <= line) && n < |document| {
        OneLineOnly(document[n + 1..], prefix);
      }
    }
  }

  lemma {:induction false} UndoublingAddsNoLine(value: string)
    requires '\n' !in value
    ensures '\n' !in Undouble(value)
  {
    if value != "" {
      if StartsWith(value, "\"\"") {
        UndoublingAddsNoLine(value[2..]);
      } else {
        UndoublingAddsNoLine(value[1..]);
      }
    }
  }

  lemma OnTheFirstLine(prefix: string, value: string, after: string)
    requires '\n' !in prefix && '\n' !in value && prefix != ""
    ensures FirstLineAfter(prefix + value + "\"\r\n" + after, prefix) == Some(value + "\"")
  {
    var line := prefix + value + "\"";
    var s := prefix + value + "\"\r\n" + after;
    assert s == (line + "\r") + "\n" + after;
    LineEndsAt(line + "\r", after);
    assert s[..|line| + 1] == line + "\r";
    TrimmedToQuote(line);
    assert line[|prefix|..] == value + "\"";
  }

  /** The program is read back exactly when it has no line break in it. */
  lemma TheScriptIsReadBack(program: string, arguments: seq<string>, log: string)
    ensures ProgramIn(ScriptOf(program, arguments, log)) == Some(program) <==> '\n' !in program
  {
    ReachesTheProgram(program, arguments, log);
    DoublingIsUndone(program);
    ProgramLine();
    hide Double, Undouble, AfterProgramLine, ScriptOf, FirstLineAfter, PROGRAM;
    var document := ScriptOf(program, arguments, log);
    if '\n' !in program {
      OnTheFirstLine(PROGRAM, Double(program), AfterProgramLine(arguments, log));
      var line := Double(program) + "\"";
      assert line[..|line| - 1] == Double(program);
    } else {
      OneLineOnly(document, PROGRAM);
      var found := FirstLineAfter(document, PROGRAM);
      if found.Some? && found.value != "" {
        UndoublingAddsNoLine(found.value[..|found.value| - 1]);
      }
    }
  }

  /** `document` of the Windows startup script. */
  method Script(program: string, arguments: seq<string>, log: string) returns (script: string)
    ensures script == ScriptOf(program, arguments, log)
    ensures '\n' !in program ==> ProgramIn(script) == Some(program)
  {
    hide Double, ProgramIn;
    var tail := "";
    for i := 0 to |arguments|
      invariant tail == Tail(arguments[..i])
    {
      assert arguments[..i + 1][..i] == arguments[..i];
      tail := tail + " " + Double(arguments[i]);
    }
    assert arguments[..|arguments|] == arguments;
    hide COMMENT_START, COMMENT_END, MANAGED_START, MANAGED_END, EXPLICIT, DIM, PROGRAM, LOG_FILE, SET_SHELL, RUN, RUN_END;
    script := COMMENT_START + COMMENT_END + "\n" + MANAGED_START + MANAGED_END + "\n" + EXPLICIT + "\n" + DIM + "\n";
    RegroupLines(COMMENT_START + COMMENT_END, MANAGED_START, MANAGED_END, EXPLICIT, DIM, "\n",
                 PROGRAM + Double(program) + "\"\r\n" + AfterProgramLine(arguments, log));
    script := script + (PROGRAM + Double(program) + "\"\r\n"
                        + (LOG_FILE + Double(log) + "\"\r\n" + SET_SHELL + RUN + tail + RUN_END));
    TheScriptIsReadBack(program, arguments, log);
  }

  lemma RegroupLines(a: string, b1: string, b2: string, c: string, d: string, n: string, rest: string)
    ensures a + n + b1 + b2 + n + c + n + d + n + rest == a + (n + (b1 + b2 + (n + (c + (n + (d + (n + rest)))))))
  {
  }
}
