/** A module file that was written reads back as the module it was written from. */
module KmoProof {
  import opened Wrappers
  import opened CStrings
  import opened KmoSpec

  /** Text that a line of the file carries unchanged. */
  predicate Plain(v: string) {
    && v != "" && !Blank(v[0]) && v[0] != '=' && !White(v[|v| - 1])
    && forall i | 0 <= i < |v| :: v[i] != '\n' && v[i] != '\0'
  }

  function Joined(lines: seq<string>): string {
    if lines == [] then "" else lines[0] + "\n" + Joined(lines[1..])
  }

  /** A module whose fields are plain and fit, with a body of plain lines. */
  ghost predicate Writable(m: Module, lines: seq<string>) {
    && Plain(m.id) && |m.id| <= ID_MAX && Plain(m.name) && |m.name| <= NAME_MAX && Plain(m.target)
      && |m.target| <= ID_MAX
    && Plain(m.help) && |m.help| <= HELP_MAX && Plain(m.message) && |m.message| <= HELP_MAX
    && (m.command == "" || ValidCommand(m.command)) && (RawTarget(m.target) ==> m.raw)
    && lines != [] && (forall i | 0 <= i < |lines| :: Plain(lines[i]) && |lines[i]| <= TEXT_MAX)
    && m.body == Joined(lines) && |m.body| <= BODY_MAX && |Printed(m)| <= FILE_MAX
  }

  // ---- One line ----

  lemma {:induction false} FeedLine(r: Reading, sofar: string, l: string, rest: string)
    requires |sofar| + |l| <= LINE_MAX && forall i | 0 <= i < |l| :: l[i] != '\n'
    ensures Feed(r, sofar, l + "\n" + rest) == Feed(EndLine(r, sofar + l), "", rest)
    decreases |l|
  {
    hide EndLine;
    var data := l + "\n" + rest;
    if l == "" {
      assert data == "\n" + rest && data[1..] == rest && sofar + l == sofar;
    } else {
      assert data[1..] == l[1..] + "\n" + rest && data[0] == l[0];
      FeedLine(r, sofar + [l[0]], l[1..], rest);
      assert sofar + [l[0]] + l[1..] == sofar + l;
    }
  }

  lemma StripNothing(s: string)
    requires s != "" ==> !White(s[|s| - 1])
    ensures StripTail(s) == s
  {
  }

  /** A line with a key, a blank and plain text is its own core. */
  lemma CoreOf(key: string, v: string)
    requires key != "" && !Blank(key[0]) && (forall i | 0 <= i < |key| :: key[i] != '\0') && Plain(v)
    requires |key| + 1 + |v| <= LINE_MAX
    ensures Core(key + " " + v) == key + " " + v
  {
    var s := key + " " + v;
    assert forall i | 0 <= i < |s| :: s[i] != '\0';
    CStringOf(s);
    assert s[|s| - 1] == v[|v| - 1] && s[0] == key[0];
    StripNothing(s);
  }

  lemma ValueOf(key: string, v: string)
    requires Plain(v)
    ensures ValueAfter(key + " " + v, key) == Some(v)
  {
    var s := key + " " + v;
    assert s[..|key|] == key && s[|key|..] == " " + v;
    assert (" " + v)[1..] == v;
    assert SkipSeparators(" " + v) == SkipSeparators(v) == v;
  }

  lemma OtherKey(s: string, key: string, i: nat)
    requires i < |s| && i < |key| && s[i] != key[i]
    ensures ValueAfter(s, key) == None
  {
  }

  lemma ReadId(m: Module, v: string)
    requires Plain(v) && |v| <= ID_MAX
    ensures ParseLine(m, "ID " + v) == m.(id := v)
  {
    var s := "ID" + " " + v;
    assert "ID " + v == s;
    CoreOf("ID", v);
    ValueOf("ID", v);
    hide ValueAfter, Core;
  }

  lemma ReadName(m: Module, v: string)
    requires Plain(v) && |v| <= NAME_MAX
    ensures ParseLine(m, "NAME " + v) == m.(name := v)
  {
    var s := "NAME" + " " + v;
    assert "NAME " + v == s;
    CoreOf("NAME", v);
    ValueOf("NAME", v);
    hide ValueAfter, Core;
    OtherKey(s, "ID", 0);
  }

  lemma ReadCommand(m: Module, v: string)
    requires ValidCommand(v)
    ensures ParseLine(m, "COMMAND " + v) == m.(command := v)
  {
    var s := "COMMAND" + " " + v;
    assert "COMMAND " + v == s;
    assert CommandChar(v[0]) && CommandChar(v[|v| - 1]);
    assert Plain(v);
    CoreOf("COMMAND", v);
    ValueOf("COMMAND", v);
    hide ValueAfter, Core, ValidCommand;
    OtherKey(s, "ID", 0);
    OtherKey(s, "NAME", 0);
  }

  /** A line that begins with T carries none of the keys before TARGET. */
  lemma NotBeforeTarget(s: string)
    requires s != "" && s[0] in {'T', 'R', 'H', 'D'}
    ensures ValueAfter(s, "ID").None? && ValueAfter(s, "NAME").None? && ValueAfter(s, "COMMAND").None?
    ensures ValueAfter(s, "SHELL").None? && ValueAfter(s, "BIND").None? && ValueAfter(s, "MODULE").None?
    ensures ValueAfter(s, "UNSAFE").None? && ValueAfter(s, "MODE").None? && ValueAfter(s, "CONTROL").None?
    ensures ValueAfter(s, "MESSAGE").None? && ValueAfter(s, "CMD").None? && ValueAfter(s, "BODY").None?
    ensures !("KMO" <= s)
  {
    hide ValueAfter;
    OtherKey(s, "ID", 0);
    OtherKey(s, "NAME", 0);
    OtherKey(s, "COMMAND", 0);
    OtherKey(s, "SHELL", 0);
    OtherKey(s, "BIND", 0);
    OtherKey(s, "MODULE", 0);
    OtherKey(s, "UNSAFE", 0);
    OtherKey(s, "MODE", 0);
    OtherKey(s, "CONTROL", 0);
    OtherKey(s, "MESSAGE", 0);
    OtherKey(s, "CMD", 0);
    OtherKey(s, "BODY", 0);
  }

  lemma ReadTarget(m: Module, v: string)
    requires Plain(v) && |v| <= ID_MAX
    ensures ParseLine(m, "TARGET " + v) == m.(target := v)
  {
    var s := "TARGET" + " " + v;
    assert "TARGET " + v == s;
    CoreOf("TARGET", v);
    ValueOf("TARGET", v);
    hide ValueAfter, Core;
    NotBeforeTarget(s);
  }

  lemma ReadRaw(m: Module)
    ensures ParseLine(m, "RAW 1") == m.(raw := true)
  {
    var s := "RAW" + " " + "1";
    assert "RAW 1" == s;
    CoreOf("RAW", "1");
    ValueOf("RAW", "1");
    assert Truthy("1");
    hide ValueAfter, Core, Truthy;
    NotBeforeTarget(s);
    OtherKey(s, "TARGET", 0);
  }

  lemma ReadHelp(m: Module, v: string)
    requires Plain(v) && |v| <= HELP_MAX
    ensures ParseLine(m, "HELP " + v) == m.(help := v)
  {
    var s := "HELP" + " " + v;
    assert "HELP " + v == s;
    CoreOf("HELP", v);
    ValueOf("HELP", v);
    hide ValueAfter, Core, Truthy;
    NotBeforeTarget(s);
    OtherKey(s, "TARGET", 0);
    OtherKey(s, "RAW", 0);
    OtherKey(s, "DANGER", 0);
  }

  lemma ReadMessage(m: Module, v: string)
    requires Plain(v) && |v| <= HELP_MAX
    ensures ParseLine(m, "DEFAULT " + v) == m.(message := v)
  {
    var s := "DEFAULT" + " " + v;
    assert "DEFAULT " + v == s;
    CoreOf("DEFAULT", v);
    ValueOf("DEFAULT", v);
    hide ValueAfter, Core, Truthy;
    NotBeforeTarget(s);
    OtherKey(s, "TARGET", 0);
    OtherKey(s, "RAW", 0);
    OtherKey(s, "DANGER", 1);
    OtherKey(s, "HELP", 0);
  }

  lemma ReadText(m: Module, v: string)
    requires Plain(v) && |v| <= TEXT_MAX && |m.body| + |v| + 1 <= BODY_MAX
    ensures ParseLine(m, "TEXT " + v) == m.(body := m.body + v + "\n")
  {
    var s := "TEXT" + " " + v;
    assert "TEXT " + v == s;
    CoreOf("TEXT", v);
    ValueOf("TEXT", v);
    hide ValueAfter, Core, Truthy;
    NotBeforeTarget(s);
    OtherKey(s, "TARGET", 1);
    OtherKey(s, "RAW", 0);
    OtherKey(s, "DANGER", 0);
    OtherKey(s, "HELP", 0);
    OtherKey(s, "DEFAULT", 0);
  }

  /** The empty text line at the end of every body is read as nothing. */
  lemma ReadEmptyText(m: Module)
    ensures ParseLine(m, "TEXT ") == m
  {
    var t := "TEXT ";
    CStringOf(t);
    assert t[..4] == "TEXT";
    assert StripTail(t) == StripTail("TEXT") == "TEXT";
    assert Core(t) == "TEXT";
    hide Core, Truthy;
    NotBeforeTarget("TEXT");
    OtherKey("TEXT", "TARGET", 1);
    OtherKey("TEXT", "RAW", 0);
    OtherKey("TEXT", "DANGER", 0);
    OtherKey("TEXT", "HELP", 0);
    OtherKey("TEXT", "DEFAULT", 0);
  }

  lemma ReadMagic(m: Module)
    ensures ParseLine(m, "KMO 1") == m && IsMagic("KMO 1")
  {
    var t := "KMO 1";
    CStringOf(t);
    assert Core(t) == t;
    hide ValueAfter, Core;
  }

  // ---- The whole file ----

  lemma LineEndOf(l: string, rest: string)
    requires forall i | 0 <= i < |l| :: l[i] != '\n'
    ensures LineEnd(l + "\n" + rest) == |l|
  {
    var t := l + "\n" + rest;
    assert t[|l|] == '\n';
    assert forall i | 0 <= i < |l| :: t[i] == l[i];
  }

  lemma TextLinesStep(l: string, t: string)
    requires |l| <= TEXT_MAX && forall i | 0 <= i < |l| :: l[i] != '\n'
    ensures TextLines("TEXT", l + "\n" + t) == "TEXT " + l + "\n" + TextLines("TEXT", t)
  {
    var s := l + "\n" + t;
    LineEndOf(l, t);
    assert s[|l| + 1..] == t && s[..|l|] == l;
    assert "TEXT" + " " == "TEXT ";
  }

  lemma NoTextLines()
    ensures TextLines("TEXT", "") == "TEXT " + "\n" + ""
  {
    assert "TEXT" + " " + "" + "\n" == "TEXT " + "\n" + "";
  }

  lemma PlainText(v: string)
    requires Plain(v)
    ensures forall i | 0 <= i < |"TEXT " + v| :: ("TEXT " + v)[i] != '\n'
    ensures forall i | 0 <= i < |v| :: v[i] != '\n'
  {
    PlainLine("TEXT ", v);
  }

  /** The text lines of a body, read into a module whose body is still empty. */
  lemma {:induction false} BodyReads(m: Module, lines: seq<string>)
    requires forall i | 0 <= i < |lines| :: Plain(lines[i]) && |lines[i]| <= TEXT_MAX
    requires |m.body| + |Joined(lines)| <= BODY_MAX
    ensures Feed(Reading(m, true), "", TextLines("TEXT", Joined(lines)))
            == Reading(m.(body := m.body + Joined(lines)), true)
    decreases |lines|
  {
    hide ParseLine, IsMagic, TextLines, Plain;
    var r := Reading(m, true);
    if lines == [] {
      NoTextLines();
      FeedLine(r, "", "TEXT ", "");
      assert "" + "TEXT " == "TEXT ";
      ReadEmptyText(m);
      assert m.body + "" == m.body;
    } else {
      hide Feed;
      var l, rest := lines[0], lines[1..];
      PlainText(l);
      TextLinesStep(l, Joined(rest));
      FeedLine(r, "", "TEXT " + l, TextLines("TEXT", Joined(rest)));
      assert "" + ("TEXT " + l) == "TEXT " + l;
      ReadText(m, l);
      BodyReads(m.(body := m.body + l + "\n"), rest);
      assert m.body + (l + "\n" + Joined(rest)) == m.body + l + "\n" + Joined(rest);
    }
  }

  /** One line of the heading: key, blank, value. */
  lemma HeadLine(r: Reading, line: string, rest: string, m: Module)
    requires |line| <= LINE_MAX && (forall i | 0 <= i < |line| :: line[i] != '\n') && ParseLine(r.m, line) == m
    ensures Feed(r, "", (line + "\n") + rest) == Feed(Reading(m, r.magic || IsMagic(line)), "", rest)
  {
    FeedLine(r, "", line, rest);
    assert "" + line == line && (line + "\n") + rest == line + "\n" + rest;
  }

  function CommandLine(m: Module): string {
    if m.command == "" then "" else "COMMAND " + m.command + "\n"
  }

  function RawLine(m: Module): string {
    if m.raw then "RAW 1\n" else ""
  }

  /** The file, line by line, from the inside out. */
  function Tail5(m: Module): string {
    ("DEFAULT " + m.message + "\n") + TextLines("TEXT", m.body)
  }

  function Tail4(m: Module): string {
    ("HELP " + m.help + "\n") + Tail5(m)
  }

  function Tail3(m: Module): string {
    ("TARGET " + m.target + "\n") + (RawLine(m) + Tail4(m))
  }

  function Tail2(m: Module): string {
    ("NAME " + m.name + "\n") + (CommandLine(m) + Tail3(m))
  }

  function Whole(m: Module): string {
    ("KMO 1" + "\n") + (("ID " + m.id + "\n") + Tail2(m))
  }

  lemma PrintedIs(m: Module)
    requires m.body != ""
    ensures Printed(m) == Whole(m)
  {
    assert "KMO 1" + "\n" == "KMO 1\n";
    hide TextLines;
    Nine("KMO 1\n", "ID " + m.id + "\n", "NAME " + m.name + "\n", CommandLine(m), "TARGET " + m.target + "\n",
        RawLine(m),
         "HELP " + m.help + "\n", "DEFAULT " + m.message + "\n", TextLines("TEXT", m.body));
  }

  lemma Nine(a: string, b: string, c: string, d: string, e: string, f: string, g: string, h: string, i: string)
    ensures a + b + c + d + e + f + g + h + i == a + (b + (c + (d + (e + (f + (g + (h + i)))))))
  {
  }

  lemma TailReads(m: Module, n: Module, lines: seq<string>)
    requires Writable(m, lines) && n.body == ""
    ensures Feed(Reading(n, true), "", Tail4(m))
            == Reading(n.(help := m.help, message := m.message, body := m.body), true)
  {
    var n1 := n.(help := m.help);
    var n2 := n1.(message := m.message);
    ReadHelp(n, m.help);
    ReadMessage(n1, m.message);
    PlainLine("HELP ", m.help);
    PlainLine("DEFAULT ", m.message);
    hide Feed, ParseLine, IsMagic, TextLines, Plain;
    HeadLine(Reading(n, true), "HELP " + m.help, Tail5(m), n1);
    HeadLine(Reading(n1, true), "DEFAULT " + m.message, TextLines("TEXT", m.body), n2);
    BodyReads(n2, lines);
    assert "" + Joined(lines) == Joined(lines);
  }

  lemma PlainLine(key: string, v: string)
    requires Plain(v) && forall i | 0 <= i < |key| :: key[i] != '\n'
    ensures forall i | 0 <= i < |key + v| :: (key + v)[i] != '\n'
  {
  }

  lemma TargetReads(m: Module, n: Module, lines: seq<string>)
    requires Writable(m, lines) && n.body == "" && !n.raw
    ensures Feed(Reading(n, true), "", Tail3(m))
            == Reading(n.(target := m.target, raw := m.raw, help := m.help, message := m.message, body := m.body), true)
  {
    hide Feed, ParseLine, IsMagic, Tail4, Plain, ValidCommand, RawTarget, Printed, Joined;
    var n1 := n.(target := m.target);
    var n2 := n1.(raw := m.raw);
    ReadTarget(n, m.target);
    ReadRaw(n1);
    PlainLine("TARGET ", m.target);
    HeadLine(Reading(n, true), "TARGET " + m.target, RawLine(m) + Tail4(m), n1);
    if m.raw {
      assert "RAW 1" + "\n" == "RAW 1\n";
      HeadLine(Reading(n1, true), "RAW 1", Tail4(m), n2);
    } else {
      assert "" + Tail4(m) == Tail4(m);
    }
    TailReads(m, n2, lines);
  }

  lemma NameReads(m: Module, n: Module, lines: seq<string>)
    requires Writable(m, lines) && n.body == "" && !n.raw && n.command == "" && n.id == m.id
    ensures Feed(Reading(n, true), "", Tail2(m)) == Reading(m, true)
  {
    hide Feed, ParseLine, IsMagic, Tail3, Plain, ValidCommand, RawTarget, Printed, Joined;
    var n1 := n.(name := m.name);
    var n2 := n1.(command := m.command);
    ReadName(n, m.name);
    PlainLine("NAME ", m.name);
    HeadLine(Reading(n, true), "NAME " + m.name, CommandLine(m) + Tail3(m), n1);
    if m.command == "" {
      assert "" + Tail3(m) == Tail3(m);
    } else {
      ReadCommand(n1, m.command);
      CommandIsPlain(m.command);
      PlainLine("COMMAND ", m.command);
      HeadLine(Reading(n1, true), "COMMAND " + m.command, Tail3(m), n2);
    }
    TargetReads(m, n2, lines);
  }

  lemma CommandIsPlain(v: string)
    requires ValidCommand(v)
    ensures Plain(v) && |v| <= COMMAND_MAX
  {
    assert CommandChar(v[0]) && CommandChar(v[|v| - 1]);
  }

  /** Reading what was written gives back every field. */
  lemma RoundTrip(file: string, m: Module, lines: seq<string>)
    requires Writable(m, lines)
    ensures Parse(file, Print(m)) == (0, m)
  {
    hide Feed, ParseLine, IsMagic, Tail2, Plain, RawTarget, ValidCommand, Printed, Joined, Finish;
    var d := Defaults(file);
    BodyNotEmpty(m, lines);
    PrintedIs(m);
    ReadMagic(d);
    ReadId(d, m.id);
    PlainLine("ID ", m.id);
    var rest := ("ID " + m.id + "\n") + Tail2(m);
    HeadLine(Reading(d, false), "KMO 1", rest, d);
    HeadLine(Reading(d, true), "ID " + m.id, Tail2(m), d.(id := m.id));
    NameReads(m, d.(id := m.id), lines);
    assert Whole(m) != "" by { assert |"KMO 1" + "\n"| > 0; }
    FinishNothing(m, lines);
  }

  lemma BodyNotEmpty(m: Module, lines: seq<string>)
    requires Writable(m, lines)
    ensures m.body != "" && m.target != "" && m.message != ""
  {
    assert Plain(lines[0]);
  }

  lemma FinishNothing(m: Module, lines: seq<string>)
    requires Writable(m, lines)
    ensures Finish(m) == m
  {
    BodyNotEmpty(m, lines);
    hide Plain, RawTarget;
  }
}
