/** KMO module files of os/kernel/kmo.c: the text format, read and written. */
module KmoSpec {
  import opened Wrappers
  import opened CStrings

  const LINE_MAX: nat := 223
  const FILE_MAX: nat := 1535
  const TEXT_MAX: nat := 159
  const ID_MAX: nat := 23
  const NAME_MAX: nat := 31
  const COMMAND_MAX: nat := 23
  const HELP_MAX: nat := 95
  const BODY_MAX: nat := 511

  /** The fields of kmo_module_t that the file determines. */
  datatype Module = Module(id: string, name: string, command: string, target: string, help: string, message: string,
                           body: string, raw: bool)

  predicate Blank(c: char) {
    c == ' ' || c == '\t'
  }

  predicate White(c: char) {
    Blank(c) || c == '\r' || c == '\n'
  }

  function SkipBlank(s: string): string {
    if s != "" && Blank(s[0]) then SkipBlank(s[1..]) else s
  }

  /** strip_tail. */
  function StripTail(s: string): (r: string)
    ensures |r| <= |s|
  {
    if s != "" && White(s[|s| - 1]) then StripTail(s[..|s| - 1]) else s
  }

  function SkipSeparators(s: string): string {
    if s != "" && (Blank(s[0]) || s[0] == '=') then SkipSeparators(s[1..]) else s
  }

  /** value_after_key. */
  function ValueAfter(line: string, key: string): Option<string> {
    if key <= line && |line| > |key| && (Blank(line[|key|]) || line[|key|] == '=')
    then Some(SkipSeparators(line[|key|..])) else None
  }

  function LowerChar(c: char): char {
    if 'A' <= c <= 'Z' then c + 32 as char else c
  }

  function Lower(s: string): string {
    if s == "" then "" else [LowerChar(s[0])] + Lower(s[1..])
  }

  predicate Truthy(v: string) {
    var s := SkipBlank(v);
    (s != "" && s[0] == '1' && (|s| == 1 || Blank(s[1])))
    || (s != "" && Lower(s) in {"on", "yes", "true", "raw", "danger", "unsafe"})
  }

  predicate Falsey(v: string) {
    var s := SkipBlank(v);
    (s != "" && s[0] == '0' && (|s| == 1 || Blank(s[1])))
    || (s != "" && Lower(s) in {"off", "no", "false", "safe", "kmodtalk"})
  }

  predicate RawTarget(t: string) {
    Lower(t) in {"raw", "lsh", "shell", "sum"}
  }

  predicate CommandChar(c: char) {
    'a' <= c <= 'z' || 'A' <= c <= 'Z' || '0' <= c <= '9' || c == '_' || c == '-'
  }

  predicate ValidCommand(s: string) {
    0 < |s| <= COMMAND_MAX && forall i | 0 <= i < |s| :: CommandChar(s[i])
  }

  function SetMode(m: Module, v: string): Module {
    if Truthy(v) then m.(raw := true) else if Falsey(v) then m.(raw := false) else m
  }

  function AppendBody(body: string, v: string): string {
    Clip(Clip(body + v, BODY_MAX) + "\n", BODY_MAX)
  }

  /** The part of a line that counts. */
  function Core(src: string): string {
    SkipBlank(StripTail(Clip(CString(src), LINE_MAX)))
  }

  /** parse_line, once the line has been trimmed: the first key that fits decides. */
  function ApplyLine(m: Module, s: string): Module {
    if s == "" || s[0] == '#' || "KMO" <= s then m
    else if ValueAfter(s, "ID").Some? then m.(id := Clip(ValueAfter(s, "ID").value, ID_MAX))
    else if ValueAfter(s, "NAME").Some? then m.(name := Clip(ValueAfter(s, "NAME").value, NAME_MAX))
    else if ValueAfter(s, "COMMAND").Some? then m.(command := Clip(ValueAfter(s, "COMMAND").value, COMMAND_MAX))
    else if ValueAfter(s, "SHELL").Some? then m.(command := Clip(ValueAfter(s, "SHELL").value, COMMAND_MAX))
    else if ValueAfter(s, "BIND").Some? then m.(command := Clip(ValueAfter(s, "BIND").value, COMMAND_MAX))
    else if ValueAfter(s, "TARGET").Some? then m.(target := Clip(ValueAfter(s, "TARGET").value, ID_MAX))
    else if ValueAfter(s, "MODULE").Some? then m.(target := Clip(ValueAfter(s, "MODULE").value, ID_MAX))
    else if ValueAfter(s, "RAW").Some? then m.(raw := Truthy(ValueAfter(s, "RAW").value))
    else if ValueAfter(s, "DANGER").Some? then m.(raw := Truthy(ValueAfter(s, "DANGER").value))
    else if ValueAfter(s, "UNSAFE").Some? then m.(raw := Truthy(ValueAfter(s, "UNSAFE").value))
    else if ValueAfter(s, "MODE").Some? then SetMode(m, ValueAfter(s, "MODE").value)
    else if ValueAfter(s, "CONTROL").Some? then SetMode(m, ValueAfter(s, "CONTROL").value)
    else if ValueAfter(s, "HELP").Some? then m.(help := Clip(ValueAfter(s, "HELP").value, HELP_MAX))
    else if ValueAfter(s, "DEFAULT").Some? then m.(message := Clip(ValueAfter(s, "DEFAULT").value, HELP_MAX))
    else if ValueAfter(s, "MESSAGE").Some? then m.(message := Clip(ValueAfter(s, "MESSAGE").value, HELP_MAX))
    else if ValueAfter(s, "CMD").Some? then m.(message := Clip(ValueAfter(s, "CMD").value, HELP_MAX))
    else if ValueAfter(s, "TEXT").Some? then m.(body := AppendBody(m.body, ValueAfter(s, "TEXT").value))
    else if ValueAfter(s, "BODY").Some? then m.(body := AppendBody(m.body, ValueAfter(s, "BODY").value))
    else m
  }

  function ParseLine(m: Module, src: string): Module {
    ApplyLine(m, Core(src))
  }

  predicate IsMagic(line: string) {
    "KMO" <= SkipBlank(CString(line))
  }

  datatype Reading = Reading(m: Module, magic: bool)

  function EndLine(r: Reading, line: string): Reading {
    Reading(ParseLine(r.m, line), r.magic || IsMagic(line))
  }

  /** The loop of parse_kmo over the characters; a line that is full ends at the
      next character, which is lost. */
  function Feed(r: Reading, line: string, data: string): Reading
    decreases |data|
  {
    if data == "" then (if line == "" then r else EndLine(r, line))
    else if data[0] == '\n' || |line| >= LINE_MAX then Feed(EndLine(r, line), "", data[1..])
    else Feed(r, line + [data[0]], data[1..])
  }

  function Defaults(file: string): Module {
    Module(Clip(file, ID_MAX), "KMO Module", "", "boot", "File-defined kernel module route", "status", "", false)
  }

  const DEFAULT_BODY: string := "This KMO routes a file-defined module request through KModTalk."

  function Finish(m: Module): Module {
    var raw := m.raw || RawTarget(m.target);
    var message := if m.message == "" then "status" else m.message;
    var body := if m.body == "" then AppendBody("", DEFAULT_BODY) else m.body;
    m.(raw := raw, message := message, body := body)
  }

  /** parse_kmo: the result code and the module. */
  function Parse(file: string, data: string): (r: (int, Module)) {
    var d := Reading(Defaults(file), false);
    if data == "" then (-1, d.m)
    else
      var r := Feed(d, "", data);
      if !r.magic then (-2, r.m)
      else if r.m.target == "" then (-3, r.m)
      else if r.m.command != "" && !ValidCommand(r.m.command) then (-4, r.m)
      else (0, Finish(r.m))
  }

  // ---- Writing ----

  function LineEnd(t: string): (n: nat)
    ensures n <= |t| && (n < |t| ==> t[n] == '\n') && forall i | 0 <= i < n :: t[i] != '\n'
  {
    if t == "" || t[0] == '\n' then 0 else 1 + LineEnd(t[1..])
  }

  /** One output line for each line of text, a last empty one included. */
  function TextLines(key: string, t: string): string
    decreases |t|
  {
    var n := LineEnd(t);
    var line := key + " " + Clip(t[..n], TEXT_MAX) + "\n";
    if n == |t| then line else line + TextLines(key, t[n + 1..])
  }

  function Printed(m: Module): string {
    "KMO 1\n" + ("ID " + m.id + "\n") + ("NAME " + m.name + "\n")
    + (if m.command == "" then "" else "COMMAND " + m.command + "\n")
    + ("TARGET " + m.target + "\n") + (if m.raw then "RAW 1\n" else "")
    + ("HELP " + m.help + "\n") + ("DEFAULT " + m.message + "\n")
    + (if m.body == "" then "" else TextLines("TEXT", m.body))
  }

  /** What write_kmo_file builds in its buffer. */
  function Print(m: Module): string {
    Clip(Printed(m), FILE_MAX)
  }
}
