/** The delete overlay of os/kernel/fs.c on values: the tables of hidden and
    deleted names, the text log that records how they came about, and replay. */
module DeleteLogSpec {
  import opened CStrings

  const LOG_CAP: nat := 2048
  const TABLE_MAX: nat := 32
  const SPARE: nat := 96

  const INIT_1: string := "LARDD 1\n"
  const TITLE: string := "Seed/Default Delete Overlay"
  const INIT_2: string := "TITLE" + " " + TITLE + "\n"
  const TEXT_1: string := "DEL -F removes built-in "
  const TEXT_2: string := "seed/default files from "
  const TEXT_3: string := "the active filesystem; "
  const TEXT_4: string := "TOMB owns the records."
  const INIT_3: string := "TEXT" + " " + (TEXT_1 + TEXT_2 + TEXT_3 + TEXT_4) + "\n"
  const INIT_4: string := "SECTION Tombstones\n"

  predicate Blank(c: char) {
    c == ' ' || c == '\t'
  }

  predicate Newline(c: char) {
    c == '\n' || c == '\r'
  }

  predicate Space(c: char) {
    Blank(c) || Newline(c)
  }

  /** A name that the log can carry: not empty, at most 31 characters, none of them white. */
  predicate IsName(n: string) {
    0 < |n| <= 31 && forall i | 0 <= i < |n| :: !Space(n[i]) && n[i] != '\0'
  }

  datatype Tables = Tables(hidden: seq<string>, deleted: seq<string>)

  const NOTHING := Tables([], [])

  function Index(s: seq<string>, n: string): (r: int)
    ensures -1 <= r < |s|
    ensures r < 0 <==> n !in s
    ensures r >= 0 ==> s[r] == n && n !in s[..r]
  {
    if s == [] then -1
    else
      var r := Index(s[..|s| - 1], n);
      if r >= 0 then r else if s[|s| - 1] == n then |s| - 1 else -1
  }

  function Without(s: seq<string>, i: nat): seq<string>
    requires i < |s|
  {
    s[..i] + s[i + 1..]
  }

  function Remove(s: seq<string>, n: string): seq<string> {
    if Index(s, n) < 0 then s else Without(s, Index(s, n))
  }

  function TrackHide(t: Tables, n: string): (r: (int, Tables)) {
    if n == "" then (-1, t)
    else if n in t.deleted then (-3, t)
    else if n in t.hidden then (1, t)
    else if |t.hidden| >= TABLE_MAX then (-2, t)
    else (0, t.(hidden := t.hidden + [n]))
  }

  function TrackShow(t: Tables, n: string): (r: (int, Tables)) {
    if n in t.hidden then (0, t.(hidden := Remove(t.hidden, n))) else (-1, t)
  }

  /** A deleted name stops being hidden, even when the table of deleted names is full. */
  function TrackDelete(t: Tables, n: string): (r: (int, Tables)) {
    if n == "" then (-1, t)
    else
      var u := TrackShow(t, n).1;
      if n in t.deleted then (1, u)
      else if |t.deleted| >= TABLE_MAX then (-2, u)
      else (0, u.(deleted := t.deleted + [n]))
  }

  function TrackPurge(t: Tables, n: string): (r: (int, Tables)) {
    (if n in t.hidden || n in t.deleted then 0 else -1, Tables(Remove(t.hidden, n), Remove(t.deleted, n)))
  }

  // ---- Reading the log ----

  function SkipSpace(s: string): (r: string)
    ensures |r| <= |s| && (r != "" ==> !Space(r[0])) && (s != "" && Space(s[0]) ==> |r| < |s|)
  {
    if s != "" && Space(s[0]) then SkipSpace(s[1..]) else s
  }

  function SkipBlank(s: string): (r: string)
    ensures |r| <= |s|
  {
    if s != "" && Blank(s[0]) then SkipBlank(s[1..]) else s
  }

  function SkipLine(s: string): (r: string)
    ensures |r| <= |s|
  {
    if s != "" && !Newline(s[0]) then SkipLine(s[1..]) else s
  }

  /** How many characters of the word at the start of s fit into a buffer for limit. */
  function Word(s: string, limit: nat): (n: nat)
    ensures n <= |s| && n <= limit
  {
    if limit == 0 || s == "" || Space(s[0]) then 0 else 1 + Word(s[1..], limit - 1)
  }

  datatype Record = Record(op: string, name: string, rest: string)

  /** One round of the loop of fs_apply_delete_log. */
  function Parse(s: string): (p: Record)
    ensures s != "" ==> |p.rest| < |s|
  {
    var a := SkipSpace(s);
    var n := Word(a, 7);
    var b := SkipBlank(a[n..]);
    var m := Word(b, 31);
    Record(CString(a[..n]), CString(b[..m]), SkipLine(b[m..]))
  }

  function Apply(t: Tables, op: string, name: string): Tables {
    if name == "" then t
    else if op == "HIDE" then TrackHide(t, name).1
    else if op == "SHOW" then TrackShow(t, name).1
    else if op == "DELETE" || op == "KILL" || op == "DESTROY" then TrackDelete(t, name).1
    else if op == "PURGE" || op == "DROP" then TrackPurge(t, name).1
    else t
  }

  function Replay(s: string, t: Tables): Tables
    decreases |s|
  {
    if s == "" then t else var p := Parse(s); Replay(p.rest, Apply(t, p.op, p.name))
  }

  // ---- Writing the log ----

  function Line(op: string, name: string): string {
    op + " " + name + "\n"
  }

  function Lines(op: string, names: seq<string>): string {
    if names == [] then "" else Lines(op, names[..|names| - 1]) + Line(op, names[|names| - 1])
  }

  function Initial(): string {
    INIT_1 + INIT_2 + INIT_3 + INIT_4
  }

  /** The log that compaction writes. */
  function Compact(t: Tables): string {
    Initial() + Lines("HIDE", t.hidden) + Lines("DELETE", t.deleted)
  }

  /** What of s fits into the log buffer. */
  function Cut(s: string): (r: string)
    ensures |r| <= LOG_CAP && (|s| <= LOG_CAP ==> r == s)
  {
    if |s| <= LOG_CAP then s else s[..LOG_CAP]
  }

  lemma CutTwice(s: string, x: string)
    ensures Cut(Cut(s) + x) == Cut(s + x)
  {
  }

  datatype Overlay = Overlay(tables: Tables, log: string)

  /** fsdelete_append_record: close to the end of the buffer the log is compacted instead. */
  function Logged(v: Overlay, op: string, name: string): Overlay {
    v.(log := Cut(if LOG_CAP - |v.log| < SPARE then Compact(v.tables) else v.log + Line(op, name)))
  }

  function Hide(v: Overlay, n: string, present: bool): (int, Overlay) {
    var (r, t) := TrackHide(v.tables, n);
    if !present then (-1, v) else if r < 0 then (r, v.(tables := t)) else (r, Logged(v.(tables := t), "HIDE", n))
  }

  function Delete(v: Overlay, n: string, present: bool): (int, Overlay) {
    var (r, t) := TrackDelete(v.tables, n);
    if !present then (-1, v) else if r < 0 then (r, v.(tables := t)) else (r, Logged(v.(tables := t), "DELETE", n))
  }

  function Unhide(v: Overlay, n: string, present: bool): (int, Overlay) {
    var (r, t) := TrackShow(v.tables, n);
    if !present then (-1, v)
    else if n in v.tables.deleted then (-2, v)
    else (if r == 0 then 0 else 1, Logged(v.(tables := t), "SHOW", n))
  }

  function Purge(v: Overlay, n: string): (int, Overlay) {
    if n == "" then (-1, v)
    else var (r, t) := TrackPurge(v.tables, n); (if r == 0 then 0 else 1, Overlay(t, Cut(Compact(t))))
  }

  function PurgeAll(v: Overlay): (int, Overlay) {
    (|v.tables.hidden| + |v.tables.deleted|, Overlay(NOTHING, Cut(Compact(NOTHING))))
  }

  datatype Op =
    | OpHide(name: string, present: bool)
    | OpDelete(name: string, present: bool)
    | OpUnhide(name: string, present: bool)
    | OpPurge(name: string)
    | OpPurgeAll
    | OpReload

  function Step(v: Overlay, op: Op): Overlay {
    match op
    case OpHide(n, x) => Hide(v, n, x).1
    case OpDelete(n, x) => Delete(v, n, x).1
    case OpUnhide(n, x) => Unhide(v, n, x).1
    case OpPurge(n) => Purge(v, n).1
    case OpPurgeAll => PurgeAll(v).1
    case OpReload => v.(tables := Replay(v.log, NOTHING))
  }

  function Run(v: Overlay, ops: seq<Op>): Overlay {
    if ops == [] then v else Step(Run(v, ops[..|ops| - 1]), ops[|ops| - 1])
  }

  // ---- The tables stay well formed ----

  ghost predicate NoRepeats(s: seq<string>) {
    forall i, j | 0 <= i < j < |s| :: s[i] != s[j]
  }

  /** No name twice, none both hidden and deleted, never more than the tables hold. */
  ghost predicate Tidy(t: Tables) {
    && NoRepeats(t.hidden) && NoRepeats(t.deleted) && |t.hidden| <= TABLE_MAX && |t.deleted| <= TABLE_MAX
    && (forall n | n in t.hidden :: IsName(n) && n !in t.deleted) && (forall n | n in t.deleted :: IsName(n))
  }

  lemma RemoveNames(s: seq<string>, n: string)
    requires NoRepeats(s)
    ensures var r := Remove(s, n); NoRepeats(r) && |r| <= |s| && forall x :: x in r <==> x in s && x != n
  {
    var i := Index(s, n);
    if i >= 0 {
      var r := Remove(s, n);
      assert forall k | 0 <= k < |r| :: r[k] == s[if k < i then k else k + 1];
      forall x | x in s && x != n
        ensures x in r
      {
        var k :| 0 <= k < |s| && s[k] == x;
        assert r[if k < i then k else k - 1] == x;
      }
    }
  }

  lemma HideTidy(t: Tables, n: string)
    requires Tidy(t) && IsName(n)
    ensures Tidy(TrackHide(t, n).1)
  {
    hide IsName;
  }

  lemma ShowTidy(t: Tables, n: string)
    requires Tidy(t)
    ensures var u := TrackShow(t, n).1; Tidy(u) && n !in u.hidden && u.deleted == t.deleted
  {
    RemoveNames(t.hidden, n);
    hide IsName, Remove, NoRepeats;
  }

  lemma DeleteTidy(t: Tables, n: string)
    requires Tidy(t) && IsName(n)
    ensures Tidy(TrackDelete(t, n).1)
  {
    ShowTidy(t, n);
    hide IsName, TrackShow;
  }

  lemma PurgeTidy(t: Tables, n: string)
    requires Tidy(t)
    ensures var u := TrackPurge(t, n).1; Tidy(u) && n !in u.hidden && n !in u.deleted
  {
    RemoveNames(t.hidden, n);
    RemoveNames(t.deleted, n);
    hide IsName, Remove, NoRepeats;
  }

  lemma ApplyTidy(t: Tables, op: string, name: string)
    requires Tidy(t) && (name == "" || IsName(name))
    ensures Tidy(Apply(t, op, name))
  {
    hide Tidy, TrackHide, TrackShow, TrackDelete, TrackPurge;
    if name != "" {
      HideTidy(t, name);
      ShowTidy(t, name);
      DeleteTidy(t, name);
      PurgeTidy(t, name);
    }
  }

  lemma {:induction false} WordIsName(s: string, limit: nat)
    requires limit <= 31
    ensures var n := CString(s[..Word(s, limit)]);
            |n| <= limit && (forall i | 0 <= i < |n| :: !Space(n[i]) && n[i] != '\0')
    decreases limit
  {
    if limit != 0 && s != "" && !Space(s[0]) {
      WordIsName(s[1..], limit - 1);
      assert s[..Word(s, limit)][1..] == s[1..][..Word(s[1..], limit - 1)];
    }
  }

  /** Whatever text the log holds, replaying it gives well-formed tables. */
  lemma {:induction false} ReplayTidy(s: string, t: Tables)
    requires Tidy(t)
    ensures Tidy(Replay(s, t))
    decreases |s|
  {
    hide Tidy, Apply;
    if s != "" {
      var p := Parse(s);
      var a := SkipSpace(s);
      WordIsName(SkipBlank(a[Word(a, 7)..]), 31);
      ApplyTidy(t, p.op, p.name);
      ReplayTidy(p.rest, Apply(t, p.op, p.name));
    }
  }

  // ---- Appending a line appends its effect ----

  predicate AtLineStart(s: string) {
    s != "" ==> s[|s| - 1] == '\n'
  }

  lemma {:induction false} SkipSpaceAppend(s: string, x: string)
    ensures SkipSpace(s + x) == if SkipSpace(s) == "" then SkipSpace(x) else SkipSpace(s) + x
  {
    if s == "" {
      assert s + x == x;
    } else {
      assert (s + x)[1..] == s[1..] + x;
      if Space(s[0]) {
        SkipSpaceAppend(s[1..], x);
      }
    }
  }

  lemma {:induction false} SkipSpaceEnd(s: string)
    requires AtLineStart(s)
    ensures AtLineStart(SkipSpace(s))
  {
    if s != "" && Space(s[0]) {
      SkipSpaceEnd(s[1..]);
    }
  }

  lemma {:induction false} SkipBlankAppend(s: string, x: string)
    requires s != "" && s[|s| - 1] == '\n'
    ensures SkipBlank(s) != "" && SkipBlank(s)[|SkipBlank(s)| - 1] == '\n' && SkipBlank(s + x) == SkipBlank(s) + x
  {
    assert (s + x)[1..] == s[1..] + x;
    if Blank(s[0]) {
      SkipBlankAppend(s[1..], x);
    }
  }

  lemma {:induction false} SkipLineAppend(s: string, x: string)
    requires s != "" && s[|s| - 1] == '\n'
    ensures SkipLine(s) != "" && SkipLine(s)[|SkipLine(s)| - 1] == '\n' && SkipLine(s + x) == SkipLine(s) + x
  {
    assert (s + x)[1..] == s[1..] + x;
    if !Newline(s[0]) {
      SkipLineAppend(s[1..], x);
    }
  }

  lemma {:induction false} WordAppend(s: string, x: string, limit: nat)
    requires s != "" && s[|s| - 1] == '\n'
    ensures Word(s + x, limit) == Word(s, limit) < |s|
    decreases limit
  {
    if limit != 0 && !Space(s[0]) {
      assert (s + x)[1..] == s[1..] + x;
      WordAppend(s[1..], x, limit - 1);
    }
  }

  lemma CutAppend(s: string, x: string, n: nat)
    requires n < |s| && s[|s| - 1] == '\n'
    ensures (s + x)[..n] == s[..n] && (s + x)[n..] == s[n..] + x && s[n..] != "" && s[n..][|s[n..]| - 1] == '\n'
  {
  }

  /** A record that starts inside s is read the same whatever follows s. */
  lemma ParseAppend(s: string, x: string)
    requires AtLineStart(s) && SkipSpace(s) != ""
    ensures Parse(s + x) == Parse(s).(rest := Parse(s).rest + x) && AtLineStart(Parse(s).rest) && Parse(s).rest != ""
  {
    var a := SkipSpace(s);
    SkipSpaceAppend(s, x);
    SkipSpaceEnd(s);
    WordAppend(a, x, 7);
    var n := Word(a, 7);
    CutAppend(a, x, n);
    SkipBlankAppend(a[n..], x);
    var b := SkipBlank(a[n..]);
    WordAppend(b, x, 31);
    var m := Word(b, 31);
    CutAppend(b, x, m);
    SkipLineAppend(b[m..], x);
  }

  lemma ReplayBlank(s: string, t: Tables)
    requires SkipSpace(s) == ""
    ensures Replay(s, t) == t
  {
    if s != "" {
      assert Parse(s) == Record("", "", "");
    }
  }

  lemma ReplaySkips(s: string, x: string, t: Tables)
    requires SkipSpace(s) == SkipSpace(x)
    ensures Replay(s, t) == Replay(x, t)
  {
    if SkipSpace(s) == "" {
      ReplayBlank(s, t);
      ReplayBlank(x, t);
    } else {
      assert Parse(s) == Parse(x);
    }
  }

  lemma {:induction false} ReplayAppend(s: string, x: string, t: Tables)
    requires AtLineStart(s)
    ensures Replay(s + x, t) == Replay(x, Replay(s, t))
    decreases |s|
  {
    if SkipSpace(s) == "" {
      ReplayBlank(s, t);
      SkipSpaceAppend(s, x);
      ReplaySkips(s + x, x, t);
    } else {
      ParseAppend(s, x);
      var p := Parse(s);
      hide Parse, Apply;
      ReplayAppend(p.rest, x, Apply(t, p.op, p.name));
    }
  }

  // ---- What a line does ----

  predicate IsOp(op: string) {
    0 < |op| <= 7 && forall i | 0 <= i < |op| :: !Space(op[i]) && op[i] != '\0'
  }

  predicate OneLine(s: string) {
    forall i | 0 <= i < |s| :: !Newline(s[i])
  }

  lemma {:induction false} WordOf(w: string, x: string, limit: nat)
    requires |w| <= limit && (forall i | 0 <= i < |w| :: !Space(w[i])) && x != "" && Space(x[0])
    ensures Word(w + x, limit) == |w|
  {
    if w == "" {
      assert w + x == x;
    } else {
      assert (w + x)[1..] == w[1..] + x;
      WordOf(w[1..], x, limit - 1);
    }
  }

  lemma {:induction false} SkipLineOf(s: string, x: string)
    requires OneLine(s) && x != "" && x[0] == '\n'
    ensures SkipLine(s + x) == x
  {
    if s == "" {
      assert s + x == x;
    } else {
      assert (s + x)[1..] == s[1..] + x;
      SkipLineOf(s[1..], x);
    }
  }

  lemma ReplayName(op: string, name: string, t: Tables)
    requires IsOp(op) && IsName(name)
    ensures Replay(Line(op, name), t) == Apply(t, op, name)
  {
    var s := Line(op, name);
    assert s == op + (" " + name + "\n") && s[0] == op[0];
    WordOf(op, " " + name + "\n", 7);
    CStringOf(op);
    var a := s[|op|..];
    assert a == " " + name + "\n" && a[1..] == name + "\n";
    WordOf(name, "\n", 31);
    CStringOf(name);
    assert (name + "\n")[|name|..] == "\n" && (name + "\n")[..|name|] == name;
    assert s[..|op|] == op && SkipSpace(s) == s;
    assert SkipBlank(a) == SkipBlank(a[1..]) == name + "\n";
    assert Parse(s) == Record(op, name, "\n");
    ReplayBlank("\n", Apply(t, op, name));
  }

  predicate IsCommand(op: string) {
    op in ["HIDE", "SHOW", "DELETE", "KILL", "DESTROY", "PURGE", "DROP"]
  }

  /** A line of text that is no command changes nothing. */
  lemma ReplayText(op: string, tail: string, t: Tables)
    requires IsOp(op) && !IsCommand(op) && OneLine(tail)
    ensures Replay(Line(op, tail), t) == t
  {
    var s := Line(op, tail);
    assert s == op + (" " + tail + "\n") && s[0] == op[0];
    WordOf(op, " " + tail + "\n", 7);
    CStringOf(op);
    assert s[..|op|] == op;
    var b := SkipBlank(s[|op|..]);
    assert s[|op|..] == " " + tail + "\n";
    TextRest(tail);
    assert Parse(s).op == op && Parse(s).rest == "\n";
    ReplayBlank("\n", t);
  }

  lemma {:induction false} BlankThenLine(s: string, limit: nat)
    requires OneLine(s)
    ensures var b := SkipBlank(s + "\n"); SkipLine(b[Word(b, limit)..]) == "\n"
  {
    if s == "" {
      assert s + "\n" == "\n" && "\n"[0..] == "\n";
    } else if Blank(s[0]) {
      assert (s + "\n")[1..] == s[1..] + "\n";
      BlankThenLine(s[1..], limit);
    } else {
      var n := Word(s + "\n", limit);
      WordAppend(s + "\n", "", limit);
      assert (s + "\n") + "" == s + "\n";
      assert (s + "\n")[n..] == s[n..] + "\n";
      SkipLineOf(s[n..], "\n");
    }
  }

  lemma TextRest(tail: string)
    requires OneLine(tail)
    ensures var b := SkipBlank(" " + tail + "\n"); SkipLine(b[Word(b, 31)..]) == "\n"
  {
    assert OneLine(" " + tail);
    BlankThenLine(" " + tail, 31);
  }

  // ---- The log replays to the tables ----

  lemma InitialStarts()
    ensures AtLineStart(Initial()) && AtLineStart(INIT_1) && AtLineStart(INIT_1 + INIT_2)
            && AtLineStart(INIT_1 + INIT_2 + INIT_3)
  {
  }

  lemma TextReplays()
    ensures Replay(INIT_3, NOTHING) == NOTHING
  {
    assert OneLine(TEXT_1) && OneLine(TEXT_2) && OneLine(TEXT_3) && OneLine(TEXT_4);
    hide TEXT_1, TEXT_2, TEXT_3, TEXT_4, Replay;
    ReplayText("TEXT", TEXT_1 + TEXT_2 + TEXT_3 + TEXT_4, NOTHING);
  }

  lemma FirstLineReplays()
    ensures Replay(INIT_1, NOTHING) == NOTHING
  {
    hide Replay;
    assert INIT_1 == Line("LARDD", "1");
    ReplayText("LARDD", "1", NOTHING);
  }

  lemma TitleReplays()
    ensures Replay(INIT_2, NOTHING) == NOTHING
  {
    hide Replay;
    assert OneLine(TITLE);
    hide TITLE;
    ReplayText("TITLE", TITLE, NOTHING);
  }

  lemma SectionReplays()
    ensures Replay(INIT_4, NOTHING) == NOTHING
  {
    hide Replay;
    assert INIT_4 == Line("SECTION", "Tombstones");
    ReplayText("SECTION", "Tombstones", NOTHING);
  }

  lemma InitialReplays()
    ensures Replay(Initial(), NOTHING) == NOTHING
  {
    InitialStarts();
    TextReplays();
    FirstLineReplays();
    TitleReplays();
    SectionReplays();
    hide Replay, AtLineStart, INIT_1, INIT_2, INIT_3, INIT_4;
    ReplayAppend(INIT_1, INIT_2, NOTHING);
    ReplayAppend(INIT_1 + INIT_2, INIT_3, NOTHING);
    ReplayAppend(INIT_1 + INIT_2 + INIT_3, INIT_4, NOTHING);
  }

  lemma {:induction false} LinesStart(op: string, names: seq<string>, s: string)
    requires AtLineStart(s)
    ensures AtLineStart(s + Lines(op, names))
  {
    if names != [] {
      var l := Line(op, names[|names| - 1]);
      assert l[|l| - 1] == '\n';
    } else {
      assert s + "" == s;
    }
  }

  lemma FrontNoRepeats(names: seq<string>)
    requires names != [] && NoRepeats(names)
    ensures NoRepeats(names[..|names| - 1])
  {
  }

  lemma OneMoreHidden(names: seq<string>)
    requires names != [] && NoRepeats(names) && |names| <= TABLE_MAX && names[|names| - 1] != ""
    ensures Apply(Tables(names[..|names| - 1], []), "HIDE", names[|names| - 1]) == Tables(names, [])
  {
    assert names == names[..|names| - 1] + [names[|names| - 1]];
  }

  lemma OneMoreDeleted(names: seq<string>, hidden: seq<string>)
    requires names != [] && NoRepeats(names) && |names| <= TABLE_MAX
    requires names[|names| - 1] != "" && names[|names| - 1] !in hidden
    ensures Apply(Tables(hidden, names[..|names| - 1]), "DELETE", names[|names| - 1]) == Tables(hidden, names)
  {
    assert names == names[..|names| - 1] + [names[|names| - 1]];
  }

  lemma LinesLast(op: string, names: seq<string>, s: string)
    requires names != []
    ensures s + Lines(op, names) == s + Lines(op, names[..|names| - 1]) + Line(op, names[|names| - 1])
    ensures names[|names| - 1] in names
  {
    hide Line;
  }

  lemma {:induction false} HiddenReplays(names: seq<string>, s: string)
    requires AtLineStart(s) && Replay(s, NOTHING) == NOTHING
    requires NoRepeats(names) && |names| <= TABLE_MAX && forall n | n in names :: IsName(n)
    ensures Replay(s + Lines("HIDE", names), NOTHING) == Tables(names, [])
  {
    hide Replay, NoRepeats, Line, AtLineStart, Apply;
    if names == [] {
      assert s + "" == s;
    } else {
      hide Lines;
      var front, last := names[..|names| - 1], names[|names| - 1];
      LinesLast("HIDE", names, s);
      OneMoreHidden(names);
      hide IsName;
      FrontNoRepeats(names);
      HiddenReplays(front, s);
      LinesStart("HIDE", front, s);
      ReplayAppend(s + Lines("HIDE", front), Line("HIDE", last), NOTHING);
      ReplayName("HIDE", last, Tables(front, []));
    }
  }

  lemma {:induction false} DeletedReplays(names: seq<string>, s: string, hidden: seq<string>)
    requires AtLineStart(s) && Replay(s, NOTHING) == Tables(hidden, [])
    requires NoRepeats(names) && |names| <= TABLE_MAX && forall n | n in names :: IsName(n) && n !in hidden
    ensures Replay(s + Lines("DELETE", names), NOTHING) == Tables(hidden, names)
  {
    hide Replay, NoRepeats, Line, AtLineStart, Apply;
    if names == [] {
      assert s + "" == s;
    } else {
      hide Lines;
      var front, last := names[..|names| - 1], names[|names| - 1];
      LinesLast("DELETE", names, s);
      OneMoreDeleted(names, hidden);
      hide IsName;
      FrontNoRepeats(names);
      DeletedReplays(front, s, hidden);
      LinesStart("DELETE", front, s);
      ReplayAppend(s + Lines("DELETE", front), Line("DELETE", last), NOTHING);
      ReplayName("DELETE", last, Tables(hidden, front));
    }
  }

  /** Compaction loses nothing. */
  lemma CompactReplays(t: Tables)
    requires Tidy(t)
    ensures Replay(Compact(t), NOTHING) == t && AtLineStart(Compact(t))
  {
    InitialStarts();
    InitialReplays();
    var s := Initial() + Lines("HIDE", t.hidden);
    hide Replay, Lines, Initial;
    HiddenReplays(t.hidden, Initial());
    LinesStart("HIDE", t.hidden, Initial());
    DeletedReplays(t.deleted, s, t.hidden);
    LinesStart("DELETE", t.deleted, s);
  }

  /** Replaying the log rebuilds the live tables. */
  ghost predicate Together(v: Overlay) {
    Replay(v.log, NOTHING) == v.tables
  }

  /** There is no room for another record. */
  predicate Full(log: string) {
    LOG_CAP - |log| < SPARE
  }

  /** They are together and well formed, and the next record, if it is appended,
      starts a line of its own. */
  ghost predicate Inv(v: Overlay) {
    Tidy(v.tables) && |v.log| <= LOG_CAP && Together(v) && (AtLineStart(v.log) || Full(v.log))
  }

  /** Compaction of these tables cuts off the last newline at most. */
  predicate CompactFits(t: Tables) {
    |Compact(t)| <= LOG_CAP + 1
  }

  // ---- A compacted log that does not fit ----

  /** Lines cut somewhere are fewer whole lines and a proper prefix of the next. */
  lemma {:induction false} LinesPrefix(op: string, names: seq<string>, k: nat) returns (i: nat)
    requires k < |Lines(op, names)|
    ensures i < |names|
    ensures var n := |Lines(op, names[..i])|;
            && n <= k < n + |Line(op, names[i])|
            && Lines(op, names)[..k] == Lines(op, names[..i]) + Line(op, names[i])[..k - n]
            && (k == |Lines(op, names)| - 1 <==> i == |names| - 1 && k - n == |Line(op, names[i])| - 1)
  {
    hide Line;
    var n := |names| - 1;
    var front := names[..n];
    var fl := Lines(op, front);
    LineNotEmpty(op, names[n]);
    if k < |fl| {
      assert Lines(op, names)[..k] == fl[..k];
      i := LinesPrefix(op, front, k);
      assert front[..i] == names[..i];
    } else {
      i := n;
    }
  }

  lemma LineNotEmpty(op: string, name: string)
    ensures Line(op, name) != ""
  {
  }

  /** The word at the end of the text. */
  lemma {:induction false} LastWord(w: string, limit: nat)
    requires |w| <= limit && forall i | 0 <= i < |w| :: !Space(w[i])
    ensures Word(w, limit) == |w|
  {
    if w != "" {
      LastWord(w[1..], limit - 1);
    }
  }

  /** A record reads the same when its newline is missing at the end of the log. */
  lemma LastRecord(op: string, name: string, t: Tables)
    requires IsOp(op) && IsName(name)
    ensures Replay(op + (" " + name), t) == Apply(t, op, name)
  {
    var s, a := op + (" " + name), " " + name;
    assert s[..|op|] == op && s[|op|..] == a && a[1..] == name && s[0] == op[0];
    WordOf(op, a, 7);
    CStringOf(op);
    LastWord(name, 31);
    CStringOf(name);
    assert SkipSpace(s) == s && SkipBlank(a) == SkipBlank(name) == name;
    assert name[..|name|] == name && name[|name|..] == "";
    assert Parse(s) == Record(op, name, "");
  }

  /** A command without a name does nothing. */
  lemma LastCommand(op: string, t: Tables)
    requires |op| <= 7 && forall i | 0 <= i < |op| :: !Space(op[i])
    ensures Replay(op, t) == t && (op != "" ==> Replay(op + " ", t) == t)
  {
    if op != "" {
      LastWord(op, 7);
      assert SkipSpace(op) == op && op[|op|..] == "";
      assert Parse(op).name == "" && Parse(op).rest == "";
      WordOf(op, " ", 7);
      var s := op + " ";
      assert s[0] == op[0] && s[|op|..] == " " && " "[1..] == "";
      assert SkipSpace(s) == s && SkipBlank(" ") == "";
      assert Parse(s).name == "" && Parse(s).rest == "";
    }
  }

  /** What a deletion means whose record was cut. */
  lemma CutRecord(name: string, q: nat, t: Tables)
    requires IsName(name) && q < |Line("DELETE", name)|
    ensures Replay(Line("DELETE", name)[..q], t) == if q <= 7 then t else Apply(t, "DELETE", name[..q - 7])
  {
    hide Replay, Apply;
    var l := Line("DELETE", name);
    if q <= 6 {
      assert l[..q] == "DELETE"[..q];
      LastCommand("DELETE"[..q], t);
    } else if q == 7 {
      assert l[..q] == "DELETE" + " ";
      LastCommand("DELETE", t);
    } else {
      assert l[..q] == "DELETE" + (" " + name[..q - 7]);
      LastRecord("DELETE", name[..q - 7], t);
    }
  }

  /** A proper prefix of the names, or a cut one, is not all of them. */
  lemma FewerDeleted(t: Tables, i: nat, q: nat)
    requires Tidy(t) && i < |t.deleted| && q <= |t.deleted[i]|
    ensures var t' := Apply(Tables(t.hidden, t.deleted[..i]), "DELETE", t.deleted[i][..q]);
            Tables(t.hidden, t.deleted[..i]) != t
            && (t' == t <==> i == |t.deleted| - 1 && q == |t.deleted[i]|)
  {
    hide NoRepeats, IsName;
    var n := t.deleted[i];
    assert |t.deleted[..i]| == i;
    if q == |n| {
      assert n[..q] == n && n in t.deleted;
      NotBefore(t.deleted, i);
      NotEmpty(t, i);
      assert i == |t.deleted| - 1 ==> t.deleted[..i] + [n] == t.deleted;
    } else if i == |t.deleted| - 1 {
      var u := TrackDelete(Tables(t.hidden, t.deleted[..i]), n[..q]).1;
      assert |u.deleted| == i + 1 ==> u.deleted[i] == n[..q];
    }
  }

  lemma NotBefore(names: seq<string>, i: nat)
    requires NoRepeats(names) && i < |names|
    ensures names[i] !in names[..i]
  {
  }

  lemma NotEmpty(t: Tables, i: nat)
    requires Tidy(t) && i < |t.deleted|
    ensures IsName(t.deleted[i]) && t.deleted[i] != "" && t.deleted[i] !in t.hidden
  {
  }

  lemma HiddenFit(t: Tables)
    requires Tidy(t)
    ensures |Initial() + Lines("HIDE", t.hidden)| < LOG_CAP
  {
    LinesLength("HIDE", t.hidden);
    InitialLength();
  }

  lemma InitialLength()
    ensures |Initial()| == 160
  {
  }

  lemma PrefixNoRepeats(names: seq<string>, i: nat)
    requires i <= |names| && NoRepeats(names)
    ensures NoRepeats(names[..i]) && |names[..i]| == i && forall n | n in names[..i] :: n in names
  {
  }

  /** The head of a compacted log and some of the deleted names. */
  lemma FrontReplays(t: Tables, i: nat)
    requires Tidy(t) && i <= |t.deleted|
    ensures var s := Initial() + Lines("HIDE", t.hidden) + Lines("DELETE", t.deleted[..i]);
            Replay(s, NOTHING) == Tables(t.hidden, t.deleted[..i]) && AtLineStart(s)
  {
    hide Replay, NoRepeats, IsName, Lines, Initial, AtLineStart;
    PrefixNoRepeats(t.deleted, i);
    InitialStarts();
    InitialReplays();
    var s := Initial() + Lines("HIDE", t.hidden);
    HiddenReplays(t.hidden, Initial());
    LinesStart("HIDE", t.hidden, Initial());
    DeletedReplays(t.deleted[..i], s, t.hidden);
    LinesStart("DELETE", t.deleted[..i], s);
  }

  /** A compacted log that is cut replays to the tables exactly if it lacks its last
      newline only: else names are missing, or one of them is cut short. */
  lemma CutReplays(t: Tables)
    requires Tidy(t) && |Compact(t)| > LOG_CAP
    ensures Replay(Cut(Compact(t)), NOTHING) == t <==> |Compact(t)| == LOG_CAP + 1
  {
    hide Replay, NoRepeats, IsName, Lines, Line, Initial, AtLineStart, Apply;
    HiddenFit(t);
    var s, d := Initial() + Lines("HIDE", t.hidden), Lines("DELETE", t.deleted);
    var k := LOG_CAP - |s|;
    var i := LinesPrefix("DELETE", t.deleted, k);
    var front, n := Lines("DELETE", t.deleted[..i]), t.deleted[i];
    var q := k - |front|;
    assert Cut(s + d) == s + front + Line("DELETE", n)[..q];
    FrontReplays(t, i);
    ReplayAppend(s + front, Line("DELETE", n)[..q], NOTHING);
    NotEmpty(t, i);
    CutRecord(n, q, Tables(t.hidden, t.deleted[..i]));
    LineLength(n);
    FewerDeleted(t, i, if q <= 7 then 0 else q - 7);
  }

  lemma LineLength(n: string)
    requires IsName(n)
    ensures |Line("DELETE", n)| == 8 + |n| && |n| > 0
  {
  }

  /** Compaction keeps log and tables together exactly when it cuts off no more than
      the last newline; then no record is appended to the cut line. */
  lemma CompactKeeps(t: Tables)
    requires Tidy(t)
    ensures var v := Overlay(t, Cut(Compact(t))); (Together(v) <==> CompactFits(t)) && (Together(v) ==> Inv(v))
  {
    hide Tidy, Replay, Compact;
    if |Compact(t)| <= LOG_CAP {
      CompactReplays(t);
    } else {
      CutReplays(t);
    }
  }

  // ---- Every operation ----

  lemma RecordKeeps(v: Overlay, before: Tables, op: string, n: string)
    requires Tidy(v.tables) && |v.log| <= LOG_CAP && (AtLineStart(v.log) || Full(v.log))
             && Replay(v.log, NOTHING) == before
    requires IsOp(op) && IsName(n) && v.tables == Apply(before, op, n)
    ensures var v' := Logged(v, op, n);
            (Together(v') <==> (Full(v.log) ==> CompactFits(v.tables))) && (Together(v') ==> Inv(v'))
  {
    hide Replay, Apply, Tidy, CompactFits;
    if Full(v.log) {
      CompactKeeps(v.tables);
    } else {
      var l := Line(op, n);
      assert l[|l| - 1] == '\n' && |l| <= 40;
      ReplayAppend(v.log, l, NOTHING);
      ReplayName(op, n, before);
    }
  }

  /** What the caller of an operation has to provide: a name the log can carry. */
  predicate Allowed(op: Op) {
    match op
    case OpHide(n, x) => IsName(n)
    case OpDelete(n, x) => IsName(n)
    case OpUnhide(n, x) => IsName(n)
    case _ => true
  }

  /** A hidden name is deleted while the table of deleted names is full. */
  predicate Parting(v: Overlay, op: Op) {
    op.OpDelete? && op.present && |v.tables.deleted| >= TABLE_MAX && op.name in v.tables.hidden
  }

  /** The operation rewrites the log: a record for which there is no room, or a purge. */
  predicate Compacts(v: Overlay, op: Op) {
    match op
    case OpHide(n, x) => Full(v.log) && x && TrackHide(v.tables, n).0 >= 0
    case OpDelete(n, x) => Full(v.log) && x && TrackDelete(v.tables, n).0 >= 0
    case OpUnhide(n, x) => Full(v.log) && x && n !in v.tables.deleted
    case OpPurge(n) => n != ""
    case OpPurgeAll => true
    case OpReload => false
  }

  /** The two ways in which an operation parts log and tables. */
  predicate Parts(v: Overlay, op: Op) {
    Parting(v, op) || (Compacts(v, op) && !CompactFits(Step(v, op).tables))
  }

  lemma HideKeeps(v: Overlay, n: string, x: bool)
    requires Inv(v) && IsName(n)
    ensures (Together(Hide(v, n, x).1) <==> !Parts(v, OpHide(n, x)))
            && (Together(Hide(v, n, x).1) ==> Inv(Hide(v, n, x).1))
  {
    hide Replay, IsName, Logged, Tidy, CompactFits;
    HideTidy(v.tables, n);
    LoggedTables(v.(tables := TrackHide(v.tables, n).1), "HIDE", n);
    var (r, t) := TrackHide(v.tables, n);
    if x && r >= 0 {
      RecordKeeps(v.(tables := t), v.tables, "HIDE", n);
    }
  }

  lemma LoggedTables(v: Overlay, op: string, n: string)
    ensures Logged(v, op, n).tables == v.tables
  {
  }

  /** When a deletion fails, it changes the tables exactly if it un-hides the name. */
  lemma FailedDelete(t: Tables, n: string)
    requires Tidy(t) && IsName(n) && TrackDelete(t, n).0 < 0
    ensures |t.deleted| >= TABLE_MAX && (TrackDelete(t, n).1 == t <==> n !in t.hidden)
  {
    ShowTidy(t, n);
    hide Tidy, IsName, Remove;
  }

  lemma DeleteApplies(t: Tables, n: string)
    requires IsName(n)
    ensures Apply(t, "DELETE", n) == TrackDelete(t, n).1 && IsOp("DELETE")
    ensures TrackDelete(t, n).0 >= 0 ==> n in t.deleted || |t.deleted| < TABLE_MAX
  {
  }

  lemma DeleteKeeps(v: Overlay, n: string, x: bool)
    requires Inv(v) && IsName(n)
    ensures (Together(Delete(v, n, x).1) <==> !Parts(v, OpDelete(n, x)))
         && (Together(Delete(v, n, x).1) ==> Inv(Delete(v, n, x).1))
  {
    hide Replay, IsName, Logged, CompactFits, Remove, Tidy, Line, Compact, TrackDelete, Apply;
    DeleteTidy(v.tables, n);
    DeleteApplies(v.tables, n);
    if n in v.tables.deleted {
      DeletedNotHidden(v.tables, n);
    }
    LoggedTables(v.(tables := TrackDelete(v.tables, n).1), "DELETE", n);
    var (r, t) := TrackDelete(v.tables, n);
    if r < 0 {
      FailedDelete(v.tables, n);
    } else if x {
      RecordKeeps(v.(tables := t), v.tables, "DELETE", n);
    }
  }

  lemma DeletedNotHidden(t: Tables, n: string)
    requires Tidy(t) && n in t.deleted
    ensures n !in t.hidden
  {
  }

  lemma ShowApplies(t: Tables, n: string)
    requires IsName(n)
    ensures Apply(t, "SHOW", n) == TrackShow(t, n).1 && IsOp("SHOW")
  {
  }

  lemma UnhideKeeps(v: Overlay, n: string, x: bool)
    requires Inv(v) && IsName(n)
    ensures (Together(Unhide(v, n, x).1) <==> !Parts(v, OpUnhide(n, x)))
            && (Together(Unhide(v, n, x).1) ==> Inv(Unhide(v, n, x).1))
  {
    hide Replay, IsName, Logged, Tidy, CompactFits, Remove, Line, Compact;
    ShowTidy(v.tables, n);
    LoggedTables(v.(tables := TrackShow(v.tables, n).1), "SHOW", n);
    var (r, t) := TrackShow(v.tables, n);
    if x && n !in v.tables.deleted {
      ShowApplies(v.tables, n);
      RecordKeeps(v.(tables := t), v.tables, "SHOW", n);
    }
  }

  /** One operation keeps log and tables together, except in those two ways. */
  lemma StepKeeps(v: Overlay, op: Op)
    requires Inv(v) && Allowed(op)
    ensures (Together(Step(v, op)) <==> !Parts(v, op)) && (Together(Step(v, op)) ==> Inv(Step(v, op)))
  {
    hide Replay, IsName, Hide, Delete, Unhide, Compact, TrackPurge, Tidy, CompactFits;
    match op
    case OpHide(n, x) => HideKeeps(v, n, x);
    case OpDelete(n, x) => DeleteKeeps(v, n, x);
    case OpUnhide(n, x) => UnhideKeeps(v, n, x);
    case OpPurge(n) =>
      PurgeTidy(v.tables, n);
      CompactKeeps(TrackPurge(v.tables, n).1);
    case OpPurgeAll =>
      NothingTidy();
      CompactKeeps(NOTHING);
    case OpReload =>
  }

  lemma NothingTidy()
    ensures Tidy(NOTHING)
  {
  }

  /** Log and tables are together after every step of the run. */
  ghost predicate AlwaysTogether(v: Overlay, ops: seq<Op>) {
    Together(Run(v, ops)) && (ops == [] || AlwaysTogether(v, ops[..|ops| - 1]))
  }

  /** No step of the run parts them. */
  predicate NeverParts(v: Overlay, ops: seq<Op>) {
    ops == [] || (NeverParts(v, ops[..|ops| - 1]) && !Parts(Run(v, ops[..|ops| - 1]), ops[|ops| - 1]))
  }

  /** Replaying the log rebuilds the live tables all through a run of hiding,
      deleting, unhiding, purging and reloading exactly if no step parts them. */
  lemma {:induction false} RunKeeps(v: Overlay, ops: seq<Op>)
    requires Inv(v) && forall i | 0 <= i < |ops| :: Allowed(ops[i])
    ensures AlwaysTogether(v, ops) <==> NeverParts(v, ops)
    ensures AlwaysTogether(v, ops) ==> Inv(Run(v, ops))
  {
    hide Inv, Together, Allowed, Parts, Step;
    InvTogether(v);
    if ops != [] {
      var n := |ops| - 1;
      RunKeeps(v, ops[..n]);
      if Inv(Run(v, ops[..n])) {
        StepKeeps(Run(v, ops[..n]), ops[n]);
      }
    }
  }

  lemma InvTogether(v: Overlay)
    requires Inv(v)
    ensures Together(v)
  {
  }

  lemma {:induction false} LinesLength(op: string, names: seq<string>)
    requires |op| <= 6 && forall n | n in names :: IsName(n)
    ensures |Lines(op, names)| <= 39 * |names|
  {
    if names != [] {
      LinesLength(op, names[..|names| - 1]);
      assert names[|names| - 1] in names;
    }
  }

  /** Up to 48 hidden and deleted names always compact into the log. */
  lemma FewNamesFit(t: Tables)
    requires Tidy(t) && |t.hidden| + |t.deleted| <= 48
    ensures |Compact(t)| <= LOG_CAP && CompactFits(t)
  {
    LinesLength("HIDE", t.hidden);
    LinesLength("DELETE", t.deleted);
  }

  // ---- The case that parts them exists ----

  function Times(c: char, n: nat): (s: string)
    ensures |s| == n && forall i | 0 <= i < n :: s[i] == c
  {
    seq(n, _ => c)
  }

  /** a, aa, aaa, ... */
  function SomeNames(n: nat): (s: seq<string>)
    ensures |s| == n && forall i | 0 <= i < n :: s[i] == Times('a', i + 1)
  {
    seq(n, (i: nat) => Times('a', i + 1))
  }

  function FullTables(): Tables {
    Tables(["c"], SomeNames(31) + ["b"])
  }

  lemma FullTablesTidy()
    ensures Tidy(FullTables()) && |Compact(FullTables())| <= LOG_CAP
  {
    hide Compact, Times, FullTables;
    SomeNamesTidy();
    FullTablesAre();
    FewNamesFit(FullTables());
  }

  lemma SomeNamesTidy()
    ensures var s := SomeNames(31) + ["b"];
            NoRepeats(s) && |s| == 32 && forall n | n in s :: IsName(n) && n != "c"
  {
    var s := SomeNames(31) + ["b"];
    assert forall i | 0 <= i < 31 :: s[i] == Times('a', i + 1) && |s[i]| == i + 1 && s[i][0] == 'a';
  }

  /** A hidden name deleted while 32 names are deleted: the call fails with -2, the
      name is no longer hidden, yet the log still says that it is. */
  lemma DeleteWithFullTableParts()
    ensures var v := Overlay(FullTables(), Compact(FullTables()));
            var (r, after) := Delete(v, "c", true);
            Inv(v) && r == -2 && after.tables.hidden == [] && Replay(after.log, NOTHING).hidden == ["c"]
  {
    hide Compact, SomeNames, Replay, Tidy, FullTables, AtLineStart, TrackShow;
    FullTablesTidy();
    CompactReplays(FullTables());
    FullTablesAre();
    SomeNamesTidy();
    ShowOnly(FullTables());
  }

  lemma FullTablesAre()
    ensures FullTables() == Tables(["c"], SomeNames(31) + ["b"]) && |FullTables().deleted| == 32
  {
  }

  lemma ShowOnly(t: Tables)
    requires t.hidden == ["c"]
    ensures TrackShow(t, "c").1 == Tables([], t.deleted)
  {
    assert Index(["c"], "c") == 0;
  }

  // ---- So does a log that is too long ----

  /** i times x, then y, 31 in all. */
  function Long(x: char, y: char, i: nat): (n: string)
    requires i <= 31
    ensures |n| == 31 && forall k | 0 <= k < 31 :: n[k] == if k < i then x else y
  {
    Times(x, i) + Times(y, 31 - i)
  }

  function LongNames(x: char, y: char, n: nat): (s: seq<string>)
    requires n <= 32
    ensures |s| == n && forall i | 0 <= i < n :: s[i] == Long(x, y, i)
  {
    seq(n, (i: nat) requires i < n => Long(x, y, i))
  }

  lemma LongNamesTidy(x: char, y: char, n: nat)
    requires n <= 32 && x in ['a', 'b', 'c', 'd'] && y in ['a', 'b', 'c', 'd'] && x != y
    ensures NoRepeats(LongNames(x, y, n)) && forall m | m in LongNames(x, y, n) :: IsName(m)
    ensures forall m | m in LongNames(x, y, n) :: m[0] in [x, y]
  {
    var s := LongNames(x, y, n);
    forall i, j | 0 <= i < j < n
      ensures s[i] != s[j]
    {
      assert s[i][i] == y && s[j][i] == x;
    }
    forall m | m in s
      ensures IsName(m) && m[0] in [x, y]
    {
      var i :| 0 <= i < n && s[i] == m;
      assert forall k | 0 <= k < 31 :: m[k] == x || m[k] == y;
    }
  }

  lemma {:induction false} LongLines(op: string, names: seq<string>)
    requires forall n | n in names :: |n| == 31
    ensures |op| == 4 ==> |Lines(op, names)| == 37 * |names|
    ensures |op| == 6 ==> |Lines(op, names)| == 39 * |names|
  {
    if names != [] {
      LongLines(op, names[..|names| - 1]);
      assert names[|names| - 1] in names;
    }
  }

  function LongTables(): Tables {
    Tables(LongNames('a', 'b', 32), LongNames('c', 'd', 18))
  }

  lemma LongTablesTidy()
    ensures Tidy(LongTables()) && |Compact(LongTables())| == 2046
    ensures var n := Long('c', 'd', 18); IsName(n) && n !in LongTables().hidden && n !in LongTables().deleted
  {
    hide NoRepeats, IsName, Lines, Initial, Long, Times;
    LongNamesTidy('a', 'b', 32);
    LongNamesTidy('c', 'd', 18);
    NextLong();
    LongLines("HIDE", LongNames('a', 'b', 32));
    LongLines("DELETE", LongNames('c', 'd', 18));
    InitialLength();
  }

  lemma NextLong()
    ensures var n := Long('c', 'd', 18); IsName(n) && n[0] == 'c' && n !in LongNames('c', 'd', 18)
  {
    LongNamesTidy('c', 'd', 19);
    hide NoRepeats, IsName;
    var n, s := Long('c', 'd', 18), LongNames('c', 'd', 19);
    assert s[18] == n && n in s;
    forall i | 0 <= i < 18
      ensures LongNames('c', 'd', 18)[i] != n
    {
      assert Long('c', 'd', i)[i] == 'd' && n[i] == 'c';
    }
  }

  /** With 32 names of 31 characters hidden and 18 deleted the log has 2 characters
      left. Deleting one more is reported as done, but the log is compacted, cut,
      and replays to the tables from before. */
  lemma LongLogParts()
    ensures var v, n := Overlay(LongTables(), Compact(LongTables())), Long('c', 'd', 18);
            var (r, after) := Delete(v, n, true);
            && Inv(v) && Allowed(OpDelete(n, true)) && !Parting(v, OpDelete(n, true))
            && r == 0 && n in after.tables.deleted && Replay(after.log, NOTHING) == v.tables
  {
    hide Compact, Replay, LongTables, IsName, Tidy;
    var t, n := LongTables(), Long('c', 'd', 18);
    LongTablesTidy();
    CompactReplays(t);
    LongTablesAre();
    var u := Tables(t.hidden, t.deleted + [n]);
    OneMoreLine(t, n);
    assert Compact(u)[..LOG_CAP] == Compact(t) + "DE";
    ReplayAppend(Compact(t), "DE", NOTHING);
    HalfLine(t);
  }

  lemma LongTablesAre()
    ensures |LongTables().hidden| == 32 && |LongTables().deleted| == 18
  {
  }

  lemma OneMoreLine(t: Tables, n: string)
    ensures Compact(Tables(t.hidden, t.deleted + [n])) == Compact(t) + "DELETE " + n + "\n"
  {
    assert (t.deleted + [n])[..|t.deleted|] == t.deleted;
    assert Line("DELETE", n) == "DELETE " + n + "\n";
  }

  lemma HalfLine(t: Tables)
    ensures Replay("DE", t) == t
  {
    assert Word("DE", 7) == 2 by {
      assert "DE"[1..] == "E";
      assert "E"[1..] == "";
    }
    assert "DE"[2..] == "" && Parse("DE").name == "" && Parse("DE").rest == "";
  }
}
