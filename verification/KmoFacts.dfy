/** What a line of a KMO file means by its first word, and what a parsed module is sure to
    be, whatever the file holds. */
module KmoFacts {
  import opened Wrappers
  import opened CStrings
  import opened KmoSpec

  predicate Separator(c: char) {
    c == ' ' || c == '\t' || c == '='
  }

  /** A line that gives the key w the value v, with gap in between. */
  predicate Gives(s: string, w: string, gap: string, v: string) {
    && s == w + gap + v && gap != "" && (forall i | 0 <= i < |gap| :: Separator(gap[i]))
    && w != "" && (forall i | 0 <= i < |w| :: !Separator(w[i])) && (v != "" ==> !Separator(v[0]))
  }

  lemma {:induction false} SkipGap(gap: string, v: string)
    requires (forall i | 0 <= i < |gap| :: Separator(gap[i])) && (v != "" ==> !Separator(v[0]))
    ensures SkipSeparators(gap + v) == v
  {
    if gap == "" {
      assert gap + v == v;
    } else {
      SkipGap(gap[1..], v);
      assert (gap + v)[1..] == gap[1..] + v;
    }
  }

  lemma {:induction false} OwnKey(s: string, w: string, gap: string, v: string)
    requires Gives(s, w, gap, v)
    ensures ValueAfter(s, w) == Some(v)
  {
    SkipGap(gap, v);
    assert s[|w|] == gap[0];
    hide SkipSeparators;
    assert s[..|w|] == w && s[|w|..] == gap + v;
  }

  lemma {:induction false} OtherKey(s: string, w: string, gap: string, v: string, key: string)
    requires Gives(s, w, gap, v) && key != w && forall i | 0 <= i < |key| :: !Separator(key[i])
    ensures ValueAfter(s, key) == None
  {
    hide SkipSeparators;
    assert s[|w|] == gap[0];
    assert s[..|w|] == w;
  }

  /** Of the keys without separators exactly the first word finds its value. */
  lemma {:induction false} OneKey(s: string, w: string, gap: string, v: string, key: string)
    requires Gives(s, w, gap, v) && forall i | 0 <= i < |key| :: !Separator(key[i])
    ensures ValueAfter(s, key) == if key == w then Some(v) else None
  {
    hide ValueAfter, Gives, Separator;
    if key == w {
      OwnKey(s, w, gap, v);
    } else {
      OtherKey(s, w, gap, v, key);
    }
  }

  /** The first n characters at most. */
  function Most(v: string, n: nat): string {
    if |v| > n then v[..n] else v
  }

  /** What a key does: the synonyms are grouped. */
  function Keyed(m: Module, w: string, v: string): Module {
    if w == "ID" then m.(id := Most(v, 23))
    else if w == "NAME" then m.(name := Most(v, 31))
    else if w in {"COMMAND", "SHELL", "BIND"} then m.(command := Most(v, 23))
    else if w in {"TARGET", "MODULE"} then m.(target := Most(v, 23))
    else if w in {"RAW", "DANGER", "UNSAFE"} then m.(raw := Truthy(v))
    else if w in {"MODE", "CONTROL"} then m.(raw := if Truthy(v) then true else if Falsey(v) then false else m.raw)
    else if w == "HELP" then m.(help := Most(v, 95))
    else if w in {"DEFAULT", "MESSAGE", "CMD"} then m.(message := Most(v, 95))
    else if w in {"TEXT", "BODY"} then m.(body := Most(m.body + v + "\n", 511))
    else m
  }

  lemma BodyLine(body: string, v: string)
    ensures AppendBody(body, v) == Most(body + v + "\n", 511)
  {
    ClipTwice(body + v, "\n", 511);
  }

  /** A line with a key and a value does what the key says, with blanks and equal signs in
      between; unknown keys, remarks and lines that begin with KMO do nothing. */
  lemma {:induction false} LineMeans(m: Module, s: string, w: string, gap: string, v: string)
    requires Gives(s, w, gap, v)
    ensures ApplyLine(m, s) == if w[0] == '#' || "KMO" <= s then m else Keyed(m, w, v)
  {
    hide ValueAfter, Gives, Truthy, Falsey, AppendBody, Separator;
    FirstLetter(s, w, gap, v);
    BodyLine(m.body, v);
    if w[0] != '#' && !("KMO" <= s) {
      FieldKeys(s, w, gap, v);
      ModeKeys(s, w, gap, v);
      TextKeys(s, w, gap, v);
    }
  }

  lemma FirstLetter(s: string, w: string, gap: string, v: string)
    requires Gives(s, w, gap, v)
    ensures s != "" && w != "" && s[0] == w[0]
  {
  }

  lemma {:induction false} FieldKeys(s: string, w: string, gap: string, v: string)
    requires Gives(s, w, gap, v)
    ensures ValueAfter(s, "ID") == (if w == "ID" then Some(v) else None)
    ensures ValueAfter(s, "NAME") == (if w == "NAME" then Some(v) else None)
    ensures ValueAfter(s, "COMMAND") == (if w == "COMMAND" then Some(v) else None)
    ensures ValueAfter(s, "SHELL") == (if w == "SHELL" then Some(v) else None)
    ensures ValueAfter(s, "BIND") == (if w == "BIND" then Some(v) else None)
    ensures ValueAfter(s, "TARGET") == (if w == "TARGET" then Some(v) else None)
    ensures ValueAfter(s, "MODULE") == (if w == "MODULE" then Some(v) else None)
  {
    hide ValueAfter, Gives;
    OneKey(s, w, gap, v, "ID");
    OneKey(s, w, gap, v, "NAME");
    OneKey(s, w, gap, v, "COMMAND");
    OneKey(s, w, gap, v, "SHELL");
    OneKey(s, w, gap, v, "BIND");
    OneKey(s, w, gap, v, "TARGET");
    OneKey(s, w, gap, v, "MODULE");
  }

  lemma {:induction false} ModeKeys(s: string, w: string, gap: string, v: string)
    requires Gives(s, w, gap, v)
    ensures ValueAfter(s, "RAW") == (if w == "RAW" then Some(v) else None)
    ensures ValueAfter(s, "DANGER") == (if w == "DANGER" then Some(v) else None)
    ensures ValueAfter(s, "UNSAFE") == (if w == "UNSAFE" then Some(v) else None)
    ensures ValueAfter(s, "MODE") == (if w == "MODE" then Some(v) else None)
    ensures ValueAfter(s, "CONTROL") == (if w == "CONTROL" then Some(v) else None)
  {
    hide ValueAfter, Gives;
    OneKey(s, w, gap, v, "RAW");
    OneKey(s, w, gap, v, "DANGER");
    OneKey(s, w, gap, v, "UNSAFE");
    OneKey(s, w, gap, v, "MODE");
    OneKey(s, w, gap, v, "CONTROL");
  }

  lemma {:induction false} TextKeys(s: string, w: string, gap: string, v: string)
    requires Gives(s, w, gap, v)
    ensures ValueAfter(s, "HELP") == (if w == "HELP" then Some(v) else None)
    ensures ValueAfter(s, "DEFAULT") == (if w == "DEFAULT" then Some(v) else None)
    ensures ValueAfter(s, "MESSAGE") == (if w == "MESSAGE" then Some(v) else None)
    ensures ValueAfter(s, "CMD") == (if w == "CMD" then Some(v) else None)
    ensures ValueAfter(s, "TEXT") == (if w == "TEXT" then Some(v) else None)
    ensures ValueAfter(s, "BODY") == (if w == "BODY" then Some(v) else None)
  {
    hide ValueAfter, Gives;
    OneKey(s, w, gap, v, "HELP");
    OneKey(s, w, gap, v, "DEFAULT");
    OneKey(s, w, gap, v, "MESSAGE");
    OneKey(s, w, gap, v, "CMD");
    OneKey(s, w, gap, v, "TEXT");
    OneKey(s, w, gap, v, "BODY");
  }

  // ---- switches ----

  /** The same letters, capital or not. */
  predicate SameLetters(s: string, t: string) {
    |s| == |t| && forall i | 0 <= i < |s| :: s[i] == t[i] || ('A' <= s[i] <= 'Z' && t[i] as int == s[i] as int + 32)
  }

  lemma {:induction false} LowerExactly(s: string, t: string)
    requires forall i | 0 <= i < |t| :: 'a' <= t[i] <= 'z'
    ensures Lower(s) == t <==> SameLetters(s, t)
  {
    if s != "" && t != "" {
      LowerExactly(s[1..], t[1..]);
      assert Lower(s) == t <==> LowerChar(s[0]) == t[0] && Lower(s[1..]) == t[1..];
      assert SameLetters(s, t) ==> SameLetters(s[1..], t[1..]);
      assert SameLetters(s[1..], t[1..]) ==> forall i | 0 < i < |s| :: s[1..][i - 1] == s[i];
      assert forall i | 0 < i < |t| :: t[1..][i - 1] == t[i];
    }
  }

  /** What switches raw control on and off, for a value without blanks in front. */
  lemma {:induction false} SwitchWords(v: string)
    requires v != "" && v[0] != ' ' && v[0] != '\t'
    ensures Truthy(v) <==> (v[0] == '1' && (|v| == 1 || v[1] == ' ' || v[1] == '\t'))
                           || SameLetters(v, "on") || SameLetters(v, "yes") || SameLetters(v, "true")
                           || SameLetters(v, "raw") || SameLetters(v, "danger") || SameLetters(v, "unsafe")
    ensures Falsey(v) <==> (v[0] == '0' && (|v| == 1 || v[1] == ' ' || v[1] == '\t'))
                           || SameLetters(v, "off") || SameLetters(v, "no") || SameLetters(v, "false")
                           || SameLetters(v, "safe") || SameLetters(v, "kmodtalk")
  {
    hide Lower, SameLetters;
    LowerExactly(v, "on");
    LowerExactly(v, "yes");
    LowerExactly(v, "true");
    LowerExactly(v, "raw");
    LowerExactly(v, "danger");
    LowerExactly(v, "unsafe");
    LowerExactly(v, "off");
    LowerExactly(v, "no");
    LowerExactly(v, "false");
    LowerExactly(v, "safe");
    LowerExactly(v, "kmodtalk");
  }

  /** Of a line at most 223 characters count, and a written file has at most 1535. */
  lemma {:induction false} LineLimits(src: string, m: Module)
    ensures |Core(src)| <= 223 && |Print(m)| <= 1535
    ensures |src| <= 223 && '\0' !in src ==> Core(src) == SkipBlank(StripTail(src))
  {
    if '\0' !in src {
      CStringOf(src);
    }
    SkipShorter(StripTail(Clip(CString(src), LINE_MAX)));
  }

  lemma {:induction false} SkipShorter(s: string)
    ensures |SkipBlank(s)| <= |s|
  {
    if s != "" {
      SkipShorter(s[1..]);
    }
  }

  // ---- whole files ----

  /** Every field fits into its buffer. */
  predicate Bounded(m: Module) {
    && |m.id| <= 23 && |m.name| <= 31 && |m.command| <= 23 && |m.target| <= 23 && |m.help| <= 95
    && |m.message| <= 95 && |m.body| <= 511
  }

  lemma {:induction false} LineKeepsBounded(m: Module, s: string)
    requires Bounded(m)
    ensures Bounded(ApplyLine(m, s))
  {
    hide ValueAfter, Truthy, Falsey;
  }

  lemma {:induction false} FeedKeepsBounded(r: Reading, line: string, data: string)
    requires Bounded(r.m)
    ensures Bounded(Feed(r, line, data).m)
    decreases |data|
  {
    hide Core, ApplyLine, Bounded, IsMagic;
    LineKeepsBounded(r.m, Core(line));
    if data != "" {
      if data[0] == '\n' || |line| >= LINE_MAX {
        FeedKeepsBounded(EndLine(r, line), "", data[1..]);
      } else {
        FeedKeepsBounded(r, line + [data[0]], data[1..]);
      }
    }
  }

  /** Whatever a file holds, no field of the module is longer than its buffer; and a module
      that is accepted has a target, a message and a body, a command that is empty or made of
      1 to 23 letters, digits, underscores and hyphens, and raw control if its target asks
      for it. */
  lemma {:induction false} ParsedModule(file: string, data: string)
    ensures Bounded(Parse(file, data).1)
    ensures var (code, m) := Parse(file, data);
            && -4 <= code <= 0 && (code == -1 <==> data == "")
            && (code == 0 ==> m.target != "" && m.message != "" && m.body != "" && (RawTarget(m.target) ==> m.raw)
                              && forall i | 0 <= i < |m.command| :: m.command[i] in COMMAND_CHARS)
  {
    hide Feed, RawTarget, Bounded, ValidCommand;
    StartBounded(file);
    FeedKeepsBounded(Reading(Defaults(file), false), "", data);
    var r := Feed(Reading(Defaults(file), false), "", data);
    FinishBounded(r.m);
    CommandLetters(r.m.command);
  }

  const COMMAND_CHARS: string := LETTERS + CAPITALS + "0123456789_-"
  const LETTERS: string := "abcdefghijklmnopqrstuvwxyz"
  const CAPITALS: string := "ABCDEFGHIJKLMNOPQRSTUVWXYZ"

  lemma {:induction false} StartBounded(file: string)
    ensures Bounded(Defaults(file))
  {
  }

  lemma {:induction false} FinishBounded(m: Module)
    requires Bounded(m)
    ensures Bounded(Finish(m)) && Finish(m).message != "" && Finish(m).body != ""
    ensures Finish(m).target == m.target && Finish(m).command == m.command
    ensures RawTarget(m.target) ==> Finish(m).raw
  {
    hide RawTarget;
  }

  lemma {:induction false} CommandLetters(c: string)
    ensures ValidCommand(c) ==> 1 <= |c| <= 23 && forall i | 0 <= i < |c| :: c[i] in COMMAND_CHARS
    ensures 1 <= |c| <= 23 && (forall i | 0 <= i < |c| :: c[i] in COMMAND_CHARS) ==> ValidCommand(c)
  {
    forall x: char
      ensures CommandChar(x) <==> x in COMMAND_CHARS
    {
      CharIn(x);
    }
  }

  lemma {:induction false} CharIn(x: char)
    ensures CommandChar(x) <==> x in COMMAND_CHARS
  {
    Spelled();
    hide LETTERS, CAPITALS;
    assert 'a' <= x <= 'z' ==> LETTERS[x as int - 97] == x;
    assert 'A' <= x <= 'Z' ==> CAPITALS[x as int - 65] == x;
    OtherChars(x);
  }

  lemma {:induction false} OtherChars(x: char)
    ensures x in "0123456789_-" <==> '0' <= x <= '9' || x == '_' || x == '-'
  {
    var t := "0123456789_-";
    assert '0' <= x <= '9' ==> t[x as int - 48] == x;
    assert t[10] == '_' && t[11] == '-';
  }

  lemma {:induction false} Spelled()
    ensures |LETTERS| == 26 && forall i | 0 <= i < 26 :: LETTERS[i] as int == 97 + i
    ensures |CAPITALS| == 26 && forall i | 0 <= i < 26 :: CAPITALS[i] as int == 65 + i
  {
  }
}
