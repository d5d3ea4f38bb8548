/** parse_kmo and write_kmo_file of os/kernel/kmo.c. */
module Kmo {
  import opened Wrappers
  import opened CStrings
  import opened KmoSpec

  /** value_after_key. */
  method ValueAfterKey(line: string, key: string) returns (v: Option<string>)
    ensures v == ValueAfter(line, key)
  {
    var i := 0;
    while i < |key|
      invariant 0 <= i <= |key| && i <= |line| && line[..i] == key[..i]
    {
      if i == |line| || line[i] != key[i] {
        return None;
      }
      i := i + 1;
    }
    assert line[..|key|] == key;
    if i == |line| || !(Blank(line[i]) || line[i] == '=') {
      return None;
    }
    while i < |line| && (Blank(line[i]) || line[i] == '=')
      invariant |key| <= i <= |line| && SkipSeparators(line[i..]) == SkipSeparators(line[|key|..])
    {
      assert line[i..][1..] == line[i + 1..];
      i := i + 1;
    }
    return Some(line[i..]);
  }

  /** strip_tail and skip_ws on the line buffer. */
  method Trim(src: string) returns (s: string)
    ensures s == Core(src)
  {
    hide CString;
    var line := Clip(CString(src), LINE_MAX);
    var n := |line|;
    assert line[..n] == line;
    while n > 0 && White(line[n - 1])
      invariant 0 <= n <= |line| && StripTail(line[..n]) == StripTail(line)
    {
      assert line[..n][..n - 1] == line[..n - 1];
      n := n - 1;
    }
    var t := line[..n];
    var i := 0;
    assert t[0..] == t;
    while i < |t| && Blank(t[i])
      invariant 0 <= i <= |t| && SkipBlank(t[i..]) == SkipBlank(t)
    {
      assert t[i..][1..] == t[i + 1..];
      i := i + 1;
    }
    s := t[i..];
  }

  class KmoModule {
    var id: string
    var name: string
    var command: string
    var target: string
    var help: string
    var message: string
    var body: string
    var raw: bool

    /** defaults_for. */
    constructor (file: string)
      ensures Value() == Defaults(file)
    {
      id, name, command, target := Clip(file, ID_MAX), "KMO Module", "", "boot";
      help, message, body, raw := "File-defined kernel module route", "status", "", false;
    }

    function Value(): Module
      reads this
    {
      Module(id, name, command, target, help, message, body, raw)
    }

    method ParseLine(src: string)
      modifies this
      ensures Value() == KmoSpec.ParseLine(old(Value()), src)
    {
      hide Core, ValueAfter, Truthy, Falsey;
      var s := Trim(src);
      if s == "" || s[0] == '#' || "KMO" <= s {
        return;
      }
      var done := SetNames(s);
      if !done {
        done := SetFlags(s);
      }
      if !done {
        SetTexts(s);
      }
    }

    method SetNames(s: string) returns (done: bool)
      requires s != "" && s[0] != '#' && !("KMO" <= s)
      modifies this
      ensures done ==> Value() == ApplyLine(old(Value()), s)
      ensures !done ==> unchanged(this) && ValueAfter(s, "ID").None? && ValueAfter(s, "NAME").None?
                        && ValueAfter(s, "COMMAND").None? && ValueAfter(s, "SHELL").None? && ValueAfter(s, "BIND").None?
                        && ValueAfter(s, "TARGET").None? && ValueAfter(s, "MODULE").None?
    {
      hide ValueAfter, Truthy, Falsey;
      var v := ValueAfterKey(s, "ID");
      if v.Some? { id := Clip(v.value, ID_MAX); return true; }
      v := ValueAfterKey(s, "NAME");
      if v.Some? { name := Clip(v.value, NAME_MAX); return true; }
      v := ValueAfterKey(s, "COMMAND");
      if v.Some? { command := Clip(v.value, COMMAND_MAX); return true; }
      v := ValueAfterKey(s, "SHELL");
      if v.Some? { command := Clip(v.value, COMMAND_MAX); return true; }
      v := ValueAfterKey(s, "BIND");
      if v.Some? { command := Clip(v.value, COMMAND_MAX); return true; }
      v := ValueAfterKey(s, "TARGET");
      if v.Some? { target := Clip(v.value, ID_MAX); return true; }
      v := ValueAfterKey(s, "MODULE");
      if v.Some? { target := Clip(v.value, ID_MAX); return true; }
      return false;
    }

    method SetFlags(s: string) returns (done: bool)
      requires s != "" && s[0] != '#' && !("KMO" <= s)
      requires ValueAfter(s, "ID").None? && ValueAfter(s, "NAME").None? && ValueAfter(s, "COMMAND").None?
      requires ValueAfter(s, "SHELL").None? && ValueAfter(s, "BIND").None? && ValueAfter(s, "TARGET").None?
      requires ValueAfter(s, "MODULE").None?
      modifies this
      ensures done ==> Value() == ApplyLine(old(Value()), s)
      ensures !done ==> unchanged(this) && ValueAfter(s, "RAW").None? && ValueAfter(s, "DANGER").None?
                        && ValueAfter(s, "UNSAFE").None? && ValueAfter(s, "MODE").None?
                          && ValueAfter(s, "CONTROL").None?
    {
      hide ValueAfter, Truthy, Falsey;
      var v := ValueAfterKey(s, "RAW");
      if v.Some? { raw := Truthy(v.value); return true; }
      v := ValueAfterKey(s, "DANGER");
      if v.Some? { raw := Truthy(v.value); return true; }
      v := ValueAfterKey(s, "UNSAFE");
      if v.Some? { raw := Truthy(v.value); return true; }
      v := ValueAfterKey(s, "MODE");
      if v.None? {
        v := ValueAfterKey(s, "CONTROL");
      }
      if v.Some? {
        if Truthy(v.value) {
          raw := true;
        } else if Falsey(v.value) {
          raw := false;
        }
        return true;
      }
      return false;
    }

    method SetTexts(s: string)
      requires s != "" && s[0] != '#' && !("KMO" <= s)
      requires ValueAfter(s, "ID").None? && ValueAfter(s, "NAME").None? && ValueAfter(s, "COMMAND").None?
      requires ValueAfter(s, "SHELL").None? && ValueAfter(s, "BIND").None? && ValueAfter(s, "TARGET").None?
      requires ValueAfter(s, "MODULE").None? && ValueAfter(s, "RAW").None? && ValueAfter(s, "DANGER").None?
      requires ValueAfter(s, "UNSAFE").None? && ValueAfter(s, "MODE").None? && ValueAfter(s, "CONTROL").None?
      modifies this
      ensures Value() == ApplyLine(old(Value()), s)
    {
      hide ValueAfter, Truthy, Falsey;
      var v := ValueAfterKey(s, "HELP");
      if v.Some? { help := Clip(v.value, HELP_MAX); return; }
      v := ValueAfterKey(s, "DEFAULT");
      if v.Some? { message := Clip(v.value, HELP_MAX); return; }
      v := ValueAfterKey(s, "MESSAGE");
      if v.Some? { message := Clip(v.value, HELP_MAX); return; }
      v := ValueAfterKey(s, "CMD");
      if v.Some? { message := Clip(v.value, HELP_MAX); return; }
      v := ValueAfterKey(s, "TEXT");
      if v.Some? { body := AppendBody(body, v.value); return; }
      v := ValueAfterKey(s, "BODY");
      if v.Some? { body := AppendBody(body, v.value); return; }
    }

    /** parse_kmo on a module fresh from its defaults. */
    method Parse(file: string, data: string) returns (r: int)
      requires Value() == Defaults(file)
      modifies this
      ensures (r, Value()) == KmoSpec.Parse(file, data)
    {
      hide KmoSpec.ParseLine, IsMagic, ValidCommand, RawTarget;
      if data == "" {
        return -1;
      }
      var line := new char[LINE_MAX + 1](_ => '\0');
      var lp, magic := 0, false;
      assert data[0..] == data && line[..0] == "";
      for i := 0 to |data|
        invariant 0 <= lp <= LINE_MAX
        invariant Feed(Reading(Value(), magic), line[..lp], data[i..]) == Feed(Reading(Defaults(file), false), "", data)
      {
        var c := data[i];
        assert data[i..][0] == c && data[i..][1..] == data[i + 1..];
        if c == '\n' || lp >= LINE_MAX {
          if IsMagic(line[..lp]) {
            magic := true;
          }
          ParseLine(line[..lp]);
          lp := 0;
          assert line[..0] == "";
        } else {
          ghost var before := line[..lp];
          line[lp] := c;
          lp := lp + 1;
          assert line[..lp] == before + [c];
        }
      }
      if lp > 0 {
        if IsMagic(line[..lp]) {
          magic := true;
        }
        ParseLine(line[..lp]);
      }
      if !magic {
        return -2;
      }
      if target == "" {
        return -3;
      }
      if command != "" && !ValidCommand(command) {
        return -4;
      }
      if RawTarget(target) {
        raw := true;
      }
      if message == "" {
        message := "status";
      }
      if body == "" {
        body := AppendBody("", DEFAULT_BODY);
      }
      return 0;
    }

    // ---- Writing ----

    /** sappend: data[..n] is the string so far; what does not fit is dropped. */
    static method Append(data: array<char>, n: nat, s: string) returns (len: nat)
      requires n < data.Length
      modifies data
      ensures len < data.Length && data[..len] == Clip(old(data[..n]) + s, data.Length - 1)
    {
      len := n;
      var i := 0;
      while i < |s| && len + 1 < data.Length
        invariant 0 <= i <= |s| && len == n + i < data.Length && data[..len] == old(data[..n]) + s[..i]
      {
        data[len] := s[i];
        len, i := len + 1, i + 1;
      }
      assert i == |s| ==> s[..i] == s;
    }

    /** One line of text, text[start..i], behind what is there already. */
    static method WriteLine(data: array<char>, n: nat, key: string, line: string, ghost p: string) returns (len: nat)
      requires n < data.Length && data[..n] == Clip(p, data.Length - 1)
      modifies data
      ensures len < data.Length && data[..len] == Clip(p + (key + " " + line + "\n"), data.Length - 1)
    {
      hide Clip;
      ghost var q;
      len, q := Put(data, n, key, p);
      len, q := Put(data, len, " ", q);
      len, q := Put(data, len, line, q);
      len, q := Put(data, len, "\n", q);
      assert q == p + (key + " " + line + "\n");
    }

    /** write_text_lines; base is what was printed before. */
    static method WriteTextLines(data: array<char>, n: nat, key: string, text: string, ghost base: string)
      returns (len: nat)
      requires n < data.Length && data[..n] == Clip(base, data.Length - 1)
      modifies data
      ensures len < data.Length
      ensures data[..len] == Clip(if text == "" then base else base + TextLines(key, text), data.Length - 1)
    {
      hide TextLines, Clip;
      len := n;
      if text == "" {
        return len;
      }
      var i, start := 0, 0;
      ghost var p, all := base, base + TextLines(key, text);
      assert text[0..] == text;
      while i <= |text|
        invariant 0 <= start <= i <= |text| + 1 && len < data.Length && (i > |text| ==> start == i)
        invariant forall k | start <= k < i :: k < |text| && text[k] != '\n'
        invariant data[..len] == Clip(p, data.Length - 1)
        invariant if start <= |text| then p + TextLines(key, text[start..]) == all else p == all
      {
        if i == |text| || text[i] == '\n' {
          var line := Clip(text[start..i], TEXT_MAX);
          OneTextLine(key, text, start, i);
          len := WriteLine(data, len, key, line, p);
          Regroup(p, key + " " + line + "\n", if i == |text| then "" else TextLines(key, text[i + 1..]));
          p := p + (key + " " + line + "\n");
          start := i + 1;
        }
        i := i + 1;
      }
    }

    /** The text write_kmo_file builds. */
    method Print(data: array<char>) returns (len: nat)
      requires data.Length == FILE_MAX + 1
      modifies data
      ensures Value() == old(Value()) && len < data.Length && data[..len] == KmoSpec.Print(Value())
    {
      hide Clip, TextLines;
      ghost var p := "";
      assert data[..0] == "";
      len, p := Put(data, 0, "KMO 1\nID ", p);
      len, p := Put(data, len, id, p);
      len, p := Put(data, len, "\nNAME ", p);
      len, p := Put(data, len, name, p);
      if command != "" {
        len, p := Put(data, len, "\nCOMMAND ", p);
        len, p := Put(data, len, command, p);
      }
      len, p := Put(data, len, "\nTARGET ", p);
      len, p := Put(data, len, target, p);
      if raw {
        len, p := Put(data, len, "\nRAW 1", p);
      }
      len, p := Put(data, len, "\nHELP ", p);
      len, p := Put(data, len, help, p);
      len, p := Put(data, len, "\nDEFAULT ", p);
      len, p := Put(data, len, message, p);
      len, p := Put(data, len, "\n", p);
      assert p == Head(Value());
      HeadIs(Value());
      len := WriteTextLines(data, len, "TEXT", body, p);
    }

    /** write_kmo_file: the file becomes the printed text, or stays as it was when its
        buffer is not longer than that. */
    method WriteKmoFile(file: array<char>, size: nat) returns (r: int, size': nat)
      requires size <= file.Length
      modifies file
      ensures Value() == old(Value())
      ensures r == if |KmoSpec.Print(Value())| >= file.Length then -2 else 0
      ensures r == 0 ==>
                size' <= file.Length && file[..size'] == KmoSpec.Print(Value())
                && file[size'..] == old(file[size'..])
      ensures r != 0 ==> size' == size && file[..] == old(file[..])
    {
      var data := new char[FILE_MAX + 1];
      var len := Print(data);
      if len >= file.Length {
        return -2, size;
      }
      for i := 0 to len
        invariant file[..i] == data[..i] && file[i..] == old(file[i..]) && data[..len] == KmoSpec.Print(Value())
        invariant Value() == old(Value())
      {
        ghost var was := file[i..];
        file[i] := data[i];
        assert file[i + 1..] == was[1..] == old(file[i..])[1..];
        assert data[..i + 1] == data[..i] + [data[i]] && file[..i + 1] == file[..i] + [file[i]];
      }
      return 0, len;
    }

    static method Put(data: array<char>, n: nat, s: string, ghost p: string) returns (len: nat, ghost q: string)
      requires n < data.Length && data[..n] == Clip(p, data.Length - 1)
      modifies data
      ensures len < data.Length && q == p + s && data[..len] == Clip(q, data.Length - 1)
    {
      len := Append(data, n, s);
      q := p + s;
      ClipTwice(p, s, data.Length - 1);
    }
  }

  lemma OneTextLine(key: string, text: string, start: nat, i: nat)
    requires start <= i <= |text| && (i < |text| ==> text[i] == '\n') && forall k | start <= k < i :: text[k] != '\n'
    ensures TextLines(key, text[start..])
            == (key + " " + Clip(text[start..i], TEXT_MAX) + "\n") + if i == |text| then ""
                else TextLines(key, text[i + 1..])
  {
    hide Clip;
    var t := text[start..];
    assert LineEnd(t) == i - start;
    assert t[..i - start] == text[start..i];
    if i < |text| {
      assert t[i - start + 1..] == text[i + 1..];
    } else {
      var line := key + " " + Clip(text[start..i], TEXT_MAX) + "\n";
      assert line + "" == line;
    }
  }

  lemma Regroup(p: string, line: string, rest: string)
    ensures p + (line + rest) == p + line + rest && p + line + "" == p + line
  {
  }

  /** The heading in the order it is put together. */
  ghost function Head(m: Module): string {
    var a := "" + "KMO 1\nID " + m.id + "\nNAME " + m.name;
    var b := if m.command != "" then a + "\nCOMMAND " + m.command else a;
    var c := b + "\nTARGET " + m.target;
    var d := if m.raw then c + "\nRAW 1" else c;
    d + "\nHELP " + m.help + "\nDEFAULT " + m.message + "\n"
  }

  lemma HeadStep(p: string, x: string, key: string, line: string, v: string)
    requires p + "\n" == x && line == "\n" + key
    ensures p + line + v + "\n" == x + (key + v + "\n")
  {
  }

  lemma HeadIs(m: Module)
    ensures Printed(m) == if m.body == "" then Head(m) else Head(m) + TextLines("TEXT", m.body)
  {
    hide TextLines;
    var x0 := "KMO 1\n" + ("ID " + m.id + "\n");
    var p0 := "" + "KMO 1\nID " + m.id;
    assert "KMO 1\nID " == "KMO 1\n" + "ID ";
    assert p0 + "\n" == x0;
    HeadStep(p0, x0, "NAME ", "\nNAME ", m.name);
    var a, xa := p0 + "\nNAME " + m.name, x0 + ("NAME " + m.name + "\n");
    HeadStep(a, xa, "COMMAND ", "\nCOMMAND ", m.command);
    var b, xb := if m.command != "" then a + "\nCOMMAND " + m.command else a,
                 xa + if m.command == "" then "" else "COMMAND " + m.command + "\n";
    assert b + "\n" == xb by {
      assert xa + "" == xa;
    }
    HeadStep(b, xb, "TARGET ", "\nTARGET ", m.target);
    var c, xc := b + "\nTARGET " + m.target, xb + ("TARGET " + m.target + "\n");
    HeadStep(c, xc, "RAW 1", "\nRAW 1", "");
    var d, xd := if m.raw then c + "\nRAW 1" else c, xc + if m.raw then "RAW 1\n" else "";
    assert d + "\n" == xd by {
      assert c + "\nRAW 1" + "" == c + "\nRAW 1" && "RAW 1" + "" + "\n" == "RAW 1\n" && xc + "" == xc;
    }
    HeadStep(d, xd, "HELP ", "\nHELP ", m.help);
    var e, xe := d + "\nHELP " + m.help, xd + ("HELP " + m.help + "\n");
    HeadStep(e, xe, "DEFAULT ", "\nDEFAULT ", m.message);
    var xf := xe + ("DEFAULT " + m.message + "\n");
    assert Head(m) == xf;
    assert xf + "" == xf;
  }
}
