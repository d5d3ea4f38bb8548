/** The delete overlay of os/kernel/fs.c: fixed tables of names shifted in place
    and a log buffer that is appended to, compacted and replayed. */
module DeleteLog {
  import opened CStrings
  import opened DeleteLogSpec

  class DeleteOverlay {
    const hidden: array<string>
    var hiddenCount: nat
    const deleted: array<string>
    var deletedCount: nat
    const buf: array<char>
    var size: nat
    var rewriting: bool

    /** As after fs_init: no names, and a log that holds only its heading. */
    constructor ()
      ensures Valid() && fresh(hidden) && fresh(deleted) && fresh(buf) && !rewriting
      ensures Value() == Overlay(NOTHING, Initial())
    {
      hidden, deleted := new string[TABLE_MAX](_ => ""), new string[TABLE_MAX](_ => "");
      buf := new char[LOG_CAP](_ => '\0');
      hiddenCount, deletedCount, size, rewriting := 0, 0, 0, false;
      new;
      var n := Append(Initial());
    }

    ghost predicate Valid()
      reads this, hidden, deleted, buf
    {
      && hidden.Length == deleted.Length == TABLE_MAX && buf.Length == LOG_CAP && hidden != deleted
      && hiddenCount <= TABLE_MAX && deletedCount <= TABLE_MAX && size <= LOG_CAP
      && (forall i | 0 <= i < hiddenCount :: |hidden[i]| <= 31)
        && (forall i | 0 <= i < deletedCount :: |deleted[i]| <= 31)
    }

    ghost function Names(): Tables
      requires Valid()
      reads this, hidden, deleted, buf
    {
      Tables(hidden[..hiddenCount], deleted[..deletedCount])
    }

    ghost function Log(): string
      requires Valid()
      reads this, hidden, deleted, buf
    {
      buf[..size]
    }

    ghost function Value(): Overlay
      requires Valid()
      reads this, hidden, deleted, buf
    {
      Overlay(Names(), Log())
    }

    /** fs_copy_name into a buffer of 32. */
    static function CopyName(n: string): (r: string)
      ensures |r| <= 31 && (|n| <= 31 ==> r == n)
    {
      if |n| <= 31 then n else n[..31]
    }

    static method Find(names: array<string>, count: nat, n: string) returns (r: int)
      requires count <= names.Length
      ensures r == Index(names[..count], n)
    {
      var i := 0;
      while i < count
        invariant 0 <= i <= count && n !in names[..i]
      {
        if names[i] == n {
          FirstIndex(names[..count], n, i);
          return i;
        }
        i := i + 1;
      }
      return -1;
    }

    /** Shifts everything after idx one place down. */
    static method ShiftDown(names: array<string>, idx: nat, count: nat)
      requires idx < count <= names.Length && forall i | 0 <= i < count :: |names[i]| <= 31
      modifies names
      ensures names[..count - 1] == Without(old(names[..count]), idx)
      ensures forall i | 0 <= i < count - 1 :: |names[i]| <= 31
    {
      var i := idx;
      while i + 1 < count
        invariant idx <= i < count
        invariant forall k | 0 <= k < idx :: names[k] == old(names[k])
        invariant forall k | idx <= k < i :: names[k] == old(names[k + 1])
        invariant forall k | i <= k < count :: names[k] == old(names[k])
      {
        names[i] := CopyName(names[i + 1]);
        i := i + 1;
      }
      if count - 1 < names.Length {
        names[count - 1] := "";
      }
    }

    method TrackHide(n: string) returns (r: int)
      requires Valid() && |n| <= 31
      modifies this`hiddenCount, hidden
      ensures Valid() && (r, Names()) == DeleteLogSpec.TrackHide(old(Names()), n)
    {
      if n == "" {
        return -1;
      }
      var d := Find(deleted, deletedCount, n);
      if d >= 0 {
        return -3;
      }
      var h := Find(hidden, hiddenCount, n);
      if h >= 0 {
        return 1;
      }
      if hiddenCount >= TABLE_MAX {
        return -2;
      }
      hidden[hiddenCount] := CopyName(n);
      hiddenCount := hiddenCount + 1;
      assert hidden[..hiddenCount] == old(hidden[..hiddenCount]) + [n];
      return 0;
    }

    method TrackShow(n: string) returns (r: int)
      requires Valid()
      modifies this`hiddenCount, hidden
      ensures Valid() && (r, Names()) == DeleteLogSpec.TrackShow(old(Names()), n)
    {
      var idx := Find(hidden, hiddenCount, n);
      if idx < 0 {
        return -1;
      }
      ShiftDown(hidden, idx, hiddenCount);
      hiddenCount := hiddenCount - 1;
      return 0;
    }

    method TrackUndelete(n: string) returns (r: int)
      requires Valid()
      modifies this`deletedCount, deleted
      ensures Valid() && Names() == old(Names()).(deleted := Remove(old(Names()).deleted, n))
      ensures r == if n in old(Names()).deleted then 0 else -1
    {
      var idx := Find(deleted, deletedCount, n);
      if idx < 0 {
        return -1;
      }
      ShiftDown(deleted, idx, deletedCount);
      deletedCount := deletedCount - 1;
      return 0;
    }

    method TrackDelete(n: string) returns (r: int)
      requires Valid() && |n| <= 31
      modifies this`hiddenCount, this`deletedCount, hidden, deleted
      ensures Valid() && (r, Names()) == DeleteLogSpec.TrackDelete(old(Names()), n)
    {
      if n == "" {
        return -1;
      }
      var soft := TrackShow(n);
      var d := Find(deleted, deletedCount, n);
      if d >= 0 {
        return 1;
      }
      if deletedCount >= TABLE_MAX {
        return -2;
      }
      ghost var t := Names();
      deleted[deletedCount] := CopyName(n);
      deletedCount := deletedCount + 1;
      assert deleted[..deletedCount] == t.deleted + [n] && hidden[..hiddenCount] == t.hidden;
      return 0;
    }

    method TrackPurge(n: string) returns (r: int)
      requires Valid()
      modifies this`hiddenCount, this`deletedCount, hidden, deleted
      ensures Valid() && (r, Names()) == DeleteLogSpec.TrackPurge(old(Names()), n)
    {
      var soft := TrackShow(n);
      var hard := TrackUndelete(n);
      return if soft == 0 || hard == 0 then 0 else -1;
    }

    /** fs_append to the log file: what does not fit is dropped. */
    method Append(s: string) returns (len: nat)
      requires Valid()
      modifies this`size, buf
      ensures Valid() && Names() == old(Names()) && Log() == Cut(old(Log()) + s) && len <= |s|
    {
      len := if size + |s| > LOG_CAP then LOG_CAP - size else |s|;
      for i := 0 to len
        invariant size == old(size) && size + len <= LOG_CAP
        invariant buf[..size] == old(buf[..size]) && buf[size..size + i] == s[..i]
      {
        buf[size + i] := s[i];
      }
      assert buf[..size + len] == buf[..size] + buf[size..size + len];
      size := size + len;
      assert Log() == old(Log()) + s[..len];
    }

    method AppendLine(op: string, n: string)
      requires Valid()
      modifies this`size, buf
      ensures Valid() && Names() == old(Names()) && Log() == Cut(old(Log()) + Line(op, n))
    {
      hide Cut, DeleteOverlay.Names, DeleteOverlay.Valid, DeleteOverlay.Log, Line;
      ghost var l := Log();
      var k := Append(op);
      k := Append(" ");
      CutTwice(l + op, " ");
      k := Append(n);
      CutTwice(l + op + " ", n);
      k := Append("\n");
      CutTwice(l + op + " " + n, "\n");
      LineParts(l, op, n);
    }

    method AppendRecord(op: string, n: string)
      requires Valid()
      modifies this`size, this`rewriting, buf
      ensures Valid() && rewriting == old(rewriting)
      ensures Value() == if old(rewriting) then old(Value()).(log := Cut(old(Log()) + Line(op, n)))
                         else Logged(old(Value()), op, n)
      decreases if rewriting then 0 else 2
    {
      if LOG_CAP - size < SPARE && !rewriting {
        Rewrite();
        return;
      }
      AppendLine(op, n);
    }

    method WriteHidden(ghost l: string)
      requires Valid() && rewriting && Log() == Cut(l)
      modifies this`size, this`rewriting, buf
      ensures Valid() && rewriting && Names() == old(Names()) && Log() == Cut(l + Lines("HIDE", old(Names()).hidden))
      decreases 1, 0
    {
      ghost var t := Names();
      hide Cut, Line;
      assert l + Lines("HIDE", t.hidden[..0]) == l;
      for i := 0 to hiddenCount
        invariant Valid() && rewriting && Names() == t && Log() == Cut(l + Lines("HIDE", t.hidden[..i]))
      {
        AppendRecord("HIDE", hidden[i]);
        NextLine(l, "HIDE", t.hidden, i);
      }
      assert t.hidden[..hiddenCount] == t.hidden;
    }

    method WriteDeleted(ghost l: string)
      requires Valid() && rewriting && Log() == Cut(l)
      modifies this`size, this`rewriting, buf
      ensures Valid() && rewriting && Names() == old(Names()) && Log() == Cut(l + Lines("DELETE", old(Names()).deleted))
      decreases 1, 0
    {
      ghost var t := Names();
      hide Cut, Line;
      assert l + Lines("DELETE", t.deleted[..0]) == l;
      for i := 0 to deletedCount
        invariant Valid() && rewriting && Names() == t && Log() == Cut(l + Lines("DELETE", t.deleted[..i]))
      {
        AppendRecord("DELETE", deleted[i]);
        NextLine(l, "DELETE", t.deleted, i);
      }
      assert t.deleted[..deletedCount] == t.deleted;
    }

    /** fsdelete_rewrite_from_state. */
    method Rewrite()
      requires Valid() && !rewriting
      modifies this`size, this`rewriting, buf
      ensures Valid() && !rewriting && Names() == old(Names()) && Log() == Cut(Compact(old(Names())))
      decreases 1, 1
    {
      hide Cut, Initial, Lines;
      ghost var t := Names();
      rewriting := true;
      size := 0;
      assert Log() + Initial() == Initial();
      var k := Append(Initial());
      WriteHidden(Initial());
      WriteDeleted(Initial() + Lines("HIDE", t.hidden));
      rewriting := false;
    }

    method Hide(n: string, present: bool) returns (r: int)
      requires Valid() && !rewriting && |n| <= 31
      modifies this, hidden, deleted, buf
      ensures Valid() && !rewriting && (r, Value()) == DeleteLogSpec.Hide(old(Value()), n, present)
    {
      if !present {
        return -1;
      }
      r := TrackHide(n);
      if r < 0 {
        return r;
      }
      AppendRecord("HIDE", n);
    }

    method Delete(n: string, present: bool) returns (r: int)
      requires Valid() && !rewriting && |n| <= 31
      modifies this, hidden, deleted, buf
      ensures Valid() && !rewriting && (r, Value()) == DeleteLogSpec.Delete(old(Value()), n, present)
    {
      if !present {
        return -1;
      }
      r := TrackDelete(n);
      if r < 0 {
        return r;
      }
      AppendRecord("DELETE", n);
    }

    method Unhide(n: string, present: bool) returns (r: int)
      requires Valid() && !rewriting && |n| <= 31
      modifies this, hidden, deleted, buf
      ensures Valid() && !rewriting && (r, Value()) == DeleteLogSpec.Unhide(old(Value()), n, present)
    {
      if !present {
        return -1;
      }
      var d := Find(deleted, deletedCount, n);
      if d >= 0 {
        return -2;
      }
      r := TrackShow(n);
      AppendRecord("SHOW", n);
      return if r == 0 then 0 else 1;
    }

    method Purge(n: string) returns (r: int)
      requires Valid() && !rewriting
      modifies this, hidden, deleted, buf
      ensures Valid() && !rewriting && (r, Value()) == DeleteLogSpec.Purge(old(Value()), n)
    {
      if n == "" {
        return -1;
      }
      r := TrackPurge(n);
      Rewrite();
      return if r == 0 then 0 else 1;
    }

    /** fs_hidden_clear. */
    method Clear()
      requires Valid()
      modifies this`hiddenCount, this`deletedCount, hidden, deleted
      ensures Valid() && Names() == NOTHING
    {
      for i := 0 to TABLE_MAX
        invariant Valid() && hiddenCount == old(hiddenCount) && deletedCount == old(deletedCount)
      {
        hidden[i] := "";
      }
      hiddenCount := 0;
      for i := 0 to TABLE_MAX
        invariant Valid() && hiddenCount == 0 && deletedCount == old(deletedCount)
      {
        deleted[i] := "";
      }
      deletedCount := 0;
    }

    method PurgeAll() returns (count: int)
      requires Valid() && !rewriting
      modifies this, hidden, deleted, buf
      ensures Valid() && !rewriting && (count, Value()) == DeleteLogSpec.PurgeAll(old(Value()))
    {
      count := hiddenCount + deletedCount;
      Clear();
      Rewrite();
    }

    // ---- Reading the log ----

    /** One record of the log t from position i on. */
    method ParseRecord(i: nat, ghost t: string) returns (op: string, name: string, j: nat)
      requires Valid() && t == Log() && i < size
      ensures i < j <= size && Parse(t[i..]) == Record(op, name, t[j..]) && |name| <= 31
    {
      hide SkipSpace, SkipBlank, SkipLine, Word, CString, Parse;
      var a := SkipSpaces(buf, size, i, t);
      var w, b := ReadWord(buf, size, a, 7, t);
      var c := SkipBlanks(buf, size, b, t);
      var v, d := ReadWord(buf, size, c, 31, t);
      j := SkipToNewline(buf, size, d, t);
      op, name := CString(w), CString(v);
      RecordRead(t, i, a, b, c, d, j, w, v);
    }

    method ApplyRecord(op: string, name: string)
      requires Valid() && |name| <= 31
      modifies this`hiddenCount, this`deletedCount, hidden, deleted
      ensures Valid() && Names() == Apply(old(Names()), op, name)
    {
      var r;
      if op == "HIDE" && name != "" {
        r := TrackHide(name);
      } else if op == "SHOW" && name != "" {
        r := TrackShow(name);
      } else if (op == "DELETE" || op == "KILL" || op == "DESTROY") && name != "" {
        r := TrackDelete(name);
      } else if (op == "PURGE" || op == "DROP") && name != "" {
        r := TrackPurge(name);
      }
    }

    /** fs_apply_delete_log. */
    method ApplyLog()
      requires Valid()
      modifies this`hiddenCount, this`deletedCount, hidden, deleted
      ensures Valid() && Names() == Replay(old(Log()), NOTHING)
    {
      hide Parse, Apply;
      Clear();
      var i := 0;
      ghost var t := Log();
      assert t[0..] == t;
      while i < size
        invariant Valid() && i <= size && buf[..size] == t && Replay(t[i..], Names()) == Replay(t, NOTHING)
        decreases size - i
      {
        var op, name, j := ParseRecord(i, t);
        ApplyRecord(op, name);
        i := j;
      }
    }
  }

  lemma {:induction false} LineParts(l: string, op: string, n: string)
    ensures l + op + " " + n + "\n" == l + Line(op, n)
  {
  }

  lemma FirstIndex(s: seq<string>, n: string, i: nat)
    requires i < |s| && s[i] == n && n !in s[..i]
    ensures Index(s, n) == i
  {
  }

  // ---- Reading the log, t in all ----

  method SkipSpaces(buf: array<char>, size: nat, i: nat, ghost t: string) returns (j: nat)
    requires i <= size <= buf.Length && t == buf[..size]
    ensures i <= j <= size && SkipSpace(t[i..]) == t[j..]
  {
    j := i;
    while j < size && Space(buf[j])
      invariant i <= j <= size && SkipSpace(t[j..]) == SkipSpace(t[i..])
    {
      assert t[j..][1..] == t[j + 1..];
      j := j + 1;
    }
  }

  method SkipBlanks(buf: array<char>, size: nat, i: nat, ghost t: string) returns (j: nat)
    requires i <= size <= buf.Length && t == buf[..size]
    ensures i <= j <= size && SkipBlank(t[i..]) == t[j..]
  {
    j := i;
    while j < size && Blank(buf[j])
      invariant i <= j <= size && SkipBlank(t[j..]) == SkipBlank(t[i..])
    {
      assert t[j..][1..] == t[j + 1..];
      j := j + 1;
    }
  }

  method SkipToNewline(buf: array<char>, size: nat, i: nat, ghost t: string) returns (j: nat)
    requires i <= size <= buf.Length && t == buf[..size]
    ensures i <= j <= size && SkipLine(t[i..]) == t[j..]
  {
    j := i;
    while j < size && !Newline(buf[j])
      invariant i <= j <= size && SkipLine(t[j..]) == SkipLine(t[i..])
    {
      assert t[j..][1..] == t[j + 1..];
      j := j + 1;
    }
  }

  /** Copies a word into a buffer that takes limit characters. */
  method ReadWord(buf: array<char>, size: nat, i: nat, limit: nat, ghost t: string) returns (w: string, j: nat)
    requires i <= size <= buf.Length && t == buf[..size]
    ensures i <= j <= size && j - i == Word(t[i..], limit) && w == t[i..j]
  {
    j, w := i, "";
    while j < size && !Space(buf[j]) && |w| < limit
      invariant i <= j <= size && w == t[i..j] && |w| <= limit
      invariant Word(t[i..], limit) == j - i + Word(t[j..], limit - |w|)
    {
      assert t[j..][1..] == t[j + 1..];
      w := w + [buf[j]];
      j := j + 1;
    }
  }

  lemma {:induction false} RecordRead(t: string, i: nat, a: nat, b: nat, c: nat, d: nat, j: nat, w: string, v: string)
    requires i < |t| && i <= a <= b <= c <= d <= j <= |t|
    requires SkipSpace(t[i..]) == t[a..] && b - a == Word(t[a..], 7) && w == t[a..b]
    requires SkipBlank(t[b..]) == t[c..] && d - c == Word(t[c..], 31) && v == t[c..d] && SkipLine(t[d..]) == t[j..]
    ensures i < j && Parse(t[i..]) == Record(CString(w), CString(v), t[j..]) && |CString(v)| <= 31
  {
    hide SkipSpace, SkipBlank, SkipLine, Word, CString, Parse;
    SliceAgain(t, a, b);
    SliceAgain(t, c, d);
    RecordIs(t[i..], t[a..], w, b - a, t[b..], t[c..], v, d - c, t[d..], t[j..]);
  }

  lemma {:induction false} SliceAgain(t: string, a: nat, b: nat)
    requires a <= b <= |t|
    ensures t[a..][b - a..] == t[b..] && t[a..][..b - a] == t[a..b]
  {
  }

  /** One record, as its words and what lies between them. */
  lemma {:induction false} RecordIs(s: string, a: string, w: string, n: nat, b: string, c: string, v: string, m: nat,
                                    d: string, rest: string)
    requires s != "" && a == SkipSpace(s) && n == Word(a, 7) && w == a[..n] && b == a[n..]
    requires c == SkipBlank(b) && m == Word(c, 31) && v == c[..m] && d == c[m..] && rest == SkipLine(d)
    ensures Parse(s) == Record(CString(w), CString(v), rest) && |CString(v)| <= 31 && |rest| < |s|
  {
    hide SkipSpace, SkipBlank, SkipLine, Word, CString, Parse;
    ParseIs(s, a, n, c, m);
    CStringShorter(v);
  }

  lemma ParseIs(s: string, a: string, n: nat, b: string, m: nat)
    requires a == SkipSpace(s) && n == Word(a, 7) && b == SkipBlank(a[n..]) && m == Word(b, 31)
    ensures Parse(s) == Record(CString(a[..n]), CString(b[..m]), SkipLine(b[m..]))
    ensures s != "" ==> |SkipLine(b[m..])| < |s|
  {
    assert s != "" ==> |Parse(s).rest| < |s|;
  }

  lemma NextLine(l: string, op: string, names: seq<string>, i: nat)
    requires i < |names|
    ensures Cut(Cut(l + Lines(op, names[..i])) + Line(op, names[i])) == Cut(l + Lines(op, names[..i + 1]))
  {
    hide Cut;
    CutTwice(l + Lines(op, names[..i]), Line(op, names[i]));
    assert names[..i + 1][..i] == names[..i];
    assert l + Lines(op, names[..i + 1]) == l + Lines(op, names[..i]) + Line(op, names[i]);
  }
}
