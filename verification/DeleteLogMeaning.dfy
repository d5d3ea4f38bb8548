/** What the operations on the delete overlay do to the tables, name by name: which names
    come in, which go out, and that everything else stays in its order. */
module DeleteLogMeaning {
  import opened DeleteLogSpec

  /** s without n, the rest in its order. */
  function Others(s: seq<string>, n: string): seq<string> {
    if s == [] then [] else (if s[0] == n then [] else [s[0]]) + Others(s[1..], n)
  }

  lemma {:induction false} OthersHas(s: seq<string>, n: string, x: string)
    ensures x in Others(s, n) <==> x in s && x != n
  {
    if s != [] {
      OthersHas(s[1..], n, x);
      assert s == [s[0]] + s[1..];
    }
  }

  lemma {:induction false} OthersAll(s: seq<string>, n: string)
    requires n !in s
    ensures Others(s, n) == s
  {
    if s != [] {
      OthersAll(s[1..], n);
      assert s == [s[0]] + s[1..];
    }
  }

  lemma {:induction false} OthersAppend(s: seq<string>, t: seq<string>, n: string)
    ensures Others(s + t, n) == Others(s, n) + Others(t, n)
  {
    if s == [] {
      assert s + t == t;
    } else {
      OthersAppend(s[1..], t, n);
      assert (s + t)[1..] == s[1..] + t;
      var first: seq<string> := if s[0] == n then [] else [s[0]];
      assert first + (Others(s[1..], n) + Others(t, n)) == (first + Others(s[1..], n)) + Others(t, n);
    }
  }

  /** In a table without repeats the table operations take out exactly the name. */
  lemma {:induction false} RemoveIsOthers(s: seq<string>, n: string)
    requires NoRepeats(s)
    ensures Remove(s, n) == Others(s, n)
  {
    var i := Index(s, n);
    if i < 0 {
      OthersAll(s, n);
    } else {
      var a, b := s[..i], s[i + 1..];
      assert s == a + ([n] + b);
      AloneIn(s, i);
      hide Others, Index;
      OthersAppend(a, [n] + b, n);
      OthersAll(a, n);
      FirstGoes(b, n);
      OthersAll(b, n);
    }
  }

  lemma FirstGoes(b: seq<string>, n: string)
    ensures Others([n] + b, n) == Others(b, n)
  {
    assert ([n] + b)[1..] == b;
  }

  lemma AloneIn(s: seq<string>, i: nat)
    requires i < |s| && NoRepeats(s)
    ensures s[i] !in s[..i] && s[i] !in s[i + 1..]
  {
  }

  /** Only n leaves before on the way to after. */
  ghost predicate Leaves(n: string, before: seq<string>, after: seq<string>) {
    after == Others(before, n) && forall x: string :: x in after <==> x in before && x != n
  }

  /** Only n comes into before, at its end, on the way to after. */
  ghost predicate Enters(n: string, before: seq<string>, after: seq<string>) {
    n !in before && after == before + [n] && forall x: string :: x in after <==> x in before || x == n
  }

  lemma {:induction false} TakenOut(s: seq<string>, n: string)
    requires NoRepeats(s)
    ensures Leaves(n, s, Remove(s, n))
  {
    RemoveIsOthers(s, n);
    forall x: string
      ensures x in Others(s, n) <==> x in s && x != n
    {
      OthersHas(s, n, x);
    }
  }

  lemma {:induction false} NotThere(s: seq<string>, n: string)
    requires n !in s
    ensures Leaves(n, s, s)
  {
    OthersAll(s, n);
  }

  // ---- the five operations ----

  /** Hiding brings exactly the name into the hidden ones, unless it is no file that may be
      hidden (-1), is deleted (-3), is hidden already (1) or 32 names are (-2). */
  lemma {:induction false} HideMeans(v: Overlay, n: string, present: bool)
    ensures var (r, w) := Hide(v, n, present);
            && w.tables.deleted == v.tables.deleted
            && (if r == 0 then Enters(n, v.tables.hidden, w.tables.hidden) else w.tables == v.tables)
            && r == (if !present || n == "" then -1 else if n in v.tables.deleted then -3
                     else if n in v.tables.hidden then 1 else if |v.tables.hidden| >= 32 then -2 else 0)
            && (r < 0 ==> w == v)
  {
    hide Logged;
    LoggedKeepsTables(v.(tables := TrackHide(v.tables, n).1), "HIDE", n);
  }

  lemma LoggedKeepsTables(v: Overlay, op: string, n: string)
    ensures Logged(v, op, n).tables == v.tables
  {
  }

  /** Deleting brings exactly the name into the deleted ones and takes exactly it out of the
      hidden ones; when 32 names are deleted (-2) or this one is already (1), only the second. */
  lemma {:induction false} DeleteMeans(v: Overlay, n: string, present: bool)
    requires NoRepeats(v.tables.hidden)
    ensures var (r, w) := Delete(v, n, present);
            && (if r == 0 then Enters(n, v.tables.deleted, w.tables.deleted)
                else w.tables.deleted == v.tables.deleted)
            && (if r == -1 then w == v else Leaves(n, v.tables.hidden, w.tables.hidden))
            && r == (if !present || n == "" then -1 else if n in v.tables.deleted then 1
                     else if |v.tables.deleted| >= 32 then -2 else 0)
            && (r < 0 ==> w.log == v.log)
  {
    hide Logged, Remove, NoRepeats, Leaves;
    LoggedKeepsTables(v.(tables := TrackDelete(v.tables, n).1), "DELETE", n);
    TakenOut(v.tables.hidden, n);
    if n !in v.tables.hidden {
      NotThere(v.tables.hidden, n);
    }
  }

  /** Un-hiding takes exactly the name out of the hidden ones and nothing out of the deleted
      ones; a deleted name is refused (-2). */
  lemma {:induction false} UnhideMeans(v: Overlay, n: string, present: bool)
    requires NoRepeats(v.tables.hidden)
    ensures var (r, w) := Unhide(v, n, present);
            && w.tables.deleted == v.tables.deleted
            && (if r < 0 then w == v else Leaves(n, v.tables.hidden, w.tables.hidden))
            && r == (if !present then -1 else if n in v.tables.deleted then -2
                     else if n in v.tables.hidden then 0 else 1)
  {
    hide Logged, Remove, NoRepeats, Leaves;
    LoggedKeepsTables(v.(tables := TrackShow(v.tables, n).1), "SHOW", n);
    TakenOut(v.tables.hidden, n);
    if n !in v.tables.hidden {
      NotThere(v.tables.hidden, n);
    }
  }

  /** Purging takes exactly the name out of both tables; every other name stays hidden or
      deleted as it was. */
  lemma {:induction false} PurgeMeans(v: Overlay, n: string)
    requires NoRepeats(v.tables.hidden) && NoRepeats(v.tables.deleted)
    ensures var (r, w) := Purge(v, n);
            && (if n == "" then w == v
                else Leaves(n, v.tables.hidden, w.tables.hidden) && Leaves(n, v.tables.deleted, w.tables.deleted))
            && r == (if n == "" then -1 else if n in v.tables.hidden || n in v.tables.deleted then 0 else 1)
  {
    hide Compact, Cut, Remove, NoRepeats, Leaves;
    TakenOut(v.tables.hidden, n);
    TakenOut(v.tables.deleted, n);
  }

  /** Purging everything leaves no name hidden or deleted and answers how many there were. */
  lemma {:induction false} PurgeAllMeans(v: Overlay)
    ensures var (r, w) := PurgeAll(v);
            && r == |v.tables.hidden| + |v.tables.deleted|
            && (forall x: string :: x !in w.tables.hidden && x !in w.tables.deleted)
  {
    hide Compact, Cut;
  }

  /** What every operation may do to a name other than its own: nothing, except for purging
      everything and for reading the log again. */
  lemma {:induction false} OthersUntouched(v: Overlay, op: Op, x: string)
    requires Tidy(v.tables) && !op.OpPurgeAll? && !op.OpReload? && x != op.name
    ensures var w := Step(v, op);
            && (x in w.tables.hidden <==> x in v.tables.hidden) && (x in w.tables.deleted <==> x in v.tables.deleted)
  {
    hide Hide, Delete, Unhide, Purge, IsName;
    match op {
      case OpHide(n, present) =>
        HideMeans(v, n, present);
      case OpDelete(n, present) =>
        DeleteMeans(v, n, present);
      case OpUnhide(n, present) =>
        UnhideMeans(v, n, present);
      case OpPurge(n) =>
        PurgeMeans(v, n);
    }
  }

  // ---- the words of the log ----

  /** The seven words of the log and what they do; any other word does nothing. */
  lemma {:induction false} WordsMean(t: Tables, op: string, n: string)
    requires Tidy(t) && n != ""
    ensures var u := Apply(t, op, n);
            if op == "HIDE" then
              u.deleted == t.deleted
                && (if n in t.deleted || n in t.hidden || |t.hidden| >= 32 then u == t
                    else Enters(n, t.hidden, u.hidden))
            else if op == "SHOW" then
              u.deleted == t.deleted && Leaves(n, t.hidden, u.hidden)
            else if op in {"DELETE", "KILL", "DESTROY"} then
              && Leaves(n, t.hidden, u.hidden)
              && (if n in t.deleted || |t.deleted| >= 32 then u.deleted == t.deleted
                  else Enters(n, t.deleted, u.deleted))
            else if op in {"PURGE", "DROP"} then
              Leaves(n, t.hidden, u.hidden) && Leaves(n, t.deleted, u.deleted)
            else u == t
  {
    hide IsName, Remove, NoRepeats, Leaves;
    TakenOut(t.hidden, n);
    TakenOut(t.deleted, n);
    if n !in t.hidden {
      NotThere(t.hidden, n);
    }
  }

  /** An operation adds its line to the log, unless fewer than 96 of the 2048 characters are
      free: then the log is written anew. */
  lemma {:induction false} LogGrows(v: Overlay, op: string, n: string)
    ensures var w := Logged(v, op, n);
            && |w.log| <= 2048
            && (|v.log| <= 1952 && |v.log| + |op| + |n| + 2 <= 2048 ==> w.log == v.log + op + " " + n + "\n")
            && (|v.log| > 1952 ==> w.log <= Compact(v.tables) && (|w.log| < 2048 ==> w.log == Compact(v.tables)))
  {
    hide Compact;
    assert v.log + Line(op, n) == v.log + op + " " + n + "\n";
  }
}
