/**
 * Two texts on which the edits of the shell configuration, as written, do
 * not do what their callers expect: `put_var` on a name that is not the
 * first assignment rewrites the first assignment, and `export_var` rewrites
 * the first named match even when it exports a later one.
 */
module Findings {
  import opened Wrappers
  import opened Text
  import opened Pattern
  import opened Locality
  import opened Configuration
  import opened Lookup
  import opened Edits

  /** The one-line text `a=x`. */
  function OneLine(a: char, x: char): (c: string)
    ensures |c| == 3 && c[0] == a && c[1] == '=' && c[2] == x
  {
    [a, '=', x]
  }

  /** The one line `a=x` is the only assignment of its text, and it assigns `a`. */
  lemma OneLineFind(a: char, x: char)
    requires IsWord(a) && x != '\n'
    ensures Find(OneLine(a, x), AnyAssignment, 0) == Some(Assignment(0, 0, 0, 0, 1, 3))
    ensures Find(OneLine(a, x), AnyAssignment, 3).None?
  {
    var c := OneLine(a, x);
    assert SpanEnd(c, 0, Space) == 0;
    assert SpanEnd(c, 1, Word) == 1;
    assert SpanEnd(c, 3, NotNewline) == 3;
    assert MatchAt(c, AnyAssignment, 0).Some?;
    assert MatchAt(c, AnyAssignment, 3).None?;
  }

  /** In the text `a=x`, a name other than `a` has no value. */
  lemma OneLineGetVar(a: char, x: char, b: char)
    requires IsWord(a) && x != '\n' && a != b
    ensures GetVar(OneLine(a, x), [b]) == None
  {
    var c := OneLine(a, x);
    OneLineFind(a, x);
    assert Key(c, Assignment(0, 0, 0, 0, 1, 3)) == [a];
    TrimWord([a]);
  }

  /** The text `a=x`, then `b=y` on a line of its own. */
  function TwoLines(a: char, x: char, b: char, y: char): string {
    Appended(OneLine(a, x), [b], [y])
  }

  /** The two lines, character by character. */
  lemma TwoLinesChars(a: char, x: char, b: char, y: char)
    ensures TwoLines(a, x, b, y) == [a, '=', x, '\n', b, '=', y]
  {
  }

  /** Writing `z` over the first value of the two lines gives the two lines with `z` there. */
  lemma SetFirstValue(a: char, x: char, b: char, y: char, z: char)
    requires IsWord(a) && IsWord(b) && x != '\n'
    ensures SetValue(TwoLines(a, x, b, y), Assignment(0, 0, 0, 0, 1, 3), [z]) == TwoLines(a, z, b, y)
  {
    TwoLinesChars(a, x, b, y);
    TwoLinesChars(a, z, b, y);
    var t := TwoLines(a, x, b, y);
    assert t[..2] == [a, '='] && t[3..] == ['\n', b, '=', y];
  }

  /** `get_var` on the two lines finds the second assignment for `b`. */
  lemma TwoLinesGetVar(a: char, x: char, b: char, y: char)
    requires IsWord(a) && IsWord(b) && a != b && x != '\n' && y != '\n'
    ensures GetVar(TwoLines(a, x, b, y), [b]) == Some([y])
  {
    OneLineGetVar(a, x, b);
    AppendGetVar(OneLine(a, x), [b], [y]);
  }

  /** The first assignment of the two lines is `a=x`. */
  lemma TwoLinesFirst(a: char, x: char, b: char, y: char)
    requires IsWord(a) && IsWord(b) && x != '\n'
    ensures Find(TwoLines(a, x, b, y), AnyAssignment, 0) == Some(Assignment(0, 0, 0, 0, 1, 3))
    ensures Assigned(TwoLines(a, x, b, y), Assignment(0, 0, 0, 0, 1, 3), [a])
  {
    var t := TwoLines(a, x, b, y);
    OneLineFind(a, x);
    FindExtend(OneLine(a, x), t, AnyAssignment, 0);
    FindSound(t, AnyAssignment, 0);
    assert Key(t, Assignment(0, 0, 0, 0, 1, 3)) == [a];
    TrimWord([a]);
  }

  /**
   * `put_var` as written, asked to set `b` to `z` in `a=x` / `b=y`: `b` has
   * a value, so the value of the FIRST assignment is rewritten. Afterwards
   * `a` reads `z` and `b` still reads `y`.
   */
  lemma PutVarClobbers(a: char, x: char, b: char, y: char, z: char)
    requires IsWord(a) && IsWord(b) && a != b && x != '\n' && y != '\n' && z != '\n'
    ensures GetVar(TwoLines(a, x, b, y), [b]) == Some([y])
    ensures Find(TwoLines(a, x, b, y), AnyAssignment, 0) == Some(Assignment(0, 0, 0, 0, 1, 3))
    ensures SetValue(TwoLines(a, x, b, y), Assignment(0, 0, 0, 0, 1, 3), [z]) == TwoLines(a, z, b, y)
    ensures GetVar(TwoLines(a, z, b, y), [a]) == Some([z])
    ensures GetVar(TwoLines(a, z, b, y), [b]) == Some([y])
  {
    TwoLinesGetVar(a, x, b, y);
    TwoLinesFirst(a, x, b, y);
    PutFirstGetVar(TwoLines(a, x, b, y), [a], [z]);
    SetFirstValue(a, x, b, y, z);
    TwoLinesGetVar(a, z, b, y);
  }

  /** The one-line text `qn=x`: the key `qn` ends in the name `n`. */
  function TailLine(q: char, n: char, x: char): (c: string)
    ensures |c| == 4 && c[0] == q && c[1] == n && c[2] == '=' && c[3] == x
  {
    [q, n, '=', x]
  }

  /** In `qn=x` the only assignment is to `qn`, yet the named pattern for `n` matches it with the prefix `q`. */
  lemma TailLineFind(q: char, n: char, x: char)
    requires IsWord(q) && IsWord(n) && x != '\n'
    ensures Find(TailLine(q, n, x), AnyAssignment, 0) == Some(Assignment(0, 0, 0, 0, 2, 4))
    ensures Find(TailLine(q, n, x), AnyAssignment, 4).None?
    ensures Find(TailLine(q, n, x), Named([n]), 0) == Some(Assignment(0, 0, 1, 1, 2, 4))
  {
    var c := TailLine(q, n, x);
    assert SpanEnd(c, 0, Space) == 0;
    assert SpanEnd(c, 2, Word) == 2;
    assert SpanEnd(c, 0, Word) == 2;
    assert SpanEnd(c, 4, NotNewline) == 4;
    assert c[1..2] == [n];
    assert MatchAt(c, AnyAssignment, 0).Some?;
    assert MatchAt(c, Named([n]), 0).Some?;
    assert MatchAt(c, AnyAssignment, 4).None?;
  }

  /** In `qn=x` the name `n` has no value. */
  lemma TailLineGetVar(q: char, n: char, x: char)
    requires IsWord(q) && IsWord(n) && x != '\n'
    ensures GetVar(TailLine(q, n, x), [n]) == None
  {
    TailLineFind(q, n, x);
    assert Key(TailLine(q, n, x), Assignment(0, 0, 0, 0, 2, 4)) == [q, n];
    TrimWord([q, n]);
  }

  /** The text `qn=x`, then `n=y` on a line of its own. */
  function Shadowed(q: char, n: char, x: char, y: char): string {
    Appended(TailLine(q, n, x), [n], [y])
  }

  /** The two lines, character by character. */
  lemma ShadowedChars(q: char, n: char, x: char, y: char)
    ensures Shadowed(q, n, x, y) == [q, n, '=', x, '\n', n, '=', y]
  {
  }

  /** Before the export, `qn` reads `x` and `n` reads `y`. */
  lemma ShadowedGetVar(q: char, n: char, x: char, y: char)
    requires IsWord(q) && IsWord(n) && x != '\n' && y != '\n'
    ensures GetVar(Shadowed(q, n, x, y), [q, n]) == Some([x])
    ensures GetVar(Shadowed(q, n, x, y), [n]) == Some([y])
  {
    var c := Shadowed(q, n, x, y);
    var m := Assignment(0, 0, 0, 0, 2, 4);
    TailLineFind(q, n, x);
    FindExtend(TailLine(q, n, x), c, AnyAssignment, 0);
    assert Key(c, m) == [q, n] && Value(c, m) == [x];
    TrimWord([q, n]);
    Groups(c, AnyAssignment, m);
    TailLineGetVar(q, n, x);
    AppendGetVar(TailLine(q, n, x), [n], [y]);
  }

  /** The named pattern for `n` matches `qn=x` first, then `n=y`, and nothing else. */
  lemma ShadowedCaptures(q: char, n: char, x: char, y: char)
    requires IsWord(q) && IsWord(n) && x != '\n' && y != '\n'
    ensures Find(Shadowed(q, n, x, y), Named([n]), 0) == Some(Assignment(0, 0, 1, 1, 2, 4))
    ensures Captures(Shadowed(q, n, x, y), Named([n]), 0) == [Assignment(0, 0, 1, 1, 2, 4), Assignment(5, 5, 5, 5, 6, 8)]
  {
    var c := Shadowed(q, n, x, y);
    TailLineFind(q, n, x);
    FindExtend(TailLine(q, n, x), c, Named([n]), 0);
    SecondLine(q, n, x, y);
    CapturesUnfold(c, Named([n]), 0);
    CapturesUnfold(c, Named([n]), 4);
    CapturesUnfold(c, Named([n]), 8);
  }

  /** After `qn=x`, the named pattern for `n` matches the line `n=y` and then nothing. */
  lemma SecondLine(q: char, n: char, x: char, y: char)
    requires IsWord(q) && IsWord(n) && x != '\n' && y != '\n'
    ensures Find(Shadowed(q, n, x, y), Named([n]), 4) == Some(Assignment(5, 5, 5, 5, 6, 8))
    ensures Find(Shadowed(q, n, x, y), Named([n]), 8).None?
  {
    var c := Shadowed(q, n, x, y);
    ShadowedChars(q, n, x, y);
    assert SpanEnd(c, 5, Space) == 5;
    assert SpanEnd(c, 6, Word) == 6;
    assert SpanEnd(c, 5, Word) == 6;
    assert SpanEnd(c, 8, NotNewline) == 8;
    assert c[5..6] == [n];
    assert MatchAt(c, Named([n]), 4).None?;
    assert MatchAt(c, Named([n]), 5).Some?;
    FindAt(c, Named([n]), 4, 5);
    assert MatchAt(c, Named([n]), 8).None?;
  }

  /** `export_var` for `n` exports the second line, the first whose prefix is empty, and returns `y`. */
  lemma ShadowedTarget(q: char, n: char, x: char, y: char)
    requires IsWord(q) && IsWord(n) && x != '\n' && y != '\n'
    ensures ExportTarget(Shadowed(q, n, x, y), [n]) == Some(Assignment(5, 5, 5, 5, 6, 8))
    ensures Value(Shadowed(q, n, x, y), Assignment(5, 5, 5, 5, 6, 8)) == [y]
    ensures Prefix(Shadowed(q, n, x, y), Assignment(5, 5, 5, 5, 6, 8)) == ""
  {
    var c := Shadowed(q, n, x, y);
    ShadowedCaptures(q, n, x, y);
    ShadowedChars(q, n, x, y);
    var caps := Captures(c, Named([n]), 0);
    assert !Exportable(c, caps[0]);
    assert Exportable(c, caps[1]);
    assert caps[1..][0] == caps[1];
    assert FirstExportable(c, caps[1..]) == 0;
  }

  /** The line `export n=x`. */
  function ExportLine(n: char, x: char): (c: string)
    ensures |c| == 10 && c[..7] == "export " && c[7] == n && c[8] == '=' && c[9] == x
  {
    "export " + [n, '=', x]
  }

  /** In `export n=x` the assignment is to `n`, with the prefix `export`. */
  lemma ExportLineFind(n: char, x: char)
    requires IsWord(n) && x != '\n'
    ensures Find(ExportLine(n, x), AnyAssignment, 0) == Some(Assignment(0, 0, 6, 7, 8, 10))
  {
    var c := ExportLine(n, x);
    assert c[0] == 'e';
    assert forall k | 0 <= k < 6 :: c[k] == "export"[k];
    SpanEndUnique(c, 0, 6, Word);
    assert SpanEnd(c, 0, Space) == 0;
    assert c[6] == ' ';
    assert SpanEnd(c, 6, Space) == 7;
    assert SpanEnd(c, 7, Word) == 8;
    assert SpanEnd(c, 10, NotNewline) == 10;
    assert MatchAt(c, AnyAssignment, 0).Some?;
  }

  /** `export_var` as written rewrites the first named match, the line `qn=x`, into `export n=x`. */
  lemma ShadowedExported(q: char, n: char, x: char, y: char)
    requires IsWord(q) && IsWord(n) && x != '\n' && y != '\n'
    ensures SetExport(Shadowed(q, n, x, y), Assignment(0, 0, 1, 1, 2, 4)) == Appended(ExportLine(n, x), [n], [y])
  {
    ShadowedChars(q, n, x, y);
    var c := Shadowed(q, n, x, y);
    assert c[1..] == [n, '=', x, '\n', n, '=', y];
  }

  /** After the rewrite, `n` reads `x`: the value of the line that was `qn=x`. */
  lemma RewrittenGetVar(n: char, x: char, y: char)
    requires IsWord(n) && x != '\n' && y != '\n'
    ensures GetVar(Appended(ExportLine(n, x), [n], [y]), [n]) == Some([x])
  {
    var e := ExportLine(n, x);
    var d := Appended(e, [n], [y]);
    var m := Assignment(0, 0, 6, 7, 8, 10);
    ExportLineFind(n, x);
    FindExtend(e, d, AnyAssignment, 0);
    assert Key(d, m) == [n] && Value(d, m) == [x];
    TrimWord([n]);
    Groups(d, AnyAssignment, m);
  }

  /** After the rewrite, `qn=` occurs nowhere. */
  lemma RewrittenNoTail(q: char, n: char, x: char, y: char, k: nat)
    requires IsWord(q) && IsWord(n)
    ensures !Occurs(Appended(ExportLine(n, x), [n], [y]), [q, n] + "=", k)
  {
    var d := Appended(ExportLine(n, x), [n], [y]);
    assert d == ['e', 'x', 'p', 'o', 'r', 't', ' ', n, '=', x, '\n', n, '=', y];
    if Occurs(d, [q, n] + "=", k) {
      OccursAt(d, [q, n] + "=", k, 0);
      OccursAt(d, [q, n] + "=", k, 1);
      OccursAt(d, [q, n] + "=", k, 2);
    }
  }

  /** After the rewrite, `qn` has no value. */
  lemma RewrittenGone(q: char, n: char, x: char, y: char)
    requires IsWord(q) && IsWord(n)
    ensures GetVar(Appended(ExportLine(n, x), [n], [y]), [q, n]) == None
  {
    var d := Appended(ExportLine(n, x), [n], [y]);
    if GetVar(d, [q, n]).Some? {
      GetVarKey(d, [q, n]);
      RewrittenNoTail(q, n, x, y, KeyedMatch(d, [q, n], 0).value.keyStart);
    }
  }

  /**
   * `export_var` as written, asked to export `n` in `qn=x` / `n=y`: it
   * returns `y`, the value of the line it means to export, but rewrites the
   * first line instead. Afterwards `n` reads `x` and `qn` is gone.
   */
  lemma ExportVarRewritesFirst(q: char, n: char, x: char, y: char)
    requires IsWord(q) && IsWord(n) && x != '\n' && y != '\n'
    ensures GetVar(Shadowed(q, n, x, y), [q, n]) == Some([x]) && GetVar(Shadowed(q, n, x, y), [n]) == Some([y])
    ensures ExportTarget(Shadowed(q, n, x, y), [n]) == Some(Assignment(5, 5, 5, 5, 6, 8))
    ensures Prefix(Shadowed(q, n, x, y), Assignment(5, 5, 5, 5, 6, 8)) == ""
    ensures Value(Shadowed(q, n, x, y), Assignment(5, 5, 5, 5, 6, 8)) == [y]
    ensures Find(Shadowed(q, n, x, y), Named([n]), 0) == Some(Assignment(0, 0, 1, 1, 2, 4))
    ensures SetExport(Shadowed(q, n, x, y), Assignment(0, 0, 1, 1, 2, 4)) == Appended(ExportLine(n, x), [n], [y])
    ensures GetVar(Appended(ExportLine(n, x), [n], [y]), [n]) == Some([x])
    ensures GetVar(Appended(ExportLine(n, x), [n], [y]), [q, n]) == None
  {
    ShadowedGetVar(q, n, x, y);
    ShadowedTarget(q, n, x, y);
    ShadowedCaptures(q, n, x, y);
    ShadowedExported(q, n, x, y);
    RewrittenGetVar(n, x, y);
    RewrittenGone(q, n, x, y);
  }
}
