/**
 * What the three edits of the shell configuration do to the lookups: a
 * rewritten value is found again, a removed last assignment is gone, and a
 * prefix rewritten to `export` makes the variable exported.
 */
module Edits {
  import opened Wrappers
  import opened Text
  import opened Pattern
  import opened Locality
  import opened Configuration
  import opened Lookup

  /**
   * The `get_var` loop reaches the same assignment in every text that
   * agrees with `c` up to past that assignment's `=` and has a value there.
   */
  lemma {:induction false} KeyedTransfer(c: string, d: string, n: nat, name: string, from: nat)
    requires n <= |c| && n <= |d| && c[..n] == d[..n] && from <= |c| && from <= |d|
    requires KeyedMatch(c, name, from).Some? && KeyedMatch(c, name, from).value.eq < n
    requires Assigns(d, KeyedMatch(c, name, from).value.eq)
    ensures KeyedMatch(d, name, from) == Some(Reend(d, KeyedMatch(c, name, from).value))
    decreases |c| - from
  {
    KeyedFinds(c, name, from);
    var m := Find(c, AnyAssignment, from).value;
    FindSound(c, AnyAssignment, from);
    if Trim(Key(c, m)) == name {
      FindTransfer(c, d, n, AnyAssignment, from);
      TransferFits(c, d, n, AnyAssignment, m);
    } else {
      FindKept(c, d, n, AnyAssignment, from);
      SliceAgree(c, d, n, m.keyStart, m.eq);
      KeyedTransfer(c, d, n, name, m.end);
    }
  }

  /** A value written in place of another ends where the old one did: at the end of its line. */
  lemma SetValueEnd(c: string, m: Assignment, val: string)
    requires WellFormed(c, m) && '\n' !in val
    ensures SpanEnd(SetValue(c, m, val), m.eq + 1, NotNewline) == m.eq + 1 + |val|
  {
    var d := SetValue(c, m, val);
    ValueStart(c, m);
    assert forall k | m.eq + 1 <= k < m.eq + 1 + |val| :: d[k] == val[k - (m.eq + 1)];
    assert m.eq + 1 + |val| < |d| ==> d[m.eq + 1 + |val|] == c[m.end];
    SpanEndUnique(d, m.eq + 1, m.eq + 1 + |val|, NotNewline);
  }

  /**
   * Writing `val` over the value of the assignment `get_var` finds for
   * `name` makes `get_var` find `val`, when `val` is a one-line value.
   */
  lemma SetValueGetVar(c: string, name: string, val: string)
    requires KeyedMatch(c, name, 0).Some? && val != [] && '\n' !in val
    ensures GetVar(SetValue(c, KeyedMatch(c, name, 0).value, val), name) == Some(val)
  {
    var m := KeyedMatch(c, name, 0).value;
    var d := SetValue(c, m, val);
    AssignsAt(d, m.eq);
    KeyedTransfer(c, d, m.eq + 1, name, 0);
    SetValueRead(c, m, val);
    GetVarOf(d, name, Reend(d, m));
  }

  /** The value of the rewritten match, read again in the rewritten text, is `val`. */
  lemma SetValueRead(c: string, m: Assignment, val: string)
    requires WellFormed(c, m) && '\n' !in val
    ensures m.eq < |SetValue(c, m, val)| && Spans(SetValue(c, m, val), Reend(SetValue(c, m, val), m))
    ensures Value(SetValue(c, m, val), Reend(SetValue(c, m, val), m)) == val
  {
    SetValueEnd(c, m, val);
  }

  /**
   * `put_var` on a name whose assignment is the first one in the text:
   * `get_var` then finds the new value.
   */
  lemma PutFirstGetVar(c: string, name: string, val: string)
    requires Find(c, AnyAssignment, 0).Some? && Assigned(c, Find(c, AnyAssignment, 0).value, name)
    requires val != [] && '\n' !in val
    ensures GetVar(SetValue(c, Find(c, AnyAssignment, 0).value, val), name) == Some(val)
  {
    assert KeyedMatch(c, name, 0) == Find(c, AnyAssignment, 0);
    SetValueGetVar(c, name, val);
  }

  /** Removing a match keeps the text before it and the line feed that ended it. */
  lemma CutKeepsLineFeed(c: string, m: Assignment)
    requires WellFormed(c, m)
    ensures Cut(c, m)[..m.start] == c[..m.start]
    ensures m.end < |c| ==> m.start < |Cut(c, m)| && Cut(c, m)[m.start] == '\n'
  {
    ValueStart(c, m);
  }

  /**
   * Removing the match that holds every `name=` of the text leaves no
   * assignment to `name`: `get_var` finds nothing afterwards.
   */
  lemma CutLastGetVar(c: string, name: string, m: Assignment)
    requires IsName(name) && WellFormed(c, m)
    requires forall i: nat | Occurs(c, name + "=", i) :: m.start <= i < m.end
    ensures GetVar(Cut(c, m), name) == None
  {
    if GetVar(Cut(c, m), name).Some? {
      GetVarKey(Cut(c, m), name);
      assert '\n' !in name + "=" by { NoLineFeed(name); }
      CutNoOccurs(c, m, name + "=", KeyedMatch(Cut(c, m), name, 0).value.keyStart);
    }
  }

  /** A name is a word, so `name=` holds no line feed. */
  lemma NoLineFeed(name: string)
    requires IsName(name)
    ensures '\n' !in name + "="
  {
    assert forall x | 0 <= x < |name| :: (name + "=")[x] == name[x];
  }

  /** A string that only occurred inside the cut match occurs nowhere in what is left. */
  lemma CutNoOccurs(c: string, m: Assignment, t: string, k: nat)
    requires WellFormed(c, m) && t != [] && '\n' !in t
    requires forall i: nat | Occurs(c, t, i) :: m.start <= i < m.end
    ensures !Occurs(Cut(c, m), t, k)
  {
    if Occurs(Cut(c, m), t, k) {
      var i := CutOccurs(c, m, t, k);
    }
  }

  /** An occurrence of `name=` in the text with a match cut out was one of the text before. */
  lemma CutOccurs(c: string, m: Assignment, t: string, k: nat) returns (i: nat)
    requires WellFormed(c, m) && Occurs(Cut(c, m), t, k) && '\n' !in t
    ensures Occurs(c, t, i) && (i + |t| <= m.start || m.end <= i)
    ensures i == if k + |t| <= m.start then k else k + (m.end - m.start)
  {
    var d := Cut(c, m);
    if k + |t| <= m.start {
      SliceAgree(c, d, m.start, k, k + |t|);
      i := k;
    } else if m.start <= k {
      SliceShift(d, c, m.start, m.end - m.start, k, k + |t|);
      i := k + (m.end - m.start);
    } else {
      CutKeepsLineFeed(c, m);
    }
  }

  /** The match the export template makes out of a named match with an empty prefix. */
  function Exported7(m: Assignment): Assignment {
    Assignment(m.start, m.prefixStart, m.prefixStart + 6, m.keyStart + 7, m.eq + 7, m.end + 7)
  }

  /**
   * Writing `export ` in front of an assignment to `name` with no prefix
   * makes `name` exported, and the text grows by seven characters.
   */
  lemma ExportSplice(c: string, name: string, m: Assignment)
    requires IsName(name) && Fits(c, Named(name), m) && Prefix(c, m) == ""
    ensures IsExportedVar(SetExport(c, m), name)
    ensures |SetExport(c, m)| == |c| + 7
  {
    SetExportSpliced(c, m);
    ExportedFits(c, SetExport(c, m), name, m);
  }

  /**
   * `d` is `c` with `export ` written at the empty prefix of `m`: the same
   * up to the prefix, then `export `, then the rest of `c` seven places on.
   */
  predicate Spliced(c: string, d: string, m: Assignment) {
    && Spans(c, m) && m.prefixStart == m.spacingStart && |d| == |c| + 7
    && d[..m.prefixStart] == c[..m.prefixStart]
    && d[m.prefixStart..m.prefixStart + 7] == "export "
    && d[m.spacingStart + 7..] == c[m.spacingStart..]
  }

  /** `SetExport` at an empty prefix is such a splice. */
  lemma SetExportSpliced(c: string, m: Assignment)
    requires Spans(c, m) && m.prefixStart == m.spacingStart
    ensures Spliced(c, SetExport(c, m), m)
  {
  }

  /** The spliced text holds the exported pattern at the match. */
  lemma ExportedFits(c: string, d: string, name: string, m: Assignment)
    requires IsName(name) && Fits(c, Named(name), m) && Spliced(c, d, m)
    ensures Fits(d, Exported(name), Exported7(m))
  {
    SplicedWellFormed(c, d, m);
    ExportedHead(c, d, m);
    ShiftedKey(c, d, m);
  }

  /** The spliced match is a match of REG_VAR's shape in the spliced text. */
  lemma SplicedWellFormed(c: string, d: string, m: Assignment)
    requires WellFormed(c, m) && Spliced(c, d, m)
    ensures WellFormed(d, Exported7(m))
  {
    SplicedHead(c, d, m);
    SplicedTail(c, d, m);
    ExportedIntro(d, m);
  }

  /** The parts of the spliced match, put together. */
  lemma ExportedIntro(d: string, m: Assignment)
    requires m.start <= m.prefixStart && m.keyStart < m.eq && m.eq + 1 < m.end && m.end + 7 <= |d|
    requires IsLineStart(d, m.start) && Run(d, m.start, m.prefixStart, Space) && Run(d, m.prefixStart, m.prefixStart + 6, Word)
    requires Run(d, m.prefixStart + 6, m.keyStart + 7, Space) && Run(d, m.keyStart + 7, m.eq + 7, Word)
    requires d[m.eq + 7] == '=' && m.end + 7 == SpanEnd(d, m.eq + 8, NotNewline)
    ensures WellFormed(d, Exported7(m))
  {
    WellFormedIntro(d, Exported7(m));
  }

  /** The spliced match up to its spacing: a line start, the indent and the word `export`. */
  lemma SplicedHead(c: string, d: string, m: Assignment)
    requires Spliced(c, d, m) && m.keyStart < m.eq && m.eq < m.end
    requires IsLineStart(c, m.start) && Run(c, m.start, m.prefixStart, Space)
    ensures m.end + 7 <= |d| && IsLineStart(d, m.start)
    ensures Run(d, m.start, m.prefixStart, Space) && Run(d, m.prefixStart, m.prefixStart + 6, Word)
  {
    ExportedHead(c, d, m);
  }

  /** The spliced match from its spacing on: white space, the key, `=` and the value to the end of the line. */
  lemma SplicedTail(c: string, d: string, m: Assignment)
    requires Spliced(c, d, m) && Run(c, m.spacingStart, m.keyStart, Space) && Run(c, m.keyStart, m.eq, Word)
    requires c[m.eq] == '=' && m.end == SpanEnd(c, m.eq + 1, NotNewline) && m.eq + 1 < m.end
    ensures Run(d, m.prefixStart + 6, m.keyStart + 7, Space) && Run(d, m.keyStart + 7, m.eq + 7, Word)
    ensures d[m.eq + 7] == '=' && m.end + 7 == SpanEnd(d, m.eq + 8, NotNewline)
  {
    ShiftedSpacing(c, d, m);
    ShiftedKey(c, d, m);
    ExportedTail(c, d, m);
  }

  /** Up to the end of the inserted word, the spliced match starts a line, is indented and reads `export`. */
  lemma ExportedHead(c: string, d: string, m: Assignment)
    requires Spliced(c, d, m)
    requires IsLineStart(c, m.start) && Run(c, m.start, m.prefixStart, Space)
    ensures IsLineStart(d, m.start) && Run(d, m.start, m.prefixStart, Space)
    ensures Run(d, m.prefixStart, m.prefixStart + 6, Word)
    ensures d[m.prefixStart..m.prefixStart + 6] == "export"
  {
    assert m.start == 0 || d[m.start - 1] == d[..m.prefixStart][m.start - 1];
    RunAgree(c, d, m.start, m.prefixStart, m.prefixStart, Space);
    assert IsName("export");
    assert d[m.prefixStart..m.prefixStart + 6] == d[m.prefixStart..m.prefixStart + 7][..6];
    NameRun(d, m.prefixStart, "export");
  }

  /** The `=` and the value of the spliced match sit seven places further, and the value still ends its line. */
  lemma ExportedTail(c: string, d: string, m: Assignment)
    requires Spliced(c, d, m) && c[m.eq] == '='
    requires m.end == SpanEnd(c, m.eq + 1, NotNewline)
    ensures d[m.eq + 7] == '='
    ensures SpanEnd(d, m.eq + 8, NotNewline) == m.end + 7
  {
    ShiftedChars(c, d, m);
    SpanEndShift(c, d, m.eq + 1, 7, NotNewline);
  }

  /** After the splice, each character from the old spacing on sits seven places further. */
  lemma ShiftedChars(c: string, d: string, m: Assignment)
    requires Spliced(c, d, m)
    ensures forall x | m.spacingStart <= x < |c| :: d[x + 7] == c[x]
  {
    forall x | m.spacingStart <= x < |c|
      ensures d[x + 7] == c[x]
    {
      assert d[m.spacingStart + 7..][x - m.spacingStart] == c[m.spacingStart..][x - m.spacingStart];
    }
  }

  /** The spacing of the spliced match is a run of white space: the inserted blank, then the old spacing. */
  lemma ShiftedSpacing(c: string, d: string, m: Assignment)
    requires Spliced(c, d, m) && Run(c, m.spacingStart, m.keyStart, Space)
    ensures Run(d, m.prefixStart + 6, m.keyStart + 7, Space)
  {
    BlankRun(d, m.prefixStart);
    SliceShift(c, d, m.spacingStart, 7, m.spacingStart, m.keyStart);
    RunCopy(c, d, m.spacingStart, m.keyStart, m.spacingStart + 7, Space);
    RunJoin(d, m.prefixStart + 6, m.prefixStart + 7, m.keyStart + 7, Space);
  }

  /** The blank after an `export ` written at `i` is white space. */
  lemma BlankRun(d: string, i: nat)
    requires i + 7 <= |d| && d[i..i + 7] == "export "
    ensures Run(d, i + 6, i + 7, Space)
  {
    assert d[i + 6] == d[i..i + 7][6];
    RunAll(d, i + 6, i + 7, Space);
  }

  /** The key of the spliced match is a run of word characters. */
  lemma ShiftedKey(c: string, d: string, m: Assignment)
    requires Spliced(c, d, m) && Run(c, m.keyStart, m.eq, Word)
    ensures Run(d, m.keyStart + 7, m.eq + 7, Word)
    ensures d[m.keyStart + 7..m.eq + 7] == c[m.keyStart..m.eq]
  {
    SliceShift(c, d, m.spacingStart, 7, m.keyStart, m.eq);
    RunCopy(c, d, m.keyStart, m.eq, m.keyStart + 7, Word);
  }
}
