/**
 * What `get_var` and `is_exported_var` promise about the text they read:
 * the first assignment to the name wins, whatever its prefix; a name that
 * only appears behind `#` has no value; appending `name=val` on a line of
 * its own gives the name that value.
 */
module Lookup {
  import opened Wrappers
  import opened Text
  import opened Pattern
  import opened Locality
  import opened Configuration

  /** `m` is an assignment whose key, trimmed, is `name`. */
  predicate Assigned(c: string, m: Assignment, name: string) {
    WellFormed(c, m) && Trim(Key(c, m)) == name
  }

  /** The index of the first match in `caps` that assigns `name`, or `|caps|` when none does. */
  function FirstAssigning(c: string, caps: seq<Assignment>, name: string): (i: nat)
    ensures i <= |caps|
    ensures forall j | 0 <= j < i :: !Assigned(c, caps[j], name)
    ensures i < |caps| ==> Assigned(c, caps[i], name)
  {
    if caps == [] then 0
    else if Assigned(c, caps[0], name) then 0
    else 1 + FirstAssigning(c, caps[1..], name)
  }

  /** The `get_var` loop stops at the first of the successive REG_VAR matches that assigns the name. */
  lemma {:induction false} KeyedFirst(c: string, name: string, from: nat)
    requires from <= |c|
    ensures
      var caps := Captures(c, AnyAssignment, from);
      var i := FirstAssigning(c, caps, name);
      KeyedMatch(c, name, from) == if i < |caps| then Some(caps[i]) else None
    decreases |c| - from
  {
    CapturesUnfold(c, AnyAssignment, from);
    if Find(c, AnyAssignment, from).Some? {
      var m := Find(c, AnyAssignment, from).value;
      FindSound(c, AnyAssignment, from);
      var rest := Captures(c, AnyAssignment, m.end);
      FirstAssigningCons(c, m, rest, name);
      if !Assigned(c, m, name) {
        KeyedFirst(c, name, m.end);
      }
    }
  }

  /** The first assigning match of `[m] + rest` is `m`, or one past the first of `rest`. */
  lemma FirstAssigningCons(c: string, m: Assignment, rest: seq<Assignment>, name: string)
    ensures FirstAssigning(c, [m] + rest, name) == if Assigned(c, m, name) then 0 else 1 + FirstAssigning(c, rest, name)
    ensures forall i | 0 <= i < |rest| :: ([m] + rest)[i + 1] == rest[i]
  {
    assert ([m] + rest)[1..] == rest;
  }

  /**
   * `get_var` returns the value of the first assignment in the text whose
   * key is `name`, whatever prefix it carries, and nothing when no
   * assignment has that key.
   */
  lemma GetVarFirst(c: string, name: string)
    ensures
      var caps := Captures(c, AnyAssignment, 0);
      var i := FirstAssigning(c, caps, name);
      && (i == |caps| ==> GetVar(c, name) == None)
      && (i < |caps| ==> GetVar(c, name) == Some(Value(c, caps[i])))
  {
    KeyedFirst(c, name, 0);
    if KeyedMatch(c, name, 0).Some? {
      Groups(c, AnyAssignment, KeyedMatch(c, name, 0).value);
    }
  }

  /** `get_var` reads the value of the match the loop stops at. */
  lemma GetVarOf(c: string, name: string, m: Assignment)
    requires KeyedMatch(c, name, 0) == Some(m)
    ensures Spans(c, m) && GetVar(c, name) == Some(Value(c, m))
  {
    Groups(c, AnyAssignment, m);
  }

  /** A value found for `name` comes from an assignment whose key is exactly `name`, written `name=`. */
  lemma GetVarKey(c: string, name: string)
    requires GetVar(c, name).Some?
    ensures KeyedMatch(c, name, 0).Some?
    ensures var m := KeyedMatch(c, name, 0).value;
      && Key(c, m) == name && Occurs(c, name + "=", m.keyStart)
      && GetVar(c, name) == Some(Value(c, m))
  {
    var m := KeyedMatch(c, name, 0).value;
    KeyTrimmed(c, m);
    Groups(c, AnyAssignment, m);
    KeyOccurs(c, m);
  }

  /**
   * A name whose every occurrence has a `#` before it on its line (a
   * commented-out assignment) has no value.
   */
  lemma GetVarComment(c: string, name: string)
    requires forall i: nat | Occurs(c, name, i) :: exists k | LineStartOf(c, i) <= k < i :: c[k] == '#'
    ensures GetVar(c, name) == None
  {
    if GetVar(c, name).Some? {
      GetVarKey(c, name);
      KeyUncommented(c, KeyedMatch(c, name, 0).value);
    }
  }

  /** The key of an assignment occurs at its place with no `#` before it on its line. */
  lemma KeyUncommented(c: string, m: Assignment)
    requires WellFormed(c, m)
    ensures Occurs(c, Key(c, m), m.keyStart)
    ensures forall k | LineStartOf(c, m.keyStart) <= k < m.keyStart :: c[k] != '#'
  {
    assert IsLineStart(c, m.start);
    RegionChars(c, m);
  }

  /** The text `put_var` writes for a new name: a line feed, then `name=val`. */
  function Appended(c: string, name: string, val: string): (d: string)
    ensures |d| == |c| + |name| + |val| + 2
    ensures d[..|c|] == c && d[|c|] == '\n' && d[|c| + 1..|c| + 1 + |name|] == name
    ensures d[|c| + 1 + |name|] == '=' && d[|c| + |name| + 2..] == val
  {
    c + "\n" + name + "=" + val
  }

  /**
   * After a line `name=val` is appended to a text where `name` has no value,
   * `get_var` finds `val`: the earlier assignments do not change and none
   * of them assigns the name.
   */
  lemma AppendGetVar(c: string, name: string, val: string)
    requires IsName(name) && val != [] && '\n' !in val && GetVar(c, name) == None
    ensures GetVar(Appended(c, name, val), name) == Some(val)
  {
    AppendKeyed(c, name, val, 0);
    Groups(Appended(c, name, val), AnyAssignment, KeyedMatch(Appended(c, name, val), name, 0).value);
  }

  lemma {:induction false} AppendKeyed(c: string, name: string, val: string, from: nat)
    requires IsName(name) && val != [] && '\n' !in val && from <= |c| && KeyedMatch(c, name, from).None?
    ensures KeyedMatch(Appended(c, name, val), name, from).Some?
    ensures Value(Appended(c, name, val), KeyedMatch(Appended(c, name, val), name, from).value) == val
    decreases |c| - from
  {
    var d := Appended(c, name, val);
    if Find(c, AnyAssignment, from).Some? {
      var m := Find(c, AnyAssignment, from).value;
      FindSound(c, AnyAssignment, from);
      FindExtend(c, d, AnyAssignment, from);
      assert c[..|c|] == c;
      SliceAgree(c, d, |c|, m.keyStart, m.eq);
      AppendKeyed(c, name, val, m.end);
    } else {
      AppendTail(c, name, val, from);
    }
  }

  /** When no assignment is left after `from`, the next one `get_var` meets is the appended line's. */
  lemma AppendTail(c: string, name: string, val: string, from: nat)
    requires IsName(name) && val != [] && '\n' !in val && from <= |c| && Find(c, AnyAssignment, from).None?
    ensures KeyedMatch(Appended(c, name, val), name, from).Some?
    ensures Value(Appended(c, name, val), KeyedMatch(Appended(c, name, val), name, from).value) == val
  {
    var d := Appended(c, name, val);
    var line := |c| + 1;
    AppendedLineFits(c, name, val);
    MatchAtPreferred(d, AnyAssignment, Assignment(line, line, line, line, line + |name|, |d|));
    assert Find(d, AnyAssignment, from).Some? && Find(d, AnyAssignment, from).value.start <= line;
    var m := Find(d, AnyAssignment, from).value;
    FindSound(d, AnyAssignment, from);
    EqInAppended(c, name, val, from, m);
    KeyOfAppended(c, name, val, m);
    TrimWord(name);
  }

  /** The appended line is an assignment of `val` to `name`. */
  lemma AppendedLineFits(c: string, name: string, val: string)
    requires IsName(name) && val != [] && '\n' !in val
    ensures var d := Appended(c, name, val); var line := |c| + 1;
      Fits(d, AnyAssignment, Assignment(line, line, line, line, line + |name|, |d|))
  {
    LineFits(Appended(c, name, val), |c| + 1, name, val);
  }

  /** A last line `name=val` starting at `k` is an assignment of `val` to `name`. */
  lemma LineFits(d: string, k: nat, name: string, val: string)
    requires IsName(name) && val != [] && '\n' !in val
    requires 0 < k && |d| == k + |name| + 1 + |val| && d[k - 1] == '\n'
    requires d[k..k + |name|] == name && d[k + |name|] == '=' && d[k + |name| + 1..] == val
    ensures Fits(d, AnyAssignment, Assignment(k, k, k, k, k + |name|, |d|))
  {
    NameRun(d, k, name);
    LineEnd(d, k + |name| + 1, val);
    WellFormedIntro(d, Assignment(k, k, k, k, k + |name|, |d|));
  }

  /** The appended value runs to the end of the text. */
  lemma AppendedValueEnd(c: string, name: string, val: string)
    requires '\n' !in val
    ensures SpanEnd(Appended(c, name, val), |c| + |name| + 2, NotNewline) == |Appended(c, name, val)|
  {
    LineEnd(Appended(c, name, val), |c| + |name| + 2, val);
  }

  /** A last line without a line feed runs to the end of the text. */
  lemma LineEnd(d: string, i: nat, val: string)
    requires '\n' !in val && i <= |d| && d[i..] == val
    ensures SpanEnd(d, i, NotNewline) == |d|
  {
    assert forall k | i <= k < |d| :: d[k] == val[k - i];
    SpanEndUnique(d, i, |d|, NotNewline);
  }

  /** A match met after the old text's last assignment has its `=` in the appended line. */
  lemma EqInAppended(c: string, name: string, val: string, from: nat, m: Assignment)
    requires IsName(name) && from <= |c| && Find(c, AnyAssignment, from).None?
    requires Find(Appended(c, name, val), AnyAssignment, from) == Some(m) && WellFormed(Appended(c, name, val), m)
    ensures |c| < m.eq
  {
    var d := Appended(c, name, val);
    if m.eq < |c| {
      ValueStart(d, m);
      assert c[m.eq] == d[m.eq] && c[m.eq + 1] == d[m.eq + 1];
      AssignsAt(c, m.eq);
      assert c[..|c|] == c;
      MatchTransfer(d, c, |c|, AnyAssignment, m.start);
    }
  }

  /** A match of the appended text whose `=` lies past the old text, starting no later than the new line, is that line's. */
  lemma KeyOfAppended(c: string, name: string, val: string, m: Assignment)
    requires IsName(name) && val != [] && '\n' !in val
    requires m.start <= |c| + 1 && |c| < m.eq
    requires MatchAt(Appended(c, name, val), AnyAssignment, m.start) == Some(m) && WellFormed(Appended(c, name, val), m)
    ensures m.keyStart == |c| + 1 && m.eq == |c| + 1 + |name|
    ensures Key(Appended(c, name, val), m) == name && Value(Appended(c, name, val), m) == val
  {
    EqOfAppended(c, name, val, m);
    KeyStartOfAppended(c, name, val, m);
    AppendedValueEnd(c, name, val);
    AppendedParts(Appended(c, name, val), |c| + 1, name, val, m);
  }

  /** A match whose key and value sit where a line `name=val` starting at `k` has them reads `name` and `val`. */
  lemma AppendedParts(d: string, k: nat, name: string, val: string, m: Assignment)
    requires Spans(d, m) && m.keyStart == k && m.eq == k + |name| && m.end == |d| == k + |name| + 1 + |val|
    requires d[k..k + |name|] == name && d[k + |name| + 1..] == val
    ensures Key(d, m) == name && Value(d, m) == val
  {
  }

  /** The first `=` after the old text is the appended line's. */
  lemma EqOfAppended(c: string, name: string, val: string, m: Assignment)
    requires IsName(name) && m.start <= |c| + 1 && |c| < m.eq && WellFormed(Appended(c, name, val), m)
    ensures m.eq == |c| + 1 + |name|
  {
    var d := Appended(c, name, val);
    NameRun(d, |c| + 1, name);
    RunAll(d, |c| + 1, |c| + 1 + |name|, Word);
    FirstEq(d, m, |c| + 1 + |name|);
  }

  /** The key of a match whose `=` ends the appended name starts where the name does. */
  lemma KeyStartOfAppended(c: string, name: string, val: string, m: Assignment)
    requires IsName(name) && m.start <= |c| + 1 && m.eq == |c| + 1 + |name|
    requires MatchAt(Appended(c, name, val), AnyAssignment, m.start) == Some(m) && WellFormed(Appended(c, name, val), m)
    ensures m.keyStart == |c| + 1
  {
    var d := Appended(c, name, val);
    NameRun(d, |c| + 1, name);
    RunAll(d, |c| + 1, |c| + 1 + |name|, Word);
    RunAll(d, m.keyStart, m.eq, Word);
    KeyBoundary(d, m.start);
  }

  /**
   * `is_exported_var` needs the word `export` in the text, and after it an
   * assignment to the name: it is false for a name that is not assigned and
   * for a text where no assignment is exported.
   */
  lemma ExportedNeedsText(c: string, name: string)
    requires IsName(name) && IsExportedVar(c, name)
    ensures exists i, j :: i + 6 <= j && Occurs(c, "export", i) && Occurs(c, name + "=", j)
  {
    var m :| Fits(c, Exported(name), m);
    KeyOccurs(c, m);
    assert Occurs(c, "export", m.prefixStart);
  }

  /** The key of an assignment, followed by its `=`, occurs at the key. */
  lemma KeyOccurs(c: string, m: Assignment)
    requires Spans(c, m) && c[m.eq] == '='
    ensures Occurs(c, Key(c, m) + "=", m.keyStart)
  {
    assert c[m.keyStart..m.eq + 1] == c[m.keyStart..m.eq] + [c[m.eq]];
  }
}
