/**
 * The shell configuration editor: the text of an rc file and the
 * operations on the `key=value` assignments in it. Looking a variable up
 * and testing whether it is exported only read the text, so they are
 * functions of it; the rewrites that putting, removing and exporting a
 * variable perform are functions of the text too, applied to the
 * `content` field of a `ShellConfiguration` object in module `Shell`.
 */
module Configuration {
  import opened Wrappers
  import opened Text
  import opened Pattern
  import opened Locality

  /**
   * The first of the successive REG_VAR matches from `from` on whose key,
   * trimmed, is `name`: the loop of `get_var`.
   */
  function KeyedMatch(c: string, name: string, from: nat): (r: Option<Assignment>)
    requires from <= |c|
    ensures r.Some? ==> Fits(c, AnyAssignment, r.value) && Trim(Key(c, r.value)) == name && from <= r.value.start
    decreases |c| - from
  {
    match Find(c, AnyAssignment, from)
    case None => None
    case Some(m) =>
      FindSound(c, AnyAssignment, from);
      if Trim(Key(c, m)) == name then Some(m) else KeyedMatch(c, name, m.end)
  }

  /** `get_var`: the value (group 5) of the first assignment whose key is `name`. */
  function GetVar(c: string, name: string): (r: Option<string>)
    ensures r.Some? ==> IsName(name) && |r.value| > 0 && '\n' !in r.value
  {
    match KeyedMatch(c, name, 0)
    case None => None
    case Some(m) =>
      KeyValueShape(c, name, m);
      Some(Group(c, AnyAssignment, m, 5))
  }

  /** A match whose trimmed key is `name`: `name` is a name, and the value is a non-empty piece of one line. */
  lemma KeyValueShape(c: string, name: string, m: Assignment)
    requires Fits(c, AnyAssignment, m) && Trim(Key(c, m)) == name
    ensures IsName(name) && |Group(c, AnyAssignment, m, 5)| > 0 && '\n' !in Group(c, AnyAssignment, m, 5)
  {
    KeyTrimmed(c, m);
    RunAll(c, m.keyStart, m.eq, Word);
    assert Group(c, AnyAssignment, m, 5) == c[m.eq + 1..m.end];
    LineRest(c, m.eq + 1, m.end);
  }

  /** The rest of a line from `i` holds no line feed. */
  lemma LineRest(c: string, i: nat, e: nat)
    requires i <= |c| && e == SpanEnd(c, i, NotNewline)
    ensures '\n' !in c[i..e]
  {
    SpanEndAll(c, i, NotNewline);
    assert forall k | 0 <= k < e - i :: c[i..e][k] == c[i + k];
  }

  /** `is_exported_var`: the exported pattern for `name` matches somewhere in the text. */
  function IsExportedVar(c: string, name: string): (b: bool)
    requires IsName(name)
    ensures b <==> exists m :: Fits(c, Exported(name), m)
  {
    if Find(c, Exported(name), 0).Some? then
      FindSound(c, Exported(name), 0);
      true
    else
      ExportedFound(c, name);
      false
  }

  /** Whenever the exported pattern has a match, the search finds one. */
  lemma ExportedFound(c: string, name: string)
    requires IsName(name)
    ensures (exists m :: Fits(c, Exported(name), m)) ==> Find(c, Exported(name), 0).Some?
  {
    if m :| Fits(c, Exported(name), m) {
      MatchAtPreferred(c, Exported(name), m);
    }
  }

  /** The template `$1$2$3$4=` followed by the new value: indent, prefix, spacing and key kept. */
  function PutTemplate(val: string): (r: seq<Piece>)
    ensures forall x | x in r && x.Ref? :: 1 <= x.group <= 4
  {
    [Ref(1), Ref(2), Ref(3), Ref(4), Lit("=" + val)]
  }

  /** The template `${1}export ${3}` + name + `=${4}`: the prefix becomes `export`. */
  function ExportTemplate(name: string): (r: seq<Piece>)
    ensures forall x | x in r && x.Ref? :: 1 <= x.group <= 4
  {
    [Ref(1), Lit("export "), Ref(3), Lit(name + "="), Ref(4)]
  }

  /** The text with the value of the match `m` replaced by `val`. */
  function SetValue(c: string, m: Assignment, val: string): (r: string)
    requires Spans(c, m)
    ensures |r| == |c| + |val| - (m.end - (m.eq + 1))
    ensures r[..m.eq + 1] == c[..m.eq + 1] && r[m.eq + 1..m.eq + 1 + |val|] == val
    ensures r[m.eq + 1 + |val|..] == c[m.end..]
  {
    c[..m.eq + 1] + val + c[m.end..]
  }

  /** The text with the prefix word of the match `m` replaced by `export `. */
  function SetExport(c: string, m: Assignment): (r: string)
    requires Spans(c, m)
    ensures |r| == |c| + 7 - PrefixLen(m)
    ensures r[..m.prefixStart] == c[..m.prefixStart] && r[m.prefixStart..m.prefixStart + 7] == "export "
    ensures r[m.prefixStart + 7..] == c[m.spacingStart..]
  {
    c[..m.prefixStart] + "export " + c[m.spacingStart..]
  }

  /** The text with the match `m` cut out; the line feed that ended it stays. */
  function Cut(c: string, m: Assignment): (r: string)
    requires Spans(c, m)
    ensures |r| == |c| - (m.end - m.start)
    ensures r[..m.start] == c[..m.start] && r[m.start..] == c[m.end..]
  {
    c[..m.start] + c[m.end..]
  }

  /** The put template, for a match, spells the match up to its `=` followed by `val`. */
  lemma ExpandPut(c: string, m: Assignment, val: string)
    requires Spans(c, m) && c[m.eq] == '='
    ensures Expand(c, AnyAssignment, m, PutTemplate(val)) == c[m.start..m.eq + 1] + val
  {
    ExpandFive(c, AnyAssignment, m, Ref(1), Ref(2), Ref(3), Ref(4), Lit("=" + val));
    Groups(c, AnyAssignment, m);
    JoinToEq(c, m);
  }

  /** The indent, prefix, spacing and key of a match followed by `=` spell the match up to its `=`. */
  lemma JoinToEq(c: string, m: Assignment)
    requires Spans(c, m) && c[m.eq] == '='
    ensures Indent(c, m) + Prefix(c, m) + Spacing(c, m) + Key(c, m) + "=" == c[m.start..m.eq + 1]
  {
    assert c[m.eq..m.eq + 1] == "=";
    SplitAt(c, m.keyStart, m.eq, m.eq + 1);
    SplitAt(c, m.spacingStart, m.keyStart, m.eq + 1);
    SplitAt(c, m.prefixStart, m.spacingStart, m.eq + 1);
    SplitAt(c, m.start, m.prefixStart, m.eq + 1);
  }

  /** Rewriting the first assignment with the put template keeps all of it but its value. */
  lemma ReplacePut(c: string, val: string)
    requires Find(c, AnyAssignment, 0).Some?
    ensures WellFormed(c, Find(c, AnyAssignment, 0).value)
    ensures Replace(c, AnyAssignment, PutTemplate(val)) == SetValue(c, Find(c, AnyAssignment, 0).value, val)
  {
    var m := Find(c, AnyAssignment, 0).value;
    FindSound(c, AnyAssignment, 0);
    ReplaceFound(c, AnyAssignment, PutTemplate(val));
    ExpandPut(c, m, val);
    SpliceValue(c, m, val);
  }

  /** Putting the match up to its `=`, then `val`, in place of the match is `SetValue`. */
  lemma SpliceValue(c: string, m: Assignment, val: string)
    requires Spans(c, m)
    ensures c[..m.start] + (c[m.start..m.eq + 1] + val) + c[m.end..] == SetValue(c, m, val)
  {
    assert c[..m.start] + c[m.start..m.eq + 1] == c[..m.eq + 1];
  }

  /** The export template, for a named match, spells it with `export ` in place of its prefix. */
  lemma ExpandExport(c: string, name: string, m: Assignment)
    requires Spans(c, m) && c[m.eq] == '=' && c[m.keyStart..m.eq] == name
    ensures Expand(c, Named(name), m, ExportTemplate(name)) == c[m.start..m.prefixStart] + "export " + c[m.spacingStart..m.end]
  {
    ExpandFive(c, Named(name), m, Ref(1), Lit("export "), Ref(3), Lit(name + "="), Ref(4));
    Groups(c, Named(name), m);
    JoinFromSpacing(c, m);
  }

  /** The spacing, key, `=` and value of a match spell the match from its spacing on. */
  lemma JoinFromSpacing(c: string, m: Assignment)
    requires Spans(c, m) && c[m.eq] == '='
    ensures Spacing(c, m) + (Key(c, m) + "=") + Value(c, m) == c[m.spacingStart..m.end]
  {
    assert c[m.eq..m.eq + 1] == "=";
    SplitAt(c, m.eq, m.eq + 1, m.end);
    SplitAt(c, m.keyStart, m.eq, m.end);
    SplitAt(c, m.spacingStart, m.keyStart, m.end);
  }

  /** Rewriting the first named match with the export template replaces its prefix by `export `. */
  lemma ReplaceExport(c: string, name: string)
    requires IsName(name) && Find(c, Named(name), 0).Some?
    ensures WellFormed(c, Find(c, Named(name), 0).value)
    ensures Replace(c, Named(name), ExportTemplate(name)) == SetExport(c, Find(c, Named(name), 0).value)
  {
    var m := Find(c, Named(name), 0).value;
    FindSound(c, Named(name), 0);
    ReplaceFound(c, Named(name), ExportTemplate(name));
    ExpandExport(c, name, m);
    SpliceExport(c, m);
  }

  /** Putting the expanded export template in place of the match is `SetExport`. */
  lemma SpliceExport(c: string, m: Assignment)
    requires Spans(c, m)
    ensures c[..m.start] + (c[m.start..m.prefixStart] + "export " + c[m.spacingStart..m.end]) + c[m.end..] == SetExport(c, m)
  {
    Regroup(c[..m.start], c[m.start..m.prefixStart], "export ", c[m.spacingStart..m.end], c[m.end..]);
    assert c[..m.start] + c[m.start..m.prefixStart] == c[..m.prefixStart];
    assert c[m.spacingStart..m.end] + c[m.end..] == c[m.spacingStart..];
  }

  /** Replacing the first named match with nothing cuts it out. */
  lemma ReplaceRemove(c: string, name: string)
    requires IsName(name) && Find(c, Named(name), 0).Some?
    ensures WellFormed(c, Find(c, Named(name), 0).value)
    ensures Replace(c, Named(name), []) == Cut(c, Find(c, Named(name), 0).value)
  {
    FindSound(c, Named(name), 0);
    ReplaceFound(c, Named(name), []);
    SpliceNothing(c, Named(name), Find(c, Named(name), 0).value);
  }

  /** Replacing a match by the empty template cuts it out. */
  lemma SpliceNothing(c: string, pat: Pattern, m: Assignment)
    requires Spans(c, m)
    ensures c[..m.start] + Expand(c, pat, m, []) + c[m.end..] == Cut(c, m)
  {
    assert Expand(c, pat, m, []) == "";
  }

  /** A named match's prefix that `export_var` stops at: `export`, or none at all. */
  predicate Exportable(c: string, m: Assignment) {
    && m.prefixStart <= m.spacingStart <= |c|
    && (c[m.prefixStart..m.spacingStart] == "export" || c[m.prefixStart..m.spacingStart] == "")
  }

  /** The index of the first exportable match in `caps`, or `|caps|` when there is none. */
  function FirstExportable(c: string, caps: seq<Assignment>): (i: nat)
    ensures i <= |caps|
    ensures forall j | 0 <= j < i :: !Exportable(c, caps[j])
    ensures i < |caps| ==> Exportable(c, caps[i])
  {
    if caps == [] then 0
    else if Exportable(c, caps[0]) then 0
    else 1 + FirstExportable(c, caps[1..])
  }

  /** A match before the first exportable one that is not exportable itself leaves the first one further on. */
  lemma PastUnexportable(c: string, caps: seq<Assignment>, i: nat)
    requires i < |caps| && i <= FirstExportable(c, caps)
    requires WellFormed(c, caps[i]) && Prefix(c, caps[i]) != "export" && Prefix(c, caps[i]) != ""
    ensures i + 1 <= FirstExportable(c, caps)
  {
  }

  /**
   * The named match `export_var` settles on: the first one whose prefix is
   * `export` or empty. When there is one, the first named match exists too.
   */
  function ExportTarget(c: string, name: string): (r: Option<Assignment>)
    requires IsName(name)
    ensures r.Some? ==> Fits(c, Named(name), r.value) && Exportable(c, r.value)
    ensures r.Some? ==> Find(c, Named(name), 0).Some? && Fits(c, Named(name), Find(c, Named(name), 0).value)
  {
    var caps := Captures(c, Named(name), 0);
    var i := FirstExportable(c, caps);
    if i < |caps| then
      CapturesFit(c, Named(name), 0);
      CapturesUnfold(c, Named(name), 0);
      FindSound(c, Named(name), 0);
      Some(caps[i])
    else None
  }

  /**
   * `export_var` settles on the `i`-th named match when it is the first
   * exportable one; group 4 is its value, and the rewrite, if any, applies
   * to the first named match.
   */
  lemma ExportTargetAt(c: string, name: string, caps: seq<Assignment>, i: nat)
    requires IsName(name) && caps == Captures(c, Named(name), 0)
    requires i < |caps| && Exportable(c, caps[i]) && i <= FirstExportable(c, caps)
    ensures ExportTarget(c, name) == Some(caps[i])
    ensures WellFormed(c, caps[i]) && Group(c, Named(name), caps[i], 4) == Value(c, caps[i])
    ensures Find(c, Named(name), 0).Some? && WellFormed(c, Find(c, Named(name), 0).value)
    ensures Replace(c, Named(name), ExportTemplate(name)) == SetExport(c, Find(c, Named(name), 0).value)
  {
    CapturesUnfold(c, Named(name), 0);
    assert FirstExportable(c, caps) == i;
    CaptureFits(c, Named(name), 0, i);
    Groups(c, Named(name), caps[i]);
    ReplaceExport(c, name);
  }

  /** `export_var` settles on no match when none is exportable. */
  lemma ExportTargetNone(c: string, name: string, caps: seq<Assignment>)
    requires IsName(name) && caps == Captures(c, Named(name), 0)
    requires FirstExportable(c, caps) == |caps|
    ensures ExportTarget(c, name).None?
  {
  }

  /** Splicing a text of three parts between two others. */
  lemma Regroup(a: string, b: string, x: string, d: string, e: string)
    ensures a + (b + x + d) + e == (a + b) + x + (d + e)
  {
  }

  /** Adjacent slices join. */
  lemma SplitAt(c: string, i: nat, j: nat, k: nat)
    requires i <= j <= k <= |c|
    ensures c[i..k] == c[i..j] + c[j..k]
  {
  }

  /** A key found by the `get_var` loop means REG_VAR has a leftmost match. */
  lemma KeyedFinds(c: string, name: string, from: nat)
    requires from <= |c| && KeyedMatch(c, name, from).Some?
    ensures Find(c, AnyAssignment, from).Some?
  {
  }
}
