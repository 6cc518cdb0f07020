/**
 * The three fixed multi-line patterns of the shell configuration editor,
 * matched by hand instead of by a regular-expression engine:
 *
 *   AnyAssignment   `^(\s*)(\w*?)(\s*)(\w+)=(.+?)$`          (REG_VAR)
 *   Named(n)        `^(\s*)(\w*?)(\s*)n=(.+?)$`              (export_var, remove_var)
 *   Exported(n)     `^(\s*)(export)(\s*)n=(.+?)$`            (is_exported_var)
 *
 * A match is a tuple of positions; `WellFormed` is the language of the
 * patterns and `MatchAt` picks, among the matches that start at one
 * position, the one a leftmost-first engine reports (greedy `\s*`,
 * lazy `\w*?`). `Find` is the leftmost search, `Captures` the
 * non-overlapping iteration and `Replace` the replacement of the first match.
 */
module Pattern {
  import opened Wrappers
  import opened Text

  /**
   * One match, as consecutive spans of the text: indent
   * [start, prefixStart), prefix word [prefixStart, spacingStart),
   * spacing [spacingStart, keyStart), key [keyStart, eq), the `=` at
   * `eq`, and the value (eq, end).
   */
  datatype Assignment = Assignment(start: nat, prefixStart: nat, spacingStart: nat, keyStart: nat, eq: nat, end: nat)

  datatype Pattern =
    | AnyAssignment
    | Named(name: string)
    | Exported(name: string)

  /** A name spliced into a pattern must be a plain word. */
  predicate ValidPattern(pat: Pattern) {
    pat.AnyAssignment? || IsName(pat.name)
  }

  /** The positions of `m` come in order and lie within `c`, so its groups can be read off. */
  predicate Spans(c: string, m: Assignment) {
    m.start <= m.prefixStart <= m.spacingStart <= m.keyStart <= m.eq < m.end <= |c|
  }

  /**
   * `m` is a match of `^(\s*)(\w*)(\s*)(\w+)=(.+)$` in `c`, split as its
   * fields say: white space, a word, white space, a non-empty word, `=`,
   * and a non-empty value that runs to the end of its line.
   */
  predicate WellFormed(c: string, m: Assignment) {
    && Spans(c, m)
    && m.keyStart < m.eq
    && IsLineStart(c, m.start)
    && Run(c, m.start, m.prefixStart, Space)
    && Run(c, m.prefixStart, m.spacingStart, Word)
    && Run(c, m.spacingStart, m.keyStart, Space)
    && Run(c, m.keyStart, m.eq, Word)
    && c[m.eq] == '='
    && m.end == SpanEnd(c, m.eq + 1, NotNewline)
    && m.eq + 1 < m.end
  }

  /** The parts of a match, put together. */
  lemma WellFormedIntro(c: string, m: Assignment)
    requires Spans(c, m) && m.keyStart < m.eq && IsLineStart(c, m.start)
    requires Run(c, m.start, m.prefixStart, Space) && Run(c, m.prefixStart, m.spacingStart, Word)
    requires Run(c, m.spacingStart, m.keyStart, Space) && Run(c, m.keyStart, m.eq, Word)
    requires c[m.eq] == '=' && m.end == SpanEnd(c, m.eq + 1, NotNewline) && m.eq + 1 < m.end
    ensures WellFormed(c, m)
  {
  }

  /** `m` is a match of the pattern `pat` in `c`. */
  predicate Fits(c: string, pat: Pattern, m: Assignment) {
    && WellFormed(c, m)
    && match pat
       case AnyAssignment => true
       case Named(name) => c[m.keyStart..m.eq] == name
       case Exported(name) => c[m.prefixStart..m.spacingStart] == "export" && c[m.keyStart..m.eq] == name
  }

  function Indent(c: string, m: Assignment): string
    requires Spans(c, m)
  {
    c[m.start..m.prefixStart]
  }

  function Prefix(c: string, m: Assignment): string
    requires Spans(c, m)
  {
    c[m.prefixStart..m.spacingStart]
  }

  function Spacing(c: string, m: Assignment): string
    requires Spans(c, m)
  {
    c[m.spacingStart..m.keyStart]
  }

  function Key(c: string, m: Assignment): string
    requires Spans(c, m)
  {
    c[m.keyStart..m.eq]
  }

  function Value(c: string, m: Assignment): string
    requires Spans(c, m)
  {
    c[m.eq + 1..m.end]
  }

  /** Length of the lazy `(\w*?)` group: the quantity the engine minimises. */
  function PrefixLen(m: Assignment): int {
    m.spacingStart - m.prefixStart
  }

  /**
   * Capture group `k` of a match, numbered as in the pattern: 0 the whole
   * match, 1 indent, 2 prefix, 3 spacing, then key (4) and value (5) for
   * REG_VAR, or value (4) for the patterns with the name written in.
   */
  function Group(c: string, pat: Pattern, m: Assignment, k: nat): string
    requires Spans(c, m)
  {
    if k == 0 then c[m.start..m.end]
    else if k == 1 then Indent(c, m)
    else if k == 2 then Prefix(c, m)
    else if k == 3 then Spacing(c, m)
    else if pat.AnyAssignment? && k == 4 then Key(c, m)
    else if (pat.AnyAssignment? && k == 5) || (!pat.AnyAssignment? && k == 4) then Value(c, m)
    else ""
  }

  /** The capture groups of a match by number. */
  lemma Groups(c: string, pat: Pattern, m: Assignment)
    requires Spans(c, m)
    ensures Group(c, pat, m, 1) == Indent(c, m) && Group(c, pat, m, 2) == Prefix(c, m) && Group(c, pat, m, 3) == Spacing(c, m)
    ensures pat.AnyAssignment? ==> Group(c, pat, m, 4) == Key(c, m) && Group(c, pat, m, 5) == Value(c, m)
    ensures !pat.AnyAssignment? ==> Group(c, pat, m, 4) == Value(c, m)
  {
  }

  /** `=(.+?)$` matches at `i`: an `=` followed by at least one character of the same line. */
  predicate Assigns(c: string, i: nat) {
    i < |c| && c[i] == '=' && SpanEnd(c, i + 1, NotNewline) > i + 1
  }

  /**
   * The match a leftmost-first engine reports when it tries `pat` at
   * position `s`, if any. The indent is always the whole white-space run
   * (greedy `\s*`).
   */
  function MatchAt(c: string, pat: Pattern, s: nat): (r: Option<Assignment>)
    requires s <= |c| && ValidPattern(pat)
    ensures r.Some? ==> r.value.start == s && r.value.prefixStart == SpanEnd(c, s, Space)
    ensures r.Some? ==> r.value.end <= |c| && r.value.start < r.value.end
  {
    if !IsLineStart(c, s) then None
    else
      var p := SpanEnd(c, s, Space);
      match pat
      case AnyAssignment => MatchAny(c, s, p)
      case Named(name) => MatchNamed(c, name, s, p)
      case Exported(name) => MatchExported(c, name, s, p)
  }

  /**
   * REG_VAR after the indent `c[s..p]`: the lazy prefix is tried empty
   * first, so the word at `p` is the key when an `=` and a value follow
   * it; otherwise the prefix is that whole word, followed by the greedy
   * spacing and the key.
   */
  function MatchAny(c: string, s: nat, p: nat): (r: Option<Assignment>)
    requires s <= p <= |c|
    ensures r.Some? ==> r.value.start == s && r.value.prefixStart == p
    ensures r.Some? ==> r.value.end <= |c| && r.value.start < r.value.end
  {
    var e := SpanEnd(c, p, Word);
    if p < e && Assigns(c, e) then
      Some(Assignment(s, p, p, p, e, SpanEnd(c, e + 1, NotNewline)))
    else
      var r := SpanEnd(c, e, Space);
      var k := SpanEnd(c, r, Word);
      if r < k && Assigns(c, k) then
        Some(Assignment(s, p, e, r, k, SpanEnd(c, k + 1, NotNewline)))
      else None
  }

  /**
   * The named pattern after the indent `c[s..p]`. The pattern has no word
   * boundary before the name, so the shortest prefix that works leaves the
   * name as the tail of the word at `p` when that word ends in the name and
   * is followed by `=`; otherwise the prefix is the whole word, followed by
   * the greedy spacing and the name.
   */
  function MatchNamed(c: string, name: string, s: nat, p: nat): (r: Option<Assignment>)
    requires s <= p <= |c|
    ensures r.Some? ==> r.value.start == s && r.value.prefixStart == p
    ensures r.Some? ==> r.value.end <= |c| && r.value.start < r.value.end
  {
    var e := SpanEnd(c, p, Word);
    if p + |name| <= e && c[e - |name|..e] == name && Assigns(c, e) then
      Some(Assignment(s, p, e - |name|, e - |name|, e, SpanEnd(c, e + 1, NotNewline)))
    else
      var r := SpanEnd(c, e, Space);
      if r + |name| <= |c| && c[r..r + |name|] == name && Assigns(c, r + |name|) then
        Some(Assignment(s, p, e, r, r + |name|, SpanEnd(c, r + |name| + 1, NotNewline)))
      else None
  }

  /** The exported pattern after the indent `c[s..p]`: the literal `export`, the greedy spacing and the name. */
  function MatchExported(c: string, name: string, s: nat, p: nat): (r: Option<Assignment>)
    requires s <= p <= |c|
    ensures r.Some? ==> r.value.start == s && r.value.prefixStart == p
    ensures r.Some? ==> r.value.end <= |c| && r.value.start < r.value.end
  {
    if p + 6 <= |c| && c[p..p + 6] == "export" then
      var r := SpanEnd(c, p + 6, Space);
      if r + |name| <= |c| && c[r..r + |name|] == name && Assigns(c, r + |name|) then
        Some(Assignment(s, p, p + 6, r, r + |name|, SpanEnd(c, r + |name| + 1, NotNewline)))
      else None
    else None
  }

  /** What `MatchAt` reports is a match of the pattern. */
  lemma MatchAtSound(c: string, pat: Pattern, s: nat)
    requires s <= |c| && ValidPattern(pat)
    ensures MatchAt(c, pat, s).Some? ==> Fits(c, pat, MatchAt(c, pat, s).value)
  {
    if IsLineStart(c, s) {
      var p := SpanEnd(c, s, Space);
      match pat
      case AnyAssignment => MatchAnySound(c, s, p);
      case Named(name) => MatchNamedSound(c, name, s, p);
      case Exported(name) => MatchExportedSound(c, name, s, p);
    }
  }

  lemma MatchAnySound(c: string, s: nat, p: nat)
    requires s <= p <= |c| && IsLineStart(c, s) && p == SpanEnd(c, s, Space)
    ensures MatchAny(c, s, p).Some? ==> Fits(c, AnyAssignment, MatchAny(c, s, p).value)
  {
  }

  lemma MatchNamedSound(c: string, name: string, s: nat, p: nat)
    requires IsName(name)
    requires s <= p <= |c| && IsLineStart(c, s) && p == SpanEnd(c, s, Space)
    ensures MatchNamed(c, name, s, p).Some? ==> Fits(c, Named(name), MatchNamed(c, name, s, p).value)
  {
    var e := SpanEnd(c, p, Word);
    if p + |name| <= e && c[e - |name|..e] == name && Assigns(c, e) {
      NamedTailFits(c, name, s, p, e);
    } else {
      NamedNextFits(c, name, s, p, e);
    }
  }

  /** The name as the tail of the word at the indent's end, followed by a value, is a match. */
  lemma NamedTailFits(c: string, name: string, s: nat, p: nat, e: nat)
    requires IsName(name)
    requires s <= p <= |c| && IsLineStart(c, s) && p == SpanEnd(c, s, Space) && e == SpanEnd(c, p, Word)
    requires p + |name| <= e && c[e - |name|..e] == name && Assigns(c, e)
    ensures MatchNamed(c, name, s, p).Some? ==> Fits(c, Named(name), MatchNamed(c, name, s, p).value)
  {
    var w := Assignment(s, p, e - |name|, e - |name|, e, SpanEnd(c, e + 1, NotNewline));
    assert MatchNamed(c, name, s, p) == Some(w);
    RunPart(c, p, e, e - |name|, e, Word);
    RunPart(c, p, e, p, e - |name|, Word);
    assert Run(c, e - |name|, e - |name|, Space);
  }

  /** The name after the whole word and the spacing, followed by a value, is a match. */
  lemma NamedNextFits(c: string, name: string, s: nat, p: nat, e: nat)
    requires IsName(name)
    requires s <= p <= |c| && IsLineStart(c, s) && p == SpanEnd(c, s, Space) && e == SpanEnd(c, p, Word)
    requires !(p + |name| <= e && c[e - |name|..e] == name && Assigns(c, e))
    ensures MatchNamed(c, name, s, p).Some? ==> Fits(c, Named(name), MatchNamed(c, name, s, p).value)
  {
    if MatchNamed(c, name, s, p).Some? {
      var w := MatchNamed(c, name, s, p).value;
      NamedNextShape(c, name, s, p, e);
      NextFits(c, name, w);
    }
  }

  /** Where the named pattern puts the parts of a match after the whole word at `p`. */
  lemma NamedNextShape(c: string, name: string, s: nat, p: nat, e: nat)
    requires s <= p <= |c| && e == SpanEnd(c, p, Word)
    requires !(p + |name| <= e && c[e - |name|..e] == name && Assigns(c, e))
    requires MatchNamed(c, name, s, p).Some?
    ensures var w := MatchNamed(c, name, s, p).value;
      && w.start == s && w.prefixStart == p && w.spacingStart == e && w.keyStart == SpanEnd(c, e, Space)
      && w.eq == w.keyStart + |name| <= |c| && c[w.keyStart..w.eq] == name && Assigns(c, w.eq)
      && w.end == SpanEnd(c, w.eq + 1, NotNewline)
  {
  }

  /** Indent, whole word, spacing and the name followed by a value make a match of the named pattern. */
  lemma NextFits(c: string, name: string, w: Assignment)
    requires IsName(name) && w.start <= w.prefixStart <= |c| && IsLineStart(c, w.start)
    requires w.prefixStart == SpanEnd(c, w.start, Space) && w.spacingStart == SpanEnd(c, w.prefixStart, Word)
    requires w.keyStart == SpanEnd(c, w.spacingStart, Space)
    requires w.eq == w.keyStart + |name| <= |c| && c[w.keyStart..w.eq] == name && Assigns(c, w.eq)
    requires w.end == SpanEnd(c, w.eq + 1, NotNewline)
    ensures Fits(c, Named(name), w)
  {
    NameRun(c, w.keyStart, name);
    WellFormedIntro(c, w);
  }

  lemma MatchExportedSound(c: string, name: string, s: nat, p: nat)
    requires IsName(name)
    requires s <= p <= |c| && IsLineStart(c, s) && p == SpanEnd(c, s, Space)
    ensures MatchExported(c, name, s, p).Some? ==> Fits(c, Exported(name), MatchExported(c, name, s, p).value)
  {
    if MatchExported(c, name, s, p).Some? {
      assert IsName("export");
      NameRun(c, p, "export");
      NameRun(c, SpanEnd(c, p + 6, Space), name);
    }
  }

  /** The key REG_VAR reports starts a word: no word character precedes it. */
  lemma KeyBoundary(c: string, s: nat)
    requires s <= |c| && MatchAt(c, AnyAssignment, s).Some?
    ensures var m := MatchAt(c, AnyAssignment, s).value; m.keyStart == 0 || !IsWord(c[m.keyStart - 1])
  {
    var p := SpanEnd(c, s, Space);
    var e := SpanEnd(c, p, Word);
    SpanEndAll(c, s, Space);
    if !(p < e && Assigns(c, e)) {
      var r := SpanEnd(c, e, Space);
      SpanEndAll(c, p, Word);
      SpanEndAll(c, e, Space);
      SpanEndAll(c, r, Word);
    }
  }

  /**
   * Whenever the pattern matches at a position, `MatchAt` reports a match
   * there, and its lazy prefix is no longer than that of any other match
   * starting at the same position.
   */
  lemma MatchAtPreferred(c: string, pat: Pattern, w: Assignment)
    requires ValidPattern(pat) && Fits(c, pat, w)
    ensures MatchAt(c, pat, w.start).Some?
    ensures PrefixLen(MatchAt(c, pat, w.start).value) <= PrefixLen(w)
  {
    var p := SpanEnd(c, w.start, Space);
    IndentOf(c, w);
    match pat
    case AnyAssignment => AnyPreferred(c, w, p);
    case Named(name) => NamedPreferred(c, name, w, p);
    case Exported(name) => ExportedPreferred(c, name, w, p);
  }

  /**
   * The indent of a match is the whole white-space run at its start: a
   * non-empty prefix begins right after it, and with an empty prefix the
   * key does and is the whole word there.
   */
  lemma IndentOf(c: string, w: Assignment)
    requires WellFormed(c, w)
    ensures w.prefixStart < w.spacingStart ==> w.prefixStart == SpanEnd(c, w.start, Space)
    ensures w.prefixStart == w.spacingStart ==>
      w.keyStart == SpanEnd(c, w.start, Space) && SpanEnd(c, w.keyStart, Word) == w.eq
  {
    SpanEndAll(c, w.start, Space);
    RunAll(c, w.keyStart, w.eq, Word);
    if w.prefixStart < w.spacingStart {
      RunAll(c, w.prefixStart, w.spacingStart, Word);
    } else {
      RunJoin(c, w.start, w.prefixStart, w.keyStart, Space);
      RunStop(c, w.keyStart, w.eq, Word);
    }
  }

  /** A match with a non-empty prefix whose prefix stops inside the word at `p` has none but the key after it. */
  lemma WordSplit(c: string, w: Assignment, p: nat)
    requires WellFormed(c, w) && w.prefixStart == p < w.spacingStart < SpanEnd(c, p, Word)
    ensures w.keyStart == w.spacingStart && SpanEnd(c, p, Word) == w.eq
  {
    var e := SpanEnd(c, p, Word);
    SpanEndAll(c, p, Word);
    RunAll(c, w.spacingStart, w.keyStart, Space);
    RunJoin(c, p, w.spacingStart, w.eq, Word);
    RunStop(c, p, w.eq, Word);
  }

  lemma AnyPreferred(c: string, w: Assignment, p: nat)
    requires Fits(c, AnyAssignment, w) && p == SpanEnd(c, w.start, Space)
    requires w.prefixStart < w.spacingStart ==> w.prefixStart == p
    requires w.prefixStart == w.spacingStart ==> w.keyStart == p && SpanEnd(c, w.keyStart, Word) == w.eq
    ensures MatchAt(c, AnyAssignment, w.start) == MatchAny(c, w.start, p)
    ensures MatchAny(c, w.start, p).Some?
    ensures PrefixLen(MatchAny(c, w.start, p).value) <= PrefixLen(w)
  {
    var e := SpanEnd(c, p, Word);
    if w.prefixStart < w.spacingStart && !(p < e && Assigns(c, e)) {
      if w.spacingStart < e {
        WordSplit(c, w, p);
      }
      RunStop(c, e, w.keyStart, Space);
      RunStop(c, w.keyStart, w.eq, Word);
    }
  }

  lemma NamedPreferred(c: string, name: string, w: Assignment, p: nat)
    requires IsName(name) && Fits(c, Named(name), w) && p == SpanEnd(c, w.start, Space)
    requires w.prefixStart < w.spacingStart ==> w.prefixStart == p
    requires w.prefixStart == w.spacingStart ==> w.keyStart == p && SpanEnd(c, w.keyStart, Word) == w.eq
    ensures MatchAt(c, Named(name), w.start) == MatchNamed(c, name, w.start, p)
    ensures MatchNamed(c, name, w.start, p).Some?
    ensures PrefixLen(MatchNamed(c, name, w.start, p).value) <= PrefixLen(w)
  {
    var e := SpanEnd(c, p, Word);
    if w.prefixStart == w.spacingStart || w.spacingStart < e {
      if w.prefixStart < w.spacingStart {
        WordSplit(c, w, p);
      }
      NamedInWord(c, name, w, p);
    } else {
      NamedAfterWord(c, name, w, p);
    }
  }

  /** The name ends the word at the indent's end: the empty-prefix reading is the engine's. */
  lemma NamedInWord(c: string, name: string, w: Assignment, p: nat)
    requires IsName(name) && Fits(c, Named(name), w) && p <= w.keyStart
    requires SpanEnd(c, p, Word) == w.eq
    ensures p + |name| <= SpanEnd(c, p, Word)
    ensures c[SpanEnd(c, p, Word) - |name|..SpanEnd(c, p, Word)] == name
    ensures Assigns(c, SpanEnd(c, p, Word))
  {
  }

  /** The prefix is the whole word at the indent's end: no reading has a longer one. */
  lemma NamedAfterWord(c: string, name: string, w: Assignment, p: nat)
    requires IsName(name) && Fits(c, Named(name), w) && w.prefixStart == p < w.spacingStart
    requires SpanEnd(c, p, Word) <= w.spacingStart && p == SpanEnd(c, w.start, Space)
    ensures MatchNamed(c, name, w.start, p).Some?
    ensures PrefixLen(MatchNamed(c, name, w.start, p).value) <= PrefixLen(w)
  {
    var e := SpanEnd(c, p, Word);
    assert e == w.spacingStart;
    if !(p + |name| <= e && c[e - |name|..e] == name && Assigns(c, e)) {
      RunStop(c, e, w.keyStart, Space);
      assert Assigns(c, w.eq);
      MatchNamedNext(c, name, w.start, p, e, w.keyStart);
    }
  }

  /** When the name does not end the word at `p`, the named pattern reads it after the word and the spacing. */
  lemma MatchNamedNext(c: string, name: string, s: nat, p: nat, e: nat, r: nat)
    requires s <= p <= |c| && e == SpanEnd(c, p, Word) && r == SpanEnd(c, e, Space)
    requires !(p + |name| <= e && c[e - |name|..e] == name && Assigns(c, e))
    requires r + |name| <= |c| && c[r..r + |name|] == name && Assigns(c, r + |name|)
    ensures MatchNamed(c, name, s, p) == Some(Assignment(s, p, e, r, r + |name|, SpanEnd(c, r + |name| + 1, NotNewline)))
  {
  }

  lemma ExportedPreferred(c: string, name: string, w: Assignment, p: nat)
    requires IsName(name) && Fits(c, Exported(name), w) && p == SpanEnd(c, w.start, Space)
    requires w.prefixStart < w.spacingStart ==> w.prefixStart == p
    ensures MatchAt(c, Exported(name), w.start) == MatchExported(c, name, w.start, p)
    ensures MatchExported(c, name, w.start, p).Some?
    ensures PrefixLen(MatchExported(c, name, w.start, p).value) <= PrefixLen(w)
  {
    assert w.prefixStart == p && w.spacingStart == p + 6;
    RunStop(c, p + 6, w.keyStart, Space);
    assert c[w.keyStart..w.keyStart + |name|] == name;
  }

  /** A match is determined by where it starts, where its prefix starts and where its spacing starts. */
  lemma Determined(c: string, a: Assignment, b: Assignment)
    requires WellFormed(c, a) && WellFormed(c, b)
    requires a.start == b.start && a.prefixStart == b.prefixStart && a.spacingStart == b.spacingStart
    ensures a == b
  {
    RunAll(c, a.keyStart, a.eq, Word);
    RunAll(c, b.keyStart, b.eq, Word);
    RunStop(c, a.spacingStart, a.keyStart, Space);
    RunStop(c, b.spacingStart, b.keyStart, Space);
    RunStop(c, a.keyStart, a.eq, Word);
    RunStop(c, b.keyStart, b.eq, Word);
  }

  /**
   * The leftmost match of `pat` at or after `from`: the match `MatchAt`
   * reports at the first position where there is one.
   */
  function Find(c: string, pat: Pattern, from: nat): (r: Option<Assignment>)
    requires from <= |c| && ValidPattern(pat)
    ensures r.Some? ==> from <= r.value.start < r.value.end <= |c| && MatchAt(c, pat, r.value.start) == r
    ensures forall s | from <= s <= |c| && (r.None? || s < r.value.start) :: MatchAt(c, pat, s).None?
    decreases |c| - from
  {
    var m := MatchAt(c, pat, from);
    if m.Some? then m
    else if from == |c| then None
    else Find(c, pat, from + 1)
  }

  /** What `Find` reports is a match of the pattern. */
  lemma FindSound(c: string, pat: Pattern, from: nat)
    requires from <= |c| && ValidPattern(pat)
    ensures Find(c, pat, from).Some? ==> Fits(c, pat, Find(c, pat, from).value)
  {
    if Find(c, pat, from).Some? {
      MatchAtSound(c, pat, Find(c, pat, from).value.start);
    }
  }

  /** The successive non-overlapping matches from `from` on, as `captures_iter` yields them. */
  function Captures(c: string, pat: Pattern, from: nat): (r: seq<Assignment>)
    requires from <= |c| && ValidPattern(pat)
    ensures forall i | 0 <= i < |r| :: from <= r[i].start
    ensures r == [] <==> Find(c, pat, from).None?
    decreases |c| - from
  {
    match Find(c, pat, from)
    case None => []
    case Some(m) =>
      [m] + Captures(c, pat, m.end)
  }

  /** `Captures` is the leftmost match followed by the matches after it. */
  lemma CapturesUnfold(c: string, pat: Pattern, from: nat)
    requires from <= |c| && ValidPattern(pat)
    ensures Find(c, pat, from).None? ==> Captures(c, pat, from) == []
    ensures Find(c, pat, from).Some? ==>
      Captures(c, pat, from) == [Find(c, pat, from).value] + Captures(c, pat, Find(c, pat, from).value.end)
  {
  }

  /** Every element of `Captures` is a match of the pattern. */
  lemma {:induction false} CapturesFit(c: string, pat: Pattern, from: nat)
    requires from <= |c| && ValidPattern(pat)
    ensures forall i | 0 <= i < |Captures(c, pat, from)| :: Fits(c, pat, Captures(c, pat, from)[i])
    decreases |c| - from
  {
    if Find(c, pat, from).Some? {
      var m := Find(c, pat, from).value;
      FindSound(c, pat, from);
      CapturesFit(c, pat, m.end);
      assert Captures(c, pat, from) == [m] + Captures(c, pat, m.end);
    }
  }

  /** The `i`-th element of `Captures` is a match of the pattern. */
  lemma CaptureFits(c: string, pat: Pattern, from: nat, i: nat)
    requires from <= |c| && ValidPattern(pat) && i < |Captures(c, pat, from)|
    ensures Fits(c, pat, Captures(c, pat, from)[i])
  {
    CapturesFit(c, pat, from);
  }

  /** One piece of a replacement template: literal text or a group reference such as `$1`. */
  datatype Piece = Lit(text: string) | Ref(group: nat)

  /** The text one piece stands for, for one match: a missing group is empty. */
  function PieceText(c: string, pat: Pattern, m: Assignment, x: Piece): string
    requires Spans(c, m)
  {
    match x
    case Lit(s) => s
    case Ref(k) => Group(c, pat, m, k)
  }

  /** The replacement text a template stands for, for one match: the pieces' texts in order. */
  function Expand(c: string, pat: Pattern, m: Assignment, t: seq<Piece>): string
    requires Spans(c, m)
  {
    if t == [] then "" else Expand(c, pat, m, t[..|t| - 1]) + PieceText(c, pat, m, t[|t| - 1])
  }

  /** A template of five pieces expands to the five texts in a row. */
  lemma ExpandFive(c: string, pat: Pattern, m: Assignment, a: Piece, b: Piece, d: Piece, e: Piece, f: Piece)
    requires Spans(c, m)
    ensures Expand(c, pat, m, [a, b, d, e, f]) ==
      PieceText(c, pat, m, a) + PieceText(c, pat, m, b) + PieceText(c, pat, m, d) + PieceText(c, pat, m, e) + PieceText(c, pat, m, f)
  {
    var x := PieceText(c, pat, m, a) + PieceText(c, pat, m, b);
    assert [a][..0] == [];
    assert Expand(c, pat, m, [a]) == PieceText(c, pat, m, a);
    assert [a, b][..1] == [a];
    assert Expand(c, pat, m, [a, b]) == x;
    assert [a, b, d][..2] == [a, b];
    assert Expand(c, pat, m, [a, b, d]) == x + PieceText(c, pat, m, d);
    assert [a, b, d, e][..3] == [a, b, d];
    assert [a, b, d, e, f][..4] == [a, b, d, e];
  }

  /**
   * `Regex::replace`: the first match of `pat`, if any, is replaced by the
   * expanded template; a text the pattern does not match is left as it is.
   */
  function Replace(c: string, pat: Pattern, t: seq<Piece>): (r: string)
    requires ValidPattern(pat)
    ensures (forall v :: !Fits(c, pat, v)) ==> r == c
  {
    match Find(c, pat, 0)
    case None => c
    case Some(m) =>
      FindSound(c, pat, 0);
      c[..m.start] + Expand(c, pat, m, t) + c[m.end..]
  }

  /**
   * The match `replace` rewrites is the leftmost-first one: among the
   * matches of the pattern, the one that starts first, with the whole
   * white-space run as its indent and the shortest prefix. The expanded
   * template takes its place and the text around it is kept.
   */
  lemma ReplaceFirst(c: string, pat: Pattern, t: seq<Piece>, w: Assignment)
    requires ValidPattern(pat) && Fits(c, pat, w) && w.prefixStart == SpanEnd(c, w.start, Space)
    requires forall v | Fits(c, pat, v) :: w.start <= v.start
    requires forall v | Fits(c, pat, v) && v.start == w.start :: PrefixLen(w) <= PrefixLen(v)
    ensures Replace(c, pat, t) == c[..w.start] + Expand(c, pat, w, t) + c[w.end..]
  {
    MatchAtPreferred(c, pat, w);
    assert Find(c, pat, 0).Some?;
    var m := Find(c, pat, 0).value;
    FindSound(c, pat, 0);
    assert m.start == w.start;
    Determined(c, m, w);
    ReplaceFound(c, pat, t);
  }

  /** `replace` rewrites the match `Find` reports and keeps the text around it. */
  lemma ReplaceFound(c: string, pat: Pattern, t: seq<Piece>)
    requires ValidPattern(pat) && Find(c, pat, 0).Some?
    ensures Spans(c, Find(c, pat, 0).value)
    ensures Replace(c, pat, t) == c[..Find(c, pat, 0).value.start] + Expand(c, pat, Find(c, pat, 0).value, t) + c[Find(c, pat, 0).value.end..]
  {
    FindSound(c, pat, 0);
  }
}
