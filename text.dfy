/** Optional results, as the source's `Option<String>`. */
module Wrappers {
  datatype Option<+T> = None | Some(value: T)
}

/**
 * Character classes and maximal runs: the building blocks of the fixed
 * patterns `\s*`, `\w*`, `\w+` and `.+` used by the shell configuration editor.
 */
module Text {

  /** The three character classes the patterns use: `\s`, `\w` and `.`. */
  datatype CharClass = Space | Word | NotNewline

  /** `\s`: the Unicode White_Space property. */
  predicate IsSpace(ch: char) {
    || ch == ' '
    || '\t' <= ch <= '\r'
    || ch == '\U{85}' || ch == '\U{A0}' || ch == '\U{1680}'
    || '\U{2000}' <= ch <= '\U{200A}'
    || ch == '\U{2028}' || ch == '\U{2029}' || ch == '\U{202F}' || ch == '\U{205F}' || ch == '\U{3000}'
  }

  /** `\w`, restricted to ASCII letters, digits and underscore. */
  predicate IsWord(ch: char) {
    'a' <= ch <= 'z' || 'A' <= ch <= 'Z' || '0' <= ch <= '9' || ch == '_'
  }

  /** `.` without the `s` flag: any character but a line feed. */
  predicate In(ch: char, cls: CharClass) {
    match cls
    case Space => IsSpace(ch)
    case Word => IsWord(ch)
    case NotNewline => ch != '\n'
  }

  /** A variable name that can be spliced into a pattern: non-empty, word characters only. */
  predicate IsName(name: string) {
    |name| > 0 && forall i | 0 <= i < |name| :: IsWord(name[i])
  }

  /** Multi-line `^`: the start of the text or just after a line feed. */
  predicate IsLineStart(c: string, s: nat) {
    s == 0 || (s <= |c| && c[s - 1] == '\n')
  }

  /** `t` occurs in `c` at index `i`. */
  predicate Occurs(c: string, t: string, i: nat) {
    i + |t| <= |c| && c[i..i + |t|] == t
  }

  /**
   * Where a greedy `cls*` starting at `i` stops: every character of
   * `c[i..e]` is in the class and the one at `e`, if any, is not.
   */
  function SpanEnd(c: string, i: nat, cls: CharClass): (e: nat)
    requires i <= |c|
    ensures i <= e <= |c|
    decreases |c| - i
  {
    if i < |c| && In(c[i], cls) then SpanEnd(c, i + 1, cls) else i
  }

  /** Every character before the end of the run is in the class, and the one at the end is not. */
  lemma {:induction false} SpanEndAll(c: string, i: nat, cls: CharClass)
    requires i <= |c|
    ensures forall j | i <= j < SpanEnd(c, i, cls) :: In(c[j], cls)
    ensures SpanEnd(c, i, cls) == |c| || !In(c[SpanEnd(c, i, cls)], cls)
    decreases |c| - i
  {
    if i < |c| && In(c[i], cls) {
      SpanEndAll(c, i + 1, cls);
    }
  }

  /** A run of `cls` characters that ends at the end of the text or before a character outside it is the maximal run. */
  lemma SpanEndUnique(c: string, i: nat, j: nat, cls: CharClass)
    requires i <= j <= |c|
    requires forall k | i <= k < j :: In(c[k], cls)
    requires j == |c| || !In(c[j], cls)
    ensures SpanEnd(c, i, cls) == j
  {
    SpanEndAll(c, i, cls);
  }

  /**
   * `c[i..j]` consists of `cls` characters only: it lies inside the maximal
   * run that starts at `i` (`RunAll` states the character-wise reading).
   */
  predicate Run(c: string, i: nat, j: nat, cls: CharClass) {
    i <= j <= |c| && j <= SpanEnd(c, i, cls)
  }

  /** `Run` holds exactly when every character of `c[i..j]` is in the class. */
  lemma RunAll(c: string, i: nat, j: nat, cls: CharClass)
    requires i <= j <= |c|
    ensures Run(c, i, j, cls) <==> forall k | i <= k < j :: In(c[k], cls)
  {
    SpanEndAll(c, i, cls);
  }

  /** A run that stops at the end of the text or before a character outside the class is the maximal run. */
  lemma RunStop(c: string, i: nat, j: nat, cls: CharClass)
    requires Run(c, i, j, cls)
    requires j == |c| || !In(c[j], cls)
    ensures SpanEnd(c, i, cls) == j
  {
    SpanEndAll(c, i, cls);
  }

  /** Two adjacent runs of one class form a run. */
  lemma RunJoin(c: string, i: nat, j: nat, k: nat, cls: CharClass)
    requires Run(c, i, j, cls) && Run(c, j, k, cls)
    ensures Run(c, i, k, cls)
  {
    RunAll(c, i, j, cls);
    RunAll(c, j, k, cls);
    RunAll(c, i, k, cls);
  }

  /** Every part of a run is a run. */
  lemma RunPart(c: string, i: nat, j: nat, i': nat, j': nat, cls: CharClass)
    requires Run(c, i, j, cls) && i <= i' <= j' <= j
    ensures Run(c, i', j', cls)
  {
    RunAll(c, i, j, cls);
    RunAll(c, i', j', cls);
  }

  /** Two texts that agree up to `n` have the same runs below `n`. */
  lemma SpanEndAgree(c: string, d: string, i: nat, n: nat, cls: CharClass)
    requires i <= n <= |c| && n <= |d| && c[..n] == d[..n]
    requires SpanEnd(c, i, cls) < n
    ensures SpanEnd(d, i, cls) == SpanEnd(c, i, cls)
  {
    var e := SpanEnd(c, i, cls);
    SpanEndAll(c, i, cls);
    assert forall k | i <= k <= e :: d[k] == c[..n][k] == c[k];
    SpanEndUnique(d, i, e, cls);
  }

  /** A run of `c` that lies below `n` is a run of every text that agrees with `c` up to `n`. */
  lemma RunAgree(c: string, d: string, i: nat, j: nat, n: nat, cls: CharClass)
    requires j <= n <= |c| && n <= |d| && c[..n] == d[..n]
    requires Run(c, i, j, cls)
    ensures Run(d, i, j, cls)
  {
    RunAll(c, i, j, cls);
    assert forall k | i <= k < j :: d[k] == c[..n][k] == c[k];
    RunAll(d, i, j, cls);
  }

  /** A run copied into another text is a run there too. */
  lemma RunCopy(c: string, d: string, i: nat, j: nat, i': nat, cls: CharClass)
    requires Run(c, i, j, cls) && i' + (j - i) <= |d| && d[i'..i' + (j - i)] == c[i..j]
    ensures Run(d, i', i' + (j - i), cls)
  {
    RunAll(c, i, j, cls);
    assert forall x | i' <= x < i' + (j - i) :: d[x] == d[i'..i' + (j - i)][x - i'];
    RunAll(d, i', i' + (j - i), cls);
  }

  /** A text whose tail from `a` reappears `k` places later in `d` has every slice of that tail there too. */
  lemma SliceShift(c: string, d: string, a: nat, k: nat, i: nat, j: nat)
    requires a <= i <= j <= |c| && a + k <= |d| && d[a + k..] == c[a..]
    ensures j + k <= |d| && d[i + k..j + k] == c[i..j]
  {
    assert |d[a + k..]| == |c[a..]|;
    forall x | 0 <= x < j - i
      ensures d[i + k..j + k][x] == c[i..j][x]
    {
      assert d[a + k..][i - a + x] == c[a..][i - a + x];
    }
  }

  /** The characters of an occurrence are those of the string that occurs. */
  lemma OccursAt(c: string, t: string, i: nat, x: nat)
    requires Occurs(c, t, i) && x < |t|
    ensures c[i + x] == t[x]
  {
    assert c[i..i + |t|][x] == c[i + x];
  }

  /** A name written into the text is a run of word characters. */
  lemma NameRun(c: string, i: nat, name: string)
    requires IsName(name) && i + |name| <= |c| && c[i..i + |name|] == name
    ensures Run(c, i, i + |name|, Word)
  {
    assert forall k | i <= k < i + |name| :: c[k] == name[k - i];
    RunAll(c, i, i + |name|, Word);
  }

  /** A run read in a text whose characters from `i` on reappear `k` places later in `d` reappears there too. */
  lemma {:induction false} SpanEndShift(c: string, d: string, i: nat, k: nat, cls: CharClass)
    requires i <= |c| && |d| == |c| + k
    requires forall x | i <= x < |c| :: d[x + k] == c[x]
    ensures SpanEnd(d, i + k, cls) == SpanEnd(c, i, cls) + k
    decreases |c| - i
  {
    if i < |c| {
      assert d[i + k] == c[i];
      SpanEndShift(c, d, i + 1, k, cls);
    }
  }

  /**
   * The nearest line start at or before `i`: the first character of the
   * line that holds position `i`.
   */
  function LineStartOf(c: string, i: nat): (r: nat)
    requires i <= |c|
    ensures r <= i && IsLineStart(c, r)
    ensures forall j | r < j <= i :: !IsLineStart(c, j)
  {
    if IsLineStart(c, i) then i else LineStartOf(c, i - 1)
  }

  /** Rust's `str::trim`: drops leading and trailing white space. */
  function Trim(s: string): (r: string)
    ensures |r| <= |s|
    ensures r != [] ==> !IsSpace(r[0]) && !IsSpace(r[|r| - 1])
    ensures r == [] <==> forall i | 0 <= i < |s| :: IsSpace(s[i])
  {
    if |s| > 0 && IsSpace(s[0]) then Trim(s[1..])
    else if |s| > 0 && IsSpace(s[|s| - 1]) then Trim(s[..|s| - 1])
    else s
  }

  /** `s[i..j]` is `s` with white space only cut off before `i` and after `j`. */
  predicate SpaceAround(s: string, i: nat, j: nat) {
    && i <= j <= |s|
    && (forall k | 0 <= k < i :: IsSpace(s[k]))
    && (forall k | j <= k < |s| :: IsSpace(s[k]))
  }

  /** `trim` cuts white space only: its result is a slice of the input with nothing but white space around it. */
  lemma {:induction false} TrimSlice(s: string)
    ensures exists i: nat, j: nat :: SpaceAround(s, i, j) && Trim(s) == s[i..j]
    decreases |s|
  {
    if |s| > 0 && IsSpace(s[0]) {
      TrimSlice(s[1..]);
      var i: nat, j: nat :| SpaceAround(s[1..], i, j) && Trim(s[1..]) == s[1..][i..j];
      SpaceDropFirst(s, i, j);
    } else if |s| > 0 && IsSpace(s[|s| - 1]) {
      TrimSlice(s[..|s| - 1]);
      var i: nat, j: nat :| SpaceAround(s[..|s| - 1], i, j) && Trim(s[..|s| - 1]) == s[..|s| - 1][i..j];
      SpaceDropLast(s, i, j);
    } else {
      assert SpaceAround(s, 0, |s|) && Trim(s) == s[0..|s|];
    }
  }

  /** Putting back a leading space character keeps the slice and its surroundings. */
  lemma SpaceDropFirst(s: string, i: nat, j: nat)
    requires |s| > 0 && IsSpace(s[0]) && SpaceAround(s[1..], i, j)
    ensures SpaceAround(s, i + 1, j + 1) && s[1..][i..j] == s[i + 1..j + 1]
  {
    assert forall k | 1 <= k < |s| :: s[k] == s[1..][k - 1];
  }

  /** Putting back a trailing space character keeps the slice and its surroundings. */
  lemma SpaceDropLast(s: string, i: nat, j: nat)
    requires |s| > 0 && IsSpace(s[|s| - 1]) && SpaceAround(s[..|s| - 1], i, j)
    ensures SpaceAround(s, i, j) && s[..|s| - 1][i..j] == s[i..j]
  {
    assert forall k | 0 <= k < |s| - 1 :: s[k] == s[..|s| - 1][k];
  }

  /** Trimming a run of word characters changes nothing. */
  lemma TrimWord(s: string)
    requires forall i | 0 <= i < |s| :: IsWord(s[i])
    ensures Trim(s) == s
  {
  }
}
