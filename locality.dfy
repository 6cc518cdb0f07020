/**
 * Locality of the patterns: a match depends only on the text it covers and
 * on the character that ends its value. Texts that agree on a prefix
 * therefore have the same matches below it, which is what the edits of the
 * configuration preserve.
 */
module Locality {
  import opened Wrappers
  import opened Text
  import opened Pattern

  /** Between its start and its `=`, a match holds only white space and word characters. */
  lemma RegionChars(c: string, m: Assignment)
    requires WellFormed(c, m)
    ensures forall x | m.start <= x < m.eq :: IsSpace(c[x]) || IsWord(c[x])
  {
    RunAll(c, m.start, m.prefixStart, Space);
    RunAll(c, m.prefixStart, m.spacingStart, Word);
    RunAll(c, m.spacingStart, m.keyStart, Space);
    RunAll(c, m.keyStart, m.eq, Word);
  }

  /** The `=` of a match is the first one at or after its start. */
  lemma FirstEq(c: string, m: Assignment, x: nat)
    requires WellFormed(c, m) && m.start <= x < |c| && c[x] == '='
    ensures m.eq <= x
  {
    RegionChars(c, m);
  }

  /** Two matches that start together share their `=`. */
  lemma SameEq(c: string, a: Assignment, b: Assignment)
    requires WellFormed(c, a) && WellFormed(c, b) && a.start == b.start
    ensures a.eq == b.eq
  {
    FirstEq(c, a, b.eq);
    FirstEq(c, b, a.eq);
  }

  /** The key of a match is a word, so `trim` leaves it as it is. */
  lemma KeyTrimmed(c: string, m: Assignment)
    requires WellFormed(c, m)
    ensures Trim(Key(c, m)) == Key(c, m)
  {
    RunAll(c, m.keyStart, m.eq, Word);
    TrimWord(Key(c, m));
  }

  /** The match `m` with its value re-read in `c`, up to the end of its line there. */
  function Reend(c: string, m: Assignment): Assignment
    requires m.eq < |c|
  {
    m.(end := SpanEnd(c, m.eq + 1, NotNewline))
  }

  /** Texts that agree up to `n` agree on every slice below `n`. */
  lemma SliceAgree(c: string, d: string, n: nat, i: nat, j: nat)
    requires n <= |c| && n <= |d| && c[..n] == d[..n] && i <= j <= n
    ensures c[i..j] == d[i..j]
  {
    forall x | 0 <= x < j - i
      ensures c[i..j][x] == d[i..j][x]
    {
      assert c[..n][i + x] == d[..n][i + x];
    }
  }

  /**
   * A match of `c` whose `=` lies below `n` is a match of every text that
   * agrees with `c` up to `n` and has a value after that `=`.
   */
  lemma TransferFits(c: string, d: string, n: nat, pat: Pattern, w: Assignment)
    requires n <= |c| && n <= |d| && c[..n] == d[..n]
    requires Fits(c, pat, w) && w.eq < n && Assigns(d, w.eq)
    ensures Fits(d, pat, Reend(d, w))
    ensures Key(d, Reend(d, w)) == Key(c, w) && Prefix(d, Reend(d, w)) == Prefix(c, w)
  {
    TransferParts(c, d, n, w);
    WellFormedIntro(d, Reend(d, w));
  }

  /** The parts of a match up to its `=` read the same in a text that agrees with `c` beyond the `=`. */
  lemma TransferParts(c: string, d: string, n: nat, w: Assignment)
    requires n <= |c| && n <= |d| && c[..n] == d[..n]
    requires WellFormed(c, w) && w.eq < n
    ensures IsLineStart(d, w.start) && d[w.eq] == '='
    ensures Run(d, w.start, w.prefixStart, Space) && Run(d, w.prefixStart, w.spacingStart, Word)
    ensures Run(d, w.spacingStart, w.keyStart, Space) && Run(d, w.keyStart, w.eq, Word)
    ensures d[w.keyStart..w.eq] == c[w.keyStart..w.eq] && d[w.prefixStart..w.spacingStart] == c[w.prefixStart..w.spacingStart]
  {
    assert w.start == 0 || d[w.start - 1] == c[..n][w.start - 1];
    assert d[w.eq] == c[..n][w.eq];
    RunAgree(c, d, w.start, w.prefixStart, n, Space);
    RunAgree(c, d, w.prefixStart, w.spacingStart, n, Word);
    RunAgree(c, d, w.spacingStart, w.keyStart, n, Space);
    RunAgree(c, d, w.keyStart, w.eq, n, Word);
    SliceAgree(c, d, n, w.keyStart, w.eq);
    SliceAgree(c, d, n, w.prefixStart, w.spacingStart);
  }

  /** A value that is not empty at `x + 1` in the text read there. */
  lemma AssignsAt(c: string, x: nat)
    requires x + 1 < |c| && c[x] == '=' && c[x + 1] != '\n'
    ensures Assigns(c, x)
  {
  }

  /** The value of a match starts with a character other than a line feed. */
  lemma ValueStart(c: string, m: Assignment)
    requires WellFormed(c, m)
    ensures c[m.eq + 1] != '\n' && Assigns(c, m.eq)
    ensures m.end == |c| || c[m.end] == '\n'
  {
    SpanEndAll(c, m.eq + 1, NotNewline);
  }

  /**
   * What the engine reports at `s` in `c` it reports in every text that
   * agrees with `c` below the reported `=`, with the value re-read there.
   */
  lemma MatchTransfer(c: string, d: string, n: nat, pat: Pattern, s: nat)
    requires ValidPattern(pat) && n <= |c| && n <= |d| && c[..n] == d[..n] && s <= |c|
    requires MatchAt(c, pat, s).Some? && MatchAt(c, pat, s).value.eq < n
    requires Assigns(d, MatchAt(c, pat, s).value.eq)
    ensures s <= |d| && MatchAt(d, pat, s) == Some(Reend(d, MatchAt(c, pat, s).value))
  {
    var m := MatchAt(c, pat, s).value;
    MatchAtSound(c, pat, s);
    TransferFits(c, d, n, pat, m);
    var w := Reend(d, m);
    MatchAtPreferred(d, pat, w);
    var m' := MatchAt(d, pat, s).value;
    MatchAtSound(d, pat, s);
    SameEq(d, w, m');
    ValueStart(c, m);
    TransferFits(d, c, n, pat, m');
    MatchAtPreferred(c, pat, Reend(c, m'));
    SpanEndAgree(c, d, s, n, Space);
    Determined(d, w, m');
  }

  /**
   * No match of `d` starts in `[from, m.start)` when none of `c` does and
   * the match `m` of `c` has its `=` below `n`, where the texts agree.
   */
  lemma NoEarlierMatch(c: string, d: string, n: nat, pat: Pattern, m: Assignment, s: nat)
    requires ValidPattern(pat) && n <= |c| && n <= |d| && c[..n] == d[..n]
    requires WellFormed(c, m) && m.eq < n && s <= m.start
    requires MatchAt(c, pat, s).None?
    ensures MatchAt(d, pat, s).None?
  {
    if MatchAt(d, pat, s).Some? {
      MatchAtSound(d, pat, s);
      EqBelow(c, d, n, m, MatchAt(d, pat, s).value);
      MatchTransfer(d, c, n, pat, s);
    }
  }

  /**
   * A match of `d` that starts no later than the match `m` of `c` has its
   * `=` no later than `m`'s, where the texts agree, and a value there in `c`.
   */
  lemma EqBelow(c: string, d: string, n: nat, m: Assignment, m': Assignment)
    requires n <= |c| && n <= |d| && c[..n] == d[..n]
    requires WellFormed(c, m) && m.eq < n && WellFormed(d, m') && m'.start <= m.start
    ensures m'.eq <= m.eq && Assigns(c, m'.eq)
  {
    assert d[m.eq] == c[..n][m.eq];
    FirstEq(d, m', m.eq);
    ValueStart(c, m);
    if m'.eq < m.eq {
      ValueStart(d, m');
      assert c[m'.eq] == d[..n][m'.eq] && c[m'.eq + 1] == d[..n][m'.eq + 1];
      AssignsAt(c, m'.eq);
    }
  }

  /**
   * The leftmost match of `c` from `from` on is the leftmost match of
   * every text that agrees with it below its `=` and has a value there.
   */
  lemma FindTransfer(c: string, d: string, n: nat, pat: Pattern, from: nat)
    requires ValidPattern(pat) && n <= |c| && n <= |d| && c[..n] == d[..n] && from <= |c| && from <= |d|
    requires Find(c, pat, from).Some? && Find(c, pat, from).value.eq < n
    requires Assigns(d, Find(c, pat, from).value.eq)
    ensures Find(d, pat, from) == Some(Reend(d, Find(c, pat, from).value))
  {
    var m := Find(c, pat, from).value;
    FindSound(c, pat, from);
    MatchTransfer(c, d, n, pat, m.start);
    forall s | from <= s < m.start
      ensures MatchAt(d, pat, s).None?
    {
      NoEarlierMatch(c, d, n, pat, m, s);
    }
    FindAt(d, pat, from, m.start);
  }

  /** A leftmost match that ends below `n` is also the leftmost match of a text that agrees with `c` up to `n`. */
  lemma FindKept(c: string, d: string, n: nat, pat: Pattern, from: nat)
    requires ValidPattern(pat) && n <= |c| && n <= |d| && c[..n] == d[..n] && from <= |c| && from <= |d|
    requires Find(c, pat, from).Some? && Find(c, pat, from).value.end < n
    ensures Find(d, pat, from) == Find(c, pat, from)
  {
    var m := Find(c, pat, from).value;
    FindSound(c, pat, from);
    ValueKept(c, d, n, m);
    FindTransfer(c, d, n, pat, from);
  }

  /** A match that ends below `n` has the same value in a text that agrees with `c` up to `n`. */
  lemma ValueKept(c: string, d: string, n: nat, m: Assignment)
    requires n <= |c| && n <= |d| && c[..n] == d[..n]
    requires WellFormed(c, m) && m.end < n
    ensures Assigns(d, m.eq) && Reend(d, m) == m
  {
    ValueStart(c, m);
    assert c[m.eq] == d[..n][m.eq] && c[m.eq + 1] == d[..n][m.eq + 1];
    AssignsAt(d, m.eq);
    SpanEndAgree(c, d, m.eq + 1, n, NotNewline);
  }

  /** Appending a line leaves the leftmost match of the text as it was. */
  lemma FindExtend(c: string, d: string, pat: Pattern, from: nat)
    requires ValidPattern(pat) && from <= |c| < |d| && d[..|c|] == c && d[|c|] == '\n'
    requires Find(c, pat, from).Some?
    ensures Find(d, pat, from) == Find(c, pat, from)
  {
    var m := Find(c, pat, from).value;
    FindSound(c, pat, from);
    assert c[..|c|] == c;
    if m.end < |c| {
      FindKept(c, d, |c|, pat, from);
    } else {
      LastValueKept(c, d, m);
      FindTransfer(c, d, |c|, pat, from);
    }
  }

  /** A match that runs to the end of the text keeps its value when a line is appended. */
  lemma LastValueKept(c: string, d: string, m: Assignment)
    requires |c| < |d| && d[..|c|] == c && d[|c|] == '\n'
    requires WellFormed(c, m) && m.end == |c|
    ensures Assigns(d, m.eq) && Reend(d, m) == m
  {
    ValueStart(c, m);
    assert d[m.eq] == c[m.eq] && d[m.eq + 1] == c[m.eq + 1];
    AssignsAt(d, m.eq);
    SpanEndAll(c, m.eq + 1, NotNewline);
    assert forall k | m.eq + 1 <= k < |c| :: d[k] == c[k];
    SpanEndUnique(d, m.eq + 1, |c|, NotNewline);
  }

  /** The leftmost match is the one at the first position where there is one. */
  lemma FindAt(c: string, pat: Pattern, from: nat, s: nat)
    requires ValidPattern(pat) && from <= s <= |c|
    requires MatchAt(c, pat, s).Some?
    requires forall x | from <= x < s :: MatchAt(c, pat, x).None?
    ensures Find(c, pat, from) == MatchAt(c, pat, s)
  {
  }
}
