# Shell configuration editor, modelled in Dafny

This project models `ShellConfiguration` from `src/configuration.rs`. It is an
in-memory editor for the text of a shell rc file made of `key=value`
assignment lines, each with an optional prefix word such as `export`. The
editor has five operations:

- `get_var` looks a variable up;
- `is_exported_var` tests whether it is exported;
- `put_var` inserts or overwrites a variable;
- `remove_var` deletes one;
- `export_var` writes `export` in front of a local one.

All of them work through multi-line regular expressions:

- `REG_VAR`, which is `^(\s*)(\w*?)(\s*)(\w+)=(.+?)$`;
- the same shape with the name written in, for `export_var` and `remove_var`;
- the exported shape `^(\s*)(export)(\s*)name=(.+?)$`, for `is_exported_var`.

Beside the editor, `src/main.rs` is a blocking watch loop that copies files
and runs `git`. It is I/O only and is left out.

The modules are:

- `Text`: character classes and maximal runs.
  - `\s` is Unicode White_Space.
  - `\w` is restricted to ASCII, and `.` is any character except a line feed.
  - It also defines `str::trim` and multi-line `^`.
- `Pattern`: the three fixed patterns, matched by hand as a leftmost-first engine would.
  - A match is an `Assignment`, a tuple of positions for the indent, prefix, spacing, key, `=` and value.
  - `WellFormed` and `Fits` give the language of the patterns.
  - `MatchAt` is what the engine reports at one position: greedy `\s*`, lazy `\w*?`.
  - `Find` is the leftmost search and `Captures` is `captures_iter`.
  - `Replace` is `Regex::replace` with a template of `$n` references.
- `Locality`: a match depends only on the text up to the end of its value. Texts that agree on a prefix have the same leftmost matches below it.
- `Configuration`: the read-only operations, as pure functions of the text.
  - `get_var` is `GetVar`, over the loop `KeyedMatch`.
  - `is_exported_var` is `IsExportedVar`.
  - It also defines the three rewrites (`SetValue`, `SetExport` and `Cut`) and the match `export_var` settles on (`ExportTarget`).
- `Lookup` and `Edits`: what the lookups find before and after each edit.
- `Shell`: the class `ShellConfiguration`, with its `content` field and the three methods that rewrite it in place.
- `Findings`: two concrete texts on which `put_var` and `export_var`, as written, rewrite the wrong line.

## Model

| member | source | states |
|---|---|---|
| Pattern.MatchAt | src/configuration.rs:218 | a match reported at a position starts there, its indent is the whole white-space run at that position (greedy `\s*`), and it ends within the text after its start |
| Pattern.MatchAny | src/configuration.rs:218 | REG_VAR tried after an indent: a match it reports starts at the given position, its prefix starts after the indent, and it ends within the text |
| Pattern.MatchNamed | src/configuration.rs:236 | the named pattern tried after an indent: a match it reports starts at the given position, its prefix starts after the indent, and it ends within the text |
| Pattern.MatchExported | src/configuration.rs:253 | the exported pattern tried after an indent: a match it reports starts at the given position, its prefix starts after the indent, and it ends within the text |
| Pattern.MatchAtSound | src/configuration.rs:218 | what the matcher reports at a position is a match of the pattern: a line start, white space, a word, white space, a non-empty word key, `=`, and a non-empty value running to the end of the line |
| Pattern.MatchAtPreferred | src/configuration.rs:218 | whenever the pattern matches at a position, the matcher reports a match there, and its lazy prefix is no longer than that of any other match at that position (the engine's priority) |
| Pattern.KeyBoundary | src/configuration.rs:218 | the key REG_VAR reports has no word character right before it, so it is a whole word |
| Pattern.Find | src/configuration.rs:237 | the match reported is at the first position from `from` on where the pattern matches; at no earlier position does it match |
| Pattern.FindSound | src/configuration.rs:237 | the leftmost match found is a match of the pattern |
| Pattern.Captures | src/configuration.rs:295 | the iteration yields no match exactly when the search finds none; every match it yields starts at or after `from` |
| Pattern.CapturesFit | src/configuration.rs:295 | every match the iteration yields is a match of the pattern |
| Pattern.Replace | src/configuration.rs:276-277 | a text in which the pattern has no match is returned unchanged |
| Pattern.ReplaceFirst | src/configuration.rs:276-277 | for any match of the pattern that starts first in the text, has the whole white-space run as its indent, and has the shortest prefix among matches starting there, `replace` puts the expanded template in place of exactly that match and keeps the text before and after it |
| Pattern.ExpandFive | src/configuration.rs:277 | a five-piece template expands to the texts of its pieces in order |
| Locality.FindTransfer | src/configuration.rs:295 | the leftmost match of a text is the leftmost match of every text that agrees with it up to past its `=` and has a value there, with the value re-read in that text |
| Locality.FindExtend | src/configuration.rs:281-284 | appending a line after a line feed leaves the leftmost match of the text unchanged |
| Text.Trim | src/configuration.rs:298 | the result is no longer than its input, neither starts nor ends with white space, and is empty exactly when the input is all white space |
| Text.TrimSlice | src/configuration.rs:298 | `trim` returns the input with white space only cut off: its result is a slice `s[i..j]` of the input, and every character before `i` and from `j` on is white space (with Text.Trim's ends, exactly the leading and trailing white space) |
| Locality.KeyTrimmed | src/configuration.rs:298 | the key of a match is a word, so `trim` leaves it unchanged |
| Configuration.GetVar | src/configuration.rs:294-303 | a value found belongs to a name made of word characters, is not empty, and holds no line feed (it is the rest of one line) |
| Configuration.KeyedMatch | src/configuration.rs:295-300 | the match the `get_var` loop stops at is a REG_VAR match, starts at or after `from`, and its trimmed key is the name |
| Configuration.IsExportedVar | src/configuration.rs:252-255 | true exactly when the exported pattern for the name has a match somewhere in the text |
| Configuration.ExportedFound | src/configuration.rs:254 | when the exported pattern has any match, the search finds one |
| Configuration.SetValue | src/configuration.rs:276-278 | the rewritten text keeps everything up to and including the match's `=`, then holds the new value, then the text from the end of the old value on, unchanged; its length changes by the new value's length minus the old one's |
| Configuration.SetExport | src/configuration.rs:244 | the rewritten text keeps everything before the prefix, then holds `export `, then the text from the match's spacing on, unchanged; it grows by seven minus the old prefix's length |
| Configuration.PutTemplate | src/configuration.rs:277 | the template `$1$2$3$4=` followed by the value refers only to groups REG_VAR has |
| Configuration.ExportTemplate | src/configuration.rs:244 | the template `${1}export ${3}name=${4}` refers only to groups the named pattern has |
| Configuration.Cut | src/configuration.rs:261 | the text loses exactly the match: the text before it and the text after it are kept, and the length drops by the match's length |
| Configuration.ExpandPut | src/configuration.rs:277 | the template `$1$2$3$4=` plus the value expands to the match up to its `=` followed by the new value |
| Configuration.ExpandExport | src/configuration.rs:244 | the export template expands to the indent, `export `, and the match from its spacing on |
| Configuration.ReplacePut | src/configuration.rs:276-278 | rewriting with the put template changes only the value of the FIRST assignment in the text |
| Configuration.ReplaceExport | src/configuration.rs:244 | rewriting with the export template replaces the prefix of the FIRST named match with `export ` |
| Configuration.ReplaceRemove | src/configuration.rs:261 | replacing the first named match by the empty string cuts that match out |
| Configuration.FirstExportable | src/configuration.rs:237-246 | the index `export_var`'s loop stops at: no earlier match has prefix `export` or an empty prefix, and the match there has one of the two |
| Configuration.ExportTarget | src/configuration.rs:237-246 | the match `export_var` settles on is a named match with prefix `export` or an empty prefix; when there is one, the first named match exists too |
| Configuration.ExportTargetAt | src/configuration.rs:237-246 | when the loop reaches the first exportable capture, that capture is the target, its group 4 is its value, and the rewrite applies to the first named match |
| Lookup.KeyedFirst | src/configuration.rs:295-302 | the `get_var` loop stops at the first of the successive REG_VAR matches whose trimmed key is the name, or finds nothing when none has it |
| Lookup.GetVarFirst | src/configuration.rs:294-303 | `get_var` returns the value of the first assignment whose key is the name, whatever prefix word it carries, and None when no assignment has that key |
| Lookup.GetVarKey | src/configuration.rs:296-299 | a value found comes from an assignment whose key is exactly the name and at which `name=` is written |
| Lookup.GetVarComment | src/configuration.rs:218 | a name whose every occurrence has a `#` before it on its line has no value |
| Lookup.Appended | src/configuration.rs:281-284 | the text `put_var` writes for a new name is the old text, a line feed, the name, `=`, and the value; it grows by the name's and the value's lengths plus two |
| Lookup.AppendGetVar | src/configuration.rs:280-285 | after `name=val` is appended to a text where the name has no value, `get_var` returns `val` |
| Lookup.ExportedNeedsText | src/configuration.rs:252-255 | `is_exported_var` holds only when the text contains `export` and, at least six characters further on, `name=`; it is false for an absent name |
| Edits.SetValueGetVar | src/configuration.rs:274-279 | writing a one-line value over the value of the assignment `get_var` finds for the name makes `get_var` return the new value |
| Edits.PutFirstGetVar | src/configuration.rs:274-279 | when the first assignment of the text is the name's, rewriting its value makes `get_var` return the new value |
| Edits.CutKeepsLineFeed | src/configuration.rs:261 | cutting a match keeps the text before it and the line feed that ended its line |
| Edits.CutLastGetVar | src/configuration.rs:257-265 | cutting the match that holds every `name=` of the text leaves the name without a value |
| Edits.ExportSplice | src/configuration.rs:242-245 | writing `export ` at the empty prefix of an assignment to the name makes `is_exported_var` hold and grows the text by seven |
| Shell.ShellConfiguration.constructor | src/configuration.rs:227-232 | the new configuration holds the given text |
| Shell.ShellConfiguration.PutVar | src/configuration.rs:274-287 | `put_var` as written: returns the old value of the name. For a new name, the text becomes the old one plus `\n` `name=val` and the name reads `val`. For a known name, the value of the FIRST assignment becomes `val`, the length changes by the difference of the values, and the name reads `val` when that first assignment is its own |
| Shell.ShellConfiguration.PutVarIntended | src/configuration.rs:274-287 | `put_var` as its documentation describes it: the value of the first assignment TO the name is rewritten, so the name always reads `val` afterwards |
| Shell.ShellConfiguration.RemoveVar | src/configuration.rs:257-265 | without a named match, returns None and leaves the text unchanged. Otherwise returns the match's value and cuts the match out: the length drops by the match's length, the line feed after it stays, and a name held only in that match has no value afterwards |
| Shell.ShellConfiguration.ExportVar | src/configuration.rs:235-249 | `export_var` as written. Without an exportable match, returns None and changes nothing. With prefix `export`, returns the value, changes nothing, and the name is exported. With an empty prefix, returns the value and rewrites the FIRST named match; when that is the same match, the name is exported and the text grows by seven |
| Shell.ShellConfiguration.ExportVarIntended | src/configuration.rs:235-249 | `export_var` with the rewrite applied to the match whose value it returns: the name is always exported afterwards, and the text grows by seven when a prefix was written |
| Findings.PutVarClobbers | src/configuration.rs:274-279 | in `a=x` / `b=y`, `put_var(b, z)` rewrites `a`'s value: afterwards `a` reads `z` and `b` still reads `y` |
| Findings.ExportVarRewritesFirst | src/configuration.rs:237-246 | in `qn=x` / `n=y`, `export_var(n)` returns `y` but writes `export ` over the prefix `q` of the first line: afterwards `n` reads `x` and `qn` has no value |

## Left out

- `src/main.rs`, the watch loop that copies files and runs `git`: it is I/O only.
- `PackageManager`, `exec`, `exec_in_dir`, the `Program` trait and `ZshProgram`: they run subprocesses and touch the file system.
- The test helper `config_from_backup_file`: it only prints environment variables.
- The sample rc text in the tests is not part of this model. The general properties are proved for every text instead.
- The general regular-expression library is not modelled. Only the three fixed patterns are modelled, by hand-written matchers.
- `Regex::new(...).unwrap()` panics on a pattern that does not compile; panics are not modelled.
- The `var_reg` field is the fixed pattern `AnyAssignment`, not a stored object.
- `\w` is modelled as ASCII letters, digits and `_`. The regex crate's Unicode word class is wider.
- Lengths are counts of characters. The source's `len()` counts UTF-8 bytes; the two agree on ASCII text.
- Neither `get_var` nor `is_exported_var` changes the text. This holds because both are modelled as functions of the text.
- Shell.ShellConfiguration.PutVar: requires that the value contains no `$` when the name already has a value. Only that branch splices the value into a replacement template (src/configuration.rs:277), where `$name`, `${n}` and `$$` have meaning, and the template syntax is not modelled. The branch that appends a new line takes any value.
- Shell.ShellConfiguration.RemoveVar: requires that the name is a word. The source splices the name into the pattern unescaped.
- Shell.ShellConfiguration.ExportVar: requires that the name is a word, for the same reason.
- Configuration.IsExportedVar: requires that the name is a word, for the same reason.
- Shell.ShellConfiguration.RemoveVar: the "single assignment" condition under which the name has no value afterwards is stated as "every occurrence of `name=` lies inside the removed match". This also excludes texts where `name=` appears elsewhere, for example in a comment.
- Shell.ShellConfiguration.PutVar: the name is said to read `val` afterwards only for a non-empty value without a line feed. An empty value, or one that starts with a line feed, forms no `name=value` match. Any other value with a line feed forms a match that reads only up to its first line feed.

## Findings

| source | as written | input that shows it | evidently intended | confidence | as-written member | corrected member |
|---|---|---|---|---|---|---|
| src/configuration.rs:274-279 | `put_var` on a name that has a value rewrites the value of the first REG_VAR match in the whole text, whatever its key | text `A=1` `\n` `B=2`, `put_var("B", "3")`: afterwards `A` reads `3` and `B` still reads `2` | rewrite the assignment that `get_var` found for the name, so the name reads the new value | not executed | Findings.PutVarClobbers | Shell.ShellConfiguration.PutVarIntended |
| src/configuration.rs:244 | `export_var` returns the value of the first capture with an empty prefix, but `reg.replace` rewrites the first named match, which can be an earlier one whose prefix is another word (the name pattern has no left word boundary) | text `MZ=1` `\n` `Z=2`, `export_var("Z")`: it returns `2`, the text becomes `export Z=1` `\n` `Z=2`, `Z` reads `1` and `MZ` has no value | write `export ` in front of the capture whose value is returned, so the name is exported | not executed | Findings.ExportVarRewritesFirst | Shell.ShellConfiguration.ExportVarIntended |
