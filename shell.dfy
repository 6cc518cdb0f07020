/**
 * `ShellConfiguration`: the text of an rc file, held in the `content`
 * field, and the three operations that rewrite it in place. Each method
 * states its new content as one of the text edits of module
 * `Configuration`, and what the lookups then find in it.
 */
module Shell {
  import opened Wrappers
  import opened Text
  import opened Pattern
  import opened Configuration
  import opened Lookup
  import opened Edits

  class ShellConfiguration {
    var content: string

    /** `new`: a configuration holding the given text. */
    constructor(content: string)
      ensures this.content == content
    {
      this.content := content;
    }

    /**
     * `put_var`: when `name` has a value, the value of the FIRST assignment
     * in the text (whatever its key) becomes `val` and the old value of
     * `name` is returned; otherwise the line `name=val` is appended after a
     * line feed and nothing is returned.
     */
    method PutVar(name: string, val: string) returns (previous: Option<string>)
      requires GetVar(content, name).Some? ==> '$' !in val
      modifies this
      ensures previous == GetVar(old(content), name)
      ensures previous.None? ==> content == Appended(old(content), name, val)
      ensures previous.None? && IsName(name) && val != [] && '\n' !in val ==> GetVar(content, name) == Some(val)
      ensures previous.Some? ==>
        var first := Find(old(content), AnyAssignment, 0);
        && first.Some? && WellFormed(old(content), first.value)
        && content == SetValue(old(content), first.value, val)
        && |content| == |old(content)| + |val| - |Value(old(content), first.value)|
        && (Assigned(old(content), first.value, name) && val != [] && '\n' !in val ==> GetVar(content, name) == Some(val))
    {
      previous := GetVar(content, name);
      if previous.Some? {
        KeyedFinds(content, name, 0);
        ReplacePut(content, val);
        if Assigned(content, Find(content, AnyAssignment, 0).value, name) && val != [] && '\n' !in val {
          PutFirstGetVar(content, name, val);
        }
        content := Replace(content, AnyAssignment, PutTemplate(val));
      } else {
        if IsName(name) && val != [] && '\n' !in val {
          AppendGetVar(content, name, val);
        }
        content := content + "\n" + name + "=" + val;
      }
    }

    /**
     * `put_var` as its documentation describes it: the value of the first
     * assignment TO `name` becomes `val`, so `name` then reads `val`.
     */
    method PutVarIntended(name: string, val: string) returns (previous: Option<string>)
      modifies this
      ensures previous == GetVar(old(content), name)
      ensures previous.None? ==> content == Appended(old(content), name, val)
      ensures previous.Some? ==>
        && KeyedMatch(old(content), name, 0).Some?
        && content == SetValue(old(content), KeyedMatch(old(content), name, 0).value, val)
        && |content| == |old(content)| + |val| - |previous.value|
      ensures (previous.Some? || IsName(name)) && val != [] && '\n' !in val ==> GetVar(content, name) == Some(val)
    {
      previous := GetVar(content, name);
      match KeyedMatch(content, name, 0)
      case Some(m) =>
        Groups(content, AnyAssignment, m);
        if val != [] && '\n' !in val {
          SetValueGetVar(content, name, val);
        }
        content := SetValue(content, m, val);
      case None =>
        if IsName(name) && val != [] && '\n' !in val {
          AppendGetVar(content, name, val);
        }
        content := content + "\n" + name + "=" + val;
    }

    /**
     * `remove_var`: the first named match is cut out of the text and its
     * value returned; without a match nothing changes. The loop of the
     * source returns at its first capture, which is the leftmost match.
     */
    method RemoveVar(name: string) returns (r: Option<string>)
      requires IsName(name)
      modifies this
      ensures Find(old(content), Named(name), 0).None? ==> r.None? && content == old(content)
      ensures Find(old(content), Named(name), 0).Some? ==>
        var m := Find(old(content), Named(name), 0).value;
        && WellFormed(old(content), m)
        && r == Some(Value(old(content), m))
        && content == Cut(old(content), m)
        && |content| == |old(content)| - (m.end - m.start)
        && (m.end < |old(content)| ==> m.start < |content| && content[m.start] == '\n')
        && ((forall i: nat | Occurs(old(content), name + "=", i) :: m.start <= i < m.end) ==> GetVar(content, name) == None)
    {
      match Find(content, Named(name), 0)
      case None =>
        r := None;
      case Some(cap) =>
        ReplaceRemove(content, name);
        Groups(content, Named(name), cap);
        CutKeepsLineFeed(content, cap);
        if forall i: nat | Occurs(content, name + "=", i) :: cap.start <= i < cap.end {
          CutLastGetVar(content, name, cap);
        }
        r := Some(Group(content, Named(name), cap, 4));
        content := Replace(content, Named(name), []);
    }

    /**
     * `export_var`: walks the named matches up to the first one whose
     * prefix is `export` or empty and returns its value; when that prefix
     * is empty it also rewrites the FIRST named match of the text with the
     * export template, whichever match that is. When the two are the same
     * match, the variable is exported afterwards.
     */
    method ExportVar(name: string) returns (r: Option<string>)
      requires IsName(name)
      modifies this
      ensures ExportTarget(old(content), name).None? ==> r.None? && content == old(content)
      ensures ExportTarget(old(content), name).Some? ==>
        var m := ExportTarget(old(content), name).value;
        && r == Some(Value(old(content), m))
        && (Prefix(old(content), m) == "export" ==> content == old(content) && IsExportedVar(content, name))
        && (Prefix(old(content), m) == "" ==> content == SetExport(old(content), Find(old(content), Named(name), 0).value))
        && (Prefix(old(content), m) == "" && Find(old(content), Named(name), 0) == Some(m) ==>
              IsExportedVar(content, name) && |content| == |old(content)| + 7)
    {
      var text := content;
      var caps := Captures(text, Named(name), 0);
      var i := 0;
      while i < |caps|
        invariant i <= FirstExportable(text, caps) && content == text
      {
        CaptureFits(text, Named(name), 0, i);
        var cap := caps[i];
        if Prefix(text, cap) == "export" {
          ExportTargetAt(text, name, caps, i);
          assert Fits(text, Exported(name), cap);
          return Some(Group(text, Named(name), cap, 4));
        } else if Prefix(text, cap) == "" {
          ExportTargetAt(text, name, caps, i);
          if Find(text, Named(name), 0) == Some(cap) {
            ExportSplice(text, name, cap);
          }
          content := Replace(text, Named(name), ExportTemplate(name));
          return Some(Group(text, Named(name), cap, 4));
        }
        PastUnexportable(text, caps, i);
        i := i + 1;
      }
      ExportTargetNone(text, name, caps);
      r := None;
    }

    /**
     * `export_var` as its documentation describes it: the match it returns
     * the value of is the one rewritten, so the variable is exported
     * afterwards and the text grows by `export `.
     */
    method ExportVarIntended(name: string) returns (r: Option<string>)
      requires IsName(name)
      modifies this
      ensures ExportTarget(old(content), name).None? ==> r.None? && content == old(content)
      ensures ExportTarget(old(content), name).Some? ==>
        var m := ExportTarget(old(content), name).value;
        && r == Some(Value(old(content), m))
        && (Prefix(old(content), m) == "export" ==> content == old(content))
        && (Prefix(old(content), m) == "" ==> content == SetExport(old(content), m) && |content| == |old(content)| + 7)
      ensures ExportTarget(old(content), name).Some? ==> IsExportedVar(content, name)
    {
      match ExportTarget(content, name)
      case None =>
        r := None;
      case Some(m) =>
        r := Some(Value(content, m));
        if Prefix(content, m) == "" {
          ExportSplice(content, name, m);
          content := SetExport(content, m);
        } else {
          assert Fits(content, Exported(name), m);
        }
    }
  }
}
