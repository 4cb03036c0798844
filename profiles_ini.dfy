/**
 * How the development script scripts/start.mjs finds the Zotero profile
 * to launch: `readProfilesIni` (lines 107-171) parses `profiles.ini`
 * into profile records, and `getZoteroProfileArgs` (lines 56-92) turns a
 * requested profile name into command-line arguments.
 *
 * Reading the file is a parameter: the text, or None when there is no
 * path or no file. `dirname` of the file's path is `root`, and
 * `path.join` is the function `join`.
 */
module ProfilesIni {
  import opened Wrappers
  import opened SeqUtil
  import opened Text

  /** One `[Profile…]` section: name, path and the two flags. */
  datatype Profile = Profile(name: string, path: string, isRelative: bool, isDefault: bool)

  /** The record a section header opens. */
  const NewProfile := Profile("", "", false, false)

  /** What the parser makes of one line. */
  datatype LineKind = Skip | Header | Entry(key: string, value: string)

  /**
   * A trimmed line is skipped when blank or a `;`/`#` comment, opens a
   * section when it starts with `[`, and is otherwise `key=value`: the
   * key is the text before the first `=` and the value the trimmed text
   * after it.
   */
  function Classify(rawLine: string): (k: LineKind)
    ensures var line := Trim(rawLine);
      && (k == Skip <==> line == [] || line[0] == ';' || line[0] == '#')
      && (k == Header <==> line != [] && line[0] == '[')
  {
    var line := Trim(rawLine);
    if line == [] || line[0] == ';' || line[0] == '#' then Skip
    else if line[0] == '[' then Header
    else EntryOf(line)
  }

  /** `const [key, ...rest] = line.split("=")` and `rest.join("=").trim()`. */
  function EntryOf(line: string): LineKind
  {
    var parts := Split(line, '=');
    Entry(parts[0], Trim(Join(parts[1..], '=')))
  }

  /** The key of an entry is the text before the first `=`, its value the trimmed text after it. */
  lemma EntryKeyValue(rawLine: string)
    ensures var line := Trim(rawLine); var i := IndexOf(line, '=');
      Classify(rawLine).Entry? ==>
        && Classify(rawLine).key == (if i == -1 then line else line[..i])
        && Classify(rawLine).value == Trim(if i == -1 then "" else line[i + 1..])
  {
    EntryOfKeyValue(Trim(rawLine));
  }

  /** The same, for an already trimmed line. */
  lemma EntryOfKeyValue(line: string)
    ensures var i := IndexOf(line, '=');
      && EntryOf(line).key == (if i == -1 then line else line[..i])
      && EntryOf(line).value == Trim(if i == -1 then "" else line[i + 1..])
  {
    SplitFirstRest(line, '=');
  }

  /** The `switch (key)`: the four known keys set their field, others are ignored. */
  function Apply(p: Profile, key: string, value: string): (r: Profile)
    ensures key == "Name" ==> r == p.(name := value)
    ensures key == "Path" ==> r == p.(path := value)
    ensures key == "IsRelative" ==> r == p.(isRelative := value == "1")
    ensures key == "Default" ==> r == p.(isDefault := value == "1")
    ensures key !in {"Name", "Path", "IsRelative", "Default"} ==> r == p
  {
    if key == "Name" then p.(name := value)
    else if key == "Path" then p.(path := value)
    else if key == "IsRelative" then p.(isRelative := value == "1")
    else if key == "Default" then p.(isDefault := value == "1")
    else p
  }

  /** A repeated key overwrites what the earlier line set. */
  lemma ApplyOverwrites(p: Profile, key: string, v1: string, v2: string)
    ensures Apply(Apply(p, key, v1), key, v2) == Apply(p, key, v2)
  {
  }

  /** The loop's variables: the finished records and the open one (`current`). */
  datatype ParseState = ParseState(profiles: seq<Profile>, current: Option<Profile>)

  const Start := ParseState([], None)

  /** `profiles` with the open record, if any, pushed. */
  function Close(st: ParseState): seq<Profile>
  {
    st.profiles + (if st.current.Some? then [st.current.value] else [])
  }

  /** One pass of the line loop. */
  function Step(st: ParseState, rawLine: string): ParseState
  {
    match Classify(rawLine)
    case Skip => st
    case Header => ParseState(Close(st), Some(NewProfile))
    case Entry(key, value) =>
      if st.current.None? then st else st.(current := Some(Apply(st.current.value, key, value)))
  }

  /** The line loop over `lines`. */
  function Fold(st: ParseState, lines: seq<string>): ParseState
    decreases |lines|
  {
    if lines == [] then st else Fold(Step(st, lines[0]), lines[1..])
  }

  /** The fields a section's body sets on a fresh record. */
  function ApplyBody(p: Profile, body: seq<string>): Profile
    decreases |body|
  {
    if body == [] then p
    else
      var p1 := match Classify(body[0]) case Entry(key, value) => Apply(p, key, value) case _ => p;
      ApplyBody(p1, body[1..])
  }

  /** No line of `lines` opens a section. */
  predicate NoHeader(lines: seq<string>)
  {
    forall k :: 0 <= k < |lines| ==> Classify(lines[k]) != Header
  }

  /** Before any header, a line that opens no section leaves the loop where it was. */
  lemma StepOutsideSection(line: string)
    ensures Classify(line) != Header ==> Step(Start, line) == Start
  {
  }

  /** Lines before the first section header change nothing. */
  lemma {:induction false} PreambleIgnored(pre: seq<string>, rest: seq<string>)
    requires NoHeader(pre)
    ensures Fold(Start, pre + rest) == Fold(Start, rest)
    decreases |pre|
  {
    if pre != [] {
      var tail := pre[1..];
      assert (pre + rest)[0] == pre[0] && (pre + rest)[1..] == tail + rest;
      assert Classify(pre[0]) != Header;
      StepOutsideSection(pre[0]);
      assert NoHeader(tail) by {
        forall k | 0 <= k < |tail|
          ensures Classify(tail[k]) != Header
        {
          assert tail[k] == pre[k + 1];
        }
      }
      PreambleIgnored(tail, rest);
      assert pre + rest != [];
    } else {
      assert pre + rest == rest;
    }
  }

  /** Inside a section, lines only update the open record. */
  lemma {:induction false} BodyUpdatesCurrent(profiles: seq<Profile>, p: Profile, body: seq<string>)
    requires NoHeader(body)
    ensures Fold(ParseState(profiles, Some(p)), body) == ParseState(profiles, Some(ApplyBody(p, body)))
    decreases |body|
  {
    if body != [] {
      var p1 := match Classify(body[0]) case Entry(key, value) => Apply(p, key, value) case _ => p;
      assert Step(ParseState(profiles, Some(p)), body[0]) == ParseState(profiles, Some(p1));
      BodyUpdatesCurrent(profiles, p1, body[1..]);
    }
  }

  /**
   * A header closes the open record and starts a fresh one, which the
   * section's body then fills in.
   */
  lemma Section(st: ParseState, header: string, body: seq<string>)
    requires Classify(header) == Header && NoHeader(body)
    ensures Fold(st, [header] + body) == ParseState(Close(st), Some(ApplyBody(NewProfile, body)))
  {
    assert ([header] + body)[0] == header && ([header] + body)[1..] == body;
    BodyUpdatesCurrent(Close(st), NewProfile, body);
  }

  /** The line loop over `a + b` is the loop over `a`, then over `b`. */
  lemma {:induction false} FoldConcat(st: ParseState, a: seq<string>, b: seq<string>)
    ensures Fold(st, a + b) == Fold(Fold(st, a), b)
    decreases |a|
  {
    if a != [] {
      assert (a + b)[0] == a[0] && (a + b)[1..] == a[1..] + b;
      FoldConcat(Step(st, a[0]), a[1..], b);
    } else {
      assert a + b == b;
    }
  }

  /** A section of the file: its header line and the lines of its body. */
  datatype SectionLines = SectionLines(header: string, body: seq<string>)

  /** The lines of the sections, one after the other. */
  function Flatten(secs: seq<SectionLines>): seq<string>
    decreases |secs|
  {
    if secs == [] then [] else [secs[0].header] + secs[0].body + Flatten(secs[1..])
  }

  /** Each header opens a section and no body line does. */
  predicate WellSectioned(secs: seq<SectionLines>)
  {
    forall k :: 0 <= k < |secs| ==> Classify(secs[k].header) == Header && NoHeader(secs[k].body)
  }

  /** The record each section's body fills in, one per section. */
  function Bodies(secs: seq<SectionLines>): (r: seq<Profile>)
    ensures |r| == |secs|
    decreases |secs|
  {
    if secs == [] then [] else [ApplyBody(NewProfile, secs[0].body)] + Bodies(secs[1..])
  }

  /** The loop over whole sections adds one record per section after the ones already closed. */
  lemma {:induction false} SectionsFold(st: ParseState, secs: seq<SectionLines>)
    requires WellSectioned(secs)
    ensures Close(Fold(st, Flatten(secs))) == Close(st) + Bodies(secs)
    decreases |secs|
  {
    if secs != [] {
      var s0 := secs[0];
      var rest := secs[1..];
      FoldSection(st, s0, Flatten(rest));
      var st1 := ParseState(Close(st), Some(ApplyBody(NewProfile, s0.body)));
      WellSectionedTail(secs);
      FlattenCons(secs);
      assert Fold(st, Flatten(secs)) == Fold(st1, Flatten(rest));
      SectionsFold(st1, rest);
      var b0 := ApplyBody(NewProfile, s0.body);
      assert Bodies(secs) == [b0] + Bodies(rest);
      assert Close(st1) == Close(st) + [b0];
      AppendAssoc(Close(st), [b0], Bodies(rest));
    } else {
      assert Fold(st, Flatten(secs)) == st;
      assert Close(st) + Bodies(secs) == Close(st);
    }
  }

  /** The loop over one section followed by more lines. */
  lemma FoldSection(st: ParseState, sec: SectionLines, tail: seq<string>)
    requires Classify(sec.header) == Header && NoHeader(sec.body)
    ensures Fold(st, Flatten([sec]) + tail) ==
      Fold(ParseState(Close(st), Some(ApplyBody(NewProfile, sec.body))), tail)
  {
    assert Flatten([sec]) == [sec.header] + sec.body + Flatten([]);
    assert Flatten([sec]) == [sec.header] + sec.body;
    FoldConcat(st, [sec.header] + sec.body, tail);
    Section(st, sec.header, sec.body);
  }

  lemma AppendAssoc(a: seq<Profile>, b: seq<Profile>, c: seq<Profile>)
    ensures (a + b) + c == a + (b + c)
  {
  }

  /** The sections after the first are well formed too. */
  lemma WellSectionedTail(secs: seq<SectionLines>)
    requires WellSectioned(secs) && secs != []
    ensures WellSectioned(secs[1..])
  {
    var rest := secs[1..];
    forall k | 0 <= k < |rest| ensures Classify(rest[k].header) == Header && NoHeader(rest[k].body) {
      assert rest[k] == secs[k + 1];
    }
  }

  /** The lines of the sections are the first section's lines, then the rest's. */
  lemma FlattenCons(secs: seq<SectionLines>)
    requires secs != []
    ensures Flatten(secs) == Flatten([secs[0]]) + Flatten(secs[1..])
  {
    var one := [secs[0]];
    assert one[1..] == [];
    assert Flatten(one) == [secs[0].header] + secs[0].body + [];
    assert [secs[0].header] + secs[0].body + [] == [secs[0].header] + secs[0].body;
  }

  /**
   * A file whose lines are a preamble without headers followed by
   * sections yields one record per section, filled in by its body, before
   * the closing filter and map.
   */
  lemma ParseProfilesOfSections(contents: string, root: string, join: (string, string) -> string,
                                pre: seq<string>, secs: seq<SectionLines>)
    requires SplitLines(contents) == pre + Flatten(secs) && NoHeader(pre) && WellSectioned(secs)
    ensures ParseProfiles(contents, root, join) == Finish(Bodies(secs), root, join)
  {
    PreambleIgnored(pre, Flatten(secs));
    SectionsFold(Start, secs);
    assert Close(Start) + Bodies(secs) == Bodies(secs);
    assert Close(Fold(Start, SplitLines(contents))) == Bodies(secs);
  }

  /** `profileRoot` joined with a relative path; an absolute path as it is. */
  function Resolve(p: Profile, root: string, join: (string, string) -> string): Profile
  {
    p.(path := if p.isRelative then join(root, p.path) else p.path)
  }

  /** The closing `filter` and `map`: records without a path go, relative paths are resolved. */
  function Finish(ps: seq<Profile>, root: string, join: (string, string) -> string): (r: seq<Profile>)
    ensures |r| <= |ps|
    decreases |ps|
  {
    if ps == [] then []
    else (if ps[0].path != "" then [Resolve(ps[0], root, join)] else []) + Finish(ps[1..], root, join)
  }

  /** The records with a path, in their order. */
  function WithPath(ps: seq<Profile>): seq<Profile>
    decreases |ps|
  {
    if ps == [] then [] else (if ps[0].path != "" then [ps[0]] else []) + WithPath(ps[1..])
  }

  /**
   * The output lists, in order, the records that have a path, each with
   * its relative path resolved; names and flags are kept.
   */
  lemma {:induction false} FinishKeepsOrder(ps: seq<Profile>, root: string, join: (string, string) -> string)
    ensures var r := Finish(ps, root, join); var kept := WithPath(ps);
      && |r| == |kept|
      && forall k :: 0 <= k < |r| ==>
           && kept[k].path != ""
           && r[k] == kept[k].(path := if kept[k].isRelative then join(root, kept[k].path) else kept[k].path)
    decreases |ps|
  {
    if ps != [] {
      FinishKeepsOrder(ps[1..], root, join);
    }
  }

  /** What `readProfilesIni` returns for the text of the file. */
  function ParseProfiles(contents: string, root: string, join: (string, string) -> string): seq<Profile>
  {
    Finish(Close(Fold(Start, SplitLines(contents))), root, join)
  }

  /** `readProfilesIni(path)`: the line loop, then the closing filter and map. */
  method ReadProfilesIni(contents: Option<string>, root: string, join: (string, string) -> string)
    returns (profiles: seq<Profile>)
    ensures contents.None? ==> profiles == []
    ensures contents.Some? ==> profiles == ParseProfiles(contents.value, root, join)
  {
    if contents.None? {
      return [];
    }
    var found, current := ParseSections(SplitLines(contents.value));
    ghost var last := ParseState(found, current);
    if current.Some? {
      found := found + [current.value];
    }
    assert found == Close(last);
    profiles := Finish(found, root, join);
  }

  /** The line loop of `readProfilesIni`: the finished records and the one still open. */
  method ParseSections(lines: seq<string>) returns (found: seq<Profile>, current: Option<Profile>)
    ensures ParseState(found, current) == Fold(Start, lines)
  {
    found, current := [], None;
    var i := 0;
    while i < |lines|
      invariant 0 <= i <= |lines|
      invariant Fold(ParseState(found, current), lines[i..]) == Fold(Start, lines)
    {
      assert lines[i..][0] == lines[i] && lines[i..][1..] == lines[i + 1..];
      found, current := ParseLine(found, current, lines[i]);
      i := i + 1;
    }
    assert lines[i..] == [];
  }

  /** One pass of the line loop of `readProfilesIni`, on the variables `profiles` and `current`. */
  method ParseLine(found: seq<Profile>, current: Option<Profile>, rawLine: string)
    returns (found': seq<Profile>, current': Option<Profile>)
    ensures ParseState(found', current') == Step(ParseState(found, current), rawLine)
  {
    found', current' := found, current;
    var line := Trim(rawLine);
    if line == [] || line[0] == ';' || line[0] == '#' {
      return;
    }
    if line[0] == '[' {
      if current.Some? {
        found' := found + [current.value];
      }
      current' := Some(NewProfile);
      return;
    }
    if current.None? {
      return;
    }
    var parts := Split(line, '=');
    var key := parts[0];
    var value := Trim(Join(parts[1..], '='));
    current' := Some(Apply(current.value, key, value));
  }
}
