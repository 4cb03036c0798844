/**
 * `getZoteroProfileArgs(profileName)` (scripts/start.mjs:56-92): the
 * command-line arguments that make Zotero open the requested profile.
 * `profileName` is the `ZOTERO_PROFILE` environment variable, None when
 * unset; an empty value counts as unset, as in `if (profileName)`.
 */
module ProfileArgs {
  import opened Wrappers
  import opened ProfilesIni

  /** The result record: arguments, the caption printed on the console (`label`) and the profile directory. */
  datatype Launch = Launch(args: seq<string>, caption: string, profilePath: Option<string>)

  /** `profiles.find(predicate)`: the first record that satisfies it. */
  function FindFirst(ps: seq<Profile>, pick: Profile -> bool): (r: Option<Profile>)
    ensures r.Some? ==> r.value in ps && pick(r.value)
    ensures r.Some? ==> exists k :: 0 <= k < |ps| && ps[k] == r.value && forall j :: 0 <= j < k ==> !pick(ps[j])
    ensures r.None? ==> forall k :: 0 <= k < |ps| ==> !pick(ps[k])
  {
    if ps == [] then None
    else if pick(ps[0]) then Some(ps[0])
    else
      var r := FindFirst(ps[1..], pick);
      if r.Some? then
        var k :| 0 <= k < |ps| - 1 && ps[1..][k] == r.value && forall j :: 0 <= j < k ==> !pick(ps[1..][j]);
        assert ps[k + 1] == r.value && forall j :: 0 <= j < k + 1 ==> !pick(ps[j]);
        r
      else r
  }

  /** The first profile called `name`. */
  function Named(ps: seq<Profile>, name: string): Option<Profile>
  {
    FindFirst(ps, (p: Profile) => p.name == name)
  }

  /** The first profile marked as the default. */
  function DefaultProfile(ps: seq<Profile>): Option<Profile>
  {
    FindFirst(ps, (p: Profile) => p.isDefault)
  }

  /** ASCII letters to lower case; other characters as they are. */
  function AsciiLower(c: char): char
  {
    if 'A' <= c <= 'Z' then (c as int + 32) as char else c
  }

  /**
   * `name.toLowerCase() === "default"`. Only ASCII letters lower-case to
   * the letters of "default" one character for one, so ASCII lowering
   * decides this comparison as the full Unicode mapping does.
   */
  predicate IsDefaultName(name: string)
  {
    |name| == 7 && forall k :: 0 <= k < 7 ==> AsciiLower(name[k]) == "default"[k]
  }

  /** `defaultProfile.name || "unnamed"`. */
  function NameOrUnnamed(p: Profile): string
  {
    if p.name != "" then p.name else "unnamed"
  }

  /** The launch for an existing profile directory. */
  function UseProfile(path: string, caption: string): Launch
  {
    Launch(["-profile", path], caption, Some(path))
  }

  /** The launch for the default profile when it has a path. */
  function UseDefault(ps: seq<Profile>): Option<Launch>
  {
    var d := DefaultProfile(ps);
    if d.Some? && d.value.path != "" then
      Some(UseProfile(d.value.path, "default profile (" + NameOrUnnamed(d.value) + ")"))
    else None
  }

  /**
   * The selection rule: a named profile with a path; else, for the name
   * "default" in any case, the default profile; else `-P name`; with no
   * name, the default profile or no arguments at all.
   */
  function GetZoteroProfileArgs(ps: seq<Profile>, profileName: Option<string>): Launch
  {
    if profileName.Some? && profileName.value != "" then
      var name := profileName.value;
      var m := Named(ps, name);
      if m.Some? && m.value.path != "" then UseProfile(m.value.path, "profile " + name)
      else if IsDefaultName(name) && UseDefault(ps).Some? then UseDefault(ps).value
      else Launch(["-P", name], "profile " + name, None)
    else if UseDefault(ps).Some? then UseDefault(ps).value
    else Launch([], "default profile", None)
  }

  /**
   * Every result is one of three shapes: `-profile` with the path of a
   * listed profile (which is also the returned directory), `-P` with the
   * requested name and no directory, or nothing at all.
   */
  lemma ArgsShape(ps: seq<Profile>, profileName: Option<string>)
    ensures var r := GetZoteroProfileArgs(ps, profileName);
      || (|r.args| == 2 && r.args[0] == "-profile" && r.profilePath == Some(r.args[1])
          && r.args[1] != "" && exists k :: 0 <= k < |ps| && ps[k].path == r.args[1])
      || (profileName.Some? && profileName.value != "" && r.args == ["-P", profileName.value] && r.profilePath.None?)
      || (r.args == [] && r.profilePath.None?)
  {
    var r := GetZoteroProfileArgs(ps, profileName);
    var d := DefaultProfile(ps);
    if profileName.Some? && profileName.value != "" {
      var m := Named(ps, profileName.value);
      if m.Some? && m.value.path != "" {
        var k :| 0 <= k < |ps| && ps[k] == m.value;
      } else if IsDefaultName(profileName.value) && UseDefault(ps).Some? {
        var k :| 0 <= k < |ps| && ps[k] == d.value;
      }
    } else if UseDefault(ps).Some? {
      var k :| 0 <= k < |ps| && ps[k] == d.value;
    }
  }

  /** A profile whose name matches and that has a path is always the one used. */
  lemma NamedProfileWins(ps: seq<Profile>, name: string, k: nat)
    requires name != "" && k < |ps| && ps[k].name == name && ps[k].path != ""
    requires forall j :: 0 <= j < k ==> ps[j].name != name
    ensures GetZoteroProfileArgs(ps, Some(name)).args == ["-profile", ps[k].path]
  {
    NamedIsFirst(ps, name, k);
  }

  lemma {:induction false} NamedIsFirst(ps: seq<Profile>, name: string, k: nat)
    requires k < |ps| && ps[k].name == name
    requires forall j :: 0 <= j < k ==> ps[j].name != name
    ensures Named(ps, name) == Some(ps[k])
    decreases k
  {
    if k > 0 {
      NamedIsFirst(ps[1..], name, k - 1);
      assert Named(ps, name) == Named(ps[1..], name);
    }
  }

  /**
   * Without a requested name (or with an empty one) the result is the
   * default profile when the first profile marked default has a path, and
   * no arguments otherwise.
   */
  lemma NoNameUsesDefault(ps: seq<Profile>)
    ensures var r := GetZoteroProfileArgs(ps, None);
      && (r.args == [] <==> !(DefaultProfile(ps).Some? && DefaultProfile(ps).value.path != ""))
      && (r.args != [] ==> r.profilePath == Some(DefaultProfile(ps).value.path))
    ensures GetZoteroProfileArgs(ps, Some("")) == GetZoteroProfileArgs(ps, None)
  {
  }

  /**
   * A requested name that no listed profile with a path carries falls
   * back to the default profile when the name is "default" in any case
   * and the default profile has a path, and to `-P name` otherwise.
   */
  lemma UnlistedNameFallsBack(ps: seq<Profile>, name: string)
    requires name != "" && !(Named(ps, name).Some? && Named(ps, name).value.path != "")
    ensures GetZoteroProfileArgs(ps, Some(name)) ==
      if IsDefaultName(name) && UseDefault(ps).Some? then UseDefault(ps).value
      else Launch(["-P", name], "profile " + name, None)
  {
  }

  /** `name` with each ASCII letter in lower case. */
  function Lower(name: string): (r: string)
    ensures |r| == |name| && forall k :: 0 <= k < |name| ==> r[k] == AsciiLower(name[k])
  {
    seq(|name|, k requires 0 <= k < |name| => AsciiLower(name[k]))
  }

  /**
   * A name counts as "default" exactly when lowering its case gives
   * "default"; so "DEFAULT", "Default" and "default" all do, and with no
   * listed profile of that name, each of them picks the default profile
   * when it has a path.
   */
  lemma DefaultNameAnyCase(ps: seq<Profile>, name: string)
    ensures IsDefaultName(name) <==> Lower(name) == "default"
    ensures IsDefaultName("DEFAULT") && IsDefaultName("Default") && IsDefaultName("default")
    ensures !IsDefaultName("defaults")
    ensures (Lower(name) == "default" && UseDefault(ps).Some? && !(Named(ps, name).Some? && Named(ps, name).value.path != ""))
      ==> GetZoteroProfileArgs(ps, Some(name)) == UseDefault(ps).value
  {
    if Lower(name) == "default" {
      assert forall k :: 0 <= k < 7 ==> AsciiLower(name[k]) == Lower(name)[k];
    }
  }
}
