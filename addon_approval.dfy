/**
 * `ensureAddonEnabled(profilePath, addonID)` (scripts/start.mjs:185-224):
 * before launching, the development script edits the profile's
 * `extensions.json` so that Zotero neither asks to approve side-loaded
 * add-ons nor keeps this add-on disabled. Reading and writing the file is
 * left out; the model is the pass over the parsed `addons` array, which
 * changes the entries in place and reports whether anything changed.
 */
module AddonApproval {
  import opened Wrappers

  /**
   * The fields of one `extensions.json` entry the pass reads or writes.
   * `installTelemetryInfo` is kept as the JSON text of the object, None
   * for `null`.
   */
  datatype AddonRecord = AddonRecord(
    id: Option<string>,
    foreignInstall: bool,
    installTelemetryInfo: Option<string>,
    userDisabled: bool,
    softDisabled: bool,
    seen: bool)

  /** Whether this add-on is not yet enabled and seen. */
  predicate NeedsEnabling(a: AddonRecord)
  {
    a.userDisabled || a.softDisabled || !a.seen
  }

  /** What the loop body makes of one entry; a `null` entry stays as it is. */
  function Approve(entry: Option<AddonRecord>, addonID: string): (r: Option<AddonRecord>)
    ensures entry.None? ==> r.None?
    ensures entry.Some? ==> r.Some? && r.value.id == entry.value.id && !r.value.foreignInstall
  {
    match entry
    case None => None
    case Some(a) =>
      var a1 := if a.foreignInstall then a.(foreignInstall := false, installTelemetryInfo := None) else a;
      var a2 := if a1.id == Some(addonID) && NeedsEnabling(a1) then a1.(userDisabled := false, softDisabled := false, seen := true) else a1;
      Some(a2)
  }

  /**
   * The entry changes exactly when it was side-loaded or is the target
   * and not yet enabled; an entry that changes loses its side-loaded
   * mark and telemetry, and the target ends enabled and seen.
   */
  lemma ApproveEffect(entry: Option<AddonRecord>, addonID: string)
    ensures var r := Approve(entry, addonID);
      && (r != entry <==> entry.Some? && (entry.value.foreignInstall || (entry.value.id == Some(addonID) && NeedsEnabling(entry.value))))
      && (entry.Some? && entry.value.foreignInstall ==> r.value.installTelemetryInfo.None?)
      && (entry.Some? && !entry.value.foreignInstall ==> r.value.installTelemetryInfo == entry.value.installTelemetryInfo)
      && (entry.Some? && entry.value.id == Some(addonID) ==> !r.value.userDisabled && !r.value.softDisabled && r.value.seen)
      && (entry.Some? && entry.value.id != Some(addonID) ==>
            r.value.(foreignInstall := false, installTelemetryInfo := None)
            == entry.value.(foreignInstall := false, installTelemetryInfo := None))
  {
  }

  /** A second pass changes nothing. */
  lemma ApproveIdempotent(entry: Option<AddonRecord>, addonID: string)
    ensures Approve(Approve(entry, addonID), addonID) == Approve(entry, addonID)
  {
  }

  /** The loop over `addons`: every entry approved, `updated` set when one changed. */
  method EnsureAddonEnabled(addons: array<Option<AddonRecord>>, addonID: string) returns (updated: bool)
    modifies addons
    ensures forall k :: 0 <= k < addons.Length ==> addons[k] == Approve(old(addons[k]), addonID)
    ensures updated <==> addons[..] != old(addons[..])
  {
    updated := false;
    var i := 0;
    while i < addons.Length
      invariant 0 <= i <= addons.Length
      invariant forall k :: 0 <= k < i ==> addons[k] == Approve(old(addons[k]), addonID)
      invariant forall k :: i <= k < addons.Length ==> addons[k] == old(addons[k])
      invariant updated <==> exists k :: 0 <= k < i && addons[k] != old(addons[k])
    {
      var entry := addons[i];
      if entry.Some? {
        var a := entry.value;
        if a.foreignInstall {
          a := a.(foreignInstall := false, installTelemetryInfo := None);
          updated := true;
        }
        if a.id == Some(addonID) {
          if a.userDisabled || a.softDisabled || !a.seen {
            a := a.(userDisabled := false, softDisabled := false, seen := true);
            updated := true;
          }
        }
        addons[i] := Some(a);
        ApproveEffect(entry, addonID);
      }
      i := i + 1;
    }
    if updated {
      ghost var k :| 0 <= k < addons.Length && addons[k] != old(addons[k]);
      assert addons[..][k] != old(addons[..])[k];
    }
  }
}
