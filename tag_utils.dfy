/**
 * The tag-reconciliation helpers of the code-location tagging run
 * coordinator (src/clt_queued_run_coordinator/utils.py): find a run's code
 * location, turn it into the tags the run must carry, and compute which of
 * those tags are missing from, or differ in, the run's existing tags.
 */
module TagUtils {
  import opened Wrappers

  /** A run's tags: string keys to string values. */
  type Tags = map<string, string>

  /** The one tag key the coordinator injects. */
  const TagKey: string := "code_location"

  /** The origin descriptor of a run; its location name may be absent. */
  datatype JobOrigin = JobOrigin(locationName: Option<string>)

  /** The parts of a Dagster run these helpers look at. Attributes that a
      run object may lack are `None` here. `runId` is read only by the tag
      write of the coordinator, which is not modelled; it is kept so that a
      run value names the run that write would address. */
  datatype DagsterRun = DagsterRun(
    runId: string,
    tags: Option<Tags>,
    externalJobOrigin: Option<JobOrigin>)

  /** The code location name of a run: none without an origin, otherwise
      whatever (possibly absent) name the origin carries. */
  function GetCodeLocationName(run: DagsterRun): (r: Option<string>)
    ensures run.externalJobOrigin.None? ==> r.None?
    ensures run.externalJobOrigin.Some? ==> r == run.externalJobOrigin.value.locationName
  {
    match run.externalJobOrigin
    case None => None
    case Some(origin) => origin.locationName
  }

  /** Python truthiness of an optional string: the falsy values are `None`
      and the empty string, every other string is truthy. */
  predicate IsPresent(name: Option<string>): (r: bool)
    ensures r <==> name !in {None, Some("")}
  {
    name.Some? && name.value != ""
  }

  /** The tags a run from `location` must carry: nothing for an absent or
      empty name, otherwise exactly `code_location -> name`. */
  function RequiredTagsForLocation(location: Option<string>): (r: Tags)
    ensures !IsPresent(location) ==> r == map[]
    ensures IsPresent(location) ==>
      r.Keys == {"code_location"} && r["code_location"] == location.value
  {
    if !IsPresent(location) then map[] else map[TagKey := location.value]
  }

  /** `tags` already carries every entry of `required`, with the same value. */
  predicate Satisfies(tags: Tags, required: Tags)
  {
    forall k :: k in required ==> k in tags && tags[k] == required[k]
  }

  /** The entries of `required` that are absent from `existing` or hold a
      different value there. Every entry comes from `required`. */
  function MissingTags(existing: Tags, required: Tags): (r: Tags)
    ensures r.Keys <= required.Keys
    ensures forall k :: k in r ==> r[k] == required[k]
  {
    map k | k in required && Get(existing, k) != Some(required[k]) :: required[k]
  }

  /** The loop of `missing_tags`: visit the keys of `required` one at a
      time, in no particular order, adding each one whose value `existing`
      does not already hold. */
  method CollectMissingTags(existing: Tags, required: Tags) returns (toAdd: Tags)
    ensures toAdd == MissingTags(existing, required)
  {
    toAdd := map[];
    var remaining := required.Keys;
    while remaining != {}
      invariant remaining <= required.Keys
      invariant toAdd.Keys <= required.Keys - remaining
      invariant forall k :: k in toAdd ==> toAdd[k] == required[k]
      invariant forall k :: k in required && k !in remaining ==>
        (k in toAdd <==> Get(existing, k) != Some(required[k]))
      decreases remaining
    {
      var k :| k in remaining;
      var v := required[k];
      if Get(existing, k) != Some(v) {
        toAdd := toAdd[k := v];
      }
      remaining := remaining - {k};
    }
    assert toAdd.Keys == MissingTags(existing, required).Keys;
  }

  /** A key of `required` is missing exactly when `existing` lacks it or
      holds a different value under it. */
  lemma MissingTagsMembership(existing: Tags, required: Tags, k: string)
    requires k in required
    ensures k in MissingTags(existing, required) <==>
      (k !in existing || existing[k] != required[k])
  {
  }

  /** Nothing is missing exactly when `existing` already satisfies
      `required`. */
  lemma MissingTagsEmptyIff(existing: Tags, required: Tags)
    ensures MissingTags(existing, required) == map[] <==> Satisfies(existing, required)
  {
    var r := MissingTags(existing, required);
    if Satisfies(existing, required) {
      assert r.Keys == {};
    } else {
      var k :| k in required && !(k in existing && existing[k] == required[k]);
      assert k in r;
    }
  }

  /** With nothing required, nothing is missing. */
  lemma MissingTagsOfEmpty(existing: Tags)
    ensures MissingTags(existing, map[]) == map[]
  {
  }

  /** Overriding `existing` with the missing tags gives tags that satisfy
      `required`, and leaves every other tag as it was. */
  lemma MergeSatisfies(existing: Tags, required: Tags)
    ensures Satisfies(existing + MissingTags(existing, required), required)
    ensures forall k :: k in existing && k !in required ==>
      (existing + MissingTags(existing, required))[k] == existing[k]
  {
  }

  /** Merging only the missing tags has the same effect as merging all of
      `required`: the entries already present are not rewritten. */
  lemma MergeMissingIsMergeRequired(existing: Tags, required: Tags)
    ensures existing + MissingTags(existing, required) == existing + required
  {
  }

  /** Reconciling twice adds nothing the second time. */
  lemma MissingTagsIdempotent(existing: Tags, required: Tags)
    ensures MissingTags(existing + MissingTags(existing, required), required) == map[]
  {
    MergeSatisfies(existing, required);
    MissingTagsEmptyIff(existing + MissingTags(existing, required), required);
  }

  /** An absent or empty location requires nothing, so nothing is added. */
  lemma NoLocationAddsNothing(existing: Tags, location: Option<string>)
    requires !IsPresent(location)
    ensures MissingTags(existing, RequiredTagsForLocation(location)) == map[]
  {
    MissingTagsOfEmpty(existing);
  }

  /** For a present location, the tags to add are `code_location -> name`
      when the existing tags lack that entry, and nothing otherwise. */
  lemma MissingLocationTag(existing: Tags, location: Option<string>)
    requires IsPresent(location)
    ensures var missing := MissingTags(existing, RequiredTagsForLocation(location));
      missing == if TagKey in existing && existing[TagKey] == location.value
                 then map[] else map[TagKey := location.value]
  {
    var required := RequiredTagsForLocation(location);
    var missing := MissingTags(existing, required);
    MissingTagsMembership(existing, required, TagKey);
    if TagKey in existing && existing[TagKey] == location.value {
      assert missing.Keys == {};
    } else {
      assert missing.Keys == {TagKey};
    }
  }

  /** A run whose tags lack `code_location` gets it added. */
  lemma ExampleOwnerOnly()
    ensures MissingTags(map["owner" := "alice"], RequiredTagsForLocation(Some("repo-prod")))
      == map[TagKey := "repo-prod"]
  {
    MissingLocationTag(map["owner" := "alice"], Some("repo-prod"));
  }

  /** A run that already carries the right `code_location` gets nothing. */
  lemma ExampleAlreadyTagged()
    ensures MissingTags(map[TagKey := "repo-prod", "owner" := "alice"],
                        RequiredTagsForLocation(Some("repo-prod"))) == map[]
  {
    MissingLocationTag(map[TagKey := "repo-prod", "owner" := "alice"], Some("repo-prod"));
  }
}
