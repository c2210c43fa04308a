/**
 * The tag decision that `submit_run` of the tagging run coordinator
 * (src/clt_queued_run_coordinator/coordinator.py) takes before it hands the
 * run to the base queueing coordinator. The write itself, logging and the
 * base coordinator are not modelled; only which tags would be written.
 */
module Coordinator {
  import opened Wrappers
  import opened TagUtils

  /** The run's existing tags; a missing or empty tags attribute reads as
      no tags. */
  function ExistingTags(run: DagsterRun): (r: Tags)
    ensures run.tags.None? ==> r == map[]
    ensures run.tags.Some? ==> r == run.tags.value
  {
    match run.tags
    case None => map[]
    case Some(t) => t
  }

  /** The tags `submit_run` asks the instance to add to the run. */
  function TagsToAdd(run: DagsterRun): (r: Tags)
    ensures r.Keys <= {TagKey}
    ensures !IsPresent(GetCodeLocationName(run)) ==> r == map[]
  {
    MissingTags(ExistingTags(run), RequiredTagsForLocation(GetCodeLocationName(run)))
  }

  /** `submit_run` calls the instance's tag store exactly when there is
      something to add; only a run with a location can cause that call,
      and it then adds the `code_location` tag alone. */
  predicate WritesTags(run: DagsterRun): (r: bool)
    ensures r ==> IsPresent(GetCodeLocationName(run)) && TagsToAdd(run).Keys == {TagKey}
  {
    TagsToAdd(run) != map[]
  }

  /** The exact tags to add: `code_location -> name` when the run has a
      location and does not already carry that entry, and nothing otherwise. */
  lemma TagsToAddValue(run: DagsterRun)
    ensures var loc := GetCodeLocationName(run);
      TagsToAdd(run) ==
        if IsPresent(loc) && !(TagKey in ExistingTags(run) && ExistingTags(run)[TagKey] == loc.value)
        then map[TagKey := loc.value] else map[]
  {
    var loc := GetCodeLocationName(run);
    if IsPresent(loc) {
      MissingLocationTag(ExistingTags(run), loc);
    } else {
      NoLocationAddsNothing(ExistingTags(run), loc);
    }
  }

  /** Once the tags are written, the run carries `code_location -> name`
      for its resolved location, and its other tags are unchanged. */
  lemma WrittenTagsCarryLocation(run: DagsterRun)
    requires IsPresent(GetCodeLocationName(run))
    ensures var merged := ExistingTags(run) + TagsToAdd(run);
      TagKey in merged && merged[TagKey] == GetCodeLocationName(run).value
      && forall k :: k in ExistingTags(run) && k != TagKey ==> merged[k] == ExistingTags(run)[k]
  {
    MergeSatisfies(ExistingTags(run), RequiredTagsForLocation(GetCodeLocationName(run)));
  }

  /** The store is written exactly when the run has a location and does not
      already carry the matching `code_location` tag. */
  lemma WritesTagsIff(run: DagsterRun)
    ensures WritesTags(run) <==>
      (IsPresent(GetCodeLocationName(run))
       && !(TagKey in ExistingTags(run) && ExistingTags(run)[TagKey] == GetCodeLocationName(run).value))
  {
    if IsPresent(GetCodeLocationName(run)) {
      MissingLocationTag(ExistingTags(run), GetCodeLocationName(run));
    }
  }

  /** A run without an origin is never written to. */
  lemma NoOriginNoWrite(run: DagsterRun)
    requires run.externalJobOrigin.None?
    ensures !WritesTags(run)
  {
  }
}
