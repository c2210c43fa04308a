# Code-location tag reconciliation

A Dafny model of the tag helpers behind the code-location tagging run
coordinator for Dagster. Before a run enters Dagster's queue, the coordinator
makes sure the run carries the tag `code_location -> <location name>`, so that
Dagster's tag-based concurrency limits can throttle runs per code location.

The model covers:

- `TagUtils` (src/clt_queued_run_coordinator/utils.py):
  - the tag key `code_location`;
  - the lookup of a run's location name through its optional origin;
  - the required-tag map for an optional location name;
  - `missing_tags`, modelled twice. `MissingTags` is a pure function: the
    entries of `required` that `existing` lacks or holds with another value.
    `CollectMissingTags` is the source's loop over the keys of `required`,
    building the result map one key at a time, proved equal to the function.
- `Coordinator` (src/clt_queued_run_coordinator/coordinator.py): only the
  decision `submit_run` takes, which is which tags it writes to the instance,
  and that it writes iff there is something to write.
- `Wrappers`: `Option` and a `Get` that stands for Python's `Mapping.get`.

Python's `getattr` reflection on Dagster objects is replaced by datatypes
whose optional attributes are `Option` fields. `DagsterRun.tags` is
`None` when the attribute is missing or `None`, and `JobOrigin.locationName` is
`None` when the origin has no location name. A Python dict becomes a Dafny
`map<string, string>`. The loop takes the keys in an arbitrary order because
the result is a map, so the order does not matter.

## Model

| member | source | states |
|---|---|---|
| Wrappers.Get | src/clt_queued_run_coordinator/utils.py:32 | `existing.get(k)` is present iff `k` is a key of the map, and then holds its value |
| TagUtils.GetCodeLocationName | src/clt_queued_run_coordinator/utils.py:8-13 | no origin gives no name; otherwise the result is the origin's own location name, which may itself be absent |
| TagUtils.IsPresent | src/clt_queued_run_coordinator/utils.py:21 | a location name counts as present unless it is `None` or the empty string, the two falsy values Python's `not location_name` rejects |
| TagUtils.RequiredTagsForLocation | src/clt_queued_run_coordinator/utils.py:5-23 | an absent or empty name requires no tags; a non-empty name requires exactly one tag: the key `TAG_KEY`, the literal `code_location`, mapped to that name |
| TagUtils.MissingTags | src/clt_queued_run_coordinator/utils.py:26-34 | every entry of the result comes from `required`: its keys are keys of `required` and its values are the required values |
| TagUtils.CollectMissingTags | src/clt_queued_run_coordinator/utils.py:30-34 | the loop over the keys of `required`, in any order, builds exactly the map of missing or differing required entries |
| TagUtils.MissingTagsMembership | src/clt_queued_run_coordinator/utils.py:31-33 | a required key is in the result iff `existing` lacks it or maps it to a different value |
| TagUtils.MissingTagsEmptyIff | src/clt_queued_run_coordinator/utils.py:26-34 | nothing is missing iff `existing` already holds every required entry with the required value |
| TagUtils.MissingTagsOfEmpty | src/clt_queued_run_coordinator/utils.py:30-34 | with no required tags nothing is missing, whatever the existing tags |
| TagUtils.MergeSatisfies | src/clt_queued_run_coordinator/utils.py:26-34 | overriding `existing` with the missing tags yields tags that hold every required entry, and every tag outside `required` keeps its value |
| TagUtils.MergeMissingIsMergeRequired | src/clt_queued_run_coordinator/utils.py:26-34 | merging only the missing tags gives the same tags as merging all of `required`: entries already correct need no write |
| TagUtils.MissingTagsIdempotent | src/clt_queued_run_coordinator/utils.py:26-34 | after merging the missing tags into `existing`, recomputing the missing tags gives the empty map |
| TagUtils.NoLocationAddsNothing | src/clt_queued_run_coordinator/utils.py:21-22 | for an absent or empty location, no tag is missing, whatever the existing tags |
| TagUtils.MissingLocationTag | src/clt_queued_run_coordinator/utils.py:23 | for a non-empty location the missing tags are `{code_location: name}` unless `existing` already maps `code_location` to that name, and then empty |
| TagUtils.ExampleOwnerOnly | src/clt_queued_run_coordinator/utils.py:16-34 | existing `{"owner": "alice"}` with location `"repo-prod"` is missing `{"code_location": "repo-prod"}` |
| TagUtils.ExampleAlreadyTagged | src/clt_queued_run_coordinator/utils.py:16-34 | existing `{"code_location": "repo-prod", "owner": "alice"}` with location `"repo-prod"` is missing nothing |
| Coordinator.ExistingTags | src/clt_queued_run_coordinator/coordinator.py:29 | a run whose tags attribute is missing or `None` has no tags; otherwise its own tags are used |
| Coordinator.TagsToAdd | src/clt_queued_run_coordinator/coordinator.py:23-30 | the tags to add can only be `code_location`, and there are none when the run's location is absent or empty |
| Coordinator.TagsToAddValue | src/clt_queued_run_coordinator/coordinator.py:23-30 | the tags to add are exactly `{code_location: name}` when the run has a non-empty location and does not already map `code_location` to it, and empty otherwise |
| Coordinator.WritesTags | src/clt_queued_run_coordinator/coordinator.py:31 | the tag store is called only when there is something to add, which needs a run with a non-empty location, and then only the `code_location` tag is added |
| Coordinator.WritesTagsIff | src/clt_queued_run_coordinator/coordinator.py:23-33 | the tag store is called iff the run has a non-empty location and does not already carry `code_location` with that name |
| Coordinator.WrittenTagsCarryLocation | src/clt_queued_run_coordinator/coordinator.py:23-33 | after the write, the run carries `code_location` mapped to its location name, and every other tag keeps its value |
| Coordinator.NoOriginNoWrite | src/clt_queued_run_coordinator/coordinator.py:23-31 | a run without an origin never causes a tag write |

## Left out

- Writing the tags (`context.instance.add_run_tags`): a call into Dagster's run storage, outside this model. `Coordinator.WrittenTagsCarryLocation` assumes the write merges the added tags over the existing ones.
- Logging (`context.log.info`, `context.log.warning`) and the handling of an exception from the tag write: output and Python exception semantics, not modelled.
- The delegation to the base `QueuedRunCoordinator.submit_run`: Dagster's queueing and concurrency checks, outside this model.
- The `CLTQueuedRunCoordinator` alias class: a configuration name with no behaviour of its own.
- Python's `getattr` on arbitrary objects: an attribute that exists but holds a value of another type (not a string, not a dict) is not modelled; attributes are either absent or of the expected type.
- Dict iteration order: the loop in `CollectMissingTags` takes the keys of `required` in an arbitrary order. The result is a map, so the order cannot change it.
