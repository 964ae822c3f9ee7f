# OpenStack server reconciliation, modelled in Dafny

This project models the decision logic of three Ansible modules that act on one
OpenStack compute instance. Each looks the instance up, decides whether the
requested state already holds, and then makes nothing or a minimal, ordered set
of writes:

- `os_server_metadata` sets and/or deletes metadata. An empty request returns
  before the instance is looked up. Requested pairs are compared pair by pair
  with the instance's metadata. The keys to delete are filtered down to those
  the instance has. Then at most one `set_meta` call (with the whole requested
  mapping) and at most one `delete_meta` call follow, in that order.
- `os_server_reboot` reboots. It fails when the instance is not found. Check
  mode reports what a reboot would do. An instance already in `REBOOT` or
  `HARD_REBOOT` is left alone. Otherwise one reboot call is made, with the type
  upper-cased. With `wait`, the module sleeps 2 seconds once, then polls. A tick
  whose lookup raised keeps waiting. `ACTIVE` ends in success. `ERROR` ends in
  failure. Any other status keeps waiting. Running out of time is a failure.
- `os_server_rename` compares the current name with the requested one, before
  check mode is consulted, and makes at most one update call.

Files:

- `cloud.dfy` (module `Cloud`) holds what the three share:
  - the `Server` snapshot;
  - the result of the lookup, `Lookup` (`Found`, `NotFound`, or `CloudError`
    with message and extra data);
  - the reported `Outcome` (`Exit(changed)`, or `Fail(msg, extraData)`);
  - the `Action` log: every lookup, write and sleep, in order;
  - `Writes(log)`, the writes of a log;
  - `ApplyLog`, the effect the control plane is assumed to give each write.
- `server_metadata.dfy`, `server_reboot.dfy` and `server_rename.dfy` hold one
  module per source file.
  - An invocation is the function `Reconcile`. It maps the parameters, the
    lookup result and the check-mode flag to a `Trace(outcome, log)`.
  - The metadata and reboot procedures are imperative in the source. They are
    also written as methods, `Execute`, with the source's loops. Each method is
    proved equal to its `Reconcile`.
  - The properties are lemmas about `Reconcile`.

The network clients are not modelled. Their part is played by inputs and
outputs:

- The one pre-check lookup is an input `Lookup`.
- The reboot wait sees an input sequence of `Tick`s: `Raised` when the lookup
  raised, `Observed(status)` otherwise. It holds the ticks that fit before the
  deadline, so its length stands for the timeout.
- Writes and sleeps are only recorded in the log.

Two modelling choices follow the code:

- A timeout is a failure, not an outcome of its own. The timeout helper's code
  is not part of this model. It is assumed to raise a cloud exception with the
  message "Timeout waiting for server to complete reboot." when the deadline
  passes. The module's handler then turns that into `Fail` with the message
  (os_server_reboot.py:124-125, 139-140).
- The reboot `wait` option is documented as defaulting to yes
  (os_server_reboot.py:46), but the code default is false
  (os_server_reboot.py:86). The model takes `wait` as an explicit input.

## Model

| member | source | states |
|---|---|---|
| `Cloud.LookupFailure` | cloud/openstack/os_server_metadata.py:107-108 | A lookup that gives no server is a failure. Not found gives "Could not find server None" with no extra data. A cloud exception gives its own message and extra data. This is the same in os_server_reboot.py:99-100,139-140 and os_server_rename.py:88-89,101-102. |
| `ServerMetadata.Reconcile` | cloud/openstack/os_server_metadata.py:97-131 | A whole run as a function of the request, the lookup result and check mode. Its contract: the log is empty exactly for an empty request, starts with the one lookup, has only writes after it, and has at most three calls (one in check mode). It fails exactly when a non-empty request finds no server. The lemmas below give the rest. |
| `ServerMetadata.PresentKeys` | cloud/openstack/os_server_metadata.py:112-115 | The delete-key filter. It is no longer than the request, and each of its keys was requested and is present. `PresentKeysMembers`, `PresentKeysCount` and `PresentKeysInOrder` pin it down exactly. |
| `ServerMetadata.HasSetChanges` | cloud/openstack/os_server_metadata.py:110 | The pair-subset test holds exactly when some requested key is missing from the observed metadata or present with a different value. |
| `ServerMetadata.PresentKeysMembers` | cloud/openstack/os_server_metadata.py:112-115 | A key is in the delete list exactly when it was requested and the observed metadata has it. The list is empty exactly when no requested key is present. |
| `ServerMetadata.PresentKeysCount` | cloud/openstack/os_server_metadata.py:112-115 | Each present key occurs in the delete list as often as it was requested. Absent keys do not occur at all. |
| `ServerMetadata.PresentKeysInOrder` | cloud/openstack/os_server_metadata.py:112-115 | The delete list is a sub-list of the requested keys, in request order. |
| `ServerMetadata.PresentKeysAppend` | cloud/openstack/os_server_metadata.py:112-115 | Filtering a concatenation of key lists gives the concatenation of the filtered lists. This is the step the appending loop takes. |
| `ServerMetadata.Execute` | cloud/openstack/os_server_metadata.py:97-131 | The step-by-step procedure returns exactly the outcome and call log of `Reconcile`. This covers parameter normalisation, the short-circuit, the lookup, the pair test, the delete-key loop, check mode and the dispatch. |
| `ServerMetadata.EmptyRequestShortCircuits` | cloud/openstack/os_server_metadata.py:97-103 | An empty or omitted `set` and `delete` give `changed=False` with no call at all. Any other request starts with the one lookup. |
| `ServerMetadata.LookupFailureWritesNothing` | cloud/openstack/os_server_metadata.py:105-108 | A missing instance, or a cloud exception during the lookup, fails the invocation after the lookup and before any write. |
| `ServerMetadata.ChangedIff` | cloud/openstack/os_server_metadata.py:97-120 | For every request, with or without check mode, `changed` is reported exactly when some requested pair does not hold yet or some requested delete key is present. |
| `ServerMetadata.CheckModeWritesNothing` | cloud/openstack/os_server_metadata.py:119-120 | Check mode makes no write and at most the one lookup. |
| `ServerMetadata.NoChangesNoWrites` | cloud/openstack/os_server_metadata.py:122-123 | When every pair holds and no delete key is present, the result is `changed=False` and there are no writes. |
| `ServerMetadata.DispatchOrder` | cloud/openstack/os_server_metadata.py:97-131 | For every request, outside check mode there are at most two writes, in order. First comes one `set_meta` with the full requested mapping, when some pair differs. Then comes one `delete_meta` with exactly the present requested keys, when there are any. |
| `ServerMetadata.SetAndDeleteOfAbsentKey` | cloud/openstack/os_server_metadata.py:110-129 | A key that is both set and deleted, and that the instance did not have, is set and not deleted. The filter reads the snapshot taken before the writes. |
| `ServerMetadata.RerunIsNoOp` | cloud/openstack/os_server_metadata.py:110-131 | If no key is both set and deleted, re-running a request on the metadata a real run produced reports `changed=False`. This assumes `set_meta` upserts and `delete_meta` removes. |
| `ServerMetadata.OverlapBreaksRerun` | cloud/openstack/os_server_metadata.py:110-131 | Without that condition the re-run property fails: a key set and deleted is set by the first run and deleted by the second, and both report a change. |
| `ServerMetadata.CheckModeLeavesServer` | cloud/openstack/os_server_metadata.py:119-120 | A check-mode run leaves the instance as it was, so a later real run behaves as if it had not happened. |
| `ServerMetadata.ExampleSetOneMissingKey` | cloud/openstack/os_server_metadata.py:110-131 | Worked example: metadata `{key1: value1}`, set `{key1: value1, key2: value2}`, delete `[key3]`. The result is one lookup, one `set_meta` with the full mapping, no delete, and `changed=True`. |
| `ServerReboot.Upper` | cloud/openstack/os_server_reboot.py:109 | Upper-casing keeps the length and upper-cases each letter in place. |
| `ServerReboot.RebootTypeUpperCased` | cloud/openstack/os_server_reboot.py:109 | The reboot type sent is `SOFT` for `soft` and `HARD` for `hard`. |
| `ServerReboot.Reconcile` | cloud/openstack/os_server_reboot.py:97-140 | A whole run as a function of the request, the lookup result, check mode and the wait's ticks. Its contract: the log starts with the one lookup. The only possible write is a reboot at position 1. The only possible sleep is at position 2, and only with `wait`. Check mode makes just the lookup. Without `wait` there are at most two calls. The lemmas below give the rest. |
| `ServerReboot.Poll` | cloud/openstack/os_server_reboot.py:124-135 | The wait loop over the ticks before the deadline. It ends in success, the ERROR failure or the timeout failure. It makes at most one call per tick, and every call is a lookup of the instance. `PollStopsAtFirstDecisive`, `PollTimesOut` and `PollOutcomes` say which outcome it is. |
| `ServerReboot.Execute` | cloud/openstack/os_server_reboot.py:97-140 | The step-by-step procedure, including the wait loop over the ticks, returns exactly the outcome and call log of `Reconcile`. |
| `ServerReboot.NotFoundNoReboot` | cloud/openstack/os_server_reboot.py:97-100 | A missing instance, or a cloud exception during the lookup, fails the invocation with no write. |
| `ServerReboot.CheckModeNoReboot` | cloud/openstack/os_server_reboot.py:102-103 | In check mode, `changed` is "status is neither REBOOT nor HARD_REBOOT", and no write is made. |
| `ServerReboot.AlreadyRebootingNoReboot` | cloud/openstack/os_server_reboot.py:105-107 | An instance in REBOOT or HARD_REBOOT gives `changed=False` and no reboot call, so reboots do not stack. |
| `ServerReboot.SingleReboot` | cloud/openstack/os_server_reboot.py:109 | Otherwise the only write is one reboot call with the upper-cased type, made right after the lookup. No tick of the wait adds a write. |
| `ServerReboot.AtMostOneWrite` | cloud/openstack/os_server_reboot.py:97-137 | No invocation makes more than one write. |
| `ServerReboot.NoWaitReturnsAfterReboot` | cloud/openstack/os_server_reboot.py:111-112 | Without `wait`, the invocation ends with `changed=True` right after the reboot call, with no sleep and no polling. |
| `ServerReboot.WaitSleepsThenPolls` | cloud/openstack/os_server_reboot.py:121-135 | With `wait`, the reboot call is followed by one 2-second sleep and then only by lookups. The outcome is the wait's. |
| `ServerReboot.PollOnlyFetches` | cloud/openstack/os_server_reboot.py:124-135 | The wait makes only lookups of the instance, at most one per tick, and no write. |
| `ServerReboot.PollStopsAtFirstDecisive` | cloud/openstack/os_server_reboot.py:124-135 | The first tick that sees ACTIVE or ERROR ends the wait, after one lookup per tick up to it. ACTIVE gives `changed=True`. ERROR gives "Server reached ERROR state while rebooting.". |
| `ServerReboot.PollTimesOut` | cloud/openstack/os_server_reboot.py:124-129 | If no tick sees ACTIVE or ERROR, the wait fails with the timeout message after looking up on every tick. Lookups that keep raising never end the wait early. |
| `ServerReboot.PendingTickIsSkipped` | cloud/openstack/os_server_reboot.py:126-135 | A raised lookup, or a status other than ACTIVE or ERROR, costs one lookup, and the wait continues from the next tick. |
| `ServerReboot.PollOutcomes` | cloud/openstack/os_server_reboot.py:124-140 | The wait ends in exactly one of success, the ERROR failure, or the timeout failure. It succeeds exactly when some tick sees ACTIVE with no earlier tick that sees ACTIVE or ERROR. |
| `ServerReboot.ExampleRebootConverges` | cloud/openstack/os_server_reboot.py:109-132 | Worked example: an ACTIVE instance, then ticks REBOOT and ACTIVE. The log has one soft reboot, one sleep and two polls, and the result is `changed=True`. |
| `ServerRename.Reconcile` | cloud/openstack/os_server_rename.py:86-99 | A whole run as a function of the request, the lookup result and check mode. Its contract: the log is the one lookup, then at most one update to the requested name, and only outside check mode. It exits exactly when a server was found. It reports a change only when the name differs. The lemmas below give the rest. |
| `ServerRename.NotFoundNoUpdate` | cloud/openstack/os_server_rename.py:86-89 | A missing instance fails the invocation with no update. |
| `ServerRename.CloudErrorFails` | cloud/openstack/os_server_rename.py:101-102 | A cloud exception during the lookup becomes a failure carrying its message and extra data, with no write. |
| `ServerRename.ChangedIffNameDiffers` | cloud/openstack/os_server_rename.py:91-99 | With or without check mode, `changed` is reported exactly when the current name differs from the requested one. |
| `ServerRename.SameNameNoUpdate` | cloud/openstack/os_server_rename.py:91-92 | An equal name gives `changed=False` and no update, also in check mode, since the test comes first. |
| `ServerRename.CheckModeNoUpdate` | cloud/openstack/os_server_rename.py:94-95 | Check mode with a different name reports `changed=True` and makes no update. |
| `ServerRename.SingleUpdate` | cloud/openstack/os_server_rename.py:97-99 | Otherwise the only write is one update to the requested name, and `changed=True`. |
| `ServerRename.RerunIsNoOp` | cloud/openstack/os_server_rename.py:91-99 | After a real run the instance has the requested name, and re-running reports `changed=False`. |

## Left out

- Argument specifications, documentation strings, the shade import guard and
  the Ansible exit/fail machinery are not modelled. Exits and failures are the
  `Outcome` value.
- The shade and nova clients are replaced by inputs:
  - connecting and the first lookup are one `Lookup` input (a cloud exception
    in either is `CloudError`);
  - the wait's lookups are the `Tick` sequence;
  - writes are recorded, not performed.
- Failures of the write calls are not modelled: the exception type those
  clients raise is not part of this model, so it is unknown whether the
  handler catches them.
- The timeout helper's timing is not modelled: how it measures time, and the
  interval it sleeps between ticks. The number of ticks before the deadline is
  the length of the tick sequence.
  - Running out of ticks is assumed to raise a cloud exception with the timeout
    message and no extra data, which the handler turns into a failure.
  - So the final `changed=True` exit after the loop (os_server_reboot.py:137)
    is never reached in the model.
- A wait-time lookup that returns no server at all (rather than raising) is not
  modelled: each tick either raised or returned a status.
- `ServerReboot.Upper`: upper-cases ASCII letters only, not all of Unicode as
  Python's `upper` does. This is enough because the type is `soft` or `hard`.
- `ServerMetadata.RerunIsNoOp`: holds only if no key is both set and deleted,
  and only after a real (not check-mode) first run. `OverlapBreaksRerun` shows
  the overlap case failing.
- Metadata keys and values, and the keys to delete, are strings. Values of other
  types are not modelled. In Python, a requested value `1` never equals an
  observed `"1"`, so such a request reports a change and calls `set_meta` on
  every run. An unhashable value makes the pair test raise an exception that
  the handler does not catch. The re-run property `RerunIsNoOp` relies on the
  values being strings.
- Python truthiness is modelled directly. An omitted or empty `set`/`delete` is
  empty. "Has changes" is a boolean: the pair test, or a non-empty delete list.
