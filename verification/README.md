# Label-to-taint node operator: verified model of the event handler

The operator watches Kubernetes node events. For each `ADDED` or `MODIFIED`
event it reads the labels from the event object and the taints from a fresh
read of the node. A node labelled `dedicated=ci` must carry the taint
`dedicated=ci:NoSchedule`, and a node without that label must not. When label
and taint disagree, the handler sends a patch with the whole new taint list:
either the old list with the taint appended, or the old list with every copy
of the taint filtered out. Every other event type is ignored.

This project models that decision as pure Dafny functions and proves the
handler's properties about it:

- `wrappers.dfy`: module `Wrappers`, which holds Python's optional values. It
  covers `x or default` and `dict.get`.
- `label_to_taint.dfy`: module `LabelToTaint`, which holds the constants, the
  `Taint` triple, the label and taint tests, the two patches, the decision
  `Decide` and its `Outcome`, and the lemmas.

The node-store calls are not modelled. The event's label map and the freshly
read taint list are the inputs of `Decide`. The patch body is the `newTaints`
of its `Tainting` or `RemovingTaint` outcome. `None` (a missing event type,
label map or taint list) is an explicit `Option`. A missing map or list is
treated as empty, as `or {}` and `or []` do.

`Add` appends unconditionally (label_to_taint_operator.py:53). `Decide` calls
it only when `HasTaint` is false (line 50), so `Add` alone is not idempotent.
Idempotence holds for the decision as a whole: `DecideConverges` and
`ReplayWritesAtMostOnce` prove it.

## Model

| member | source | states |
|---|---|---|
| `Wrappers.OrElse` | label_to_taint_operator.py:36-41 | `x or default`: a missing value gives the default, a present one gives itself (used for `or {}` and `or []`) |
| `Wrappers.Get` | label_to_taint_operator.py:44 | `dict.get`: present exactly when the key is in the map, and then the stored value |
| `LabelToTaint.IsManaged` | label_to_taint_operator.py:46 | The per-entry test (key, value and effect compared with the constants of lines 9-11) holds exactly for the triple `dedicated`/`ci`/`NoSchedule` |
| `LabelToTaint.IsHandled` | label_to_taint_operator.py:30-31 | An event is handled iff its type is present and is `ADDED` or `MODIFIED` |
| `LabelToTaint.HasLabel` | label_to_taint_operator.py:36-44 | The label test holds iff key `dedicated` is present and maps to `ci`. An empty label map gives false |
| `LabelToTaint.HasTaint` | label_to_taint_operator.py:45-48 | The `any(...)` scan is true iff some entry equals the full managed triple |
| `LabelToTaint.OtherEffectNotCounted` | label_to_taint_operator.py:45-48 | Adding an entry with key `dedicated` and value `ci` but a different effect does not change taint presence |
| `LabelToTaint.Add` | label_to_taint_operator.py:53-59 | The added list is one longer. The old entries keep their positions, and the managed taint sits at the end |
| `LabelToTaint.AddNonInterference` | label_to_taint_operator.py:53-59 | Every taint other than the managed one occurs in the appended list exactly as often as before |
| `LabelToTaint.Remove` | label_to_taint_operator.py:66-69 | No managed entry remains. The list does not grow. Every other taint keeps its number of occurrences |
| `LabelToTaint.RemoveConcat` | label_to_taint_operator.py:66-69 | Filtering distributes over concatenation. With `RemoveSingle`, this pins down that the surviving entries keep their relative order |
| `LabelToTaint.RemoveSingle` | label_to_taint_operator.py:66-69 | On a one-entry list, filtering drops the entry iff it is the managed triple |
| `LabelToTaint.RemoveWhenAbsent` | label_to_taint_operator.py:66-69 | A list with no managed entry passes through filtering unchanged |
| `LabelToTaint.RemoveIdempotent` | label_to_taint_operator.py:66-69 | Filtering twice gives the same list as filtering once |
| `LabelToTaint.RemoveLength` | label_to_taint_operator.py:66-69 | Filtering removes exactly as many entries as there were copies of the managed triple |
| `LabelToTaint.RemoveNonInterference` | label_to_taint_operator.py:66-69 | A taint other than the managed one is in the filtered list iff it was in the old list, with the same number of copies |
| `LabelToTaint.Decide` | label_to_taint_operator.py:30-69 | Non-`ADDED`/`MODIFIED` events, including a missing type, are `Ignored`. Otherwise the outcome is `NoOp` iff label presence equals taint presence, `Tainting` iff the label is present and the taint absent, and `RemovingTaint` iff the reverse. After either patch, taint presence equals label presence |
| `LabelToTaint.DecideTaintingAppends` | label_to_taint_operator.py:50-59 | The add patch is the old list, every entry at its old index, with the managed triple appended as the last entry |
| `LabelToTaint.DecideRemovingFilters` | label_to_taint_operator.py:63-69 | The remove patch holds no managed entry. It is the filtered old list, shorter by the number of managed copies |
| `LabelToTaint.DecideNonInterference` | label_to_taint_operator.py:50-69 | Whatever the outcome, a taint other than the managed triple has the same multiplicity in the resulting list as in the old list |
| `LabelToTaint.DecideConverges` | label_to_taint_operator.py:44-69 | For a handled event, the resulting list has taint presence equal to label presence, and deciding again on it with the same labels yields `NoOp` |
| `LabelToTaint.Patched` | label_to_taint_operator.py:60-71 | The node's taint list after the outcome: a `Tainting` or `RemovingTaint` patch replaces the list with its `newTaints` (the whole-list patch of lines 60-61 and 70-71), and `NoOp` or `Ignored` leaves it untouched |
| `LabelToTaint.Examples` | label_to_taint_operator.py:30-69 | Worked cases: tainting an empty list, untainting when labels are empty or missing, an agreeing node, an ignored `DELETED` event, appending after another taint, and appending even when a `dedicated=ci:NoExecute` entry is present |
| `LabelToTaint.Replay` | label_to_taint_operator.py:25-71 | Models no single line: the handler run on `n` deliveries of the same event, each against the list the previous one left. Yields exactly `n` outcomes |
| `LabelToTaint.Writes` | label_to_taint_operator.py:61-71 | Models no single line: counts the outcomes that call `patch_node`. The count is at most the number of outcomes, and zero iff every outcome is `NoOp` or `Ignored` (its exact value is stated by `WritesCountsPatches`) |
| `LabelToTaint.WritesCountsPatches` | label_to_taint_operator.py:61-71 | `Writes` equals the number of positions whose outcome is `Tainting` or `RemovingTaint`, that is, the number of `patch_node` calls |
| `LabelToTaint.ReplayStable` | label_to_taint_operator.py:44-69 | Once label and taint agree, any number of further deliveries of the event are all `NoOp` and write nothing |
| `LabelToTaint.ReplayWritesAtMostOnce` | label_to_taint_operator.py:44-69 | Delivering a handled event N >= 1 times patches exactly once if label and taint disagreed at first, and never otherwise. Every delivery after the first is `NoOp` |
| `LabelToTaint.ReplayIgnored` | label_to_taint_operator.py:30-32 | Events of any other type are `Ignored` on every delivery and never write |

## Left out

- Operator startup: logging setup and in-cluster credential loading (`configure`, label_to_taint_operator.py:13-23). This is process plumbing.
- The Kubernetes API calls `CoreV1Api()`, `read_node` and `patch_node`. They are network I/O. The read taint list is an input of `Decide` and the patch is its outcome. A failing read or patch raises an exception that the handler does not catch, so errors such as a node that is not found or a conflict are not modelled.
- The `kopf.info` event posting. It is a logging side effect. Only its reason (`Tainting`, `RemovingTaint`) survives, as the name of the outcome.
- `V1Taint` objects and the `to_dict()` serialisation of the patch body. They are library objects. A taint is the triple of key, value and effect, compared as strings, and any further taint fields are not represented.
- Concurrent deliveries and other writers to the node's taint list. The handler reads and then patches without a version check. The model is sequential: `Replay` applies each outcome before the next delivery.
- The node name and the event object beyond its type and labels. They only address the API calls.
- Other triggers: only `on_node_event` is modelled, and no other trigger is.
- Optional taint values: a Kubernetes taint's `value` may be absent, but `Taint.value` is always a string. Behaviour is unaffected, because such a taint never equals `ci` at line 46, so it never matches and is always kept.

