/**
 * The node event handler of the label-to-taint operator: for every ADDED or
 * MODIFIED node event it compares the node's `dedicated=ci` label with its
 * `dedicated=ci:NoSchedule` taint and decides whether to add the taint,
 * remove it, or leave the node alone.
 *
 * The Kubernetes API calls are not modelled: the labels of the event payload
 * and the taint list of the fresh `read_node` are inputs, and the patch the
 * handler would send is the `newTaints` of the returned outcome.
 */
module LabelToTaint {
  import opened Wrappers

  // Node label and taint configuration.
  const LabelKey: string := "dedicated"
  const LabelValue: string := "ci"
  const TaintEffect: string := "NoSchedule"

  /** A node taint, reduced to the three fields the operator looks at. */
  datatype Taint = Taint(key: string, value: string, effect: string)

  /** The one taint this operator manages. */
  const Managed: Taint := Taint(LabelKey, LabelValue, TaintEffect)

  /** What the handler does with one event; the tags are the reasons it posts. */
  datatype Outcome =
    | Ignored                                // not an ADDED or MODIFIED event
    | NoOp                                   // label and taint already agree
    | Tainting(newTaints: seq<Taint>)        // patch that adds the taint
    | RemovingTaint(newTaints: seq<Taint>)   // patch that strips the taint

  /** The test applied to each taint: key, value and effect all match, so it holds of the full triple only. */
  function IsManaged(t: Taint): (r: bool)
    ensures r <==> t == Taint("dedicated", "ci", "NoSchedule")
  {
    t.key == LabelKey && t.value == LabelValue && t.effect == TaintEffect
  }

  /** Only ADDED and MODIFIED events are handled; a missing type is not. */
  function IsHandled(eventType: Option<string>): (r: bool)
    ensures r <==> eventType == Some("ADDED") || eventType == Some("MODIFIED")
  {
    eventType.Some? && eventType.value in ["ADDED", "MODIFIED"]
  }

  // ---------------------------------------------------------------------
  // Desired state and taint presence
  // ---------------------------------------------------------------------

  /** `labels.get(LABEL_KEY) == LABEL_VALUE`. */
  function HasLabel(labels: map<string, string>): (r: bool)
    ensures r <==> "dedicated" in labels && labels["dedicated"] == "ci"
    ensures labels == map[] ==> !r
  {
    Get(labels, LabelKey) == Some(LabelValue)
  }

  /** `any(...)` over the taint list, checking each entry in order. */
  function HasTaint(taints: seq<Taint>): (r: bool)
    ensures r <==> Managed in taints
    ensures r <==> exists i :: 0 <= i < |taints| && IsManaged(taints[i])
  {
    if taints == [] then false
    else IsManaged(taints[0]) || HasTaint(taints[1..])
  }

  /** An entry that shares key and value but has another effect is not the managed taint. */
  lemma OtherEffectNotCounted(taints: seq<Taint>, effect: string)
    requires effect != TaintEffect
    ensures HasTaint(taints + [Taint(LabelKey, LabelValue, effect)]) == HasTaint(taints)
  {
  }

  // ---------------------------------------------------------------------
  // The two patches
  // ---------------------------------------------------------------------

  /** `taints + [V1Taint(LABEL_KEY, LABEL_VALUE, TAINT_EFFECT)]`. */
  function Add(taints: seq<Taint>): (r: seq<Taint>)
    ensures |r| == |taints| + 1
    ensures r[..|taints|] == taints && r[|taints|] == Managed
  {
    taints + [Managed]
  }

  /** The list comprehension that keeps every entry that is not the managed taint. */
  function Remove(taints: seq<Taint>): (r: seq<Taint>)
    ensures |r| <= |taints|
    ensures Managed !in r
    ensures forall t :: t != Managed ==> multiset(r)[t] == multiset(taints)[t]
  {
    if taints == [] then []
    else
      assert taints == [taints[0]] + taints[1..];
      if IsManaged(taints[0]) then Remove(taints[1..])
      else [taints[0]] + Remove(taints[1..])
  }

  /** Order: removal works entry by entry, so it distributes over concatenation. */
  lemma {:induction false} RemoveConcat(a: seq<Taint>, b: seq<Taint>)
    ensures Remove(a + b) == Remove(a) + Remove(b)
  {
    if a == [] {
      assert a + b == b;
    } else {
      assert (a + b)[0] == a[0];
      assert (a + b)[1..] == a[1..] + b;
      RemoveConcat(a[1..], b);
    }
  }

  /** Order: on a single entry, removal drops exactly the managed taint. */
  lemma RemoveSingle(t: Taint)
    ensures Remove([t]) == if t == Managed then [] else [t]
  {
  }

  /** A list without the managed taint passes through removal unchanged. */
  lemma {:induction false} RemoveWhenAbsent(taints: seq<Taint>)
    requires !HasTaint(taints)
    ensures Remove(taints) == taints
  {
    if taints != [] {
      assert Managed !in taints[1..] by {
        assert forall i :: 0 <= i < |taints[1..]| ==> taints[1..][i] == taints[i + 1];
      }
      RemoveWhenAbsent(taints[1..]);
      assert taints == [taints[0]] + taints[1..];
    }
  }

  /** Removal is idempotent. */
  lemma {:induction false} RemoveIdempotent(taints: seq<Taint>)
    ensures Remove(Remove(taints)) == Remove(taints)
  {
    RemoveWhenAbsent(Remove(taints));
  }

  /** Removal deletes as many entries as there were copies of the managed taint. */
  lemma {:induction false} RemoveLength(taints: seq<Taint>)
    ensures |Remove(taints)| == |taints| - multiset(taints)[Managed]
  {
    if taints != [] {
      assert taints == [taints[0]] + taints[1..];
      RemoveLength(taints[1..]);
    }
  }

  /** Adding keeps every other taint, with the same number of copies. */
  lemma AddNonInterference(taints: seq<Taint>, t: Taint)
    requires t != Managed
    ensures multiset(Add(taints))[t] == multiset(taints)[t]
    ensures t in Add(taints) <==> t in taints
  {
  }

  /** Removing keeps every other taint, with the same number of copies. */
  lemma RemoveNonInterference(taints: seq<Taint>, t: Taint)
    requires t != Managed
    ensures multiset(Remove(taints))[t] == multiset(taints)[t]
    ensures t in Remove(taints) <==> t in taints
  {
  }

  // ---------------------------------------------------------------------
  // The handler's decision
  // ---------------------------------------------------------------------

  /**
   * `on_node_event` without its API calls. `labels` is the event object's
   * label map and `taints` the fresh node's taint list, each `None` when the
   * object carries none (`or {}`, `or []`).
   */
  function Decide(eventType: Option<string>, labels: Option<map<string, string>>,
                  taints: Option<seq<Taint>>): (o: Outcome)
    ensures o.Ignored? <==> !IsHandled(eventType)
    ensures var l, ts := OrElse(labels, map[]), OrElse(taints, []);
      && (o.NoOp? <==> IsHandled(eventType) && HasLabel(l) == HasTaint(ts))
      && (o.Tainting? <==> IsHandled(eventType) && HasLabel(l) && !HasTaint(ts))
      && (o.RemovingTaint? <==> IsHandled(eventType) && !HasLabel(l) && HasTaint(ts))
      && (o.Tainting? || o.RemovingTaint? ==> HasTaint(o.newTaints) == HasLabel(l))
  {
    if !IsHandled(eventType) then Ignored
    else
      var l := OrElse(labels, map[]);
      var ts := OrElse(taints, []);
      var hasLabel := HasLabel(l);
      var hasTaint := HasTaint(ts);
      if hasLabel && !hasTaint then Tainting(Add(ts))
      else if !hasLabel && hasTaint then RemovingTaint(Remove(ts))
      else NoOp
  }

  /** The taint list the node holds once the outcome's patch, if any, is applied. */
  function Patched(o: Outcome, taints: seq<Taint>): (r: seq<Taint>)
    ensures o.Tainting? || o.RemovingTaint? ==> r == o.newTaints
    ensures !(o.Tainting? || o.RemovingTaint?) ==> r == taints
  {
    if o.Tainting? || o.RemovingTaint? then o.newTaints else taints
  }

  /** The add patch is the old list with the managed taint appended at the end. */
  lemma DecideTaintingAppends(eventType: Option<string>, labels: Option<map<string, string>>,
                              taints: Option<seq<Taint>>)
    requires Decide(eventType, labels, taints).Tainting?
    ensures var ts, r := OrElse(taints, []), Decide(eventType, labels, taints).newTaints;
      && |r| == |ts| + 1
      && (forall i :: 0 <= i < |ts| ==> r[i] == ts[i])
      && r[|ts|] == Managed
  {
  }

  /** The remove patch is the old list with every copy of the managed taint filtered out. */
  lemma DecideRemovingFilters(eventType: Option<string>, labels: Option<map<string, string>>,
                              taints: Option<seq<Taint>>)
    requires Decide(eventType, labels, taints).RemovingTaint?
    ensures var ts, r := OrElse(taints, []), Decide(eventType, labels, taints).newTaints;
      && Managed !in r
      && |r| == |ts| - multiset(ts)[Managed]
      && r == Remove(ts)
  {
    RemoveLength(OrElse(taints, []));
  }

  /** Non-interference: no patch adds, drops or duplicates a taint other than the managed one. */
  lemma DecideNonInterference(eventType: Option<string>, labels: Option<map<string, string>>,
                              taints: Option<seq<Taint>>, t: Taint)
    requires t != Managed
    ensures var ts := OrElse(taints, []);
      var r := Patched(Decide(eventType, labels, taints), ts);
      multiset(r)[t] == multiset(ts)[t] && (t in r <==> t in ts)
  {
  }

  /** Convergence: handling the same labels again, against the patched list, does nothing. */
  lemma DecideConverges(eventType: Option<string>, labels: Option<map<string, string>>,
                        taints: Option<seq<Taint>>)
    requires IsHandled(eventType)
    ensures var r := Patched(Decide(eventType, labels, taints), OrElse(taints, []));
      HasTaint(r) == HasLabel(OrElse(labels, map[]))
      && Decide(eventType, labels, Some(r)) == NoOp
  {
  }

  /** Worked cases: tainting an empty list, untainting, an agreeing node, and appending after another taint. */
  lemma Examples()
    ensures Decide(Some("ADDED"), Some(map["dedicated" := "ci"]), Some([])) == Tainting([Managed])
    ensures Decide(Some("MODIFIED"), Some(map[]), Some([Managed])) == RemovingTaint([])
    ensures Decide(Some("MODIFIED"), None, Some([Managed])) == RemovingTaint([])
    ensures Decide(Some("ADDED"), Some(map["dedicated" := "ci"]), Some([Managed])) == NoOp
    ensures Decide(Some("DELETED"), Some(map["dedicated" := "ci"]), None) == Ignored
    ensures var other := Taint("other", "x", "NoExecute");
      Decide(Some("MODIFIED"), Some(map["dedicated" := "ci"]), Some([other])) == Tainting([other, Managed])
    ensures var near := Taint("dedicated", "ci", "NoExecute");
      Decide(Some("MODIFIED"), Some(map["dedicated" := "ci"]), Some([near])) == Tainting([near, Managed])
  {
  }

  // ---------------------------------------------------------------------
  // Repeated delivery of the same event
  // ---------------------------------------------------------------------

  /** The outcomes of handling the same event `n` times, each against the list the previous one left. */
  function Replay(n: nat, eventType: Option<string>, labels: Option<map<string, string>>,
                  taints: seq<Taint>): (outs: seq<Outcome>)
    ensures |outs| == n
  {
    if n == 0 then []
    else
      var o := Decide(eventType, labels, Some(taints));
      [o] + Replay(n - 1, eventType, labels, Patched(o, taints))
  }

  /** How many of the outcomes send a patch. */
  function Writes(outs: seq<Outcome>): (k: nat)
    ensures k <= |outs|
    ensures k == 0 <==> forall i :: 0 <= i < |outs| ==> outs[i].NoOp? || outs[i].Ignored?
  {
    if outs == [] then 0
    else (if outs[0].Tainting? || outs[0].RemovingTaint? then 1 else 0) + Writes(outs[1..])
  }

  /** The positions of the outcomes that send a patch. */
  ghost function PatchPositions(outs: seq<Outcome>): set<int>
  {
    set i | 0 <= i < |outs| && (outs[i].Tainting? || outs[i].RemovingTaint?)
  }

  /** Counting a list with one more outcome at the end adds one exactly when that outcome patches. */
  lemma {:induction false} WritesSnoc(outs: seq<Outcome>, o: Outcome)
    ensures Writes(outs + [o]) == Writes(outs) + (if o.Tainting? || o.RemovingTaint? then 1 else 0)
  {
    if outs != [] {
      assert (outs + [o])[1..] == outs[1..] + [o];
      WritesSnoc(outs[1..], o);
    }
  }

  /** `Writes` is exactly the number of outcomes that send a patch. */
  lemma {:induction false} WritesCountsPatches(outs: seq<Outcome>)
    ensures Writes(outs) == |PatchPositions(outs)|
  {
    if outs != [] {
      var init, last := outs[..|outs| - 1], outs[|outs| - 1];
      assert outs == init + [last];
      WritesSnoc(init, last);
      WritesCountsPatches(init);
      var n := |init|;
      assert n !in PatchPositions(init);
      if last.Tainting? || last.RemovingTaint? {
        assert PatchPositions(outs) == PatchPositions(init) + {n};
      } else {
        assert PatchPositions(outs) == PatchPositions(init);
      }
    }
  }

  /** Once label and taint agree, every further delivery is a no-op. */
  lemma {:induction false} ReplayStable(n: nat, eventType: Option<string>,
                                        labels: Option<map<string, string>>, taints: seq<Taint>)
    requires Decide(eventType, labels, Some(taints)) == NoOp
    ensures forall i :: 0 <= i < n ==> Replay(n, eventType, labels, taints)[i] == NoOp
    ensures Writes(Replay(n, eventType, labels, taints)) == 0
  {
    if n > 0 {
      ReplayStable(n - 1, eventType, labels, taints);
    }
  }

  /**
   * Delivering a handled event `n >= 1` times writes exactly once when label
   * and taint disagree at first, never otherwise, and every delivery after
   * the first is a no-op.
   */
  lemma {:induction false} ReplayWritesAtMostOnce(n: nat, eventType: Option<string>,
                               labels: Option<map<string, string>>, taints: seq<Taint>)
    requires n >= 1 && IsHandled(eventType)
    ensures var outs := Replay(n, eventType, labels, taints);
      && (forall i :: 1 <= i < n ==> outs[i] == NoOp)
      && Writes(outs) == (if HasLabel(OrElse(labels, map[])) == HasTaint(taints) then 0 else 1)
  {
    var o := Decide(eventType, labels, Some(taints));
    var next := Patched(o, taints);
    DecideConverges(eventType, labels, Some(taints));
    ReplayStable(n - 1, eventType, labels, next);
    var outs := Replay(n, eventType, labels, taints);
    assert outs[1..] == Replay(n - 1, eventType, labels, next);
  }

  /** Events other than ADDED and MODIFIED never write, however often they arrive. */
  lemma {:induction false} ReplayIgnored(n: nat, eventType: Option<string>,
                                         labels: Option<map<string, string>>, taints: seq<Taint>)
    requires !IsHandled(eventType)
    ensures forall i :: 0 <= i < n ==> Replay(n, eventType, labels, taints)[i] == Ignored
    ensures Writes(Replay(n, eventType, labels, taints)) == 0
  {
    if n > 0 {
      ReplayIgnored(n - 1, eventType, labels, taints);
    }
  }
}
