/** The L3 unicast table and the L3 unicast groups of the switch, as far as the sources use them. Adding what is there
    already is the one thing that the sources never ask for. */
module Hardware {
  import opened Words
  import opened L3Types

  /** What the switch does with a packet that hits an entry; `Garbled` if the entry does not say just one thing. */
  datatype Fate = ToNeighbor(n: u32) | ToController | Discard | Garbled

  function FateOf(flow: Flow): Fate
  {
    if flow.group.Some? && !flow.toCpu && !flow.clear then ToNeighbor(flow.group.value)
    else if flow.group.None? && flow.toCpu && !flow.clear then ToController
    else if flow.group.None? && !flow.toCpu && flow.clear then Discard
    else Garbled
  }

  /** One state of the hardware. */
  datatype HwState = HwState(flows: map<Cookie, Flow>, groups: set<NbrId>)

  /** Every group that an entry names exists. */
  ghost predicate Sound(s: HwState) {
    forall c :: c in s.flows && s.flows[c].group.Some? ==> s.flows[c].group.value in s.groups
  }

  ghost predicate AllSound(history: seq<HwState>) {
    forall i :: 0 <= i < |history| ==> Sound(history[i])
  }

  /** The histories that go on from `was`, and if `sound` only through states in which every named group exists. */
  ghost function Since(was: seq<HwState>, sound: bool): iset<seq<HwState>>
  {
    iset now: seq<HwState> | GoesOn(was, now, sound)
  }

  ghost predicate GoesOn(was: seq<HwState>, now: seq<HwState>, sound: bool) {
    was <= now && (sound && AllSound(was) ==> AllSound(now))
  }

  lemma StaysSound(was: seq<HwState>, now: seq<HwState>)
    requires now in Since(was, true) && AllSound(was)
    ensures AllSound(now)
  {
    assert GoesOn(was, now, true);
  }

  lemma NoneMore(was: seq<HwState>, sound: bool)
    ensures was in Since(was, sound)
  {
    assert GoesOn(was, was, sound);
  }

  lemma OneMore(was: seq<HwState>, s: HwState, sound: bool)
    requires sound && AllSound(was) ==> Sound(s)
    ensures was + [s] in Since(was, sound)
  {
    assert GoesOn(was, was + [s], sound);
  }

  class Switch {
    var flows: map<Cookie, Flow>
    var groups: set<NbrId>
    // Every state the hardware has been in, one per call.
    ghost var history: seq<HwState>

    ghost predicate Valid()
      reads this
    {
      |history| > 0 && history[|history| - 1] == HwState(flows, groups)
    }

    constructor ()
      ensures Valid() && flows == map[] && groups == {} && AllSound(history)
    {
      flows, groups := map[], {};
      history := [HwState(map[], {})];
    }

    /** fpaLibFlowEntryAdd */
    method AddFlow(c: Cookie, flow: Flow, ghost sound: bool)
      requires Valid() && c !in flows
      requires sound && flow.group.Some? ==> flow.group.value in groups
      modifies this
      ensures Valid() && flows == old(flows)[c := flow] && groups == old(groups)
      ensures history == old(history) + [HwState(flows, groups)] && history in Since(old(history), sound)
    {
      assert AllSound(history) ==> Sound(history[|history| - 1]);
      flows := flows[c := flow];
      OneMore(history, HwState(flows, groups), sound);
      history := history + [HwState(flows, groups)];
    }

    /** fpaLibFlowTableCookieDelete */
    method DeleteFlow(c: Cookie) returns (found: bool)
      requires Valid()
      modifies this
      ensures found <==> c in old(flows)
      ensures Valid() && flows == old(flows) - {c} && groups == old(groups)
      ensures history == old(history) + [HwState(flows, groups)] && history in Since(old(history), true)
    {
      assert AllSound(history) ==> Sound(history[|history| - 1]);
      found := c in flows;
      flows := flows - {c};
      OneMore(history, HwState(flows, groups), true);
      history := history + [HwState(flows, groups)];
    }

    /** fpaLibGroupTableEntryAdd and its bucket */
    method AddGroup(g: NbrId)
      requires Valid() && g !in groups
      modifies this
      ensures Valid() && groups == old(groups) + {g} && flows == old(flows)
      ensures history == old(history) + [HwState(flows, groups)] && history in Since(old(history), true)
    {
      assert AllSound(history) ==> Sound(history[|history| - 1]);
      groups := groups + {g};
      OneMore(history, HwState(flows, groups), true);
      history := history + [HwState(flows, groups)];
    }

    /** fpaLibGroupTableEntryDelete: without such a group it fails. */
    method DeleteGroup(g: NbrId, ghost sound: bool) returns (found: bool)
      requires Valid()
      requires sound ==> forall c :: c in flows ==> flows[c].group != Some(g)
      modifies this
      ensures found <==> g in old(groups)
      ensures Valid() && groups == old(groups) - {g} && flows == old(flows)
      ensures history == old(history) + [HwState(flows, groups)] && history in Since(old(history), sound)
    {
      assert AllSound(history) ==> Sound(history[|history| - 1]);
      found := g in groups;
      groups := groups - {g};
      OneMore(history, HwState(flows, groups), sound);
      history := history + [HwState(flows, groups)];
    }
  }
}
