/** A model of the stop check of a sidecar supervisor that runs beside the
    containers of an ECS task. Every poll tick it fetches the task document
    from the container metadata endpoint and decides whether every sibling
    container that is not one of the platform's internal containers has
    stopped; when it has, the supervisor is told to shut down. */
module Sidecar {

  datatype Option<T> = None | Some(value: T)

  /** One container of the task, as decoded from the metadata document. */
  datatype Container = Container(name: string, knownStatus: string)

  /** The decoded task document: its containers, in the order the endpoint lists them. */
  datatype EcsTask = EcsTask(containers: seq<Container>)

  /** The literal part of the anchored ignore pattern `^~internal~.*`. */
  const InternalPrefix: string := "~internal~"

  /** The one lifecycle status the check cares about. */
  const Stopped: string := "STOPPED"

  /** The ignore pattern: `^` anchors it at the start of the name, the literal
      must follow, and `.*` accepts any rest, so a name matches exactly when
      it starts with the internal prefix. */
  predicate IsIgnored(name: string)
  {
    |InternalPrefix| <= |name| && name[..|InternalPrefix|] == InternalPrefix
  }

  /** The verdict of one poll tick: every container the ignore pattern does
      not match has status exactly STOPPED. No relevant container at all
      counts as stopped. */
  predicate AllRelevantStopped(cs: seq<Container>)
  {
    forall i :: 0 <= i < |cs| && !IsIgnored(cs[i].name) ==> cs[i].knownStatus == Stopped
  }

  /** The scan of one poll tick: start from "stopped", walk the containers in
      order and give up at the first relevant one that has not stopped. */
  method CheckContainersStopped(task: EcsTask) returns (isStopped: bool)
    ensures isStopped == AllRelevantStopped(task.containers)
  {
    var cs := task.containers;
    isStopped := true;
    for i := 0 to |cs|
      invariant isStopped
      invariant AllRelevantStopped(cs[..i])
    {
      var c := cs[i];
      if !IsIgnored(c.name) && c.knownStatus != Stopped {
        isStopped := false;
        break;
      }
    }
    assert isStopped ==> cs[..|cs|] == cs;
  }

  /** What a successful poll tick does next. */
  datatype TickOutcome = Done | Continue

  /** One successful poll tick: signal completion when the verdict holds,
      otherwise keep polling. */
  method PollTick(task: EcsTask) returns (outcome: TickOutcome)
    ensures outcome == Done <==> AllRelevantStopped(task.containers)
    ensures outcome == Continue <==> !AllRelevantStopped(task.containers)
  {
    var isStopped := CheckContainersStopped(task);
    if isStopped {
      outcome := Done;
    } else {
      outcome := Continue;
    }
  }

  /** The ticker loop over the tasks fetched on successive ticks: the index of
      the first tick that signals completion, or None if none of them does. */
  method FirstDoneTick(fetched: seq<EcsTask>) returns (doneAt: Option<nat>)
    ensures doneAt.Some? ==> doneAt.value < |fetched|
    ensures doneAt.Some? ==> AllRelevantStopped(fetched[doneAt.value].containers)
    ensures doneAt.Some? ==>
      forall k :: 0 <= k < doneAt.value ==> !AllRelevantStopped(fetched[k].containers)
    ensures doneAt.None? <==>
      forall k :: 0 <= k < |fetched| ==> !AllRelevantStopped(fetched[k].containers)
  {
    doneAt := None;
    for t := 0 to |fetched|
      invariant doneAt.None?
      invariant forall k :: 0 <= k < t ==> !AllRelevantStopped(fetched[k].containers)
    {
      var outcome := PollTick(fetched[t]);
      if outcome == Done {
        doneAt := Some(t);
        break;
      }
    }
  }

  // ---------------------------------------------------------------------
  // Reference definitions of the verdict

  /** The containers the check looks at: those the ignore pattern does not match, in order. */
  function Relevant(cs: seq<Container>): (r: seq<Container>)
    ensures forall c :: c in r <==> c in cs && !IsIgnored(c.name)
    ensures |r| <= |cs|
  {
    if cs == [] then []
    else if IsIgnored(cs[0].name) then Relevant(cs[1..])
    else [cs[0]] + Relevant(cs[1..])
  }

  /** Every container in the list has status STOPPED. */
  predicate AllStopped(cs: seq<Container>)
  {
    forall i :: 0 <= i < |cs| ==> cs[i].knownStatus == Stopped
  }

  /** The verdict stated over container values rather than positions. */
  lemma MembershipForm(cs: seq<Container>)
    ensures AllRelevantStopped(cs) <==>
      (forall c :: c in cs && !IsIgnored(c.name) ==> c.knownStatus == Stopped)
  {
  }

  /** The verdict depends only on the relevant containers: it is "all of them stopped". */
  lemma VerdictIsAllRelevantAreStopped(cs: seq<Container>)
    ensures AllRelevantStopped(cs) == AllStopped(Relevant(cs))
  {
  }

  // ---------------------------------------------------------------------
  // Properties of the verdict

  /** With no containers at all the tick reports "stopped". */
  lemma EmptyTaskIsStopped()
    ensures AllRelevantStopped([])
  {
  }

  /** One relevant container that has not stopped makes the verdict false. */
  lemma RelevantRunningBlocks(cs: seq<Container>, i: nat)
    requires i < |cs| && !IsIgnored(cs[i].name) && cs[i].knownStatus != Stopped
    ensures !AllRelevantStopped(cs)
  {
  }

  /** Inserting an internal container anywhere leaves the verdict unchanged;
      read backwards, so does removing one. */
  lemma IgnoredInsertNeutral(cs: seq<Container>, k: nat, c: Container)
    requires k <= |cs|
    requires IsIgnored(c.name)
    ensures AllRelevantStopped(cs[..k] + [c] + cs[k..]) == AllRelevantStopped(cs)
  {
    var ds := cs[..k] + [c] + cs[k..];
    assert cs == cs[..k] + cs[k..];
    assert forall x :: x in ds <==> x in cs || x == c;
    MembershipForm(cs);
    MembershipForm(ds);
  }

  /** Replacing an internal container by another internal container, whatever
      the statuses, leaves the verdict unchanged. */
  lemma IgnoredUpdateNeutral(cs: seq<Container>, k: nat, c: Container)
    requires k < |cs|
    requires IsIgnored(cs[k].name) && IsIgnored(c.name)
    ensures AllRelevantStopped(cs[k := c]) == AllRelevantStopped(cs)
  {
    var ds := cs[k := c];
    assert forall i :: 0 <= i < |cs| && i != k ==> ds[i] == cs[i];
  }

  /** The verdict does not depend on the order the endpoint lists the containers in. */
  lemma OrderIrrelevant(cs: seq<Container>, ds: seq<Container>)
    requires multiset(cs) == multiset(ds)
    ensures AllRelevantStopped(cs) == AllRelevantStopped(ds)
  {
    assert forall x :: x in cs <==> x in ds by {
      forall x ensures x in cs <==> x in ds {
        assert x in cs <==> x in multiset(cs);
        assert x in ds <==> x in multiset(ds);
      }
    }
    MembershipForm(cs);
    MembershipForm(ds);
  }

  /** A name is ignored exactly when it is the internal prefix followed by anything. */
  lemma IgnoredIffStartsWithPrefix(name: string)
    ensures IsIgnored(name) <==> exists rest :: name == InternalPrefix + rest
  {
    if IsIgnored(name) {
      var rest := name[|InternalPrefix|..];
      assert name == InternalPrefix + rest;
    }
  }

  /** The match is anchored: a name that holds the prefix only after some
      other non-empty text not starting with `~` is relevant. */
  lemma PrefixLaterIsRelevant(before: string, after: string)
    requires before != [] && before[0] != '~'
    ensures !IsIgnored(before + InternalPrefix + after)
  {
    var name := before + InternalPrefix + after;
    assert name[0] == before[0];
    assert InternalPrefix[0] == '~';
  }

  /** `app~internal~` is relevant, `~internal~sidecar` is ignored. */
  lemma AnchorExamples()
    ensures !IsIgnored("app~internal~")
    ensures IsIgnored("~internal~sidecar")
  {
    PrefixLaterIsRelevant("app", "");
    assert "app" + InternalPrefix + "" == "app~internal~";
    assert "~internal~sidecar"[..|InternalPrefix|] == InternalPrefix;
  }

  /** The status test is exact and case-sensitive: any other status of a
      relevant container, `stopped` and `STOPPED ` included, blocks. */
  lemma StatusComparisonIsExact(name: string, status: string)
    requires !IsIgnored(name)
    ensures AllRelevantStopped([Container(name, status)]) <==> status == Stopped
  {
    var cs := [Container(name, status)];
    assert cs[0].knownStatus == status;
  }

  /** `stopped` and `STOPPED ` are not the terminal status. */
  lemma StatusExamples()
    ensures !AllRelevantStopped([Container("app", "stopped")])
    ensures !AllRelevantStopped([Container("app", "STOPPED ")])
  {
    AnchorName("app");
    StatusComparisonIsExact("app", "stopped");
    StatusComparisonIsExact("app", "STOPPED ");
    assert "stopped" != Stopped by { assert "stopped"[0] != Stopped[0]; }
    assert "STOPPED " != Stopped by { assert |"STOPPED "| != |Stopped|; }
  }

  /** A name shorter than the prefix is never ignored. */
  lemma AnchorName(name: string)
    requires |name| < |InternalPrefix|
    ensures !IsIgnored(name)
  {
  }

  /** An internal sidecar that is still running beside a stopped application
      container: the task counts as stopped. */
  lemma InternalSidecarIgnoredScenario()
    ensures AllRelevantStopped([Container("~internal~sidecar", "RUNNING"), Container("app", "STOPPED")])
  {
  }
}
