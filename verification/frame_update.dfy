/** The per-frame protocol of NavMesh::update, modelled as the trace of calls
    it makes: preUpdate on every agent, then on every obstacle, one crowd
    step when there is a crowd, then postUpdate on every agent and on every
    obstacle. The time step is passed unchanged to every call and is left
    out of the events. */
module FrameUpdate {
  import opened Wrappers
  import Slots
  import Mesh

  datatype Phase = PreUpdate | PostUpdate

  datatype Target = AgentTarget(agent: Mesh.AgentHandle) | ObstacleTarget(obstacle: Mesh.ObstacleHandle)

  datatype Event =
    | Visit(phase: Phase, target: Target)
    /** dtCrowd::update. */
    | CrowdStep
    /** A member call through an empty (null) slot; nothing after it is defined. */
    | NullDereference

  function ToAgent(a: Mesh.AgentHandle): Target { AgentTarget(a) }
  function ToObstacle(o: Mesh.ObstacleHandle): Target { ObstacleTarget(o) }

  /** The entities held by the occupied slots, in slot order. */
  function Present<E>(slots: seq<Option<E>>): (r: seq<E>)
    ensures |r| <= |slots|
    ensures forall k :: 0 <= k < |r| ==> Some(r[k]) in slots
    ensures forall i :: 0 <= i < |slots| && slots[i].Some? ==> slots[i].value in r
  {
    if |slots| == 0 then []
    else (if slots[0].Some? then [slots[0].value] else []) + Present(slots[1..])
  }

  lemma {:induction false} PresentConcat<E>(a: seq<Option<E>>, b: seq<Option<E>>)
    ensures Present(a + b) == Present(a) + Present(b)
    decreases |a|
  {
    if |a| > 0 {
      assert (a + b)[1..] == a[1..] + b;
      PresentConcat(a[1..], b);
    } else {
      assert a + b == b;
    }
  }

  lemma PresentSnoc<E>(slots: seq<Option<E>>, x: Option<E>)
    ensures Present(slots + [x]) == Present(slots) + (if x.Some? then [x.value] else [])
  {
    PresentConcat(slots, [x]);
    assert Present([x]) == (if x.Some? then [x.value] else []) + Present([x][1..]);
  }

  lemma {:induction false} PresentOfEmpty<E>(slots: seq<Option<E>>)
    requires forall i :: 0 <= i < |slots| ==> slots[i].None?
    ensures Present(slots) == []
    decreases |slots|
  {
    if |slots| > 0 {
      PresentOfEmpty(slots[1..]);
    }
  }

  /** Visits of one phase to each of `xs`, in order. */
  function Visits<E>(p: Phase, xs: seq<E>, target: E -> Target): (r: seq<Event>)
    ensures |r| == |xs|
    ensures forall k :: 0 <= k < |xs| ==> r[k] == Visit(p, target(xs[k]))
  {
    seq(|xs|, k requires 0 <= k < |xs| => Visit(p, target(xs[k])))
  }

  lemma VisitsAppend<E>(p: Phase, xs: seq<E>, x: E, target: E -> Target)
    ensures Visits(p, xs + [x], target) == Visits(p, xs, target) + [Visit(p, target(x))]
  {
    assert forall k :: 0 <= k < |xs| ==> (xs + [x])[k] == xs[k];
  }

  /** The frame's shape over any agent and obstacle sequences. */
  function Frame(agents: seq<Mesh.AgentHandle>, obstacles: seq<Mesh.ObstacleHandle>, crowd: bool): seq<Event> {
    Visits(PreUpdate, agents, ToAgent)
    + Visits(PreUpdate, obstacles, ToObstacle)
    + (if crowd then [CrowdStep] else [])
    + Visits(PostUpdate, agents, ToAgent)
    + Visits(PostUpdate, obstacles, ToObstacle)
  }

  /** The calls one frame should make: every occupied slot is visited in
      index order in each phase, empty slots are skipped. */
  function FrameTrace(m: Mesh.NavMesh): seq<Event> {
    Frame(Present(m.agents.slots), Present(m.obstacles.slots), m.hasCrowd)
  }

  /** One range-for over a slot array, visiting the occupied slots. */
  method Sweep<E>(p: Phase, slots: seq<Option<E>>, target: E -> Target) returns (events: seq<Event>)
    ensures events == Visits(p, Present(slots), target)
  {
    events := [];
    var i := 0;
    while i < |slots|
      invariant 0 <= i <= |slots|
      invariant events == Visits(p, Present(slots[..i]), target)
    {
      assert slots[..i + 1] == slots[..i] + [slots[i]];
      PresentSnoc(slots[..i], slots[i]);
      if slots[i].Some? {
        VisitsAppend(p, Present(slots[..i]), slots[i].value, target);
        events := events + [Visit(p, target(slots[i].value))];
      }
      i := i + 1;
    }
    assert slots[..i] == slots;
  }

  /** update with empty slots skipped: the trace is exactly the frame's. */
  method Update(m: Mesh.NavMesh) returns (trace: seq<Event>)
    ensures trace == FrameTrace(m)
  {
    var preAgents := Sweep(PreUpdate, m.agents.slots, ToAgent);
    var preObstacles := Sweep(PreUpdate, m.obstacles.slots, ToObstacle);
    trace := preAgents + preObstacles;
    if m.hasCrowd {
      trace := trace + [CrowdStep];
    }
    var postAgents := Sweep(PostUpdate, m.agents.slots, ToAgent);
    var postObstacles := Sweep(PostUpdate, m.obstacles.slots, ToObstacle);
    trace := trace + postAgents + postObstacles;
  }

  /** One range-for as written: every slot is called through, so the first
      empty slot ends the trace with a null dereference. */
  function SweepAsWritten<E>(p: Phase, slots: seq<Option<E>>, target: E -> Target): (r: seq<Event>)
    ensures NullDereference in r <==> None in slots
    ensures CrowdStep !in r
    ensures None !in slots ==> r == Visits(p, Present(slots), target)
    ensures |slots| > 0 && slots[0].None? ==> r == [NullDereference]
  {
    if |slots| == 0 then []
    else if slots[0].None? then [NullDereference]
    else
      var rest := SweepAsWritten(p, slots[1..], target);
      assert slots == [slots[0]] + slots[1..];
      [Visit(p, target(slots[0].value))] + rest
  }

  /** NavMesh::update as written: no slot is checked for null before the
      member calls. The trace stops at the first call through an empty
      slot; in particular the crowd never steps when an agent slot is
      empty. */
  function UpdateAsWritten(m: Mesh.NavMesh): (t: seq<Event>)
    ensures NullDereference in t <==> None in m.agents.slots || None in m.obstacles.slots
    ensures None !in m.agents.slots && None !in m.obstacles.slots ==> t == FrameTrace(m)
    ensures None in m.agents.slots ==> CrowdStep !in t
  {
    var preAgents := SweepAsWritten(PreUpdate, m.agents.slots, ToAgent);
    if NullDereference in preAgents then preAgents
    else
      var preObstacles := SweepAsWritten(PreUpdate, m.obstacles.slots, ToObstacle);
      if NullDereference in preObstacles then preAgents + preObstacles
      else
        var crowd := if m.hasCrowd then [CrowdStep] else [];
        var postAgents := SweepAsWritten(PostUpdate, m.agents.slots, ToAgent);
        var postObstacles :=
          if NullDereference in postAgents then [] else SweepAsWritten(PostUpdate, m.obstacles.slots, ToObstacle);
        preAgents + preObstacles + crowd + postAgents + postObstacles
  }

  /** The first frame after a load already goes through a null pointer:
      all 128 agent slots start empty, so the very first call is made
      through slot 0, whatever the obstacle capacity. The corrected update
      only steps the crowd. */
  lemma FreshMeshUpdateDereferencesNull(m: Mesh.NavMesh, n: nat)
    requires m.agents == Slots.Fresh(Mesh.MAX_AGENTS)
    requires m.obstacles == Slots.Fresh(n)
    requires m.hasCrowd
    ensures UpdateAsWritten(m) == [NullDereference]
    ensures FrameTrace(m) == [CrowdStep]
  {
    assert m.agents.slots[0].None?;
    PresentOfEmpty(m.agents.slots);
    PresentOfEmpty(m.obstacles.slots);
  }

  /** Which part of the frame an event belongs to. */
  function Stage(e: Event): nat {
    match e
    case Visit(PreUpdate, AgentTarget(_)) => 0
    case Visit(PreUpdate, ObstacleTarget(_)) => 1
    case CrowdStep => 2
    case Visit(PostUpdate, AgentTarget(_)) => 3
    case Visit(PostUpdate, ObstacleTarget(_)) => 4
    case NullDereference => 5
  }

  predicate StagesInOrder(t: seq<Event>) {
    forall i, j :: 0 <= i < j < |t| ==> Stage(t[i]) <= Stage(t[j])
  }

  lemma AppendStage(a: seq<Event>, b: seq<Event>, s: nat)
    requires StagesInOrder(a)
    requires forall k :: 0 <= k < |a| ==> Stage(a[k]) <= s
    requires forall k :: 0 <= k < |b| ==> Stage(b[k]) == s
    ensures StagesInOrder(a + b)
    ensures forall k :: 0 <= k < |a + b| ==> Stage((a + b)[k]) <= s
  {
  }

  /** Each run of visits sits at one stage. */
  lemma VisitsAtStage(p: Phase, agents: seq<Mesh.AgentHandle>, obstacles: seq<Mesh.ObstacleHandle>)
    ensures var t := Visits(p, agents, ToAgent);
      forall k :: 0 <= k < |t| ==> Stage(t[k]) == if p == PreUpdate then 0 else 3
    ensures var t := Visits(p, obstacles, ToObstacle);
      forall k :: 0 <= k < |t| ==> Stage(t[k]) == if p == PreUpdate then 1 else 4
  {
  }

  /** The part of the frame up to and including the crowd step. */
  lemma {:induction false} PreCrowdInOrder(agents: seq<Mesh.AgentHandle>, obstacles: seq<Mesh.ObstacleHandle>, crowd: bool)
    ensures var t := Visits(PreUpdate, agents, ToAgent) + Visits(PreUpdate, obstacles, ToObstacle) + (if crowd then [CrowdStep] else []);
      StagesInOrder(t) && forall k :: 0 <= k < |t| ==> Stage(t[k]) <= 2
  {
    var pre := Visits(PreUpdate, agents, ToAgent) + Visits(PreUpdate, obstacles, ToObstacle);
    PreUpdatesInOrder(agents, obstacles);
    AppendStage(pre, if crowd then [CrowdStep] else [], 2);
  }

  /** The pre-updates: agents, then obstacles. */
  lemma {:induction false} PreUpdatesInOrder(agents: seq<Mesh.AgentHandle>, obstacles: seq<Mesh.ObstacleHandle>)
    ensures var t := Visits(PreUpdate, agents, ToAgent) + Visits(PreUpdate, obstacles, ToObstacle);
      StagesInOrder(t) && forall k :: 0 <= k < |t| ==> Stage(t[k]) <= 1
  {
    var preA := Visits(PreUpdate, agents, ToAgent);
    VisitsAtStage(PreUpdate, agents, obstacles);
    AppendStage([], preA, 0);
    assert [] + preA == preA;
    AppendStage(preA, Visits(PreUpdate, obstacles, ToObstacle), 1);
  }

  lemma {:induction false} FrameInOrder(agents: seq<Mesh.AgentHandle>, obstacles: seq<Mesh.ObstacleHandle>, crowd: bool)
    ensures StagesInOrder(Frame(agents, obstacles, crowd))
  {
    var pre := Visits(PreUpdate, agents, ToAgent) + Visits(PreUpdate, obstacles, ToObstacle) + (if crowd then [CrowdStep] else []);
    var postA := Visits(PostUpdate, agents, ToAgent);
    var postO := Visits(PostUpdate, obstacles, ToObstacle);
    PreCrowdInOrder(agents, obstacles, crowd);
    VisitsAtStage(PostUpdate, agents, obstacles);
    AppendStage(pre, postA, 3);
    AppendStage(pre + postA, postO, 4);
  }

  /** The protocol never reorders: every pre-update comes before the crowd
      step, which comes before every post-update; agents come before
      obstacles within each phase. */
  lemma FrameTraceInOrder(m: Mesh.NavMesh)
    ensures StagesInOrder(FrameTrace(m))
  {
    FrameInOrder(Present(m.agents.slots), Present(m.obstacles.slots), m.hasCrowd);
  }

  /** The crowd steps exactly once per frame when there is a crowd, and
      never otherwise; no call goes through an empty slot. */
  lemma FrameTraceStepsCrowdOnce(m: Mesh.NavMesh)
    ensures multiset(FrameTrace(m))[CrowdStep] == (if m.hasCrowd then 1 else 0)
    ensures NullDereference !in FrameTrace(m)
  {
    FrameStepsCrowdOnce(Present(m.agents.slots), Present(m.obstacles.slots), m.hasCrowd);
  }

  lemma FrameStepsCrowdOnce(agents: seq<Mesh.AgentHandle>, obstacles: seq<Mesh.ObstacleHandle>, crowd: bool)
    ensures multiset(Frame(agents, obstacles, crowd))[CrowdStep] == (if crowd then 1 else 0)
    ensures NullDereference !in Frame(agents, obstacles, crowd)
  {
    var visits := Visits(PreUpdate, agents, ToAgent) + Visits(PreUpdate, obstacles, ToObstacle)
      + Visits(PostUpdate, agents, ToAgent) + Visits(PostUpdate, obstacles, ToObstacle);
    NoCrowdInVisits(agents, obstacles);
    assert multiset(Frame(agents, obstacles, crowd)) == multiset(visits) + multiset(if crowd then [CrowdStep] else []);
  }

  lemma NoCrowdInVisits(agents: seq<Mesh.AgentHandle>, obstacles: seq<Mesh.ObstacleHandle>)
    ensures var visits := Visits(PreUpdate, agents, ToAgent) + Visits(PreUpdate, obstacles, ToObstacle)
      + Visits(PostUpdate, agents, ToAgent) + Visits(PostUpdate, obstacles, ToObstacle);
      CrowdStep !in visits && NullDereference !in visits
  {
  }
}
