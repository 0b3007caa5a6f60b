/** The state a loaded navigation mesh keeps between calls: the agent and
    obstacle slot arrays, the back-references it has handed to agents, the
    crowd simulator's presence and the tiles built during load. The Detour
    objects themselves (mesh, tile cache, crowd, query) are outside the model;
    only whether the crowd exists matters to the per-frame update. */
module Mesh {
  import opened Wrappers
  import Slots

  /** Identity of an agent or obstacle object: the address it lives at. */
  datatype AgentHandle = AgentHandle(address: nat)
  datatype ObstacleHandle = ObstacleHandle(address: nat)

  /** Capacity of the agent slot array and of the crowd simulator. */
  const MAX_AGENTS: nat := 128

  datatype NavMesh = NavMesh(
    agents: Slots.Registry<AgentHandle>,
    obstacles: Slots.Registry<ObstacleHandle>,
    /** For every agent the mesh has touched: whether its query pointer is
        this mesh's query object (true) or was cleared by the mesh (false). */
    agentQuery: map<AgentHandle, bool>,
    /** The crowd simulator pointer is non-null. */
    hasCrowd: bool,
    /** References of the tiles built into the live mesh during load, in order. */
    tiles: seq<nat>)

  /** Both registries keep their retains and registrations in step with
      their slots. */
  predicate Valid(m: NavMesh) {
    Slots.Consistent(m.agents) && Slots.Consistent(m.obstacles)
  }

  /** addNavMeshAgent: the agent goes into the lowest empty agent slot, is
      added to the crowd, retained and given this mesh's query object; with
      every slot taken nothing at all changes. Obstacles, the crowd and the
      tiles are never touched. */
  function AddNavMeshAgent(m: NavMesh, a: AgentHandle): (r: NavMesh)
    ensures forall i :: Slots.IsFirst(m.agents.slots, None, i) ==>
      r == m.(agents := Slots.Registry(m.agents.slots[i := Some(a)],
                                       m.agents.retained + multiset{a},
                                       m.agents.registered + multiset{a}),
              agentQuery := m.agentQuery[a := true])
    ensures None !in m.agents.slots ==> r == m
  {
    if None in m.agents.slots then
      m.(agents := Slots.Add(m.agents, a), agentQuery := m.agentQuery[a := true])
    else m
  }

  /** removeNavMeshAgent: the lowest slot holding this very agent is emptied,
      the agent leaves the crowd, is released and its query pointer is
      cleared; an agent no slot holds leaves everything unchanged. */
  function RemoveNavMeshAgent(m: NavMesh, a: AgentHandle): (r: NavMesh)
    ensures forall i :: Slots.IsFirst(m.agents.slots, Some(a), i) ==>
      r == m.(agents := Slots.Registry(m.agents.slots[i := None],
                                       m.agents.retained - multiset{a},
                                       m.agents.registered - multiset{a}),
              agentQuery := m.agentQuery[a := false])
    ensures Some(a) !in m.agents.slots ==> r == m
  {
    if Some(a) in m.agents.slots then
      m.(agents := Slots.Remove(m.agents, a), agentQuery := m.agentQuery[a := false])
    else m
  }

  /** addNavMeshObstacle: the obstacle goes into the lowest empty obstacle
      slot, is added to the tile cache and retained; no-op when full. */
  function AddNavMeshObstacle(m: NavMesh, o: ObstacleHandle): (r: NavMesh)
    ensures forall i :: Slots.IsFirst(m.obstacles.slots, None, i) ==>
      r == m.(obstacles := Slots.Registry(m.obstacles.slots[i := Some(o)],
                                          m.obstacles.retained + multiset{o},
                                          m.obstacles.registered + multiset{o}))
    ensures None !in m.obstacles.slots ==> r == m
  {
    m.(obstacles := Slots.Add(m.obstacles, o))
  }

  /** removeNavMeshObstacle: the lowest slot holding this very obstacle is
      emptied, the obstacle leaves the tile cache and is released; no-op
      when absent. */
  function RemoveNavMeshObstacle(m: NavMesh, o: ObstacleHandle): (r: NavMesh)
    ensures forall i :: Slots.IsFirst(m.obstacles.slots, Some(o), i) ==>
      r == m.(obstacles := Slots.Registry(m.obstacles.slots[i := None],
                                          m.obstacles.retained - multiset{o},
                                          m.obstacles.registered - multiset{o}))
    ensures Some(o) !in m.obstacles.slots ==> r == m
  {
    m.(obstacles := Slots.Remove(m.obstacles, o))
  }

  /** Every add and remove keeps a valid mesh valid, and no operation changes
      the capacity of either slot array. */
  lemma OperationsPreserveValid(m: NavMesh, a: AgentHandle, o: ObstacleHandle)
    requires Valid(m)
    ensures Valid(AddNavMeshAgent(m, a)) && Valid(RemoveNavMeshAgent(m, a))
    ensures Valid(AddNavMeshObstacle(m, o)) && Valid(RemoveNavMeshObstacle(m, o))
    ensures |AddNavMeshAgent(m, a).agents.slots| == |RemoveNavMeshAgent(m, a).agents.slots| == |m.agents.slots|
    ensures |AddNavMeshObstacle(m, o).obstacles.slots| == |RemoveNavMeshObstacle(m, o).obstacles.slots| == |m.obstacles.slots|
  {
    Slots.AddPreservesConsistent(m.agents, a);
    Slots.RemovePreservesConsistent(m.agents, a);
    Slots.AddPreservesConsistent(m.obstacles, o);
    Slots.RemovePreservesConsistent(m.obstacles, o);
  }

  /** Adding an agent the mesh does not hold and removing it again restores
      the agent slots, retains and crowd registrations exactly; the only trace
      left is the agent's cleared query pointer. */
  lemma AddThenRemoveAgentRestores(m: NavMesh, a: AgentHandle)
    requires Some(a) !in m.agents.slots
    requires None in m.agents.slots
    ensures RemoveNavMeshAgent(AddNavMeshAgent(m, a), a) == m.(agentQuery := m.agentQuery[a := false])
  {
    var added := AddNavMeshAgent(m, a);
    assert added == m.(agents := Slots.Add(m.agents, a), agentQuery := m.agentQuery[a := true]);
    var i := Slots.FirstIndexOf(m.agents.slots, None).value;
    assert added.agents.slots[i] == Some(a);
    Slots.AddThenRemoveRestores(m.agents, a);
    assert m.agentQuery[a := true][a := false] == m.agentQuery[a := false];
  }

  /** The same for obstacles, which carry no back-reference: add then remove
      is the identity. */
  lemma AddThenRemoveObstacleRestores(m: NavMesh, o: ObstacleHandle)
    requires Some(o) !in m.obstacles.slots
    ensures RemoveNavMeshObstacle(AddNavMeshObstacle(m, o), o) == m
  {
    Slots.AddThenRemoveRestores(m.obstacles, o);
  }
}
