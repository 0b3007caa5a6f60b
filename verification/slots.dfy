/** Fixed-capacity slot arrays: the registries a navigation mesh keeps for
    its agents and for its obstacles. A slot is empty (`None`, the source's
    null pointer) or holds an entity handle; handles are compared by
    identity, as the source compares pointers. Besides the slots, a registry
    records what the mesh has done to the entities it holds: the retains it
    has not yet released, and the registrations with the crowd or tile cache
    it has not yet undone. */
module Slots {
  import opened Wrappers

  datatype Registry<E(==)> = Registry(
    slots: seq<Option<E>>,
    /** Net retains by the mesh: retain() calls minus release() calls, per entity. */
    retained: multiset<E>,
    /** Net addTo() minus removeFrom() calls into the simulation substrate. */
    registered: multiset<E>)

  /** `i` is the lowest index of `s` holding `v`. */
  predicate IsFirst<T(==)>(s: seq<T>, v: T, i: int) {
    0 <= i < |s| && s[i] == v && forall j :: 0 <= j < i ==> s[j] != v
  }

  /** The linear scan of std::find: the position of the first element equal
      to `x`, or None when there is none. */
  function FirstIndexOf<T(==)>(s: seq<T>, x: T): (r: Option<nat>)
    ensures r.None? <==> x !in s
    ensures r.Some? ==> IsFirst(s, x, r.value)
    ensures forall i :: IsFirst(s, x, i) <==> r == Some(i)
  {
    if |s| == 0 then None
    else if s[0] == x then Some(0)
    else match FirstIndexOf(s[1..], x)
      case None => None
      case Some(i) =>
        assert IsFirst(s, x, i + 1) by {
          forall j | 0 <= j < i + 1 ensures s[j] != x {
            if j > 0 { assert s[j] == s[1..][j - 1]; }
          }
        }
        Some(i + 1)
  }

  /** A value that occurs has a first occurrence. */
  lemma FirstOccurrenceExists<T>(s: seq<T>, x: T)
    requires x in s
    ensures exists i :: IsFirst(s, x, i)
  {
    assert IsFirst(s, x, FirstIndexOf(s, x).value);
  }

  /** The registry a successful load creates: `n` empty slots, nothing held. */
  function Fresh<E(==)>(n: nat): (r: Registry<E>)
    ensures |r.slots| == n
    ensures forall i :: 0 <= i < n ==> r.slots[i].None?
  {
    Registry(seq(n, _ => None), multiset{}, multiset{})
  }

  /** Adding takes the lowest-index empty slot, registers the entity and
      retains it; with no empty slot it is a silent no-op. It does not look
      for the entity among the occupied slots. */
  function Add<E(==)>(reg: Registry<E>, e: E): (r: Registry<E>)
    ensures |r.slots| == |reg.slots|
    ensures forall i :: IsFirst(reg.slots, None, i) ==>
      r == Registry(reg.slots[i := Some(e)], reg.retained + multiset{e}, reg.registered + multiset{e})
    ensures None !in reg.slots ==> r == reg
  {
    match FirstIndexOf(reg.slots, None)
    case None => reg
    case Some(i) =>
      Registry(reg.slots[i := Some(e)], reg.retained + multiset{e}, reg.registered + multiset{e})
  }

  /** Removing empties the lowest-index slot holding the identical handle,
      unregisters the entity and releases it; when no slot holds it, it is a
      silent no-op. */
  function Remove<E(==)>(reg: Registry<E>, e: E): (r: Registry<E>)
    ensures |r.slots| == |reg.slots|
    ensures forall i :: IsFirst(reg.slots, Some(e), i) ==>
      r == Registry(reg.slots[i := None], reg.retained - multiset{e}, reg.registered - multiset{e})
    ensures Some(e) !in reg.slots ==> r == reg
  {
    match FirstIndexOf(reg.slots, Some(e))
    case None => reg
    case Some(i) =>
      Registry(reg.slots[i := None], reg.retained - multiset{e}, reg.registered - multiset{e})
  }

  /** The entities held by the occupied slots, counted with repetition. */
  function Occupants<E(==)>(slots: seq<Option<E>>): multiset<E> {
    if |slots| == 0 then multiset{}
    else Held(slots[0]) + Occupants(slots[1..])
  }

  function Held<E(==)>(slot: Option<E>): multiset<E> {
    if slot.Some? then multiset{slot.value} else multiset{}
  }

  /** What the mesh holds on to (retains, registrations) matches its slots. */
  predicate Consistent<E(==)>(reg: Registry<E>) {
    reg.retained == Occupants(reg.slots) && reg.registered == Occupants(reg.slots)
  }

  lemma {:induction false} OccupantsUpdate<E>(slots: seq<Option<E>>, i: nat, v: Option<E>)
    requires i < |slots|
    ensures Occupants(slots[i := v]) + Held(slots[i]) == Occupants(slots) + Held(v)
    decreases i
  {
    if i == 0 {
      assert slots[i := v][1..] == slots[1..];
      Swap(Occupants(slots[i := v]), Occupants(slots), Held(v), Held(slots[0]), Occupants(slots[1..]));
    } else {
      var tail := slots[1..];
      OccupantsUpdateTail(slots, i, v);
      OccupantsUpdate(tail, i - 1, v);
      assert tail[i - 1] == slots[i];
      Rearrange(Occupants(slots[i := v]), Occupants(slots), Held(slots[0]), Occupants(tail[i - 1 := v]), Held(slots[i]), Occupants(tail), Held(v));
    }
  }

  lemma OccupantsUpdateTail<E>(slots: seq<Option<E>>, i: nat, v: Option<E>)
    requires 0 < i < |slots|
    ensures Occupants(slots[i := v]) == Held(slots[0]) + Occupants(slots[1..][i - 1 := v])
  {
    assert slots[i := v][1..] == slots[1..][i - 1 := v];
  }

  lemma Swap<E>(x: multiset<E>, y: multiset<E>, a: multiset<E>, b: multiset<E>, t: multiset<E>)
    requires x == a + t && y == b + t
    ensures x + b == y + a
  {
  }

  lemma Rearrange<E>(x: multiset<E>, y: multiset<E>, a: multiset<E>, b: multiset<E>, c: multiset<E>, d: multiset<E>, v: multiset<E>)
    requires x == a + b && y == a + d && b + c == d + v
    ensures x + c == y + v
  {
    calc {
      x + c;
      (a + b) + c;
      a + (b + c);
      a + (d + v);
      (a + d) + v;
      y + v;
    }
  }

  lemma {:induction false} OccupantsOfEmpty<E>(slots: seq<Option<E>>)
    requires forall i :: 0 <= i < |slots| ==> slots[i].None?
    ensures Occupants(slots) == multiset{}
    decreases |slots|
  {
    if |slots| > 0 {
      OccupantsOfEmpty(slots[1..]);
    }
  }

  /** A fresh registry holds nothing. */
  lemma FreshConsistent<E>(n: nat)
    ensures Consistent(Fresh<E>(n))
    ensures Occupants(Fresh<E>(n).slots) == multiset{}
  {
    OccupantsOfEmpty(Fresh<E>(n).slots);
  }

  /** Add keeps retains and registrations in step with the slots. */
  lemma AddPreservesConsistent<E>(reg: Registry<E>, e: E)
    requires Consistent(reg)
    ensures Consistent(Add(reg, e))
  {
    var k := FirstIndexOf(reg.slots, None);
    if k.Some? {
      OccupantsUpdate(reg.slots, k.value, Some(e));
    }
  }

  /** Remove keeps retains and registrations in step with the slots. */
  lemma RemovePreservesConsistent<E>(reg: Registry<E>, e: E)
    requires Consistent(reg)
    ensures Consistent(Remove(reg, e))
  {
    var k := FirstIndexOf(reg.slots, Some(e));
    if k.Some? {
      var after := reg.slots[k.value := None];
      OccupantsUpdate(reg.slots, k.value, None);
      assert Occupants(after) + multiset{e} == Occupants(reg.slots);
      assert Occupants(after) == Occupants(reg.slots) - multiset{e};
    }
  }

  /** Adding an entity no slot holds and then removing it gives back the
      registry it started from, whether or not a slot was free. */
  lemma AddThenRemoveRestores<E>(reg: Registry<E>, e: E)
    requires Some(e) !in reg.slots
    ensures Remove(Add(reg, e), e) == reg
  {
    if None in reg.slots {
      var i := FirstIndexOf(reg.slots, None).value;
      var added := Add(reg, e);
      assert added.slots == reg.slots[i := Some(e)];
      assert IsFirst(added.slots, Some(e), i);
      assert added.slots[i := None] == reg.slots;
      assert added.retained - multiset{e} == reg.retained;
      assert added.registered - multiset{e} == reg.registered;
    }
  }

  /** Removing an entity and adding it straight back leaves it in as many
      slots as before (one, when it was held once): the freed slot makes
      room, even if the re-add lands in a lower empty slot. */
  lemma RemoveThenAddKeepsCopies<E>(reg: Registry<E>, e: E)
    requires Some(e) in reg.slots
    ensures multiset(Add(Remove(reg, e), e).slots)[Some(e)] == multiset(reg.slots)[Some(e)]
    ensures multiset(Add(Remove(reg, e), e).slots)[None] == multiset(reg.slots)[None]
  {
  }

  /** Add does not check for duplicates: with two empty slots, adding the
      same entity twice puts it into two slots. */
  lemma AddAllowsDuplicates<E>(reg: Registry<E>, e: E)
    requires multiset(reg.slots)[None] >= 2
    ensures multiset(Add(Add(reg, e), e).slots)[Some(e)] == multiset(reg.slots)[Some(e)] + 2
  {
    assert None in reg.slots;
    var i := FirstIndexOf(reg.slots, None).value;
    var once := Add(reg, e);
    assert once.slots == reg.slots[i := Some(e)];
    assert multiset(once.slots)[None] == multiset(reg.slots)[None] - 1;
    assert None in once.slots;
    var j := FirstIndexOf(once.slots, None).value;
    assert Add(once, e).slots == once.slots[j := Some(e)];
  }

  /** Adding occupies exactly one more slot when one is free, none otherwise. */
  lemma AddOccupiesOneSlot<E>(reg: Registry<E>, e: E)
    ensures None in reg.slots ==> multiset(Add(reg, e).slots)[None] == multiset(reg.slots)[None] - 1
    ensures None !in reg.slots ==> multiset(Add(reg, e).slots)[None] == 0
  {
  }

  /** Adding the entities of `es` one after the other, first to last. */
  function AddAll<E(==)>(reg: Registry<E>, es: seq<E>): Registry<E>
    decreases |es|
  {
    if |es| == 0 then reg else Add(AddAll(reg, es[..|es| - 1]), es[|es| - 1])
  }

  function Filled<E>(es: seq<E>): (r: seq<Option<E>>)
    ensures |r| == |es|
    ensures forall i :: 0 <= i < |es| ==> r[i] == Some(es[i])
  {
    seq(|es|, i requires 0 <= i < |es| => Some(es[i]))
  }

  /** Filling a fresh registry one add at a time hands out the slots in index
      order: the k-th entity lands in slot k, and the slots past the added
      ones stay empty. */
  lemma {:induction false} AddAllFillsInOrder<E>(n: nat, es: seq<E>)
    requires |es| <= n
    ensures AddAll(Fresh<E>(n), es).slots == Filled(es) + seq(n - |es|, _ => None)
    decreases |es|
  {
    if |es| > 0 {
      var init := es[..|es| - 1];
      AddAllFillsInOrder(n, init);
      var before := AddAll(Fresh<E>(n), init).slots;
      assert IsFirst(before, None, |init|);
      assert before[|init| := Some(es[|es| - 1])] == Filled(es) + seq(n - |es|, _ => None);
    }
  }

  /** Once `n` adds have filled an `n`-slot registry, a further add changes
      nothing: the (n+1)-th entity is silently not registered. */
  lemma OverCapacityAddIsNoOp<E>(n: nat, es: seq<E>, e: E)
    requires |es| == n
    ensures None !in AddAll(Fresh<E>(n), es).slots
    ensures Add(AddAll(Fresh<E>(n), es), e) == AddAll(Fresh<E>(n), es)
  {
    AddAllFillsInOrder(n, es);
    assert AddAll(Fresh<E>(n), es).slots == Filled(es);
  }
}
