/** Systems and their registry (ECS/System.h, src/ECS/SystemManager.h,
    ECS/SystemManager.inl, ECS/SystemManager.cpp).

    A system type is an abstract tag `SysTag`; the object registered for it
    carries the enabled flag and the name its `GetName` override returns.
    `Update`, `Initialize` and `Shutdown` are calls into code this model
    cannot see: the registry's loops return the sequence of systems they
    call, in call order. */
module Systems {
  import opened Identity
  import opened Wrappers
  import opened EntityQueries

  class System {
    /** What the concrete system's `GetName` returns. */
    const name: string
    var enabled: bool

    /** A new system is enabled. */
    constructor (name: string)
      ensures this.name == name && enabled
    {
      this.name := name;
      enabled := true;
    }

    method SetEnabled(b: bool)
      modifies this
      ensures IsEnabled() == b
    {
      enabled := b;
    }

    function IsEnabled(): bool
      reads this
    {
      enabled
    }

    /** The default lifecycle hooks: no `modifies` clause, so nothing changes. */
    method Initialize()
    {
    }

    method Shutdown()
    {
    }
  }

  predicate Distinct(s: seq<System>)
  {
    forall i, j :: 0 <= i < j < |s| ==> s[i] != s[j]
  }

  ghost predicate DistinctTags<SysTag>(s: seq<SysTag>)
  {
    forall i, j :: 0 <= i < j < |s| ==> s[i] != s[j]
  }

  /** The systems of `s` whose flag is set, in their order in `s`. */
  function EnabledSystems(s: seq<System>): (r: seq<System>)
    reads s
    ensures forall x :: x in r ==> x in s && x.enabled
    ensures forall x :: x in s && x.enabled ==> x in r
    ensures |r| <= |s|
    decreases |s|
  {
    if s == [] then []
    else
      var last := s[|s| - 1];
      var rest := EnabledSystems(s[..|s| - 1]);
      assert forall x :: x in s ==> x in s[..|s| - 1] || x == last;
      if last.enabled then rest + [last] else rest
  }

  /** Filtering distributes over concatenation: the enabled systems keep
      their relative order. */
  lemma {:induction false} EnabledSystemsConcat(a: seq<System>, b: seq<System>)
    ensures EnabledSystems(a + b) == EnabledSystems(a) + EnabledSystems(b)
    decreases |b|
  {
    if b != [] {
      var ab := a + b;
      assert ab[..|ab| - 1] == a + b[..|b| - 1];
      assert ab[|ab| - 1] == b[|b| - 1];
      EnabledSystemsConcat(a, b[..|b| - 1]);
    } else {
      assert a + b == a;
    }
  }

  /** When every system is enabled, all of them run, in order. */
  lemma {:induction false} AllEnabledRunAll(s: seq<System>)
    requires forall x :: x in s ==> x.enabled
    ensures EnabledSystems(s) == s
    decreases |s|
  {
    if s != [] {
      AllEnabledRunAll(s[..|s| - 1]);
      assert s[..|s| - 1] + [s[|s| - 1]] == s;
    }
  }

  /** Two systems: each runs exactly when it is enabled. */
  lemma EnabledPair(a: System, b: System)
    ensures EnabledSystems([a, b]) == (if a.enabled then [a] else []) + (if b.enabled then [b] else [])
  {
    assert [a, b][..1] == [a];
    assert [a][..0] == [];
  }

  /** The index of the first system of `s` named `name`, or |s| if none is. */
  function FirstNamed(s: seq<System>, name: string): (k: nat)
    ensures k <= |s|
    ensures forall j :: 0 <= j < k ==> s[j].name != name
    ensures k < |s| ==> s[k].name == name
    decreases |s|
  {
    if s == [] then 0
    else if s[0].name == name then 0
    else 1 + FirstNamed(s[1..], name)
  }

  /** Each registered type is in the execution list exactly once, at the
      position of its instance, and instances are not shared. */
  ghost predicate Registered<SysTag>(systems: map<SysTag, System>, toUpdate: seq<System>, order: seq<SysTag>)
  {
    |order| == |toUpdate| == |systems| &&
    DistinctTags(order) && Distinct(toUpdate) &&
    (forall k :: 0 <= k < |order| ==> order[k] in systems && systems[order[k]] == toUpdate[k]) &&
    (forall t :: t in systems ==> t in order)
  }

  /** Registering a new type with an instance not yet listed keeps the
      registry consistent. */
  lemma RegisteredExtend<SysTag>(systems: map<SysTag, System>, toUpdate: seq<System>, order: seq<SysTag>,
                                 tag: SysTag, s: System)
    requires Registered(systems, toUpdate, order)
    requires tag !in systems && s !in toUpdate
    ensures Registered(systems[tag := s], toUpdate + [s], order + [tag])
  {
    assert tag !in order;
    var order', toUpdate' := order + [tag], toUpdate + [s];
    forall k | 0 <= k < |order'|
      ensures order'[k] in systems[tag := s] && systems[tag := s][order'[k]] == toUpdate'[k]
    {
      if k < |order| {
        assert order'[k] == order[k] && toUpdate'[k] == toUpdate[k];
      }
    }
  }

  /** The loop of `OnEntitySignatureChanged`: `signatures[t]` for each
      registered `t` inserts an empty signature where none is recorded and
      leaves recorded ones alone; the match it computes is discarded. */
  method FillUnsigned<SysTag>(signatures: map<SysTag, Signature>, registered: set<SysTag>, sig: Signature)
    returns (known: map<SysTag, Signature>)
    ensures known.Keys == signatures.Keys + registered
    ensures forall t :: t in signatures ==> known[t] == signatures[t]
    ensures forall t :: t in known && t !in signatures ==> known[t] == {}
  {
    known := signatures;
    var pending := registered;
    while pending != {}
      invariant pending <= registered
      invariant known.Keys == signatures.Keys + (registered - pending)
      invariant forall t :: t in signatures ==> known[t] == signatures[t]
      invariant forall t :: t in known && t !in signatures ==> known[t] == {}
      decreases pending
    {
      var t :| t in pending;
      known := MapInsert(known, t, {});
      var entityMatchesSystem := Matches(sig, known[t]);
      pending := pending - {t};
    }
  }

  class SystemManager<SysTag(==)> {
    /** `mSystems`: type to instance. */
    var systems: map<SysTag, System>
    /** `mSignatures`: type to required signature (bookkeeping only). */
    var signatures: map<SysTag, Signature>
    /** `mSystemsToUpdate`: instances in execution order. */
    var toUpdate: seq<System>
    /** The types of `toUpdate`, position by position. */
    ghost var order: seq<SysTag>

    ghost predicate Valid()
      reads this
    {
      Registered(systems, toUpdate, order)
    }

    constructor ()
      ensures Valid()
      ensures systems == map[] && signatures == map[] && toUpdate == []
    {
      systems := map[];
      signatures := map[];
      toUpdate := [];
      order := [];
    }

    /** A known type returns its instance and changes nothing; a new one is
        constructed once, recorded, and appended to the execution order. */
    method RegisterSystem(tag: SysTag, name: string) returns (s: System)
      requires Valid()
      modifies this
      ensures Valid()
      ensures signatures == old(signatures)
      ensures old(tag in systems) ==>
        s == old(systems[tag]) && systems == old(systems) && toUpdate == old(toUpdate)
      ensures old(tag !in systems) ==>
        fresh(s) && s.name == name && s.enabled &&
        systems == old(systems)[tag := s] && toUpdate == old(toUpdate) + [s] &&
        |systems| == old(|systems|) + 1
    {
      if tag in systems {
        s := systems[tag];
        return;
      }
      s := new System(name);
      assert s !in toUpdate;
      RegisteredExtend(systems, toUpdate, order, tag, s);
      assert |systems[tag := s]| == |systems| + 1;
      systems := MapInsert(systems, tag, s);
      toUpdate := toUpdate + [s];
      order := order + [tag];
    }

    /** `insert` keeps the first signature recorded for a type. */
    method SetSystemSignature(tag: SysTag, sig: Signature)
      requires Valid()
      modifies this
      ensures Valid()
      ensures systems == old(systems) && toUpdate == old(toUpdate)
      ensures tag in old(signatures) ==> signatures == old(signatures)
      ensures tag !in old(signatures) ==> signatures == old(signatures)[tag := sig]
    {
      signatures := MapInsert(signatures, tag, sig);
    }

    /** The registered instance, or null for an unregistered type. */
    function GetSystem(tag: SysTag): (r: System?)
      reads this
      ensures r != null <==> tag in systems
      ensures r != null ==> r == systems[tag]
      ensures Valid() && r != null ==> r in toUpdate
    {
      if tag in systems then systems[tag] else null
    }

    /** The number of registered types, which is also the length of the
        execution list. */
    function GetSystemCount(): (n: nat)
      requires Valid()
      reads this
      ensures n == |toUpdate| && n == |order|
    {
      |systems|
    }

    /** The systems whose `Update` is called, in call order. */
    method UpdateSystems() returns (ran: seq<System>)
      ensures ran == EnabledSystems(toUpdate)
    {
      ran := [];
      var i := 0;
      while i < |toUpdate|
        invariant 0 <= i <= |toUpdate|
        invariant ran == EnabledSystems(toUpdate[..i])
      {
        assert toUpdate[..i + 1][..i] == toUpdate[..i];
        var system := toUpdate[i];
        if system.IsEnabled() {
          ran := ran + [system];
        }
        i := i + 1;
      }
      assert toUpdate[..i] == toUpdate;
    }

    /** Nothing for the registry to do. */
    method OnEntityDestroyed(e: Entity)
    {
    }

    /** Changes no system and no known signature; `mSignatures[type]` adds
        an empty signature for every registered type not yet signed. */
    method OnEntitySignatureChanged(e: Entity, sig: Signature)
      requires Valid()
      modifies this
      ensures Valid()
      ensures systems == old(systems) && toUpdate == old(toUpdate)
      ensures signatures.Keys == old(signatures).Keys + systems.Keys
      ensures forall t :: t in old(signatures) ==> signatures[t] == old(signatures)[t]
      ensures forall t :: t in signatures && t !in old(signatures) ==> signatures[t] == {}
    {
      signatures := FillUnsigned(signatures, systems.Keys, sig);
    }

    /** Every registered system, in registration order, whatever its flag. */
    method InitializeAllSystems() returns (visited: seq<System>)
      ensures visited == toUpdate
    {
      visited := [];
      var i := 0;
      while i < |toUpdate|
        invariant 0 <= i <= |toUpdate|
        invariant visited == toUpdate[..i]
      {
        toUpdate[i].Initialize();
        visited := visited + [toUpdate[i]];
        i := i + 1;
      }
    }

    method ShutdownAllSystems() returns (visited: seq<System>)
      ensures visited == toUpdate
    {
      visited := [];
      var i := 0;
      while i < |toUpdate|
        invariant 0 <= i <= |toUpdate|
        invariant visited == toUpdate[..i]
      {
        toUpdate[i].Shutdown();
        visited := visited + [toUpdate[i]];
        i := i + 1;
      }
    }

    /** Sets the flag of the first system named `name` (none if no system
        has that name); every other flag keeps its value. */
    method EnableSystem(name: string, b: bool)
      requires Valid()
      modifies toUpdate
      ensures var k := FirstNamed(toUpdate, name);
        (k < |toUpdate| ==> toUpdate[k].enabled == b) &&
        (forall j :: 0 <= j < |toUpdate| && j != k ==> toUpdate[j].enabled == old(toUpdate[j].enabled))
    {
      ghost var k := FirstNamed(toUpdate, name);
      var i := 0;
      while i < |toUpdate|
        invariant 0 <= i <= k
        invariant forall j :: 0 <= j < |toUpdate| ==> toUpdate[j].enabled == old(toUpdate[j].enabled)
      {
        if toUpdate[i].name == name {
          assert i == k;
          var system := toUpdate[i];
          assert forall j :: 0 <= j < |toUpdate| && j != i ==> toUpdate[j] != system;
          system.SetEnabled(b);
          return;
        }
        i := i + 1;
      }
    }
  }

  /** A new registry with two systems under the tags 0 and 1, in that order. */
  method TwoSystems(first: string, second: string) returns (manager: SystemManager<int>, a: System, b: System)
    ensures fresh(manager) && fresh(a) && fresh(b) && a != b
    ensures manager.Valid() && manager.toUpdate == [a, b]
    ensures a.name == first && b.name == second && a.enabled && b.enabled
  {
    manager := new SystemManager<int>();
    a := manager.RegisterSystem(0, first);
    b := manager.RegisterSystem(1, second);
    assert manager.toUpdate == [] + [a] + [b];
  }

  /** After an entity's signature changes, a registered type's signature
      can no longer be set: the empty one the change recorded stays. */
  method SignatureFrozenByEntityChange() returns (recorded: Signature)
    ensures recorded == {}
  {
    var manager := new SystemManager<int>();
    var movement := manager.RegisterSystem(0, "MovementSystem");
    manager.OnEntitySignatureChanged(1, {0});
    manager.SetSystemSignature(0, {0, 1});
    recorded := manager.signatures[0];
  }

  /** Two systems share a name: `EnableSystem` turns off the first only. */
  method EnableSystemFirstMatchOnly() returns (first: bool, second: bool)
    ensures !first && second
  {
    var manager, a, b := TwoSystems("RenderSystem", "RenderSystem");
    manager.EnableSystem("RenderSystem", false);
    first, second := a.IsEnabled(), b.IsEnabled();
  }

  /** A disabled system does not run; the others still do. */
  method DisabledSystemSkipped() returns (ran: seq<System>, render: System)
    ensures ran == [render]
  {
    var manager, movement;
    manager, movement, render := TwoSystems("MovementSystem", "RenderSystem");
    movement.SetEnabled(false);
    ran := manager.UpdateSystems();
    EnabledPair(movement, render);
  }
}
