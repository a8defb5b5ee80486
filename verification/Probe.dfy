/** Probing arrays: the tables of clients, systems and aliases the driver finds its arrays by. */
module Probe {
  import opened CsiTypes
  import opened VolumeId

  /** What the array says about itself when it is looked up; the details may be missing. */
  datatype SystemInfo = SystemInfo(id: string, name: string)
  datatype System = System(info: Option<SystemInfo>)

  /** An array of the configuration; the credentials are reduced to whether they are all there. */
  datatype ArrayConfig = ArrayConfig(systemID: string, complete: bool, otherNames: seq<string>, isDefault: bool)

  /** arrays holds the configuration of each array; defaultSystem serves handles that name no system. */
  datatype Registry = Registry(
    clients: set<string>,
    systems: map<string, System>,
    names: Aliases,
    arrays: map<string, ArrayConfig>,
    defaultSystem: string)

  /** Outcomes of the outside calls: client creation, login, the look-up of the system, and the listing by
      which its volumes are filed. */
  datatype ProbeEnv = ProbeEnv(clientMade: bool, loggedIn: bool, found: Option<System>, filed: bool)

  function NamesOf(names: seq<string>): set<string> {
    set n | n in names
  }

  /** Every name leads to the system; the aliases lead to its ID. */
  function Register(g: Registry, system: System, info: SystemInfo, otherNames: seq<string>): Registry {
    if otherNames == [] then g
    else
      var r := Register(g, system, info, otherNames[..|otherNames| - 1]);
      var name := otherNames[|otherNames| - 1];
      r.(clients := r.clients + {name}, systems := r.systems[name := system], names := r.names[name := info.id])
  }

  /** None stands for a crash on the missing details of a system. */
  function Initialize(g: Registry, a: ArrayConfig, system: System): Option<Registry> {
    var g1 := g.(systems := g.systems[a.systemID := system]);
    match system.info
    case None => if a.otherNames == [] then Some(g1) else None
    case Some(info) =>
      var g2 := if info.name == "" then g1
                else g1.(clients := g1.clients + {info.id}, systems := g1.systems[info.id := system],
                         names := g1.names[info.name := info.id]);
      Some(Register(g2, system, info, a.otherNames))
  }

  /** The ID an array is known by: what its configured ID is an alias of, or the configured ID. */
  function KnownAs(g: Registry, a: ArrayConfig): string {
    if a.systemID in g.names then g.names[a.systemID] else a.systemID
  }

  /** The end of a probe: the configuration is entered under the array's ID as well, and the array becomes
      the default or its volumes are filed. */
  function Conclude(g: Registry, a: ArrayConfig, e: ProbeEnv): (Registry, Status) {
    var g1 := if a.systemID in g.names then g.(arrays := g.arrays[KnownAs(g, a) := a]) else g;
    if a.isDefault then (g1.(defaultSystem := KnownAs(g, a)), OK)
    else (g1, if e.filed then OK else Unknown)
  }

  function ProbeSystem(g: Registry, a: ArrayConfig, e: ProbeEnv): Option<(Registry, Status)> {
    if !a.complete || a.systemID == "" then Some((g, FailedPrecondition))
    else if a.systemID !in g.clients && !e.clientMade then Some((g, FailedPrecondition))
    else
      var g1 := if a.systemID in g.clients then g
                else g.(clients := g.clients + {a.systemID} + NamesOf(a.otherNames));
      if !e.loggedIn then Some((g1, FailedPrecondition))
      else if a.systemID in g1.systems then Some(Conclude(g1, a, e))
      else if e.found.None? then Some((g1, FailedPrecondition))
      else
        match Initialize(g1, a, e.found.value)
        case None => None
        case Some(g2) => Some(Conclude(g2, a, e))
  }

  class Driver {
    var clients: set<string>
    var systems: map<string, System>
    var names: Aliases
    var arrays: map<string, ArrayConfig>
    var defaultSystem: string

    ghost function State(): Registry
      reads this
    {
      Registry(clients, systems, names, arrays, defaultSystem)
    }

    /** crashed reports the nil dereference on a system without details. */
    method ProbeArray(a: ArrayConfig, e: ProbeEnv) returns (crashed: bool, s: Status)
      modifies this
      ensures match ProbeSystem(old(State()), a, e)
              case None => crashed
              case Some((g, status)) => !crashed && State() == g && s == status
    {
      crashed, s := false, FailedPrecondition;
      if !a.complete || a.systemID == "" {
        return;
      }
      if a.systemID !in clients {
        if !e.clientMade {
          return;
        }
        ghost var before := clients;
        clients := clients + {a.systemID};
        var i := 0;
        while i < |a.otherNames|
          invariant 0 <= i <= |a.otherNames|
          invariant clients == before + {a.systemID} + NamesOf(a.otherNames[..i])
          invariant State() == old(State()).(clients := clients)
        {
          assert a.otherNames[..i + 1] == a.otherNames[..i] + [a.otherNames[i]];
          clients := clients + {a.otherNames[i]};
          i := i + 1;
        }
        assert a.otherNames[..|a.otherNames|] == a.otherNames;
      }
      if !e.loggedIn {
        return;
      }
      if a.systemID !in systems {
        if e.found.None? {
          return;
        }
        crashed := InitializeSystem(a, e.found.value);
        if crashed {
          return;
        }
      }
      var sysID := a.systemID;
      if a.systemID in names {
        sysID := names[a.systemID];
        arrays := arrays[sysID := a];
      }
      if a.isDefault {
        defaultSystem := sysID;
        return false, OK;
      }
      s := if e.filed then OK else Unknown;
    }

    method InitializeSystem(a: ArrayConfig, system: System) returns (crashed: bool)
      modifies this
      ensures match Initialize(old(State()), a, system)
              case None => crashed
              case Some(g) => !crashed && State() == g
    {
      systems := systems[a.systemID := system];
      if system.info.None? {
        return a.otherNames != [];
      }
      var info := system.info.value;
      if info.name != "" {
        names := names[info.name := info.id];
        systems := systems[info.id := system];
        clients := clients + {info.id};
      }
      RegisterNames(system, info, a.otherNames);
      crashed := false;
    }

    method RegisterNames(system: System, info: SystemInfo, otherNames: seq<string>)
      modifies this
      ensures State() == Register(old(State()), system, info, otherNames)
    {
      var i := 0;
      while i < |otherNames|
        invariant 0 <= i <= |otherNames|
        invariant State() == Register(old(State()), system, info, otherNames[..i])
      {
        assert otherNames[..i + 1][..i] == otherNames[..i];
        var name := otherNames[i];
        systems := systems[name := system];
        clients := clients + {name};
        names := names[name := info.id];
        i := i + 1;
      }
      assert otherNames[..|otherNames|] == otherNames;
    }
  }

  lemma {:induction false} RegisterEffect(g: Registry, system: System, info: SystemInfo, otherNames: seq<string>)
    ensures var r := Register(g, system, info, otherNames);
            && (forall n :: n in r.clients <==> n in g.clients || n in otherNames)
            && (forall n :: n in r.systems <==> n in g.systems || n in otherNames)
            && (forall n :: n in r.systems ==> r.systems[n] == if n in otherNames then system else g.systems[n])
            && (forall n :: n in r.names <==> n in g.names || n in otherNames)
            && (forall n :: n in r.names ==> r.names[n] == if n in otherNames then info.id else g.names[n])
            && r.arrays == g.arrays && r.defaultSystem == g.defaultSystem
  {
    if otherNames != [] {
      RegisterEffect(g, system, info, otherNames[..|otherNames| - 1]);
      assert otherNames == otherNames[..|otherNames| - 1] + [otherNames[|otherNames| - 1]];
    }
  }

  // ---------------------------------------------------------------- aliases lead somewhere

  /** The ID an alias stands for has a client and a system. */
  ghost predicate Grounded(g: Registry) {
    forall n :: n in g.names ==> g.names[n] in g.clients && g.names[n] in g.systems
  }

  /** The default system has a client and a system. */
  predicate DefaultGrounded(g: Registry) {
    g.defaultSystem != "" ==> g.defaultSystem in g.clients && g.defaultSystem in g.systems
  }

  /** The probe will look the system up for the first time. */
  predicate Initializes(g: Registry, a: ArrayConfig, e: ProbeEnv) {
    && a.complete && a.systemID != "" && (a.systemID in g.clients || e.clientMade) && e.loggedIn
    && a.systemID !in g.systems && e.found.Some?
  }

  /** The ID that the aliases of the configuration are about to stand for is reachable. */
  predicate Reachable(g: Registry, a: ArrayConfig, info: SystemInfo) {
    || info.name != ""
    || info.id == a.systemID || info.id in a.otherNames
    || (info.id in g.clients && info.id in g.systems)
  }

  /**
    A probe keeps every alias leading to a client and a system exactly when it does not look a
    system up, or no other names are configured, or the system has a name, or its ID is reachable
    already. A system without a name leaves its aliases dangling.
  */
  lemma ProbeGroundsAliasesIff(g: Registry, a: ArrayConfig, e: ProbeEnv)
    requires Grounded(g) && ProbeSystem(g, a, e).Some?
    ensures Grounded(ProbeSystem(g, a, e).value.0) <==>
              !Initializes(g, a, e) || a.otherNames == [] || Reachable(g, a, e.found.value.info.value)
  {
    if Initializes(g, a, e) && e.found.value.info.Some? {
      var g1 := if a.systemID in g.clients then g else g.(clients := g.clients + {a.systemID} + NamesOf(a.otherNames));
      InitializeGroundsIff(g1, a, e.found.value, e.found.value.info.value);
    }
  }

  /** It happens: an array without a name, configured under another ID, leaves its alias without client and system. */
  lemma NamelessArrayDangles(systemID: string, id: string, other: string, e: ProbeEnv)
    requires systemID != "" && id != systemID && id != other
    requires e.clientMade && e.loggedIn && e.found == Some(System(Some(SystemInfo(id, ""))))
    ensures var g := Registry({}, map[], map[], map[], "");
            var result := ProbeSystem(g, ArrayConfig(systemID, true, [other], true), e);
            && result.Some? && result.value.1 == OK && other in result.value.0.names
            && result.value.0.names[other] == id && id !in result.value.0.clients && id !in result.value.0.systems
  {
    var g := Registry({}, map[], map[], map[], "");
    var a := ArrayConfig(systemID, true, [other], true);
    var system := System(Some(SystemInfo(id, "")));
    var g1 := g.(clients := g.clients + {systemID} + NamesOf([other]));
    RegisterEffect(g1.(systems := g1.systems[systemID := system]), system, SystemInfo(id, ""), [other]);
    assert other in [other] && forall n :: n in [other] ==> n == other;
  }

  lemma RegisterGroundsIff(g: Registry, system: System, info: SystemInfo, otherNames: seq<string>)
    requires Grounded(g)
    ensures Grounded(Register(g, system, info, otherNames)) <==>
              otherNames == [] || info.id in otherNames || (info.id in g.clients && info.id in g.systems)
  {
    RegisterEffect(g, system, info, otherNames);
    if otherNames != [] {
      var r := Register(g, system, info, otherNames);
      assert otherNames[0] in r.names && r.names[otherNames[0]] == info.id;
    }
  }

  lemma InitializeGroundsIff(g: Registry, a: ArrayConfig, system: System, info: SystemInfo)
    requires Grounded(g) && a.systemID in g.clients && system.info == Some(info)
    ensures Grounded(Initialize(g, a, system).value) <==> a.otherNames == [] || Reachable(g, a, info)
  {
    var g1 := g.(systems := g.systems[a.systemID := system]);
    assert Grounded(g1);
    var g2 := if info.name == "" then g1
              else g1.(clients := g1.clients + {info.id}, systems := g1.systems[info.id := system],
                       names := g1.names[info.name := info.id]);
    assert Grounded(g2);
    RegisterGroundsIff(g2, system, info, a.otherNames);
  }

  /** A probe that keeps aliases grounded keeps the default grounded too. */
  lemma ProbeGroundsDefault(g: Registry, a: ArrayConfig, e: ProbeEnv)
    requires Grounded(g) && DefaultGrounded(g) && ProbeSystem(g, a, e).Some? && Grounded(ProbeSystem(g, a, e).value.0)
    ensures DefaultGrounded(ProbeSystem(g, a, e).value.0)
  {
    if Initializes(g, a, e) && e.found.value.info.Some? {
      var g1 := if a.systemID in g.clients then g else g.(clients := g.clients + {a.systemID} + NamesOf(a.otherNames));
      InitializeKeeps(g1, a, e.found.value, e.found.value.info.value);
    }
  }

  lemma InitializeKeeps(g: Registry, a: ArrayConfig, system: System, info: SystemInfo)
    requires system.info == Some(info)
    ensures var g' := Initialize(g, a, system).value;
            g.clients <= g'.clients && g.systems.Keys + {a.systemID} <= g'.systems.Keys
              && g'.defaultSystem == g.defaultSystem
  {
    var g1 := g.(systems := g.systems[a.systemID := system]);
    var g2 := if info.name == "" then g1
              else g1.(clients := g1.clients + {info.id}, systems := g1.systems[info.id := system],
                       names := g1.names[info.name := info.id]);
    RegisterEffect(g2, system, info, a.otherNames);
  }

  datatype Probing = Probing(config: ArrayConfig, env: ProbeEnv)

  function Probes(g: Registry, run: seq<Probing>): Option<Registry> {
    if run == [] then Some(g)
    else
      match Probes(g, run[..|run| - 1])
      case None => None
      case Some(g1) =>
        var p := run[|run| - 1];
        match ProbeSystem(g1, p.config, p.env)
        case None => None
        case Some((g2, _)) => Some(g2)
  }

  /** In every run of probes of arrays that report a name, succeeding or failing, every alias leads
      to an ID with a client and a system, and so does the default system. */
  lemma {:induction false} EveryAliasIsGrounded(g: Registry, run: seq<Probing>)
    requires Grounded(g) && DefaultGrounded(g) && Probes(g, run).Some?
    requires forall i :: 0 <= i < |run| && run[i].env.found.Some? && run[i].env.found.value.info.Some?
                         ==> run[i].env.found.value.info.value.name != ""
    ensures Grounded(Probes(g, run).value) && DefaultGrounded(Probes(g, run).value)
  {
    if run != [] {
      EveryAliasIsGrounded(g, run[..|run| - 1]);
      var p := run[|run| - 1];
      var before := Probes(g, run[..|run| - 1]).value;
      ProbeGroundsAliasesIff(before, p.config, p.env);
      ProbeGroundsDefault(before, p.config, p.env);
    }
  }

  // ---------------------------------------------------------------- what a probe answers and enters

  /** The array is configured, has or gets a client, and accepts the login. */
  predicate Connects(g: Registry, a: ArrayConfig, e: ProbeEnv) {
    a.complete && a.systemID != "" && (a.systemID in g.clients || e.clientMade) && e.loggedIn
  }

  /** What each answer to a probe means, and when it crashes. */
  lemma ProbeMeans(g: Registry, a: ArrayConfig, e: ProbeEnv)
    ensures var known := a.systemID in g.systems;
            var r := ProbeSystem(g, a, e);
            && (r.None? <==>
                  Connects(g, a, e) && !known && e.found.Some? && e.found.value.info.None? && a.otherNames != [])
            && (r.Some? ==>
                  && (r.value.1 == FailedPrecondition <==> !Connects(g, a, e) || (!known && e.found.None?))
                  && (r.value.1 == Unknown <==>
                        Connects(g, a, e) && (known || e.found.Some?) && !a.isDefault && !e.filed)
                  && r.value.1 in {OK, FailedPrecondition, Unknown})
  {
  }

  /** A probe that does not look the system up for the first time enters at most the client and its names; if
      the system is known, the array is entered under its ID and may become the default. */
  lemma RepeatedProbeEnters(g: Registry, a: ArrayConfig, e: ProbeEnv)
    requires !Initializes(g, a, e)
    ensures ProbeSystem(g, a, e).Some?
    ensures var g' := ProbeSystem(g, a, e).value.0;
            var known := Connects(g, a, e) && a.systemID in g.systems;
            && (forall n :: n in g'.clients <==>
                  || n in g.clients
                  || (a.complete && a.systemID != "" && a.systemID !in g.clients && e.clientMade
                      && (n == a.systemID || n in a.otherNames)))
            && g'.systems == g.systems && g'.names == g.names
            && EnteredAs(g, g', a, known)
  {
  }

  /** The array is found under the ID its configured ID stands for, and by default if it is the default. */
  ghost predicate EnteredAs(g: Registry, g': Registry, a: ArrayConfig, entered: bool) {
    && g'.arrays == (if entered && a.systemID in g'.names then g.arrays[g'.names[a.systemID] := a] else g.arrays)
    && g'.defaultSystem ==
       if !entered || !a.isDefault then g.defaultSystem
       else if a.systemID in g'.names then g'.names[a.systemID] else a.systemID
  }

  /** The first look-up of a system enters it under its configured ID, its aliases and, if it has a name, its own
      ID; the aliases and the name stand for its ID. */
  lemma FirstProbeEnters(g: Registry, a: ArrayConfig, e: ProbeEnv, info: SystemInfo)
    requires Initializes(g, a, e) && e.found.value.info == Some(info)
    ensures ProbeSystem(g, a, e).Some?
    ensures var g' := ProbeSystem(g, a, e).value.0;
            && (forall n :: n in g'.clients <==>
                  n in g.clients || n == a.systemID || n in a.otherNames || (info.name != "" && n == info.id))
            && (forall n :: n in g'.systems <==>
                  n in g.systems || n == a.systemID || n in a.otherNames || (info.name != "" && n == info.id))
            && (forall n :: n in g'.systems ==>
                  g'.systems[n] == if n == a.systemID || n in a.otherNames || (info.name != "" && n == info.id)
                                   then e.found.value else g.systems[n])
            && (forall n :: n in g'.names <==> n in g.names || n in a.otherNames || (info.name != "" && n == info.name))
            && (forall n :: n in g'.names ==>
                  g'.names[n] == if n in a.otherNames || (info.name != "" && n == info.name) then info.id
                                 else g.names[n])
            && EnteredAs(g, g', a, true)
  {
    var g1 := if a.systemID in g.clients then g else g.(clients := g.clients + {a.systemID} + NamesOf(a.otherNames));
    InitializeEnters(g1, a, e.found.value, info);
  }

  lemma InitializeEnters(g: Registry, a: ArrayConfig, system: System, info: SystemInfo)
    requires system.info == Some(info)
    ensures Initialize(g, a, system).Some?
    ensures var g' := Initialize(g, a, system).value;
            && (forall n :: n in g'.clients <==>
                  n in g.clients || n in a.otherNames || (info.name != "" && n == info.id))
            && (forall n :: n in g'.systems <==>
                  n in g.systems || n == a.systemID || n in a.otherNames || (info.name != "" && n == info.id))
            && (forall n :: n in g'.systems ==>
                  g'.systems[n] == if n == a.systemID || n in a.otherNames || (info.name != "" && n == info.id)
                                   then system else g.systems[n])
            && (forall n :: n in g'.names <==> n in g.names || n in a.otherNames || (info.name != "" && n == info.name))
            && (forall n :: n in g'.names ==>
                  g'.names[n] == if n in a.otherNames || (info.name != "" && n == info.name) then info.id
                                 else g.names[n])
            && g'.arrays == g.arrays && g'.defaultSystem == g.defaultSystem
  {
    var g1 := g.(systems := g.systems[a.systemID := system]);
    var g2 := if info.name == "" then g1
              else g1.(clients := g1.clients + {info.id}, systems := g1.systems[info.id := system],
                       names := g1.names[info.name := info.id]);
    RegisterEffect(g2, system, info, a.otherNames);
  }

  /** A system without details is entered under its configured ID alone. */
  lemma NamelessProbeEnters(g: Registry, a: ArrayConfig, e: ProbeEnv)
    requires Initializes(g, a, e) && e.found.value.info.None? && a.otherNames == []
    ensures ProbeSystem(g, a, e).Some?
    ensures var g' := ProbeSystem(g, a, e).value.0;
            && g'.clients == g.clients + {a.systemID} && g'.systems == g.systems[a.systemID := e.found.value]
            && g'.names == g.names && EnteredAs(g, g', a, true)
  {
    var none: set<string> := NamesOf([]);
    assert none == {};
  }
}
