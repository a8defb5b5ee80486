/** Runs of ephemeral publishes and unpublishes: how long an empty lock file stays, and what a repeated publish does. */
module EphemeralRuns {
  import opened CsiTypes
  import opened VolumeId
  import opened Ephemeral
  import opened EphemeralTheorems
  import H = HostMapping
  import HT = HostMappingTheorems
  import M = MountTable
  import R = MountRuns
  import RT = MountRoundTrip
  import MS = MountSuccess
  import F = MountFacts
  import D = Decimal

  // ---------------------------------------------------------------- names stay unique

  /** No volume appears or is renamed. */
  predicate NamesKept(st: State, st': State) {
    forall k :: k in st'.vols ==> k in st.vols && st'.vols[k].name == st.vols[k].name
  }

  lemma UnpublishKeepsNames(c: Config, st: State, handle: string, target: string, u: UnpublishEnv)
    ensures NamesKept(st, NodeUnpublish(c, st, handle, target, u).0)
  {
  }

  lemma MapKeepsNames(c: Config, st: State, r: Request, id: string, e: PublishEnv)
    requires id in st.vols
    ensures NamesKept(st, MapLockAndMount(c, st, r, id, e).0)
  {
    if r.capability.mode.None? {
      UnpublishKeepsNames(c, st, r.handle, r.target, e.rollback);
    } else {
      var hosts := H.Publish(st.vols[id].hosts, MapRequest(c, r), e.mapping).0;
      var st1 := st.(vols := st.vols[id := st.vols[id].(hosts := hosts)]);
      UnpublishKeepsNames(c, st1, r.handle, r.target, e.rollback);
      LockKeepsNames(c, st1, r, id, e);
    }
  }

  lemma LockKeepsNames(c: Config, st: State, r: Request, id: string, e: PublishEnv)
    ensures NamesKept(st, LockAndMount(c, st, r, id, e).0)
  {
    var st1 := st.(locks := st.locks[r.handle := Id(c, id)]);
    UnpublishKeepsNames(c, st1, r.handle, r.target, e.rollback);
    if id in c.devices {
      var t := M.Publish(c.node, st.table, MountRequest(c, r, id), e.mount).0;
      UnpublishKeepsNames(c, st1.(table := t), r.handle, r.target, e.rollback);
    }
  }

  /** The volume a publish works on: the one of the name, or a new one. */
  function Chosen(st: State, r: Request, e: PublishEnv): string
    requires UniqueNames(st)
  {
    if NamedVolume(st, r.name).Some? then NamedVolume(st, r.name).value else e.freshId
  }

  function WithVolume(st: State, r: Request, e: PublishEnv): State
    requires UniqueNames(st)
  {
    if NamedVolume(st, r.name).Some? then st else st.(vols := st.vols[e.freshId := ArrayVol(r.name, [])])
  }

  lemma PublishKeepsUnique(c: Config, st: State, r: Request, e: PublishEnv)
    requires UniqueNames(st)
    ensures UniqueNames(NodePublish(c, st, r, e).0)
  {
    var st1 := WithVolume(st, r, e);
    assert UniqueNames(st1);
    MapKeepsNames(c, st1, r, Chosen(st, r, e), e);
  }

  // ---------------------------------------------------------------- an empty lock file

  datatype Event =
    | Publishing(r: Request, pe: PublishEnv)
    | Unpublishing(handle: string, target: string, ue: UnpublishEnv)

  ghost function Apply(c: Config, st: State, ev: Event): (r: State)
    requires UniqueNames(st)
    ensures UniqueNames(r)
  {
    match ev
    case Publishing(r, e) =>
      PublishKeepsUnique(c, st, r, e);
      NodePublish(c, st, r, e).0
    case Unpublishing(handle, target, e) =>
      UnpublishKeepsNames(c, st, handle, target, e);
      NodeUnpublish(c, st, handle, target, e).0
  }

  ghost function Run(c: Config, st: State, events: seq<Event>): (r: State)
    requires UniqueNames(st)
    ensures UniqueNames(r)
  {
    if events == [] then st else Apply(c, Run(c, st, events[..|events| - 1]), events[|events| - 1])
  }

  predicate EmptyLock(st: State, handle: string) {
    handle in st.locks && st.locks[handle] == ""
  }

  /** An empty lock file makes every unpublish of its handle fail and change nothing. */
  lemma EmptyLockBlocks(c: Config, st: State, handle: string, target: string, u: UnpublishEnv)
    requires EmptyLock(st, handle)
    ensures NodeUnpublish(c, st, handle, target, u).0 == st && NodeUnpublish(c, st, handle, target, u).1 != OK
  {
  }

  /** A publish of the handle that gets as far as writing its lock file. */
  predicate Writes(c: Config, st: State, ev: Event, handle: string)
    requires UniqueNames(st)
  {
    && ev.Publishing? && ev.r.handle == handle && Acceptable(ev.r, ev.pe) && ev.pe.created && ev.pe.lockDirMade
    && c.system != "" && ev.r.capability.mode.Some? && ev.pe.lock == Written
    && H.Publish(WithVolume(st, ev.r, ev.pe).vols[Chosen(st, ev.r, ev.pe)].hosts, MapRequest(c, ev.r),
                 ev.pe.mapping).1 == OK
  }

  lemma OtherLocksStay(c: Config, st: State, handle: string, target: string, u: UnpublishEnv, h: string)
    requires h != handle
    ensures var st' := NodeUnpublish(c, st, handle, target, u).0;
            (h in st'.locks <==> h in st.locks) && (h in st.locks ==> st'.locks[h] == st.locks[h])
  {
  }

  lemma OwnLockGoes(c: Config, st: State, handle: string, target: string, u: UnpublishEnv)
    ensures var st' := NodeUnpublish(c, st, handle, target, u).0;
            handle in st'.locks ==> handle in st.locks && st'.locks[handle] == st.locks[handle]
  {
  }

  lemma LockingKeepsEmptyIff(c: Config, st: State, r: Request, id: string, e: PublishEnv, handle: string)
    requires EmptyLock(st, handle)
    ensures EmptyLock(LockAndMount(c, st, r, id, e).0, handle) <==> r.handle != handle || e.lock != Written
  {
    if e.lock == Written {
      var st1 := st.(locks := st.locks[r.handle := Id(c, id)]);
      assert '-' in Id(c, id);
      var t := if e.seen && id in c.devices
        then M.Publish(c.node, st.table, MountRequest(c, r, id), e.mount).0 else st.table;
      var st2 := st1.(table := t);
      if r.handle == handle {
        OwnLockGoes(c, st2, r.handle, r.target, e.rollback);
      } else {
        OtherLocksStay(c, st2, r.handle, r.target, e.rollback, handle);
      }
    }
  }

  lemma MappingKeepsEmptyIff(c: Config, st: State, r: Request, id: string, e: PublishEnv, handle: string)
    requires EmptyLock(st, handle) && id in st.vols
    ensures EmptyLock(MapLockAndMount(c, st, r, id, e).0, handle) <==>
              || r.handle != handle || r.capability.mode.None? || e.lock != Written
              || H.Publish(st.vols[id].hosts, MapRequest(c, r), e.mapping).1 != OK
  {
    if r.capability.mode.None? {
      UnpublishKeepsEmpty(c, st, r.handle, r.target, e.rollback, handle);
    } else {
      var (hosts, s) := H.Publish(st.vols[id].hosts, MapRequest(c, r), e.mapping);
      var st1 := st.(vols := st.vols[id := st.vols[id].(hosts := hosts)]);
      if s != OK {
        UnpublishKeepsEmpty(c, st1, r.handle, r.target, e.rollback, handle);
      } else {
        LockingKeepsEmptyIff(c, st1, r, id, e, handle);
      }
    }
  }

  lemma UnpublishKeepsEmpty(c: Config, st: State, handle: string, target: string, u: UnpublishEnv, h: string)
    requires EmptyLock(st, h)
    ensures EmptyLock(NodeUnpublish(c, st, handle, target, u).0, h)
  {
    if handle == h {
      EmptyLockBlocks(c, st, handle, target, u);
    } else {
      OtherLocksStay(c, st, handle, target, u, h);
    }
  }

  lemma EventKeepsEmptyIff(c: Config, st: State, ev: Event, handle: string)
    requires UniqueNames(st) && EmptyLock(st, handle)
    ensures EmptyLock(Apply(c, st, ev), handle) <==> !Writes(c, st, ev, handle)
  {
    match ev
    case Publishing(r, e) => MappingKeepsEmptyIff(c, WithVolume(st, r, e), r, Chosen(st, r, e), e, handle);
    case Unpublishing(h, target, e) => UnpublishKeepsEmpty(c, st, h, target, e, handle);
  }

  ghost predicate StaysEmpty(c: Config, st: State, events: seq<Event>, handle: string)
    requires UniqueNames(st)
  {
    EmptyLock(Run(c, st, events), handle) && (events != [] ==> StaysEmpty(c, st, events[..|events| - 1], handle))
  }

  ghost predicate NeverWrites(c: Config, st: State, events: seq<Event>, handle: string)
    requires UniqueNames(st)
  {
    events != [] ==>
      && !Writes(c, Run(c, st, events[..|events| - 1]), events[|events| - 1], handle)
      && NeverWrites(c, st, events[..|events| - 1], handle)
  }

  /**
    In every run of publishes and unpublishes of any handles, whatever fails, a lock file left empty stays empty
    exactly until a publish of its handle gets as far as writing it. Until then every unpublish of the
    handle fails and changes nothing.
  */
  lemma {:induction false} EmptyLockStaysIff(c: Config, st: State, events: seq<Event>, handle: string, target: string,
                                            u: UnpublishEnv)
    requires UniqueNames(st) && EmptyLock(st, handle)
    ensures StaysEmpty(c, st, events, handle) <==> NeverWrites(c, st, events, handle)
    ensures StaysEmpty(c, st, events, handle) ==>
              var st' := Run(c, st, events);
              NodeUnpublish(c, st', handle, target, u).0 == st' && NodeUnpublish(c, st', handle, target, u).1 != OK
  {
    if events != [] {
      var front := events[..|events| - 1];
      EmptyLockStaysIff(c, st, front, handle, target, u);
      if StaysEmpty(c, st, front, handle) {
        EventKeepsEmptyIff(c, Run(c, st, front), events[|events| - 1], handle);
      }
    }
    if StaysEmpty(c, st, events, handle) {
      EmptyLockBlocks(c, Run(c, st, events), handle, target, u);
    }
  }

  // ---------------------------------------------------------------- repeating a publish that failed

  /** The mappings that a publish leaves on its new volume when it fails before writing the lock file. */
  function LeftHosts(c: Config, r: Request, e: PublishEnv): H.Mappings {
    if !e.lockDirMade || r.capability.mode.None? then [] else H.Publish([], MapRequest(c, r), e.mapping).0
  }

  /** The roll-back before the lock file takes the handle for a volume; if it names no device of the node and the
      target is not mounted, that does nothing. */
  lemma EarlyRollbackDoesNothing(c: Config, st: State, r: Request, u: UnpublishEnv)
    requires r.handle !in st.locks && DecodeVolume(r.handle) !in c.devices && !M.Mounted(st.table, r.target)
    ensures NodeUnpublish(c, st, r.handle, r.target, u).0 == st
  {
    F.UnmountOfMissing(st.table, r.target);
  }

  lemma StateAfterFailure(c: Config, st: State, r: Request, e: PublishEnv)
    requires Unused(st, r, e) && Acceptable(r, e) && e.created && c.system != "" && !Locked(c, r, e)
    requires DecodeVolume(r.handle) !in c.devices && !M.Mounted(st.table, r.target)
    ensures var st1 := NodePublish(c, st, r, e).0;
            && NodePublish(c, st, r, e).1 != OK
            && st1.vols == st.vols[e.freshId := ArrayVol(r.name, LeftHosts(c, r, e))] && st1.table == st.table
            && (st1.locks == st.locks || st1.locks == st.locks[r.handle := ""])
  {
    var id := e.freshId;
    var st1 := st.(vols := st.vols[id := ArrayVol(r.name, [])]);
    EarlyRollbackDoesNothing(c, st1, r, e.rollback);
    if e.lockDirMade && r.capability.mode.Some? {
      var hosts := LeftHosts(c, r, e);
      assert st1.vols[id := ArrayVol(r.name, hosts)] == st.vols[id := ArrayVol(r.name, hosts)];
      EarlyRollbackDoesNothing(c, st1.(vols := st1.vols[id := ArrayVol(r.name, hosts)]), r, e.rollback);
    }
  }

  /** What a publish to an unmapped volume leaves: nothing, or a mapping of its own host. */
  lemma LeftHostIsOwn(c: Config, r: Request, e: PublishEnv)
    requires c.host.Some? && c.host.value.kind != H.OtherHost
    ensures OwnHost(c, LeftHosts(c, r, e))
    ensures LeftHosts(c, r, e) != [] ==> Usable(r)
  {
    var m := H.NewMapping(c.host.value);
    if e.lockDirMade && r.capability.mode.Some? {
      assert H.FirstMatch([], c.host.value) == None;
      assert [] + [m] == [m] && [m][..0] == [];
      assert H.Unmap([m], m.id) == [];
    }
  }

  /** The mode may be mapped to a volume that nobody uses. */
  predicate Usable(r: Request) {
    r.capability.mode.Some? && HT.UsableAlone(r.capability.mode.value, r.capability.access == BlockAccess)
  }

  lemma MapAgainIff(c: Config, r: Request, hosts: H.Mappings, e: H.PublishEnv)
    requires c.host.Some? && r.capability.mode.Some? && e.mapped && e.reread && e.limitsSet
    requires hosts == [] || (|hosts| == 1 && H.Matches(c.host.value, hosts[0]))
    requires Usable(r)
    ensures H.Publish(hosts, MapRequest(c, r), e).1 == OK <==>
              if hosts == [] then H.ValidLimits(r.limits) else H.SameLimits(r.limits, hosts[0])
    ensures hosts != [] ==> H.Publish(hosts, MapRequest(c, r), e).0 == hosts
  {
    if hosts == [] {
      HT.PublishSucceedsIff([], MapRequest(c, r), e);
    } else {
      assert hosts[..0] == [] && H.FirstMatch(hosts[..0], c.host.value) == None;
      assert H.FirstMatch(hosts, c.host.value) == Some(hosts[0]);
    }
  }

  lemma NameIsTaken(st: State, st1: State, r: Request, e: PublishEnv, hosts: H.Mappings)
    requires Unused(st, r, e) && st1.vols == st.vols[e.freshId := ArrayVol(r.name, hosts)]
    ensures UniqueNames(st1) && NamedVolume(st1, r.name) == Some(e.freshId)
  {
    assert forall k :: k in st.vols ==> st.vols[k].name != r.name;
    assert e.freshId in st1.vols && st1.vols[e.freshId].name == r.name;
  }

  /** The state a repeated publish ends in. */
  lemma RepeatEndsIn(c: Config, st: State, r: Request, e: PublishEnv, again: PublishEnv, st1: State, hosts: H.Mappings)
    requires Unused(st, r, e) && PublishCallsWork(r, again) && c.system != "" && e.freshId in c.devices
    requires st1.vols == st.vols[e.freshId := ArrayVol(r.name, hosts)] && st1.table == st.table
    requires st1.locks == st.locks || st1.locks == st.locks[r.handle := ""]
    ensures UniqueNames(st1)
    ensures NodePublish(c, st1, r, again).1 == OK <==>
              && r.capability.mode.Some? && H.Publish(hosts, MapRequest(c, r), again.mapping).1 == OK
              && M.Publish(c.node, st.table, MountRequest(c, r, e.freshId), again.mount).1 == OK
    ensures NodePublish(c, st1, r, again).1 == OK ==>
              NodePublish(c, st1, r, again).0
              == State(st.vols[e.freshId := ArrayVol(r.name, H.Publish(hosts, MapRequest(c, r), again.mapping).0)],
                       M.Publish(c.node, st.table, MountRequest(c, r, e.freshId), again.mount).0,
                       st.locks[r.handle := Id(c, e.freshId)])
  {
    NameIsTaken(st, st1, r, e, hosts);
    var id := e.freshId;
    assert st1.locks[r.handle := Id(c, id)] == st.locks[r.handle := Id(c, id)];
    if r.capability.mode.Some? {
      var hosts2 := H.Publish(hosts, MapRequest(c, r), again.mapping).0;
      assert st1.vols[id := ArrayVol(r.name, hosts2)] == st.vols[id := ArrayVol(r.name, hosts2)];
    }
  }

  lemma MountsUndone(c: Config, w: R.World, st: State, r: Request, id: string, mount: M.PublishEnv, u: M.UnpublishEnv)
    requires Prepared(c, w, st, r, id) && r.target != ""
    requires u.deviceFound && u.mountsRead && u.targetUnmounted && u.targetRemoved && u.devMountsRead
             && u.privUnmounts > 0
    requires M.Publish(c.node, st.table, MountRequest(c, r, id), mount).1 == OK
    ensures var mr := MountRequest(c, r, id);
            M.Unpublish(c.node, M.Publish(c.node, st.table, mr, mount).0, mr.volume, mr.device, r.target, u)
            == (st.table, OK)
  {
    var mr := MountRequest(c, r, id);
    R.PublishKeeps(w, st.table, mr, mount);
    MS.UnpublishSucceeds(w, M.Publish(c.node, st.table, mr, mount).0, mr.volume, mr.device, r.target, u);
    RT.UnpublishUndoesPublish(w, st.table, mr, mount, u);
  }

  /** A published volume with one mapping, that of the node, is released. */
  lemma PublishedStateIsUndone(c: Config, w: R.World, st: State, r: Request, e: PublishEnv, mount: M.PublishEnv,
                               m: H.Mapping, u: UnpublishEnv)
    requires Unused(st, r, e) && PlainIds(c, e.freshId) && Prepared(c, w, st, r, e.freshId) && r.target != ""
             && r.handle != ""
    requires c.host.Some? && c.host.value.kind != H.OtherHost && m.id == c.host.value.id && m.kind == c.host.value.kind
    requires UnpublishCallsWork(u) && M.Publish(c.node, st.table, MountRequest(c, r, e.freshId), mount).1 == OK
    ensures var st2 := State(st.vols[e.freshId := ArrayVol(r.name, [m])],
                             M.Publish(c.node, st.table, MountRequest(c, r, e.freshId), mount).0,
                             st.locks[r.handle := Id(c, e.freshId)]);
            NodeUnpublish(c, st2, r.handle, r.target, u) == (st, OK)
  {
    LockRemembersVolume(c, e.freshId);
    MountsUndone(c, w, st, r, e.freshId, mount, u.mount);
    HT.UndoLast([], c.host.value, m, HT.ALL_WELL);
    assert [] + [m] == [m];
    var st3 := State(st.vols[e.freshId := ArrayVol(r.name, [m])], st.table, st.locks[r.handle := Id(c, e.freshId)]);
    assert Release(c, st3, r.handle, u).1 == OK;
    ReleaseRestores(c, st, r, e, st3, u);
  }

  lemma OneMapping(c: Config, r: Request, hosts: H.Mappings, e: H.PublishEnv)
    requires c.host.Some? && r.capability.mode.Some? && e.mapped && e.reread && e.limitsSet
    requires OwnHost(c, hosts)
    requires Usable(r)
    requires H.Publish(hosts, MapRequest(c, r), e).1 == OK
    ensures var hosts2 := H.Publish(hosts, MapRequest(c, r), e).0;
            |hosts2| == 1 && hosts2[0].id == c.host.value.id && hosts2[0].kind == c.host.value.kind
  {
    MapAgainIff(c, r, hosts, e);
    if hosts == [] {
      HT.PublishSucceedsIff([], MapRequest(c, r), e);
    }
  }

  lemma BothCallsIff(c: Config, w: R.World, st: State, r: Request, id: string, hosts: H.Mappings, again: PublishEnv)
    requires Prepared(c, w, st, r, id) && !R.TargetMounted(w, st.table, Id(c, id)) && r.target != ""
    requires c.host.Some? && r.capability.mode.Some? && PublishCallsWork(r, again)
    requires hosts == [] || (|hosts| == 1 && H.Matches(c.host.value, hosts[0]) && Usable(r))
    ensures var mapping := H.Publish(hosts, MapRequest(c, r), again.mapping).1;
            var mount := M.Publish(c.node, st.table, MountRequest(c, r, id), again.mount).1;
            && (mapping == OK && mount == OK ==> Usable(r))
            && (mapping == OK && mount == OK <==>
                  && Servable(r, st.table, again.mount)
                  && if hosts == [] then H.ValidLimits(r.limits) else H.SameLimits(r.limits, hosts[0]))
  {
    MS.NewPublish(w, st.table, MountRequest(c, r, id), r.capability, again.mount);
    ServableIff(r, st.table, again.mount);
    if Usable(r) {
      MapAgainIff(c, r, hosts, again.mapping);
    } else {
      HT.PublishSucceedsIff([], MapRequest(c, r), again.mapping);
    }
  }

  predicate OwnHost(c: Config, hosts: H.Mappings)
    requires c.host.Some?
  {
    hosts == [] || (|hosts| == 1 && hosts[0].id == c.host.value.id && hosts[0].kind == c.host.value.kind
                    && H.Matches(c.host.value, hosts[0]))
  }

  /** The same from any state that a failed try may leave. */
  lemma RepeatFrom(c: Config, w: R.World, st: State, r: Request, e: PublishEnv, again: PublishEnv, u: UnpublishEnv,
                   st1: State, hosts: H.Mappings)
    requires Unused(st, r, e) && PlainIds(c, e.freshId) && Prepared(c, w, st, r, e.freshId)
    requires !R.TargetMounted(w, st.table, Id(c, e.freshId)) && r.target != "" && r.handle != ""
    requires c.host.Some? && c.host.value.kind != H.OtherHost
    requires PublishCallsWork(r, again) && UnpublishCallsWork(u) && OwnHost(c, hosts) && (hosts != [] ==> Usable(r))
    requires st1.vols == st.vols[e.freshId := ArrayVol(r.name, hosts)] && st1.table == st.table
    requires st1.locks == st.locks || st1.locks == st.locks[r.handle := ""]
    ensures UniqueNames(st1)
    ensures NodePublish(c, st1, r, again).1 == OK <==>
              && Servable(r, st.table, again.mount)
              && if hosts == [] then H.ValidLimits(r.limits) else H.SameLimits(r.limits, hosts[0])
    ensures NodePublish(c, st1, r, again).1 == OK ==>
              NodeUnpublish(c, NodePublish(c, st1, r, again).0, r.handle, r.target, u) == (st, OK)
  {
    RepeatEndsIn(c, st, r, e, again, st1, hosts);
    if r.capability.mode.Some? {
      BothCallsIff(c, w, st, r, e.freshId, hosts, again);
      if NodePublish(c, st1, r, again).1 == OK {
        OneMapping(c, r, hosts, again.mapping);
        var hosts2 := H.Publish(hosts, MapRequest(c, r), again.mapping).0;
        assert hosts2 == [hosts2[0]];
        PublishedStateIsUndone(c, w, st, r, e, again.mount, hosts2[0], u);
      }
    }
  }

  /**
    A publish that failed before its lock file was written is repeated, with all calls working. It finds the
    volume by its name, and succeeds exactly when the mode can be served, raw or with a filesystem, and the
    limits are numbers or, if the first try left the host mapped, read as the array hands them back.
    Unpublishing then gives the state from before the first try.
  */
  lemma RepeatSucceedsIff(c: Config, w: R.World, st: State, r: Request, e: PublishEnv, again: PublishEnv,
                          u: UnpublishEnv)
    requires Unused(st, r, e) && PlainIds(c, e.freshId) && Prepared(c, w, st, r, e.freshId)
    requires !R.TargetMounted(w, st.table, Id(c, e.freshId)) && r.target != "" && r.handle != ""
    requires c.host.Some? && c.host.value.kind != H.OtherHost
    requires Acceptable(r, e) && e.created && !Locked(c, r, e) && DecodeVolume(r.handle) !in c.devices
    requires PublishCallsWork(r, again) && UnpublishCallsWork(u)
    ensures var st1 := NodePublish(c, st, r, e).0;
            var hosts := LeftHosts(c, r, e);
            && UniqueNames(st1)
            && (NodePublish(c, st1, r, again).1 == OK <==>
                  && Servable(r, st.table, again.mount)
                  && if hosts == [] then H.ValidLimits(r.limits) else H.SameLimits(r.limits, hosts[0]))
            && (NodePublish(c, st1, r, again).1 == OK ==>
                  NodeUnpublish(c, NodePublish(c, st1, r, again).0, r.handle, r.target, u) == (st, OK))
  {
    StateAfterFailure(c, st, r, e);
    LeftHostIsOwn(c, r, e);
    RepeatFrom(c, w, st, r, e, again, u, NodePublish(c, st, r, e).0, LeftHosts(c, r, e));
  }

  /** If the first try failed on the lock file, with the host mapped, that takes limits written canonically and a
      bandwidth that is a multiple of 1024 Kbps. */
  lemma MappedRepeatIff(c: Config, r: Request, e: PublishEnv)
    requires c.host.Some? && c.host.value.kind != H.OtherHost && Mapped(c, r, e)
    ensures var hosts := LeftHosts(c, r, e);
            && |hosts| == 1
            && (H.SameLimits(r.limits, hosts[0]) <==>
                  && HT.Canonical(r.limits.bandwidthKbps) && HT.Canonical(r.limits.iops)
                  && (r.limits.bandwidthKbps == "" || D.ParseInt(r.limits.bandwidthKbps).value % 1024 == 0))
  {
    HT.RepublishSucceedsIff([], MapRequest(c, r), e.mapping, e.mapping);
    LeftHostIsOwn(c, r, e);
    var hosts := LeftHosts(c, r, e);
    assert hosts[..0] == [] && H.FirstMatch(hosts[..0], c.host.value) == None;
    assert H.FirstMatch(hosts, c.host.value) == Some(hosts[0]);
  }

  /** It happens: with the host mapped and a bandwidth of 1 Kbps, the repeat does not get past the mapping. */
  lemma OddBandwidthBlocksRepeat(c: Config, r: Request, e: PublishEnv, again: H.PublishEnv)
    requires c.host.Some? && c.host.value.kind != H.OtherHost && Mapped(c, r, e) && r.limits.bandwidthKbps == "1"
    ensures H.Publish(LeftHosts(c, r, e), MapRequest(c, r), again).1 != OK
  {
    MappedRepeatIff(c, r, e);
    LeftHostIsOwn(c, r, e);
    var hosts := LeftHosts(c, r, e);
    assert hosts[..0] == [] && H.FirstMatch(hosts[..0], c.host.value) == None;
    assert H.FirstMatch(hosts, c.host.value) == Some(hosts[0]);
    assert "1" == D.Digits(1) == D.Itoa(1);
    D.ParseItoa(1);
  }
}
