/** Ephemeral publishes whose name may be in use: the volume of the name is taken over, and deleted in the end. */
module EphemeralNames {
  import opened CsiTypes
  import opened VolumeId
  import opened Ephemeral
  import opened EphemeralTheorems
  import opened EphemeralRuns
  import H = HostMapping
  import HT = HostMappingTheorems
  import M = MountTable
  import R = MountRuns

  /** The array gives a new volume a new ID, and the volume a publish works on has an ID that survives in a handle. */
  predicate GoodIds(c: Config, st: State, r: Request, e: PublishEnv)
    requires UniqueNames(st)
  {
    e.freshId !in st.vols && PlainIds(c, Chosen(st, r, e))
  }

  // ---------------------------------------------------------------- publish and unpublish both succeed

  lemma PublishedVolumes(c: Config, st: State, r: Request, e: PublishEnv)
    requires UniqueNames(st) && NodePublish(c, st, r, e).1 == OK
    ensures var (st1, id) := (NodePublish(c, st, r, e).0, Chosen(st, r, e));
            && id in st1.vols && st1.vols == st.vols[id := st1.vols[id]]
            && st1.locks == st.locks[r.handle := Id(c, id)]
  {
  }

  lemma UnpublishedVolumes(c: Config, st: State, handle: string, target: string, u: UnpublishEnv, id: string)
    requires handle in st.locks && DecodeVolume(st.locks[handle]) == id && id in st.vols
    requires NodeUnpublish(c, st, handle, target, u).1 == OK
    ensures NodeUnpublish(c, st, handle, target, u).0.vols == st.vols - {id}
    ensures NodeUnpublish(c, st, handle, target, u).0.locks == st.locks - {handle}
  {
  }

  lemma ReleasedVolumes(c: Config, st: State, st1: State, handle: string, target: string, u: UnpublishEnv, id: string)
    requires PlainIds(c, id) && id in st1.vols && st1.vols == st.vols[id := st1.vols[id]]
    requires st1.locks == st.locks[handle := Id(c, id)] && NodeUnpublish(c, st1, handle, target, u).1 == OK
    ensures NodeUnpublish(c, st1, handle, target, u).0.vols == st.vols - {id}
    ensures NodeUnpublish(c, st1, handle, target, u).0.locks == st.locks - {handle}
  {
    LockRemembersVolume(c, id);
    UnpublishedVolumes(c, st1, handle, target, u, id);
    assert st1.vols - {id} == st.vols - {id};
    assert st1.locks - {handle} == st.locks - {handle};
  }

  /**
    After a successful publish and a successful unpublish of its handle, the volume the publish worked on is gone
    and all others are as before; so the volumes are back exactly when the name was unused. A volume that
    had the name before is deleted.
  */
  lemma RoundTripRestoresIff(c: Config, st: State, r: Request, e: PublishEnv, u: UnpublishEnv)
    requires UniqueNames(st) && GoodIds(c, st, r, e) && NodePublish(c, st, r, e).1 == OK
    requires NodeUnpublish(c, NodePublish(c, st, r, e).0, r.handle, r.target, u).1 == OK
    ensures var st2 := NodeUnpublish(c, NodePublish(c, st, r, e).0, r.handle, r.target, u).0;
            && st2.vols == st.vols - {Chosen(st, r, e)} && st2.locks == st.locks - {r.handle}
            && (st2.vols == st.vols <==> NamedVolume(st, r.name).None?)
  {
    PublishedVolumes(c, st, r, e);
    ReleasedVolumes(c, st, NodePublish(c, st, r, e).0, r.handle, r.target, u, Chosen(st, r, e));
  }

  /** It happens: a volume of the name that nobody uses, all calls working, and the volume is gone. */
  lemma TakenVolumeIsDeleted(c: Config, w: R.World, st: State, r: Request, e: PublishEnv, again: PublishEnv,
                             u: UnpublishEnv)
    requires Unused(st, r, e) && PlainIds(c, e.freshId) && Prepared(c, w, st, r, e.freshId)
    requires !R.TargetMounted(w, st.table, Id(c, e.freshId)) && r.target != "" && r.handle != ""
    requires c.host.Some? && c.host.value.kind != H.OtherHost && PublishCallsWork(r, again) && UnpublishCallsWork(u)
    requires Servable(r, st.table, again.mount) && H.ValidLimits(r.limits)
    ensures var taken := st.(vols := st.vols[e.freshId := ArrayVol(r.name, [])]);
            && UniqueNames(taken) && NamedVolume(taken, r.name) == Some(e.freshId)
            && NodePublish(c, taken, r, again).1 == OK
            && NodeUnpublish(c, NodePublish(c, taken, r, again).0, r.handle, r.target, u) == (st, OK)
  {
    var taken := st.(vols := st.vols[e.freshId := ArrayVol(r.name, [])]);
    NameIsTaken(st, taken, r, e, []);
    RepeatFrom(c, w, st, r, e, again, u, taken, []);
  }

  // ---------------------------------------------------------------- a publish of a taken name that fails

  /** The mappings of the volume once the publish has mapped it. */
  function HostsThen(c: Config, st: State, r: Request, e: PublishEnv, id: string): H.Mappings
    requires id in st.vols && r.capability.mode.Some?
  {
    H.Publish(st.vols[id].hosts, MapRequest(c, r), e.mapping).0
  }

  /** The publish writes the lock file of the volume. */
  predicate Reaches(c: Config, st: State, r: Request, e: PublishEnv, id: string)
    requires id in st.vols
  {
    && e.lockDirMade && c.system != "" && r.capability.mode.Some? && e.lock == Written
    && H.Publish(st.vols[id].hosts, MapRequest(c, r), e.mapping).1 == OK
  }

  /** Only this node uses the volume, and its mapping can be removed. */
  ghost predicate OnlyThisNode(hosts: H.Mappings, h: H.Host) {
    (exists m :: m in hosts && H.Removable(h, m)) && forall m :: m in hosts ==> m.id == h.id
  }

  lemma FreedIff(hosts: H.Mappings, h: H.Host)
    requires hosts != []
    ensures H.Unpublish(hosts, Some(h), HT.ALL_WELL).1 == OK
    ensures H.Unpublish(hosts, Some(h), HT.ALL_WELL).0 == [] <==> OnlyThisNode(hosts, h)
  {
    HT.UnmapRemoves(hosts, h.id);
    var left := H.Unmap(hosts, h.id);
    if left != [] {
      assert left[0] in left;
    }
    assert hosts[0] in hosts;
  }

  /** The mount table when the roll-back of a publish of volume id begins. */
  function TableThen(c: Config, st: State, r: Request, e: PublishEnv, id: string): M.Table {
    if e.seen && id in c.devices then M.Publish(c.node, st.table, MountRequest(c, r, id), e.mount).0 else st.table
  }

  lemma RollbackDeletesIff(c: Config, st: State, handle: string, target: string, u: UnpublishEnv, id: string)
    requires handle in st.locks && st.locks[handle] == Id(c, id) && PlainIds(c, id) && id in st.vols
    requires target != "" && handle != "" && c.host.Some? && st.vols[id].hosts != []
    requires RollbackWorks(c, st.table, id, target, u)
    ensures var st' := NodeUnpublish(c, st, handle, target, u).0;
            && (id !in st'.vols <==> OnlyThisNode(st.vols[id].hosts, c.host.value))
            && (id !in st'.vols ==> st'.vols == st.vols - {id})
  {
    LockRemembersVolume(c, id);
    FreedIff(st.vols[id].hosts, c.host.value);
  }

  lemma MappedIsNotEmpty(c: Config, st: State, r: Request, e: PublishEnv, id: string)
    requires id in st.vols && Reaches(c, st, r, e, id)
    ensures HostsThen(c, st, r, e, id) != []
  {
  }

  lemma LockedFailureDeletesIff(c: Config, st: State, r: Request, e: PublishEnv, id: string)
    requires id in st.vols && PlainIds(c, id) && r.target != "" && r.handle != "" && c.host.Some?
    requires Reaches(c, st, r, e, id) && MapLockAndMount(c, st, r, id, e).1 != OK
    requires RollbackWorks(c, TableThen(c, st, r, e, id), id, r.target, e.rollback)
    ensures var st' := MapLockAndMount(c, st, r, id, e).0;
            && (id !in st'.vols <==> OnlyThisNode(HostsThen(c, st, r, e, id), c.host.value))
            && (id !in st'.vols ==> st'.vols == st.vols - {id})
  {
    var hosts := HostsThen(c, st, r, e, id);
    MappedIsNotEmpty(c, st, r, e, id);
    var st2 := State(st.vols[id := st.vols[id].(hosts := hosts)], TableThen(c, st, r, e, id),
                     st.locks[r.handle := Id(c, id)]);
    RollbackDeletesIff(c, st2, r.handle, r.target, e.rollback, id);
    assert st2.vols - {id} == st.vols - {id};
  }

  lemma UnlockedFailureKeeps(c: Config, st: State, r: Request, e: PublishEnv, id: string)
    requires id in st.vols && r.handle !in st.locks && e.lockDirMade && c.system != "" && !Reaches(c, st, r, e, id)
    ensures id in MapLockAndMount(c, st, r, id, e).0.vols
  {
    NoLockNoRelease(c, st, r.handle, r.target, e.rollback);
    if r.capability.mode.Some? {
      var st1 := st.(vols := st.vols[id := st.vols[id].(hosts := HostsThen(c, st, r, e, id))]);
      NoLockNoRelease(c, st1, r.handle, r.target, e.rollback);
    }
  }

  /**
    A publish of a taken name that fails, with a roll-back in which every call works, deletes the volume that had
    the name exactly when it got as far as writing the lock file and only this node uses the volume then.
    No other volume is lost.
  */
  lemma FailedPublishDeletesIff(c: Config, st: State, r: Request, e: PublishEnv, id: string)
    requires UniqueNames(st) && NamedVolume(st, r.name) == Some(id) && PlainIds(c, id) && r.handle !in st.locks
    requires r.target != "" && r.handle != "" && c.host.Some? && NodePublish(c, st, r, e).1 != OK
    requires RollbackWorks(c, TableThen(c, st, r, e, id), id, r.target, e.rollback)
    ensures var st' := NodePublish(c, st, r, e).0;
            && id in st.vols
            && (id !in st'.vols <==>
                  && Acceptable(r, e) && e.created && Reaches(c, st, r, e, id)
                  && OnlyThisNode(HostsThen(c, st, r, e, id), c.host.value))
            && (id !in st'.vols ==> st'.vols == st.vols - {id})
  {
    assert id in st.vols;
    if Acceptable(r, e) && e.created && e.lockDirMade && c.system != "" {
      if Reaches(c, st, r, e, id) {
        LockedFailureDeletesIff(c, st, r, e, id);
      } else {
        UnlockedFailureKeeps(c, st, r, e, id);
      }
    }
  }
}
