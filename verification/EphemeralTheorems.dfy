/** Publish and unpublish of an ephemeral volume undo each other; where a failed publish leaves something behind. */
module EphemeralTheorems {
  import opened CsiTypes
  import opened VolumeId
  import opened Ephemeral
  import H = HostMapping
  import HT = HostMappingTheorems
  import M = MountTable
  import R = MountRuns
  import RT = MountRoundTrip
  import MS = MountSuccess
  import F = MountFacts

  /** IDs that survive in a handle. */
  predicate PlainIds(c: Config, id: string) {
    c.system != "" && '-' !in c.system && '/' !in c.system && '-' !in id && '/' !in id
  }

  lemma LockRemembersVolume(c: Config, id: string)
    requires PlainIds(c, id)
    ensures DecodeVolume(Id(c, id)) == id
  {
    BlockRoundTrip(map[], c.system, id);
  }

  /** Nothing of the volume to be created, nor of its handle, is there yet. */
  ghost predicate Unused(st: State, r: Request, e: PublishEnv) {
    && UniqueNames(st) && NamedVolume(st, r.name).None? && e.freshId !in st.vols && r.handle !in st.locks
  }

  /** The mount world knows the new volume: its device and its target, both still unmounted. */
  ghost predicate Prepared(c: Config, w: R.World, st: State, r: Request, id: string) {
    && R.PlainWorld(w) && R.Placed(w, st.table) && w.node == c.node && id in c.devices
    && R.Serves(w, Id(c, id), c.devices[id], r.target)
    && !M.Mounted(st.table, r.target) && !M.Mounted(st.table, R.Priv(w, Id(c, id)))
  }

  // ---------------------------------------------------------------- one call after the other

  /** The state a successful publish of an unused name ends in. */
  ghost predicate PublishedState(c: Config, st: State, r: Request, e: PublishEnv, st': State) {
    && e.freshId in c.devices && r.capability.mode.Some?
    && var (hosts, s) := H.Publish([], MapRequest(c, r), e.mapping);
       var (t, ms) := M.Publish(c.node, st.table, MountRequest(c, r, e.freshId), e.mount);
       && s == OK && ms == OK
       && st' == State(st.vols[e.freshId := ArrayVol(r.name, hosts)], t, st.locks[r.handle := Id(c, e.freshId)])
  }

  lemma PublishEndsIn(c: Config, st: State, r: Request, e: PublishEnv)
    requires Unused(st, r, e) && NodePublish(c, st, r, e).1 == OK
    ensures PublishedState(c, st, r, e, NodePublish(c, st, r, e).0)
  {
    var st1 := st.(vols := st.vols[e.freshId := ArrayVol(r.name, [])]);
    var (hosts, s) := H.Publish([], MapRequest(c, r), e.mapping);
    assert st1.vols[e.freshId := ArrayVol(r.name, hosts)] == st.vols[e.freshId := ArrayVol(r.name, hosts)];
  }

  /** Releasing a volume with no host of its own gives volumes and lock files back. */
  lemma ReleaseRestores(c: Config, st: State, r: Request, e: PublishEnv, st1: State, u: UnpublishEnv)
    requires Unused(st, r, e) && PlainIds(c, e.freshId)
    requires st1.locks == st.locks[r.handle := Id(c, e.freshId)]
    requires e.freshId in st1.vols && st1.vols == st.vols[e.freshId := st1.vols[e.freshId]]
    requires Release(c, st1, r.handle, u).1 == OK
    ensures Release(c, st1, r.handle, u).0 == State(st.vols, st1.table, st.locks)
  {
    LockRemembersVolume(c, e.freshId);
    assert st1.vols - {e.freshId} == st.vols;
    assert st1.locks - {r.handle} == st.locks;
  }

  /**
    A successful publish with an unused name and handle, followed by a successful unpublish of the
    handle, gives the volumes with their mappings and the lock files back exactly. The mount table is back
    row for row exactly if the node still sees the device, or the volume was a raw block volume and the
    unmount made instead worked.
  */
  lemma UnpublishUndoesPublish(c: Config, w: R.World, st: State, r: Request, e: PublishEnv, u: UnpublishEnv)
    requires Unused(st, r, e) && PlainIds(c, e.freshId) && Prepared(c, w, st, r, e.freshId)
    requires NodePublish(c, st, r, e).1 == OK
    requires NodeUnpublish(c, NodePublish(c, st, r, e).0, r.handle, r.target, u).1 == OK
    ensures var st2 := NodeUnpublish(c, NodePublish(c, st, r, e).0, r.handle, r.target, u).0;
            && st2.vols == st.vols && st2.locks == st.locks
            && (st2.table == st.table <==> u.seen || (r.capability.access == BlockAccess && u.detached))
  {
    var st1 := NodePublish(c, st, r, e).0;
    PublishEndsIn(c, st, r, e);
    LockRemembersVolume(c, e.freshId);
    var id := e.freshId;
    var mr := MountRequest(c, r, id);
    var (t, s) := if u.seen then M.Unpublish(c.node, st1.table, Id(c, id), c.devices[id], r.target, u.mount)
                  else (if u.detached then M.Unmount(st1.table, r.target) else st1.table, OK);
    assert s == OK;
    ReleaseRestores(c, st, r, e, st1.(table := t), u);
    if u.seen {
      RT.UnpublishUndoesPublish(w, st.table, mr, e.mount, u.mount);
    } else {
      DetachRestoresIff(c, w, st, r, e, u.detached);
    }
  }

  /** Without its device, an unpublish unmounts the target at most; the private mount stays behind. */
  lemma DetachRestoresIff(c: Config, w: R.World, st: State, r: Request, e: PublishEnv, detached: bool)
    requires Prepared(c, w, st, r, e.freshId)
    requires M.Publish(c.node, st.table, MountRequest(c, r, e.freshId), e.mount).1 == OK
    ensures var t := M.Publish(c.node, st.table, MountRequest(c, r, e.freshId), e.mount).0;
            (if detached then M.Unmount(t, r.target) else t) == st.table
            <==> r.capability.access == BlockAccess && detached
  {
    var mr := MountRequest(c, r, e.freshId);
    var t := M.Publish(c.node, st.table, mr, e.mount).0;
    R.PublishKeeps(w, st.table, mr, e.mount);
    assert M.Mounted(t, r.target);
    if r.capability.access == BlockAccess {
      BlockAddsTarget(c, w, st, r, e);
    } else {
      FilesystemHasPrivate(c, w, st, r, e);
      PrivateStays(w, t, mr.volume, r.target);
    }
  }

  lemma BlockAddsTarget(c: Config, w: R.World, st: State, r: Request, e: PublishEnv)
    requires Prepared(c, w, st, r, e.freshId) && r.capability.access == BlockAccess
    requires M.Publish(c.node, st.table, MountRequest(c, r, e.freshId), e.mount).1 == OK
    ensures M.Unmount(M.Publish(c.node, st.table, MountRequest(c, r, e.freshId), e.mount).0, r.target) == st.table
  {
    var mr := MountRequest(c, r, e.freshId);
    var t := M.Publish(c.node, st.table, mr, e.mount).0;
    R.KindOfTarget(w, r.target);
    R.MountBlockKeeps(w, st.table, mr.volume, r.target, M.SingleAccess(c.node, r.capability.mode.value), e.mount);
    assert t[..|st.table|] == st.table;
  }

  lemma PrivateStays(w: R.World, t: M.Table, v: string, target: string)
    requires R.PlainWorld(w) && R.Placed(w, t) && v in w.devices && target in w.targets && M.Mounted(t, R.Priv(w, v))
    ensures M.Mounted(M.Unmount(t, target), R.Priv(w, v))
  {
    R.DropTarget(w, t, target);
    R.KindOfTarget(w, target);
    R.KindOfPrivate(w, v);
    var m :| m in t && m.path == R.Priv(w, v);
    assert m in M.Unmount(t, target);
  }

  /** If the node no longer sees the device at unpublish, the private mount of a filesystem stays behind. */
  lemma UnseenDeviceLeavesPrivateMount(c: Config, w: R.World, st: State, r: Request, e: PublishEnv, u: UnpublishEnv)
    requires Unused(st, r, e) && PlainIds(c, e.freshId) && Prepared(c, w, st, r, e.freshId)
    requires r.capability.access == MountAccess && NodePublish(c, st, r, e).1 == OK && !u.seen
    requires NodeUnpublish(c, NodePublish(c, st, r, e).0, r.handle, r.target, u).1 == OK
    ensures M.Mounted(NodeUnpublish(c, NodePublish(c, st, r, e).0, r.handle, r.target, u).0.table,
                      R.Priv(w, Id(c, e.freshId)))
  {
    var st1 := NodePublish(c, st, r, e).0;
    PublishEndsIn(c, st, r, e);
    LockRemembersVolume(c, e.freshId);
    var t := if u.detached then M.Unmount(st1.table, r.target) else st1.table;
    ReleaseRestores(c, st, r, e, st1.(table := t), u);
    FilesystemHasPrivate(c, w, st, r, e);
    R.PublishKeeps(w, st.table, MountRequest(c, r, e.freshId), e.mount);
    PrivateStays(w, st1.table, Id(c, e.freshId), r.target);
  }

  lemma FilesystemHasPrivate(c: Config, w: R.World, st: State, r: Request, e: PublishEnv)
    requires Prepared(c, w, st, r, e.freshId) && r.capability.access == MountAccess
    requires M.Publish(c.node, st.table, MountRequest(c, r, e.freshId), e.mount).1 == OK
    ensures M.Mounted(M.Publish(c.node, st.table, MountRequest(c, r, e.freshId), e.mount).0,
                      R.Priv(w, Id(c, e.freshId)))
  {
    RT.PublishedHasPrivate(w, st.table, MountRequest(c, r, e.freshId), e.mount);
  }

  // ---------------------------------------------------------------- a publish that fails

  /** Every call of the roll-back works, the ones on the mount table included. */
  predicate RollbackWorks(c: Config, t: M.Table, id: string, target: string, u: UnpublishEnv) {
    && u.probed && u.legacyChecked && u.unmap == HT.ALL_WELL && u.deleted && u.lockRemoved
    && (u.seen && id in c.devices ==> M.Unpublish(c.node, t, Id(c, id), c.devices[id], target, u.mount).1 == OK)
  }

  /** The mount table at the time of the roll-back. */
  function TableAtRollback(c: Config, st: State, r: Request, e: PublishEnv): M.Table {
    if e.seen && e.freshId in c.devices then M.Publish(c.node, st.table, MountRequest(c, r, e.freshId), e.mount).0
    else st.table
  }

  /** The publish got as far as the lock file. */
  predicate Mapped(c: Config, r: Request, e: PublishEnv) {
    && e.lockDirMade && c.system != "" && r.capability.mode.Some?
    && H.Publish([], MapRequest(c, r), e.mapping).1 == OK
  }

  predicate Locked(c: Config, r: Request, e: PublishEnv) {
    Mapped(c, r, e) && e.lock == Written
  }

  lemma MappedToThisNode(c: Config, r: Request, e: PublishEnv)
    requires c.host.Some? && c.host.value.kind != H.OtherHost && r.capability.mode.Some?
    requires H.Publish([], MapRequest(c, r), e.mapping).1 == OK
    ensures H.Unpublish(H.Publish([], MapRequest(c, r), e.mapping).0, c.host, HT.ALL_WELL) == ([], OK)
  {
    HT.UnpublishUndoesPublish([], MapRequest(c, r), e.mapping);
  }

  lemma RollbackReleases(c: Config, st: State, r: Request, e: PublishEnv, st1: State)
    requires Unused(st, r, e) && PlainIds(c, e.freshId) && r.target != "" && r.handle != ""
    requires c.host.Some? && c.host.value.kind != H.OtherHost && Locked(c, r, e)
    requires RollbackWorks(c, st1.table, e.freshId, r.target, e.rollback)
    requires st1.locks == st.locks[r.handle := Id(c, e.freshId)]
    requires st1.vols == st.vols[e.freshId := ArrayVol(r.name, H.Publish([], MapRequest(c, r), e.mapping).0)]
    ensures var st2 := NodeUnpublish(c, st1, r.handle, r.target, e.rollback).0;
            st2.vols == st.vols && st2.locks == st.locks
  {
    LockRemembersVolume(c, e.freshId);
    MappedToThisNode(c, r, e);
    var u := e.rollback;
    var id := e.freshId;
    var (t, s) := if u.seen && id in c.devices
                  then M.Unpublish(c.node, st1.table, Id(c, id), c.devices[id], r.target, u.mount)
                  else (if u.detached then M.Unmount(st1.table, r.target) else st1.table, OK);
    var st2 := st1.(table := t);
    assert Release(c, st2, r.handle, u).1 == OK;
    ReleaseRestores(c, st, r, e, st2, u);
  }

  lemma NoLockNoRelease(c: Config, st: State, handle: string, target: string, u: UnpublishEnv)
    requires handle !in st.locks
    ensures NodeUnpublish(c, st, handle, target, u).0.vols == st.vols
    ensures NodeUnpublish(c, st, handle, target, u).0.locks == st.locks
  {
  }

  /** A failure before the lock file is written. */
  lemma UnlockedFailure(c: Config, st: State, r: Request, e: PublishEnv)
    requires Unused(st, r, e) && Acceptable(r, e) && e.created && !Locked(c, r, e)
    ensures var st' := NodePublish(c, st, r, e).0;
            && e.freshId in st'.vols
            && st'.locks == if Mapped(c, r, e) && e.lock == LeftEmpty then st.locks[r.handle := ""] else st.locks
  {
    var id := e.freshId;
    var st1 := st.(vols := st.vols[id := ArrayVol(r.name, [])]);
    NoLockNoRelease(c, st1, r.handle, r.target, e.rollback);
    if r.capability.mode.Some? {
      var hosts := H.Publish([], MapRequest(c, r), e.mapping).0;
      NoLockNoRelease(c, st1.(vols := st1.vols[id := ArrayVol(r.name, hosts)]), r.handle, r.target, e.rollback);
    }
  }

  /** A failure after the lock file is written, rolled back. */
  lemma LockedFailure(c: Config, st: State, r: Request, e: PublishEnv)
    requires Unused(st, r, e) && PlainIds(c, e.freshId) && r.target != "" && r.handle != ""
    requires c.host.Some? && c.host.value.kind != H.OtherHost
    requires Acceptable(r, e) && e.created && NodePublish(c, st, r, e).1 != OK && Locked(c, r, e)
    requires RollbackWorks(c, TableAtRollback(c, st, r, e), e.freshId, r.target, e.rollback)
    ensures var st' := NodePublish(c, st, r, e).0; st'.vols == st.vols && st'.locks == st.locks
  {
    var id := e.freshId;
    var hosts := H.Publish([], MapRequest(c, r), e.mapping).0;
    assert st.vols[id := ArrayVol(r.name, [])][id := ArrayVol(r.name, hosts)] == st.vols[id := ArrayVol(r.name, hosts)];
    var st2 := State(st.vols[id := ArrayVol(r.name, hosts)], TableAtRollback(c, st, r, e),
                     st.locks[r.handle := Id(c, id)]);
    RollbackReleases(c, st, r, e, st2);
  }

  /**
    A publish that fails after it created the volume, with a roll-back in which every call works: the
    array and the lock files are as before exactly if the lock file had been written. A failure before
    that leaves the new volume on the array with no lock file to find it by, or with an empty one.
  */
  lemma FailedPublishLeavesNothingIff(c: Config, st: State, r: Request, e: PublishEnv)
    requires Unused(st, r, e) && PlainIds(c, e.freshId) && r.target != "" && r.handle != ""
    requires c.host.Some? && c.host.value.kind != H.OtherHost
    requires Acceptable(r, e) && e.created && NodePublish(c, st, r, e).1 != OK
    requires RollbackWorks(c, TableAtRollback(c, st, r, e), e.freshId, r.target, e.rollback)
    ensures var st' := NodePublish(c, st, r, e).0;
            && (st'.vols == st.vols && st'.locks == st.locks <==> Locked(c, r, e))
            && (!Locked(c, r, e) ==>
                  && e.freshId in st'.vols
                  && st'.locks == if Mapped(c, r, e) && e.lock == LeftEmpty then st.locks[r.handle := ""] else st.locks)
  {
    if Locked(c, r, e) {
      LockedFailure(c, st, r, e);
    } else {
      UnlockedFailure(c, st, r, e);
    }
  }

  /** It happens: the directory of the lock file cannot be made, and the new volume stays unknown. */
  lemma LostVolume(c: Config, st: State, r: Request, e: PublishEnv)
    requires Unused(st, r, e) && Acceptable(r, e) && e.created && !e.lockDirMade
    ensures var (st', s) := NodePublish(c, st, r, e);
            && s != OK && st'.locks == st.locks && r.handle !in st'.locks
            && st'.vols == st.vols[e.freshId := ArrayVol(r.name, [])] && e.freshId !in st.vols
  {
  }

  // ---------------------------------------------------------------- other volumes

  /** Everything but one volume, one lock file and the mounts at the given paths is as it was. */
  ghost predicate SameExcept(st: State, st': State, handle: string, id: string, paths: set<string>) {
    && (forall k :: k in st.vols && k != id ==> k in st'.vols && st'.vols[k] == st.vols[k])
    && (forall k :: k in st'.vols && k != id ==> k in st.vols)
    && (forall h :: h in st.locks && h != handle ==> h in st'.locks && st'.locks[h] == st.locks[h])
    && (forall h :: h in st'.locks && h != handle ==> h in st.locks)
    && F.Others(st'.table, paths) == F.Others(st.table, paths)
  }

  lemma SameExceptTrans(a: State, b: State, d: State, handle: string, id: string, paths: set<string>)
    requires SameExcept(a, b, handle, id, paths) && SameExcept(b, d, handle, id, paths)
    ensures SameExcept(a, d, handle, id, paths)
  {
  }

  lemma ReleaseTouchesOwnVolume(c: Config, st: State, handle: string, u: UnpublishEnv, paths: set<string>)
    requires handle in st.locks
    ensures SameExcept(st, Release(c, st, handle, u).0, handle, DecodeVolume(st.locks[handle]), paths)
  {
  }

  /** The table after the unmounting part of an unpublish. */
  function TableAfter(c: Config, st: State, csi: string, target: string, u: UnpublishEnv): M.Table {
    if u.seen && DecodeVolume(csi) in c.devices
    then M.Unpublish(c.node, st.table, csi, c.devices[DecodeVolume(csi)], target, u.mount).0
    else if u.detached then M.Unmount(st.table, target) else st.table
  }

  lemma TableElsewhere(c: Config, st: State, csi: string, target: string, u: UnpublishEnv, paths: set<string>)
    requires target in paths && M.PrivatePath(c.node, csi) in paths
    ensures F.Others(TableAfter(c, st, csi, target, u), paths) == F.Others(st.table, paths)
  {
    F.UnmountElsewhere(st.table, target, paths);
    if DecodeVolume(csi) in c.devices {
      F.UnpublishElsewhere(c.node, st.table, csi, c.devices[DecodeVolume(csi)], target, u.mount, paths);
    }
  }

  /** Whatever fails, an unpublish touches at most the volume that its own lock file names, and mounts at the
      target and at that volume's private path. */
  lemma UnpublishTouchesOwnVolume(c: Config, st: State, handle: string, target: string, u: UnpublishEnv, id: string,
                                  paths: set<string>)
    requires handle in st.locks ==> DecodeVolume(st.locks[handle]) == id
    requires target in paths && M.PrivatePath(c.node, if handle in st.locks then st.locks[handle] else handle) in paths
    ensures SameExcept(st, NodeUnpublish(c, st, handle, target, u).0, handle, id, paths)
  {
    var csi := if handle in st.locks then st.locks[handle] else handle;
    TableElsewhere(c, st, csi, target, u, paths);
    var st1 := st.(table := TableAfter(c, st, csi, target, u));
    assert SameExcept(st, st1, handle, id, paths);
    if handle in st.locks {
      ReleaseTouchesOwnVolume(c, st1, handle, u, paths);
      SameExceptTrans(st, st1, Release(c, st1, handle, u).0, handle, id, paths);
    }
  }

  /** The paths a request may mount or unmount: its target, the private path of its volume, and that of its
      handle, which a roll-back before the lock file takes for the volume. */
  function OwnPaths(c: Config, r: Request, id: string): set<string> {
    {r.target, M.PrivatePath(c.node, Id(c, id)), M.PrivatePath(c.node, r.handle)}
  }

  lemma MountTouchesOwnVolume(c: Config, st: State, r: Request, id: string, e: PublishEnv)
    requires PlainIds(c, id)
    ensures SameExcept(st, LockAndMount(c, st, r, id, e).0, r.handle, id, OwnPaths(c, r, id))
  {
    if e.lock == Written {
      if e.seen && id in c.devices {
        F.PublishElsewhere(c.node, st.table, MountRequest(c, r, id), e.mount, OwnPaths(c, r, id));
        var t := M.Publish(c.node, st.table, MountRequest(c, r, id), e.mount).0;
        LockedTouchesOwnVolume(c, st, r, id, t, e.rollback);
      } else {
        LockedTouchesOwnVolume(c, st, r, id, st.table, e.rollback);
      }
    }
  }

  /** With the lock file written, and the mounts elsewhere as they were, so does the roll-back. */
  lemma LockedTouchesOwnVolume(c: Config, st: State, r: Request, id: string, t: M.Table, u: UnpublishEnv)
    requires PlainIds(c, id) && F.Others(t, OwnPaths(c, r, id)) == F.Others(st.table, OwnPaths(c, r, id))
    ensures var st2 := State(st.vols, t, st.locks[r.handle := Id(c, id)]);
            && SameExcept(st, st2, r.handle, id, OwnPaths(c, r, id))
            && SameExcept(st, NodeUnpublish(c, st2, r.handle, r.target, u).0, r.handle, id, OwnPaths(c, r, id))
  {
    var paths := OwnPaths(c, r, id);
    LockRemembersVolume(c, id);
    var st2 := State(st.vols, t, st.locks[r.handle := Id(c, id)]);
    UnpublishTouchesOwnVolume(c, st2, r.handle, r.target, u, id, paths);
    SameExceptTrans(st, st2, NodeUnpublish(c, st2, r.handle, r.target, u).0, r.handle, id, paths);
  }

  lemma MapTouchesOwnVolume(c: Config, st: State, r: Request, id: string, e: PublishEnv)
    requires PlainIds(c, id) && id in st.vols && r.handle !in st.locks
    ensures SameExcept(st, MapLockAndMount(c, st, r, id, e).0, r.handle, id, OwnPaths(c, r, id))
  {
    var paths := OwnPaths(c, r, id);
    if r.capability.mode.None? {
      UnpublishTouchesOwnVolume(c, st, r.handle, r.target, e.rollback, id, paths);
    } else {
      var (hosts, s) := H.Publish(st.vols[id].hosts, MapRequest(c, r), e.mapping);
      var st1 := st.(vols := st.vols[id := st.vols[id].(hosts := hosts)]);
      assert SameExcept(st, st1, r.handle, id, paths);
      if s != OK {
        UnpublishTouchesOwnVolume(c, st1, r.handle, r.target, e.rollback, id, paths);
        SameExceptTrans(st, st1, NodeUnpublish(c, st1, r.handle, r.target, e.rollback).0, r.handle, id, paths);
      } else {
        MountTouchesOwnVolume(c, st1, r, id, e);
        SameExceptTrans(st, st1, LockAndMount(c, st1, r, id, e).0, r.handle, id, paths);
      }
    }
  }

  /** Whatever fails, and with its roll-backs, a publish of an unused name touches no other volume, no other lock
      file and no mount elsewhere. */
  lemma PublishTouchesOwnVolume(c: Config, st: State, r: Request, e: PublishEnv)
    requires Unused(st, r, e) && PlainIds(c, e.freshId)
    ensures SameExcept(st, NodePublish(c, st, r, e).0, r.handle, e.freshId, OwnPaths(c, r, e.freshId))
  {
    var paths := OwnPaths(c, r, e.freshId);
    var st1 := st.(vols := st.vols[e.freshId := ArrayVol(r.name, [])]);
    MapTouchesOwnVolume(c, st1, r, e.freshId, e);
    SameExceptTrans(st, st1, MapLockAndMount(c, st1, r, e.freshId, e).0, r.handle, e.freshId, paths);
  }

  // ---------------------------------------------------------------- when all calls work

  predicate PublishCallsWork(r: Request, e: PublishEnv) {
    && Acceptable(r, e) && e.created && e.lockDirMade && e.lock == Written && e.seen
    && e.mapping.mapped && e.mapping.reread && e.mapping.limitsSet
    && MS.CallsSucceedFor(r.capability.access, e.mount)
  }

  predicate UnpublishCallsWork(u: UnpublishEnv) {
    && u.probed && u.legacyChecked && u.seen && u.unmap == HT.ALL_WELL && u.deleted && u.lockRemoved
    && u.mount.deviceFound && u.mount.mountsRead && u.mount.targetUnmounted && u.mount.targetRemoved
    && u.mount.devMountsRead && u.mount.privUnmounts > 0
  }

  lemma PublishedIff(c: Config, st: State, r: Request, e: PublishEnv)
    requires Unused(st, r, e) && PublishCallsWork(r, e) && c.system != "" && e.freshId in c.devices
    ensures NodePublish(c, st, r, e).1 == OK <==>
              && r.capability.mode.Some? && H.Publish([], MapRequest(c, r), e.mapping).1 == OK
              && M.Publish(c.node, st.table, MountRequest(c, r, e.freshId), e.mount).1 == OK
  {
  }

  /** The request can be served on a volume that nobody uses: as a filesystem or raw, in a mode that may be mapped
      and mounted. A private directory on a node without any mount is in the way of a filesystem. */
  predicate Servable(r: Request, t: M.Table, e: M.PublishEnv) {
    && r.capability.mode.Some? && r.capability.access != NoAccessType
    && HT.UsableAlone(r.capability.mode.value, r.capability.access == BlockAccess)
    && (r.capability.access == MountAccess ==> !MS.NothingMountedYet(t, e))
  }

  lemma ServableIff(r: Request, t: M.Table, e: M.PublishEnv)
    requires r.capability.mode.Some?
    ensures Servable(r, t, e) <==>
              && MS.Publishable(t, r.capability, e)
              && HT.UsableAlone(r.capability.mode.value, r.capability.access == BlockAccess)
    ensures r.capability.access == MountAccess && MS.Publishable(t, r.capability, e) ==> Servable(r, t, e)
  {
  }

  /**
    If no outside call fails, publishing a new ephemeral volume, raw or with a filesystem, succeeds exactly when
    its mode can be served and its limits are numbers; and what was published can be unpublished.
  */
  lemma PublishSucceedsIff(c: Config, w: R.World, st: State, r: Request, e: PublishEnv, u: UnpublishEnv)
    requires Unused(st, r, e) && PlainIds(c, e.freshId) && Prepared(c, w, st, r, e.freshId)
    requires !R.TargetMounted(w, st.table, Id(c, e.freshId)) && r.target != "" && r.handle != ""
    requires c.host.Some? && c.host.value.kind != H.OtherHost
    requires PublishCallsWork(r, e) && UnpublishCallsWork(u)
    ensures NodePublish(c, st, r, e).1 == OK <==> Servable(r, st.table, e.mount) && H.ValidLimits(r.limits)
    ensures NodePublish(c, st, r, e).1 == OK ==>
              NodeUnpublish(c, NodePublish(c, st, r, e).0, r.handle, r.target, u) == (st, OK)
  {
    PublishedIff(c, st, r, e);
    if r.capability.mode.Some? {
      MS.NewPublish(w, st.table, MountRequest(c, r, e.freshId), r.capability, e.mount);
      ServableIff(r, st.table, e.mount);
      HT.PublishSucceedsIff([], MapRequest(c, r), e.mapping);
    }
    if NodePublish(c, st, r, e).1 == OK {
      PublishedIsReleased(c, w, st, r, e, u);
      UnpublishUndoesPublish(c, w, st, r, e, u);
    }
  }

  lemma PublishedIsReleased(c: Config, w: R.World, st: State, r: Request, e: PublishEnv, u: UnpublishEnv)
    requires Unused(st, r, e) && PlainIds(c, e.freshId) && Prepared(c, w, st, r, e.freshId)
    requires r.target != "" && r.handle != "" && c.host.Some? && c.host.value.kind != H.OtherHost
    requires UnpublishCallsWork(u) && NodePublish(c, st, r, e).1 == OK
    ensures NodeUnpublish(c, NodePublish(c, st, r, e).0, r.handle, r.target, u).1 == OK
  {
    PublishEndsIn(c, st, r, e);
    LockRemembersVolume(c, e.freshId);
    var mr := MountRequest(c, r, e.freshId);
    R.PublishKeeps(w, st.table, mr, e.mount);
    MS.UnpublishSucceeds(w, M.Publish(c.node, st.table, mr, e.mount).0, mr.volume, mr.device, r.target, u.mount);
    MappedToThisNode(c, r, e);
  }
}
