/** What each answer to an ephemeral publish or unpublish means, and what it leaves on array, node and disk. */
module EphemeralAnswers {
  import opened CsiTypes
  import opened VolumeId
  import opened Ephemeral
  import opened EphemeralTheorems
  import opened EphemeralRuns
  import H = HostMapping
  import M = MountTable

  // ---------------------------------------------------------------- publish

  /** A new volume is mapped as the pod asks for: to the node's host, in the pod's mode, with its limits. */
  function Mapping(c: Config, st: State, r: Request, id: string, e: PublishEnv): (H.Mappings, Status)
    requires r.capability.mode.Some?
  {
    H.Publish(if id in st.vols then st.vols[id].hosts else [],
              H.PublishRequest(false, c.host, r.capability.mode.value, r.capability.access == BlockAccess, r.limits),
              e.mapping)
  }

  /** The volume is mounted as the pod asks for, under its CSI ID. */
  function Mounting(c: Config, st: State, r: Request, id: string, e: PublishEnv): (M.Table, Status)
    requires id in c.devices
  {
    M.Publish(c.node, st.table,
              M.PublishRequest(c.system + "-" + id, c.devices[id], r.target, r.readonly, Some(r.capability)), e.mount)
  }

  /** The request passes its checks, and the array creates the volume or has it. */
  predicate Created(r: Request, e: PublishEnv) {
    && e.staged && e.systemKnown && e.probed && r.sizeParsed && 1 <= |r.name| <= 31
    && e.created
  }

  ghost predicate IsNamed(st: State, name: string, id: string) {
    id in st.vols && st.vols[id].name == name
  }

  /** The volume a publish works on, by the names on the array. */
  lemma ChosenMeans(st: State, r: Request, e: PublishEnv, id: string)
    requires UniqueNames(st)
    requires IsNamed(st, r.name, id) || (id == e.freshId && forall k :: !IsNamed(st, r.name, k))
    ensures Chosen(st, r, e) == id
    ensures NamedVolume(st, r.name).Some? <==> IsNamed(st, r.name, id)
  {
    if IsNamed(st, r.name, id) {
      assert id in st.vols && st.vols[id].name == r.name;
    } else {
      assert forall k :: k in st.vols ==> !IsNamed(st, r.name, k);
    }
  }

  /** The array and the lock files at the time the lock file is written. */
  function MappedState(c: Config, st: State, r: Request, e: PublishEnv, id: string): State
    requires r.capability.mode.Some?
  {
    var name := if id in st.vols then st.vols[id].name else r.name;
    st.(vols := st.vols[id := ArrayVol(name, Mapping(c, st, r, id, e).0)])
  }

  /** The publish gets as far as the lock file. */
  predicate ReachesLock(c: Config, st: State, r: Request, e: PublishEnv, id: string) {
    && Created(r, e) && e.lockDirMade && c.system != "" && r.capability.mode.Some?
    && Mapping(c, st, r, id, e).1 == OK
  }

  /**
    When a publish succeeds and what it leaves: the volume of the name, mapped; its mounts; and a lock file that
    says which volume the handle stands for. Otherwise the answer tells whether the lock file was at fault.
  */
  lemma PublishMeans(c: Config, st: State, r: Request, e: PublishEnv, id: string)
    requires UniqueNames(st)
    requires IsNamed(st, r.name, id) || (id == e.freshId && id !in st.vols && forall k :: !IsNamed(st, r.name, k))
    ensures var (st', s) := NodePublish(c, st, r, e);
            && (s == OK <==>
                  && ReachesLock(c, st, r, e, id) && e.lock == Written && e.seen && id in c.devices
                  && Mounting(c, st, r, id, e).1 == OK)
            && (s == Unknown <==>
                  Created(r, e) && (!e.lockDirMade || (ReachesLock(c, st, r, e, id) && e.lock != Written)))
            && s in {OK, Unknown, Internal}
            && (s == OK ==>
                  st' == State(MappedState(c, st, r, e, id).vols, Mounting(c, st, r, id, e).0,
                               st.locks[r.handle := c.system + "-" + id]))
            && (!Created(r, e) ==> st' == st)
            && (ReachesLock(c, st, r, e, id) && e.lock != Written ==>
                  st' == State(MappedState(c, st, r, e, id).vols, st.table,
                               if e.lock == LeftEmpty then st.locks[r.handle := ""] else st.locks))
  {
    ChosenMeans(st, r, e, id);
    var st1 := WithVolume(st, r, e);
    assert Acceptable(r, e) && e.created <==> Created(r, e);
    if r.capability.mode.Some? {
      assert st1.vols[id].hosts == if id in st.vols then st.vols[id].hosts else [];
      var hosts := H.Publish(st1.vols[id].hosts, MapRequest(c, r), e.mapping).0;
      assert st1.vols[id := st1.vols[id].(hosts := hosts)] == MappedState(c, st, r, e, id).vols;
    }
  }

  /** A publish that fails once the handle has its lock file, or before the lock file, is rolled back by an
      unpublish of the handle. */
  lemma FailureIsRolledBack(c: Config, st: State, r: Request, e: PublishEnv, id: string)
    requires UniqueNames(st) && Created(r, e) && e.lockDirMade && c.system != ""
    requires IsNamed(st, r.name, id) || (id == e.freshId && id !in st.vols && forall k :: !IsNamed(st, r.name, k))
    ensures r.capability.mode.None? ==>
              var made := st.(vols := if id in st.vols then st.vols else st.vols[id := ArrayVol(r.name, [])]);
              NodePublish(c, st, r, e).0 == NodeUnpublish(c, made, r.handle, r.target, e.rollback).0
    ensures r.capability.mode.Some? && Mapping(c, st, r, id, e).1 != OK ==>
              NodePublish(c, st, r, e).0
              == NodeUnpublish(c, MappedState(c, st, r, e, id), r.handle, r.target, e.rollback).0
    ensures ReachesLock(c, st, r, e, id) && e.lock == Written && NodePublish(c, st, r, e).1 != OK ==>
              var mapped := MappedState(c, st, r, e, id);
              NodePublish(c, st, r, e).0
              == NodeUnpublish(c, State(mapped.vols,
                                        if e.seen && id in c.devices then Mounting(c, st, r, id, e).0 else st.table,
                                        st.locks[r.handle := c.system + "-" + id]),
                               r.handle, r.target, e.rollback).0
  {
    ChosenMeans(st, r, e, id);
    var st1 := WithVolume(st, r, e);
    if r.capability.mode.Some? {
      var hosts := H.Publish(st1.vols[id].hosts, MapRequest(c, r), e.mapping).0;
      assert st1.vols[id := st1.vols[id].(hosts := hosts)] == MappedState(c, st, r, e, id).vols;
    }
  }

  // ---------------------------------------------------------------- unpublish

  /** What an unpublish refuses, without changing anything. */
  lemma UnpublishRefused(c: Config, st: State, handle: string, target: string, u: UnpublishEnv)
    ensures var csi := if handle in st.locks then st.locks[handle] else handle;
            var short := |csi| <= 2 && '-' !in csi && '/' !in csi;
            var r := NodeUnpublish(c, st, handle, target, u);
            && (target == "" || handle == "" ==> r == (st, InvalidArgument))
            && (target != "" && handle != "" && !u.probed ==> r == (st, FailedPrecondition))
            && (target != "" && handle != "" && u.probed && (short || !u.legacyChecked) ==> r == (st, Internal))
  {
  }

  /** The calls before the volume is released. */
  predicate Admitted(csi: string, handle: string, target: string, u: UnpublishEnv) {
    && target != "" && handle != "" && u.probed && u.legacyChecked
    && (|csi| >= 3 || '-' in csi || '/' in csi)
  }

  /** The unmounting part: by the device if the node sees it, by the target otherwise, and then without looking at
      whether it works. */
  function Unmounting(c: Config, st: State, csi: string, id: string, target: string, u: UnpublishEnv)
    : (M.Table, Status)
  {
    if u.seen && id in c.devices then M.Unpublish(c.node, st.table, csi, c.devices[id], target, u.mount)
    else (if u.detached then M.Unmount(st.table, target) else st.table, OK)
  }

  /** An unpublish of a handle without a lock file unmounts, and that is all. */
  lemma UnlockedUnpublishMeans(c: Config, st: State, handle: string, target: string, u: UnpublishEnv)
    requires handle !in st.locks && Admitted(handle, handle, target, u) && '-' !in handle && '/' !in handle
    ensures var (t, s) := Unmounting(c, st, handle, handle, target, u);
            NodeUnpublish(c, st, handle, target, u) == (st.(table := t), s)
  {
    SplitFree(handle, '-');
  }

  /**
    An unpublish of a handle with a lock file, once the unmounting is done: the volume is unmapped from the node
    and deleted if nobody else uses it, and only then is the lock file removed.
  */
  lemma LockedUnpublishMeans(c: Config, st: State, handle: string, target: string, u: UnpublishEnv, id: string)
    requires handle in st.locks && st.locks[handle] == c.system + "-" + id && PlainIds(c, id)
    requires Admitted(st.locks[handle], handle, target, u)
    ensures var (t, ms) := Unmounting(c, st, st.locks[handle], id, target, u);
            var (hosts, hs) := H.Unpublish(if id in st.vols then st.vols[id].hosts else [], c.host, u.unmap);
            var (st', s) := NodeUnpublish(c, st, handle, target, u);
            var gone := ms == OK && (id in st.vols ==> hs == OK && hosts == [] && u.deleted);
            && (ms != OK ==> s == ms)
            && (s == OK <==> gone && u.lockRemoved)
            && (s == FailedPrecondition && ms == OK <==> ms == OK && id in st.vols && hs == OK && hosts != [])
            && (s == Unknown && ms == OK <==> (ms == OK && id in st.vols && hs != OK) || (gone && !u.lockRemoved))
            && (ms == OK ==> s in {OK, FailedPrecondition, Unknown, Internal})
            && st'.table == t
            && st'.locks == (if s == OK then st.locks - {handle} else st.locks)
            && (id in st'.vols <==> id in st.vols && !gone)
            && st'.vols - {id} == st.vols - {id}
            && (id in st'.vols ==>
                  st'.vols[id] == ArrayVol(st.vols[id].name, if ms == OK then hosts else st.vols[id].hosts))
  {
    LockRemembersVolume(c, id);
    assert st.locks[handle][|c.system|] == '-';
  }
}
