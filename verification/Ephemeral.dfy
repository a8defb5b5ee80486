/**
  Inline ephemeral volumes: one publish on the node creates a volume, maps it, writes a lock file that
  remembers the volume for the pod's handle, and mounts it; one unpublish takes all of it back.
*/
module Ephemeral {
  import opened CsiTypes
  import opened VolumeId
  import M = MountTable
  import H = HostMapping

  datatype ArrayVol = ArrayVol(name: string, hosts: H.Mappings)

  /** The array's volumes, the node's mount table, and the lock files: handle to CSI volume ID. */
  datatype State = State(vols: map<string, ArrayVol>, table: M.Table, locks: map<string, string>)

  /** The node, the array it uses, its host entry there, and the device a mapped volume appears as. */
  datatype Config = Config(node: M.Node, system: string, host: Option<H.Host>, devices: map<string, string>)

  datatype Request = Request(handle: string, name: string, sizeParsed: bool, target: string, readonly: bool,
                             capability: Capability, limits: H.Limits)

  const MAX_NAME := 31

  /** Outcomes of the outside calls of an unpublish. seen: the node finds the mapped volume; detached: the
      unmount made when it does not. */
  datatype UnpublishEnv = UnpublishEnv(
    probed: bool, legacyChecked: bool, seen: bool, detached: bool, mount: M.UnpublishEnv,
    unmap: H.UnpublishEnv, deleted: bool, lockRemoved: bool)

  /** The lock file cannot be created, is created and stays empty because writing fails, or is written. */
  datatype LockFile = NotCreated | LeftEmpty | Written

  datatype PublishEnv = PublishEnv(
    staged: bool, systemKnown: bool, probed: bool, freshId: string, created: bool, lockDirMade: bool,
    mapping: H.PublishEnv, lock: LockFile, seen: bool, mount: M.PublishEnv, rollback: UnpublishEnv)

  function Id(c: Config, id: string): string {
    EncodeBlock(c.system, id)
  }

  function MountRequest(c: Config, r: Request, id: string): M.PublishRequest
    requires id in c.devices
  {
    M.PublishRequest(Id(c, id), c.devices[id], r.target, r.readonly, Some(r.capability))
  }

  // ---------------------------------------------------------------- unpublish

  /** Undo on the array what the lock file remembers, then remove it. */
  function Release(c: Config, st: State, handle: string, e: UnpublishEnv): (State, Status)
    requires handle in st.locks
  {
    var id := DecodeVolume(st.locks[handle]);
    var unlocked := st.(locks := st.locks - {handle});
    if id !in st.vols then
      if e.lockRemoved then (unlocked, OK) else (st, Unknown)
    else
      var (hosts, s) := H.Unpublish(st.vols[id].hosts, c.host, e.unmap);
      var st1 := st.(vols := st.vols[id := st.vols[id].(hosts := hosts)]);
      if s != OK then (st1, Unknown)
      else if hosts != [] then (st1, FailedPrecondition)
      else if !e.deleted then (st1, Internal)
      else
        var st2 := st.(vols := st.vols - {id});
        if e.lockRemoved then (State(st2.vols, st.table, unlocked.locks), OK) else (st2, Unknown)
  }

  /** An ID without a system that the check of legacy IDs refuses unseen. */
  predicate TooShort(csi: string) {
    |csi| < 3 && '-' !in csi && '/' !in csi
  }

  function NodeUnpublish(c: Config, st: State, handle: string, target: string, e: UnpublishEnv): (State, Status) {
    if target == "" || handle == "" then (st, InvalidArgument)
    else if !e.probed then (st, FailedPrecondition)
    else
      var csi := if handle in st.locks then st.locks[handle] else handle;
      if TooShort(csi) || !e.legacyChecked then (st, Internal) else
      var id := DecodeVolume(csi);
      var (t, s) := if e.seen && id in c.devices then M.Unpublish(c.node, st.table, csi, c.devices[id], target, e.mount)
                    else (if e.detached then M.Unmount(st.table, target) else st.table, OK);
      var st1 := st.(table := t);
      if s != OK then (st1, s)
      else if handle in st.locks then Release(c, st1, handle, e)
      else (st1, OK)
  }

  // ---------------------------------------------------------------- publish

  /** What follows once the volume is mapped: the lock file, then the mount; a failed mount is rolled back,
      a failed write of the lock file is not. */
  function LockAndMount(c: Config, st: State, r: Request, id: string, e: PublishEnv): (State, Status) {
    if e.lock == NotCreated then (st, Unknown)
    else if e.lock == LeftEmpty then (st.(locks := st.locks[r.handle := ""]), Unknown)
    else
      var st1 := st.(locks := st.locks[r.handle := Id(c, id)]);
      if !e.seen || id !in c.devices then (NodeUnpublish(c, st1, r.handle, r.target, e.rollback).0, Internal)
      else
        var (t, s) := M.Publish(c.node, st.table, MountRequest(c, r, id), e.mount);
        if s == OK then (st1.(table := t), OK)
        else (NodeUnpublish(c, st1.(table := t), r.handle, r.target, e.rollback).0, Internal)
  }

  predicate Acceptable(r: Request, e: PublishEnv) {
    e.staged && |r.name| <= MAX_NAME && r.name != "" && r.sizeParsed && e.systemKnown && e.probed
  }

  predicate UniqueNames(st: State) {
    forall a, b :: a in st.vols && b in st.vols && st.vols[a].name == st.vols[b].name ==> a == b
  }

  /** The volume of a name, if the array has one. */
  function NamedVolume(st: State, name: string): Option<string>
    requires UniqueNames(st)
  {
    if exists id :: id in st.vols && st.vols[id].name == name then
      var id :| id in st.vols && st.vols[id].name == name;
      Some(id)
    else None
  }

  function MapRequest(c: Config, r: Request): H.PublishRequest
    requires r.capability.mode.Some?
  {
    H.PublishRequest(false, c.host, r.capability.mode.value, r.capability.access == BlockAccess, r.limits)
  }

  /** Mapping the volume; a failed mapping is rolled back, before there is a lock file to tell what to undo. */
  function MapLockAndMount(c: Config, st: State, r: Request, id: string, e: PublishEnv): (State, Status)
    requires id in st.vols
  {
    if r.capability.mode.None? then (NodeUnpublish(c, st, r.handle, r.target, e.rollback).0, Internal)
    else
      var (hosts, s) := H.Publish(st.vols[id].hosts, MapRequest(c, r), e.mapping);
      var st1 := st.(vols := st.vols[id := st.vols[id].(hosts := hosts)]);
      if s != OK then (NodeUnpublish(c, st1, r.handle, r.target, e.rollback).0, Internal)
      else LockAndMount(c, st1, r, id, e)
  }

  function NodePublish(c: Config, st: State, r: Request, e: PublishEnv): (State, Status)
    requires UniqueNames(st)
  {
    if !Acceptable(r, e) || !e.created then (st, Internal)
    else
      var named := NamedVolume(st, r.name);
      var id := if named.Some? then named.value else e.freshId;
      var st1 := if named.Some? then st else st.(vols := st.vols[id := ArrayVol(r.name, [])]);
      if !e.lockDirMade then (st1, Unknown)
      else if c.system == "" then (st1, Internal)
      else MapLockAndMount(c, st1, r, id, e)
  }
}
