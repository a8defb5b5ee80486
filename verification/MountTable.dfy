/**
  The mount table of a node and what publishing and unpublishing a block volume do to it.

  A volume with a filesystem is mounted once at its private mount point and bind mounted from
  there to every target; a raw block volume is bind mounted to the target directly. The outcome
  of every call into the operating system is a field of an environment value, so a statement
  about all environments is a statement about all ways those calls can fail.
*/
module MountTable {
  import opened CsiTypes

  datatype Mount = Mount(device: string, source: string, path: string, opts: seq<string>)

  type Table = seq<Mount>

  /** A block device: the path it was found at and the path its symbolic links lead to. */
  datatype Device = Device(fullPath: string, realDev: string)

  /** What does not change while the node service runs. */
  datatype Node = Node(
    privDir: string,
    links: map<string, string>,
    isUuid: string -> bool,
    multiPodAccess: bool)

  const DEVTMPFS := "devtmpfs"
  const PODS_PREFIX := "/var/lib/kubelet/pods/"

  function Resolve(n: Node, path: string): string {
    if path in n.links then n.links[path] else path
  }

  function DeviceAt(n: Node, path: string): Device {
    Device(path, Resolve(n, path))
  }

  function PrivatePath(n: Node, volume: string): string {
    n.privDir + "/" + volume
  }

  /** The part of a path before its first slash, if it has one. */
  function FirstComponent(path: string): Option<string> {
    if path == [] then None
    else if path[0] == '/' then Some("")
    else
      match FirstComponent(path[1..])
      case None => None
      case Some(c) => Some([path[0]] + c)
  }

  /** The pod a target path belongs to, or "" when the path is not a pod path. */
  function PodOf(n: Node, path: string): string {
    if !(PODS_PREFIX <= path) then ""
    else
      match FirstComponent(path[|PODS_PREFIX|..])
      case None => ""
      case Some(c) => if n.isUuid(c) then c else ""
  }

  // ---------------------------------------------------------------- reading and changing the table

  /** The test of getDevMounts. */
  predicate OfDevice(m: Mount, d: Device) {
    m.device == d.realDev || (m.device == DEVTMPFS && m.source == d.realDev)
  }

  /** The wider test of unpublishVolume. */
  predicate UsesDevice(m: Mount, d: Device) {
    m.source == d.realDev || m.device == d.realDev || m.device == d.fullPath
  }

  function DevMounts(t: Table, d: Device): Table {
    if t == [] then []
    else
      var rest := DevMounts(t[..|t| - 1], d);
      if OfDevice(t[|t| - 1], d) then rest + [t[|t| - 1]] else rest
  }

  predicate Mounted(t: Table, path: string) {
    exists m :: m in t && m.path == path
  }

  /** The row mounted first at a path. */
  function FirstAt(t: Table, path: string): Option<Mount> {
    if t == [] then None
    else
      match FirstAt(t[..|t| - 1], path)
      case Some(m) => Some(m)
      case None => if t[|t| - 1].path == path then Some(t[|t| - 1]) else None
  }

  /** Unmounting a path takes away the row mounted there last. */
  function Unmount(t: Table, path: string): Table {
    if t == [] then []
    else if t[|t| - 1].path == path then t[..|t| - 1]
    else Unmount(t[..|t| - 1], path) + [t[|t| - 1]]
  }

  function UnmountTimes(t: Table, path: string, k: nat): Table {
    if k == 0 then t else Unmount(UnmountTimes(t, path, k - 1), path)
  }

  /** The device visible at a path is that of the row mounted there last. */
  function DeviceVisibleAt(t: Table, path: string): string {
    if t == [] then ""
    else if t[|t| - 1].path == path then t[|t| - 1].device
    else DeviceVisibleAt(t[..|t| - 1], path)
  }

  function CountAt(t: Table, path: string): nat {
    if t == [] then 0
    else CountAt(t[..|t| - 1], path) + (if t[|t| - 1].path == path then 1 else 0)
  }

  // ---------------------------------------------------------------- capabilities

  datatype Checked = Rejected(status: Status) | Accepted(isBlock: bool, mode: AccessMode, multiAccessFlag: string)

  function CheckCapability(n: Node, c: Capability): Checked {
    match c.mode
    case None => Rejected(InvalidArgument)
    case Some(mode) =>
      match c.access
      case NoAccessType => Rejected(InvalidArgument)
      case BlockAccess =>
        if mode == UnknownMode then Rejected(InvalidArgument)
        else Accepted(true, mode,
                      if mode == MultiNodeReaderOnly then "ro"
                      else if mode == MultiNodeMultiWriter then "rw" else "")
      case MountAccess =>
        match mode
        case UnknownMode => Rejected(InvalidArgument)
        case MultiNodeMultiWriter => Rejected(AlreadyExists)
        case SingleNodeWriter => Accepted(false, mode, if n.multiPodAccess then "rw" else "")
        case SingleNodeReaderOnly => Accepted(false, mode, if n.multiPodAccess then "ro" else "")
        case MultiNodeReaderOnly => Accepted(false, mode, "ro")
        case _ => Accepted(false, mode, "")
  }

  predicate SingleAccess(n: Node, mode: AccessMode) {
    !n.multiPodAccess && mode in {SingleNodeWriter, SingleNodeReaderOnly, SingleNodeSingleWriter}
  }

  /** The access modes a private filesystem mount can be made for. */
  predicate CanMountPrivately(mode: AccessMode) {
    mode in {SingleNodeReaderOnly, MultiNodeReaderOnly, SingleNodeWriter,
             SingleNodeSingleWriter, SingleNodeMultiWriter}
  }

  // ---------------------------------------------------------------- environments and requests

  datatype Mkdir = Created | Existed | MkdirFailed

  datatype CleanupEnv = CleanupEnv(mountsRead: bool, unmounted: bool, statted: bool, isDir: bool, removed: bool)

  /** Outcomes of the outside calls of one publish: a flag tells whether the call succeeded, and a
      successful mount carries the options the kernel recorded for it. */
  datatype PublishEnv = PublishEnv(
    deviceFound: bool,
    targetMade: bool,
    privDirMade: bool,
    devMountsRead: bool,
    privPathMade: Mkdir,
    allMountsRead: bool,
    privMounted: Option<seq<string>>,
    pathMountsRead: bool,
    targetRemade: bool,
    bound: Option<seq<string>>,
    cleanup: CleanupEnv)

  /** Outcomes of one unpublish; privUnmounts is how many unmounts of the private path succeed. */
  datatype UnpublishEnv = UnpublishEnv(
    deviceFound: bool,
    mountsRead: bool,
    targetUnmounted: bool,
    targetRemoved: bool,
    devMountsRead: bool,
    privUnmounts: nat)

  datatype PublishRequest = PublishRequest(
    volume: string,
    device: string,
    target: string,
    readonly: bool,
    capability: Option<Capability>)

  // ---------------------------------------------------------------- publishing

  function Cleanup(t: Table, d: Device, priv: string, e: CleanupEnv): Table {
    var rows := DevMounts(t, d);
    if e.mountsRead && |rows| == 1 && rows[0].path == priv && e.unmounted then Unmount(t, priv) else t
  }

  /** What a pass over the rows of a device finds: a conflict with its status, or none and
      whether the private mount is among them. */
  datatype Scan = Conflict(status: Status) | Clear(privMounted: bool)

  function ScanRow(m: Mount, target: string, priv: string, flag: string, single: bool): Scan {
    if m.path == target then Clear(false)
    else if m.path == priv then
      if flag == "" || flag in m.opts then Clear(true) else Conflict(InvalidArgument)
    else if single then Conflict(FailedPrecondition)
    else Clear(false)
  }

  function ScanRows(rows: Table, target: string, priv: string, flag: string, single: bool): Scan {
    if rows == [] then Clear(false)
    else
      match ScanRows(rows[..|rows| - 1], target, priv, flag, single)
      case Conflict(s) => Conflict(s)
      case Clear(before) =>
        match ScanRow(rows[|rows| - 1], target, priv, flag, single)
        case Conflict(s) => Conflict(s)
        case Clear(here) => Clear(before || here)
  }

  datatype BlockScan = AlreadyMounted | InUse | Free

  /** mountBlock stops at the target's own row, and with single access at any other row. */
  function ScanBlock(rows: Table, target: string, single: bool): BlockScan {
    if rows == [] then Free
    else
      var before := ScanBlock(rows[..|rows| - 1], target, single);
      if before != Free then before
      else if rows[|rows| - 1].path == target then AlreadyMounted
      else if single then InUse
      else Free
  }

  function MountBlock(t: Table, d: Device, target: string, single: bool, e: PublishEnv): (Table, Status) {
    if !e.devMountsRead then (t, Internal)
    else
      match ScanBlock(DevMounts(t, d), target, single)
      case AlreadyMounted => (t, OK)
      case InUse => (t, InvalidArgument)
      case Free =>
        if !e.targetRemade then (t, FailedPrecondition)
        else if e.bound.None? then (t, Internal)
        else (t + [Mount(DEVTMPFS, d.realDev, target, e.bound.value)], OK)
  }

  /** The device is mounted nowhere: make the private mount, or find it made under another device name. */
  function MakePrivate(n: Node, t: Table, d: Device, priv: string, mode: AccessMode, e: PublishEnv): (Table, Status) {
    if e.privPathMade == MkdirFailed then (t, Internal)
    else if e.privPathMade == Existed && !e.allMountsRead then (t, Internal)
    else if e.privPathMade == Existed && t == [] then (t, Unavailable)
    else if e.privPathMade == Existed
            && exists m :: m in t && m.path == priv && Resolve(n, m.device) != d.realDev then (t, Internal)
    else if e.privPathMade == Existed && Mounted(t, priv) then (t, OK)
    else if !CanMountPrivately(mode) || e.privMounted.None? then (Cleanup(t, d, priv, e.cleanup), Internal)
    else (t + [Mount(d.realDev, d.realDev, priv, e.privMounted.value)], OK)
  }

  /** The device is mounted: the rows have to agree with the request and contain the private mount. */
  function ReusePrivate(rows: Table, target: string, priv: string, flag: string, single: bool): Status {
    match ScanRows(rows, target, priv, flag, single)
    case Conflict(s) => s
    case Clear(privMounted) => if privMounted then OK else Internal
  }

  /** First half of a filesystem publish: the private mount is in place afterwards when the status is OK. */
  function EnsurePrivate(n: Node, t: Table, d: Device, target: string, priv: string, mode: AccessMode,
                         flag: string, e: PublishEnv): (Table, Status)
  {
    if !e.devMountsRead then (t, Internal)
    else if DevMounts(t, d) == [] then MakePrivate(n, t, d, priv, mode, e)
    else (t, ReusePrivate(DevMounts(t, d), target, priv, flag, SingleAccess(n, mode)))
  }

  /** Second half: bind the private mount to the target, unless something is mounted there already. */
  function BindTarget(t: Table, d: Device, target: string, priv: string, flag: string,
                      e: PublishEnv): (Table, Status)
  {
    if !e.pathMountsRead then (t, Internal)
    else
      match FirstAt(t, target)
      case Some(m) => (t, if flag != "" && flag !in m.opts then Internal else OK)
      case None =>
        if !e.targetRemade then (Cleanup(t, d, priv, e.cleanup), FailedPrecondition)
        else if e.bound.None? then (Cleanup(t, d, priv, e.cleanup), Internal)
        else (t + [Mount(DeviceVisibleAt(t, priv), priv, target, e.bound.value)], OK)
  }

  /** The option a mount has to carry to serve the request, "" for any. */
  function WantedOption(multiAccessFlag: string, readonly: bool): string {
    if readonly then "ro" else multiAccessFlag
  }

  function PublishFilesystem(n: Node, t: Table, r: PublishRequest, mode: AccessMode, multiAccessFlag: string,
                             e: PublishEnv): (Table, Status)
  {
    var d := DeviceAt(n, r.device);
    var priv := PrivatePath(n, r.volume);
    var flag := WantedOption(multiAccessFlag, r.readonly);
    var (t1, s1) := EnsurePrivate(n, t, d, r.target, priv, mode, flag, e);
    if s1 != OK then (t1, s1) else BindTarget(t1, d, r.target, priv, flag, e)
  }

  /** Publishing once the request has passed its checks. */
  function PublishChecked(n: Node, t: Table, r: PublishRequest, isBlock: bool, mode: AccessMode,
                          multiAccessFlag: string, e: PublishEnv): (Table, Status)
  {
    if !e.targetMade then
      (Cleanup(t, DeviceAt(n, r.device), PrivatePath(n, r.volume), e.cleanup), FailedPrecondition)
    else if !e.privDirMade then (t, Unknown)
    else if isBlock then MountBlock(t, DeviceAt(n, r.device), r.target, SingleAccess(n, mode), e)
    else PublishFilesystem(n, t, r, mode, multiAccessFlag, e)
  }

  function Publish(n: Node, t: Table, r: PublishRequest, e: PublishEnv): (Table, Status) {
    if r.target == "" then (t, InvalidArgument)
    else if r.capability.None? then (t, InvalidArgument)
    else if !e.deviceFound then (t, Internal)
    else
      match CheckCapability(n, r.capability.value)
      case Rejected(s) => (t, s)
      case Accepted(isBlock, mode, multiAccessFlag) => PublishChecked(n, t, r, isBlock, mode, multiAccessFlag, e)
  }

  // ---------------------------------------------------------------- unpublishing

  predicate TargetFound(t: Table, d: Device, target: string, priv: string) {
    exists m :: m in t && UsesDevice(m, d) && m.path == target && m.path != priv
  }

  predicate PrivateFound(t: Table, d: Device, priv: string) {
    exists m :: m in t && UsesDevice(m, d) && m.path == priv
  }

  predicate OtherPodRow(n: Node, m: Mount, d: Device, target: string, priv: string) {
    && UsesDevice(m, d) && m.path != priv && m.path != target
    && PodOf(n, target) != "" && PodOf(n, m.path) != "" && PodOf(n, target) != PodOf(n, m.path)
  }

  predicate OtherPodFound(n: Node, t: Table, d: Device, target: string, priv: string) {
    exists m :: m in t && OtherPodRow(n, m, d, target, priv)
  }

  function UnmountPrivate(t: Table, d: Device, priv: string, e: UnpublishEnv): (Table, Status) {
    if !e.devMountsRead then (t, Internal)
    else
      var rows := CountAt(DevMounts(t, d), priv);
      if e.privUnmounts < rows then (UnmountTimes(t, priv, e.privUnmounts), Internal)
      else (UnmountTimes(t, priv, rows), OK)
  }

  function Unpublish(n: Node, t: Table, volume: string, device: string, target: string,
                     e: UnpublishEnv): (Table, Status)
  {
    var d := DeviceAt(n, device);
    var priv := PrivatePath(n, volume);
    if target == "" then (t, InvalidArgument)
    else if !e.deviceFound || !e.mountsRead then (t, Internal)
    else
      var found := TargetFound(t, d, target, priv);
      if found && !e.targetUnmounted then (t, Internal)
      else
        var t1 := if found then Unmount(t, target) else t;
        if found && !e.targetRemoved then (t1, Internal)
        else if PrivateFound(t, d, priv) && !OtherPodFound(n, t, d, target, priv) then
          UnmountPrivate(t1, d, priv, e)
        else (t1, OK)
  }
}
