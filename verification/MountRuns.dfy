/**
  What holds in every run of publish and unpublish steps on one node, whichever calls fail.

  A run serves a fixed assignment of devices to volumes and of target paths to volumes and
  exports. The private mount of a volume is shared by its targets, and no step may take it away
  while a filesystem target still hangs off it.
*/
module MountRuns {
  import opened CsiTypes
  import opened MountTable
  import opened MountFacts
  import opened NfsMount

  /** Which device serves a volume, which volume a target path is for, which export an NFS target is for. */
  datatype World = World(
    node: Node,
    devices: map<string, string>,
    targets: map<string, string>,
    exports: map<string, string>)

  function Dev(w: World, v: string): Device
    requires v in w.devices
  {
    DeviceAt(w.node, w.devices[v])
  }

  function Priv(w: World, v: string): string {
    PrivatePath(w.node, v)
  }

  /** What a path is for. */
  datatype PathKind = PrivateOf(volume: string) | TargetOf(volume: string) | ExportTarget(url: string) | Elsewhere

  predicate UnderPrivDir(w: World, p: string) {
    w.node.privDir + "/" <= p
  }

  function Kind(w: World, p: string): PathKind {
    if p in w.exports then ExportTarget(w.exports[p])
    else if p in w.targets then TargetOf(w.targets[p])
    else if UnderPrivDir(w, p) && p[|w.node.privDir| + 1..] in w.devices then PrivateOf(p[|w.node.privDir| + 1..])
    else Elsewhere
  }

  ghost predicate Distinct(w: World, u: string, v: string)
    requires u in w.devices && v in w.devices
  {
    u != v ==> Dev(w, u).realDev != Dev(w, v).realDev && Dev(w, u).realDev != Dev(w, v).fullPath
  }

  ghost predicate ValidDevice(w: World, v: string)
    requires v in w.devices
  {
    var d := Dev(w, v);
    && d.realDev != DEVTMPFS && d.fullPath != DEVTMPFS && !UnderPrivDir(w, d.realDev)
    && d.realDev !in w.exports.Values && d.fullPath !in w.exports.Values
    && forall u :: u in w.devices ==> Distinct(w, u, v)
  }

  predicate PlacedTarget(w: World, p: string)
    requires p in w.targets
  {
    w.targets[p] in w.devices && p !in w.exports && !UnderPrivDir(w, p)
  }

  /** The target is a pod path, and the only one of its volume in that pod. */
  ghost predicate OwnPod(w: World, p: string)
    requires p in w.targets
  {
    exists pod :: InPod(w.node, p, pod)
      && forall q :: q in w.targets && w.targets[q] == w.targets[p] && InPod(w.node, q, pod) ==> q == p
  }

  /** Volumes have their own devices, and targets and exports are apart from the private directory. */
  ghost predicate PlainWorld(w: World) {
    && (forall v :: v in w.devices ==> ValidDevice(w, v))
    && (forall p :: p in w.targets ==> PlacedTarget(w, p))
    && (forall p :: p in w.exports ==> w.exports[p] != DEVTMPFS && !UnderPrivDir(w, p))
  }

  /** Moreover, targets are pod paths, and no pod has two targets of one volume. Only an unpublish relies on it. */
  ghost predicate ValidWorld(w: World) {
    PlainWorld(w) && forall p :: p in w.targets ==> OwnPod(w, p)
  }

  lemma KindOfPrivate(w: World, v: string)
    requires PlainWorld(w) && v in w.devices
    ensures Kind(w, Priv(w, v)) == PrivateOf(v)
  {
    var p := Priv(w, v);
    assert p[|w.node.privDir| + 1..] == v;
    assert UnderPrivDir(w, p);
  }

  lemma PathOfPrivate(w: World, p: string)
    requires Kind(w, p).PrivateOf?
    ensures p == Priv(w, Kind(w, p).volume)
  {
  }

  lemma KindOfTarget(w: World, p: string)
    requires PlainWorld(w) && p in w.targets
    ensures Kind(w, p) == TargetOf(w.targets[p]) && w.targets[p] in w.devices
  {
    assert PlacedTarget(w, p);
  }

  // ---------------------------------------------------------------- rows and the invariant

  predicate FilesystemRow(w: World, m: Mount, v: string)
    requires v in w.devices
  {
    m.device == Dev(w, v).realDev && m.source == Priv(w, v)
  }

  predicate BlockRow(w: World, m: Mount, v: string)
    requires v in w.devices
  {
    m.device == DEVTMPFS && m.source == Dev(w, v).realDev
  }

  /** A row that has nothing to do with the driver. */
  ghost predicate ForeignRow(w: World, m: Mount) {
    && m.device !in w.exports.Values
    && forall v :: v in w.devices ==> !UsesDevice(m, Dev(w, v))
  }

  ghost predicate GoodRow(w: World, m: Mount) {
    match Kind(w, m.path)
    case PrivateOf(v) => v in w.devices && m.device == Dev(w, v).realDev && m.source == Dev(w, v).realDev
    case TargetOf(v) => v in w.devices && (FilesystemRow(w, m, v) || BlockRow(w, m, v))
    case ExportTarget(url) => m.device == url && m.source == url
    case Elsewhere => ForeignRow(w, m)
  }

  /** The row makes the private mount of volume v necessary. */
  ghost predicate Needs(w: World, m: Mount, v: string) {
    v in w.devices && Kind(w, m.path) == TargetOf(v) && m.device == Dev(w, v).realDev
  }

  ghost predicate Backed(w: World, t: Table) {
    forall m, v {:trigger Needs(w, m, v)} :: m in t && Needs(w, m, v) ==> Mounted(t, Priv(w, v))
  }

  ghost predicate KnownOnce(w: World, t: Table) {
    forall p :: Kind(w, p) != Elsewhere ==> Once(t, p)
  }

  ghost predicate GoodRows(w: World, t: Table) {
    forall m :: m in t ==> GoodRow(w, m)
  }

  /** Rows are where they belong, and no path of the driver is mounted twice. */
  ghost predicate Placed(w: World, t: Table) {
    GoodRows(w, t) && KnownOnce(w, t)
  }

  /** The invariant of every run. Backed is the point: a filesystem target has its private mount. */
  ghost predicate Inv(w: World, t: Table) {
    Placed(w, t) && Backed(w, t)
  }

  /** What a change leaves of the invariant: all of it, and its first part even without the second. */
  ghost predicate Kept(w: World, t: Table, t': Table) {
    Placed(w, t') && (Backed(w, t) ==> Backed(w, t'))
  }

  ghost predicate OwnPath(w: World, p: string, v: string) {
    Kind(w, p) == PrivateOf(v) || Kind(w, p) == TargetOf(v)
  }

  ghost predicate TargetMounted(w: World, t: Table, v: string) {
    exists m :: m in t && Kind(w, m.path) == TargetOf(v)
  }

  /** Both device tests select exactly the rows at the volume's own paths. */
  lemma OwnRows(w: World, m: Mount, v: string)
    requires PlainWorld(w) && v in w.devices && GoodRow(w, m)
    ensures OfDevice(m, Dev(w, v)) <==> OwnPath(w, m.path, v)
    ensures UsesDevice(m, Dev(w, v)) <==> OwnPath(w, m.path, v)
  {
    assert ValidDevice(w, v);
    match Kind(w, m.path)
    case PrivateOf(u) =>
      assert ValidDevice(w, u) && Distinct(w, u, v) && Distinct(w, v, u);
    case TargetOf(u) =>
      assert ValidDevice(w, u) && Distinct(w, u, v) && Distinct(w, v, u);
      assert UnderPrivDir(w, Priv(w, u));
    case ExportTarget(url) =>
      assert url in w.exports.Values;
    case Elsewhere =>
  }

  /** The rows of a device are the rows at the volume's paths. */
  lemma DeviceRows(w: World, t: Table, v: string)
    requires PlainWorld(w) && GoodRows(w, t) && v in w.devices
    ensures forall m :: m in DevMounts(t, Dev(w, v)) <==> m in t && OwnPath(w, m.path, v)
  {
    DevMountsMembers(t, Dev(w, v));
    forall m | m in t
      ensures OfDevice(m, Dev(w, v)) <==> OwnPath(w, m.path, v)
    {
      OwnRows(w, m, v);
    }
  }

  // ---------------------------------------------------------------- the ways a table changes

  lemma AddRow(w: World, t: Table, m: Mount)
    requires Placed(w, t) && GoodRow(w, m) && !Mounted(t, m.path)
    requires forall v :: Needs(w, m, v) ==> Mounted(t, Priv(w, v))
    ensures Kept(w, t, t + [m])
  {
    var t' := t + [m];
    forall p | Kind(w, p) != Elsewhere
      ensures Once(t', p)
    {
      assert Once(t, p);
      forall i, j | 0 <= i < j < |t'| && t'[i].path == p
        ensures t'[j].path != p
      {
        assert t[i] in t;
      }
    }
    if Backed(w, t) {
      forall x, v | x in t' && Needs(w, x, v)
        ensures Mounted(t', Priv(w, v))
      {
        assert Mounted(t, Priv(w, v));
        var b :| b in t && b.path == Priv(w, v);
        assert b in t';
      }
    }
  }

  /** Unmounting a path of the driver keeps rows in place; it takes a private mount away from the rows that
      need it at most. */
  lemma DropRow(w: World, t: Table, p: string)
    requires Placed(w, t) && Kind(w, p) != Elsewhere
    ensures Placed(w, Unmount(t, p))
    ensures forall m :: m in Unmount(t, p) <==> m in t && m.path != p
  {
    UnmountMembers(t, p);
  }

  lemma DropUnneeded(w: World, t: Table, p: string)
    requires Placed(w, t) && Kind(w, p) != Elsewhere
    requires forall v, m :: m in t && Needs(w, m, v) ==> p != Priv(w, v)
    ensures Kept(w, t, Unmount(t, p))
  {
    DropRow(w, t, p);
    var t' := Unmount(t, p);
    if Backed(w, t) {
      forall x, v | x in t' && Needs(w, x, v)
        ensures Mounted(t', Priv(w, v))
      {
        assert Mounted(t, Priv(w, v));
        var b :| b in t && b.path == Priv(w, v);
        assert b in t';
      }
    }
  }

  lemma DropTarget(w: World, t: Table, p: string)
    requires PlainWorld(w) && Placed(w, t) && (p in w.targets || p in w.exports)
    ensures Kept(w, t, Unmount(t, p))
    ensures forall m :: m in Unmount(t, p) <==> m in t && m.path != p
  {
    forall v, m | m in t && Needs(w, m, v)
      ensures p != Priv(w, v)
    {
      KindOfPrivate(w, v);
    }
    DropRow(w, t, p);
    DropUnneeded(w, t, p);
  }

  lemma DropPrivate(w: World, t: Table, v: string)
    requires PlainWorld(w) && Placed(w, t) && v in w.devices && !TargetMounted(w, t, v)
    ensures Kept(w, t, Unmount(t, Priv(w, v)))
    ensures forall m :: m in Unmount(t, Priv(w, v)) <==> m in t && m.path != Priv(w, v)
  {
    KindOfPrivate(w, v);
    forall u, m | m in t && Needs(w, m, u)
      ensures Priv(w, v) != Priv(w, u)
    {
      KindOfPrivate(w, u);
    }
    DropRow(w, t, Priv(w, v));
    DropUnneeded(w, t, Priv(w, v));
  }

  lemma AddPrivate(w: World, t: Table, v: string, opts: seq<string>)
    requires PlainWorld(w) && Placed(w, t) && v in w.devices && !Mounted(t, Priv(w, v))
    ensures Kept(w, t, t + [Mount(Dev(w, v).realDev, Dev(w, v).realDev, Priv(w, v), opts)])
  {
    KindOfPrivate(w, v);
    AddRow(w, t, Mount(Dev(w, v).realDev, Dev(w, v).realDev, Priv(w, v), opts));
  }

  // ---------------------------------------------------------------- one step

  datatype Step =
    | PublishStep(r: PublishRequest, pe: PublishEnv)
    | UnpublishStep(volume: string, device: string, target: string, ue: UnpublishEnv)
    | DetachStep(target: string, unmounted: bool)
    | PublishNfsStep(nr: NfsRequest, ne: NfsEnv)
    | UnpublishNfsStep(filesystem: string, target: string, mountsRead: bool, unmounted: bool)

  /** A detach is the unpublish of a volume the node no longer sees: the target is unmounted unconditionally. */
  function Apply(n: Node, t: Table, s: Step): (Table, Status) {
    match s
    case PublishStep(r, e) => Publish(n, t, r, e)
    case UnpublishStep(volume, device, target, e) => Unpublish(n, t, volume, device, target, e)
    case DetachStep(target, unmounted) => (if unmounted then Unmount(t, target) else t, OK)
    case PublishNfsStep(r, e) => PublishNfs(t, r, e)
    case UnpublishNfsStep(filesystem, target, mountsRead, unmounted) =>
      UnpublishNfs(t, filesystem, target, mountsRead, unmounted)
  }

  function Run(n: Node, t: Table, steps: seq<Step>): Table {
    if steps == [] then t else Apply(n, Run(n, t, steps[..|steps| - 1]), steps[|steps| - 1]).0
  }

  predicate Serves(w: World, volume: string, device: string, target: string) {
    && volume in w.devices && w.devices[volume] == device
    && target in w.targets && w.targets[target] == volume
  }

  /** The step is about paths and devices as the world assigns them. */
  predicate Follows(w: World, s: Step) {
    match s
    case PublishStep(r, _) => Serves(w, r.volume, r.device, r.target)
    case UnpublishStep(volume, device, target, _) => Serves(w, volume, device, target)
    case DetachStep(target, _) => target in w.targets
    case PublishNfsStep(r, _) => r.target in w.exports && w.exports[r.target] == r.url
    case UnpublishNfsStep(_, target, _, _) => target in w.exports
  }

  /** If the private mount is the only row of a device, the volume has no target. */
  lemma OnlyPrivateRow(w: World, t: Table, v: string)
    requires PlainWorld(w) && GoodRows(w, t) && v in w.devices
    requires |DevMounts(t, Dev(w, v))| == 1 && DevMounts(t, Dev(w, v))[0].path == Priv(w, v)
    ensures !TargetMounted(w, t, v)
  {
    KindOfPrivate(w, v);
    DeviceRows(w, t, v);
    var rows := DevMounts(t, Dev(w, v));
    forall m | m in t
      ensures Kind(w, m.path) != TargetOf(v)
    {
      if m in rows {
        assert m == rows[0];
      }
    }
  }

  lemma CleanupKeeps(w: World, t: Table, v: string, e: CleanupEnv)
    requires PlainWorld(w) && Placed(w, t) && v in w.devices
    ensures var t' := Cleanup(t, Dev(w, v), Priv(w, v), e);
            && Kept(w, t, t')
            && (t' == t || (!TargetMounted(w, t, v) && t' == Unmount(t, Priv(w, v))))
            && (forall m :: m in t' ==> m in t)
  {
    if Cleanup(t, Dev(w, v), Priv(w, v), e) != t {
      OnlyPrivateRow(w, t, v);
      DropPrivate(w, t, v);
    }
  }

  lemma NoRows(w: World, t: Table, v: string)
    requires PlainWorld(w) && GoodRows(w, t) && v in w.devices && DevMounts(t, Dev(w, v)) == []
    ensures !TargetMounted(w, t, v) && !Mounted(t, Priv(w, v))
  {
    KindOfPrivate(w, v);
    DeviceRows(w, t, v);
    assert forall m :: m in t ==> !OwnPath(w, m.path, v);
  }

  /** What a pass without conflict over the rows of a device says about the table. */
  lemma ClearScan(w: World, t: Table, v: string, target: string, flag: string, single: bool)
    requires PlainWorld(w) && GoodRows(w, t) && v in w.devices && Kind(w, target) == TargetOf(v)
    requires ScanRows(DevMounts(t, Dev(w, v)), target, Priv(w, v), flag, single).Clear?
    ensures ScanRows(DevMounts(t, Dev(w, v)), target, Priv(w, v), flag, single).privMounted <==> Mounted(t, Priv(w, v))
    ensures single ==> forall m :: m in t && Kind(w, m.path) == TargetOf(v) ==> m.path == target
  {
    KindOfPrivate(w, v);
    var rows := DevMounts(t, Dev(w, v));
    DeviceRows(w, t, v);
    ScanRowsMembers(rows, target, Priv(w, v), flag, single);
    if Mounted(t, Priv(w, v)) {
      var m :| m in t && m.path == Priv(w, v);
      assert m in rows;
    }
    forall m | m in t && Kind(w, m.path) == TargetOf(v)
      ensures single ==> m.path == target
    {
      assert m in rows && ScanRow(m, target, Priv(w, v), flag, single).Clear?;
    }
  }

  /** The result of a first half that found the private mount missing or in place. */
  ghost predicate PrivateEnsured(w: World, t: Table, v: string, t': Table)
    requires v in w.devices
  {
    if Mounted(t, Priv(w, v)) then t' == t
    else
      && !TargetMounted(w, t, v)
      && |t'| == |t| + 1
      && t' == t + [Mount(Dev(w, v).realDev, Dev(w, v).realDev, Priv(w, v), t'[|t|].opts)]
  }

  ghost predicate OnlyTarget(w: World, t: Table, v: string, target: string) {
    forall m :: m in t && Kind(w, m.path) == TargetOf(v) ==> m.path == target
  }

  lemma MakePrivateResult(n: Node, t: Table, d: Device, priv: string, mode: AccessMode, e: PublishEnv)
    requires DevMounts(t, d) == [] && !Mounted(t, priv)
    ensures var (t', s) := MakePrivate(n, t, d, priv, mode, e);
            if s == OK then e.privMounted.Some? && t' == t + [Mount(d.realDev, d.realDev, priv, e.privMounted.value)]
            else t' == t
  {
  }

  lemma MakePrivateKeeps(w: World, t: Table, v: string, target: string, mode: AccessMode, e: PublishEnv)
    requires PlainWorld(w) && Placed(w, t) && v in w.devices && DevMounts(t, Dev(w, v)) == []
    ensures var (t', s) := MakePrivate(w.node, t, Dev(w, v), Priv(w, v), mode, e);
            Kept(w, t, t') && if s == OK then PrivateEnsured(w, t, v, t') && OnlyTarget(w, t, v, target) else t' == t
  {
    NoRows(w, t, v);
    MakePrivateResult(w.node, t, Dev(w, v), Priv(w, v), mode, e);
    if e.privMounted.Some? {
      AddPrivate(w, t, v, e.privMounted.value);
    }
  }

  lemma ReusePrivateFinds(w: World, t: Table, v: string, target: string, flag: string, single: bool)
    requires PlainWorld(w) && GoodRows(w, t) && v in w.devices && Kind(w, target) == TargetOf(v)
    ensures ReusePrivate(DevMounts(t, Dev(w, v)), target, Priv(w, v), flag, single) == OK ==>
              Mounted(t, Priv(w, v)) && (single ==> OnlyTarget(w, t, v, target))
  {
    ScanRowsMembers(DevMounts(t, Dev(w, v)), target, Priv(w, v), flag, single);
    if ScanRows(DevMounts(t, Dev(w, v)), target, Priv(w, v), flag, single).Clear? {
      ClearScan(w, t, v, target, flag, single);
    }
  }

  /** The first half of a filesystem publish keeps the invariant; on success the private mount is in place,
      made by this step only if the device was not mounted at all. */
  lemma EnsurePrivateKeeps(w: World, t: Table, v: string, target: string, mode: AccessMode, flag: string, e: PublishEnv)
    requires PlainWorld(w) && Placed(w, t) && v in w.devices && Kind(w, target) == TargetOf(v)
    ensures var (t', s) := EnsurePrivate(w.node, t, Dev(w, v), target, Priv(w, v), mode, flag, e);
            && Kept(w, t, t')
            && if s == OK then
                 && PrivateEnsured(w, t, v, t') && Mounted(t', Priv(w, v))
                 && (SingleAccess(w.node, mode) ==> OnlyTarget(w, t, v, target))
               else t' == t
  {
    if DevMounts(t, Dev(w, v)) == [] {
      MakePrivateKeeps(w, t, v, target, mode, e);
      var (t', s) := MakePrivate(w.node, t, Dev(w, v), Priv(w, v), mode, e);
      if s == OK && t' != t {
        assert t'[|t|] in t';
      }
    } else {
      ReusePrivateFinds(w, t, v, target, flag, SingleAccess(w.node, mode));
    }
  }

  /** The row of a target of volume v, for a raw block or a filesystem publish. */
  function TargetRow(w: World, v: string, target: string, block: bool, opts: seq<string>): Mount
    requires v in w.devices
  {
    if block then Mount(DEVTMPFS, Dev(w, v).realDev, target, opts)
    else Mount(Dev(w, v).realDev, Priv(w, v), target, opts)
  }

  lemma AddTarget(w: World, t: Table, v: string, target: string, block: bool, opts: seq<string>)
    requires PlainWorld(w) && Placed(w, t) && v in w.devices && Kind(w, target) == TargetOf(v)
    requires !Mounted(t, target) && (block || Mounted(t, Priv(w, v)))
    ensures Kept(w, t, t + [TargetRow(w, v, target, block, opts)])
  {
    var m := TargetRow(w, v, target, block, opts);
    assert ValidDevice(w, v);
    assert GoodRow(w, m);
    AddRow(w, t, m);
  }

  lemma PrivateDevice(w: World, t: Table, v: string)
    requires PlainWorld(w) && Placed(w, t) && v in w.devices && Mounted(t, Priv(w, v))
    ensures DeviceVisibleAt(t, Priv(w, v)) == Dev(w, v).realDev
  {
    KindOfPrivate(w, v);
    var m :| m in t && m.path == Priv(w, v);
    VisibleDevice(t, m);
  }

  /** What a step that publishes volume v at a target may do to the table. */
  ghost predicate Published(w: World, t: Table, v: string, target: string, block: bool, t': Table, s: Status)
    requires v in w.devices
  {
    && Kept(w, t, t')
    && (s == OK ==> Mounted(t', target))
    && (t' == t
        || (!block && s != OK && t' == Unmount(t, Priv(w, v)) && !TargetMounted(w, t, v)
            && forall m :: m in t' ==> m in t)
        || (s == OK && !Mounted(t, target)
            && exists opts :: t' == t + [TargetRow(w, v, target, block, opts)]))
  }

  lemma BindTargetKeeps(w: World, t: Table, v: string, target: string, flag: string, e: PublishEnv)
    requires PlainWorld(w) && Placed(w, t) && v in w.devices && Kind(w, target) == TargetOf(v) && Mounted(t, Priv(w, v))
    ensures var (t', s) := BindTarget(t, Dev(w, v), target, Priv(w, v), flag, e);
            Published(w, t, v, target, false, t', s)
  {
    FirstAtMembers(t, target);
    CleanupKeeps(w, t, v, e.cleanup);
    PrivateDevice(w, t, v);
    if !Mounted(t, target) && e.bound.Some? {
      AddTarget(w, t, v, target, false, e.bound.value);
      var m := TargetRow(w, v, target, false, e.bound.value);
      assert m in t + [m];
    }
  }

  lemma MountBlockKeeps(w: World, t: Table, v: string, target: string, single: bool, e: PublishEnv)
    requires PlainWorld(w) && Placed(w, t) && v in w.devices && Kind(w, target) == TargetOf(v)
    ensures var (t', s) := MountBlock(t, Dev(w, v), target, single, e);
            && Published(w, t, v, target, true, t', s)
            && (t' != t && single ==> !TargetMounted(w, t, v))
  {
    var rows := DevMounts(t, Dev(w, v));
    DeviceRows(w, t, v);
    ScanBlockMembers(rows, target, single);
    if ScanBlock(rows, target, single) == Free {
      assert forall m :: m in t && m.path == target ==> m in rows;
      if single {
        NoRows(w, t, v);
      }
      if e.bound.Some? {
        AddTarget(w, t, v, target, true, e.bound.value);
        var m := TargetRow(w, v, target, true, e.bound.value);
        assert m in t + [m];
      }
    } else if Mounted(rows, target) {
      var m :| m in rows && m.path == target;
      assert m in t;
    }
  }

  /** The row is new because volume v was published at this target. */
  ghost predicate NewRow(w: World, t: Table, r: PublishRequest, m: Mount)
    requires r.volume in w.devices
  {
    || m.path == Priv(w, r.volume)
    || (&& m.path == r.target && !Mounted(t, r.target)
        && (Exclusive(w, r) ==> OnlyTarget(w, t, r.volume, r.target))
        && (AsMount(r) ==> FilesystemRow(w, m, r.volume)))
  }

  predicate AsksFor(r: PublishRequest, modes: set<AccessMode>) {
    r.capability.Some? && r.capability.value.mode.Some? ==> r.capability.value.mode.value in modes
  }

  /** Multi-pod access is off, and a mode asked for is one that allows one target only. */
  ghost predicate Exclusive(w: World, r: PublishRequest) {
    !w.node.multiPodAccess && AsksFor(r, {SingleNodeWriter, SingleNodeReaderOnly, SingleNodeSingleWriter})
  }

  ghost predicate AsMount(r: PublishRequest) {
    r.capability.Some? && r.capability.value.access == MountAccess
  }

  /** What a publish may do: add its private and target rows, or take its private row away. */
  ghost predicate PublishEffect(w: World, t: Table, r: PublishRequest, t': Table, s: Status)
    requires r.volume in w.devices
  {
    && Kept(w, t, t')
    && (s == OK ==> Mounted(t', r.target))
    && (forall m :: m in t' && m !in t ==> NewRow(w, t, r, m))
    && (forall m :: m in t && m.path != Priv(w, r.volume) ==> m in t')
  }

  lemma NoEffect(w: World, t: Table, r: PublishRequest, s: Status)
    requires Placed(w, t) && r.volume in w.devices && s != OK
    ensures PublishEffect(w, t, r, t, s)
  {
  }

  lemma CleanupEffect(w: World, t: Table, r: PublishRequest, e: CleanupEnv, s: Status)
    requires PlainWorld(w) && Placed(w, t) && Serves(w, r.volume, r.device, r.target) && s != OK
    ensures PublishEffect(w, t, r, Cleanup(t, Dev(w, r.volume), Priv(w, r.volume), e), s)
  {
    CleanupKeeps(w, t, r.volume, e);
    KindOfPrivate(w, r.volume);
    UnmountMembers(t, Priv(w, r.volume));
  }

  lemma BlockEffect(w: World, t: Table, r: PublishRequest, mode: AccessMode, e: PublishEnv, t': Table, s: Status)
    requires PlainWorld(w) && Placed(w, t) && r.volume in w.devices && Kind(w, r.target) == TargetOf(r.volume)
    requires r.capability == Some(Capability(Some(mode), BlockAccess))
    requires (t', s) == MountBlock(t, Dev(w, r.volume), r.target, SingleAccess(w.node, mode), e)
    ensures PublishEffect(w, t, r, t', s)
  {
    MountBlockKeeps(w, t, r.volume, r.target, SingleAccess(w.node, mode), e);
  }

  lemma BindEffect(w: World, t: Table, t1: Table, r: PublishRequest, t': Table, s: Status)
    requires r.volume in w.devices && Kept(w, t, t1)
    requires Kind(w, r.target) == TargetOf(r.volume) && Kind(w, Priv(w, r.volume)) == PrivateOf(r.volume)
    requires PrivateEnsured(w, t, r.volume, t1) && (Exclusive(w, r) ==> OnlyTarget(w, t, r.volume, r.target))
    requires Published(w, t1, r.volume, r.target, false, t', s)
    ensures PublishEffect(w, t, r, t', s)
  {
    var v := r.volume;
    assert forall m :: m in t ==> m in t1;
    assert forall m :: m in t1 && m !in t ==> m.path == Priv(w, v);
    if s != OK {
      UnmountMembers(t1, Priv(w, v));
    }
  }

  lemma FilesystemEffect(w: World, t: Table, r: PublishRequest, mode: AccessMode, multiAccessFlag: string,
                         e: PublishEnv,
                         t': Table, s: Status)
    requires PlainWorld(w) && Placed(w, t) && Serves(w, r.volume, r.device, r.target)
    requires Kind(w, r.target) == TargetOf(r.volume) && Kind(w, Priv(w, r.volume)) == PrivateOf(r.volume)
    requires r.capability.Some? && r.capability.value.mode == Some(mode)
    requires (t', s) == PublishFilesystem(w.node, t, r, mode, multiAccessFlag, e)
    ensures PublishEffect(w, t, r, t', s)
  {
    var v := r.volume;
    var flag := WantedOption(multiAccessFlag, r.readonly);
    EnsurePrivateKeeps(w, t, v, r.target, mode, flag, e);
    var (t1, s1) := EnsurePrivate(w.node, t, Dev(w, v), r.target, Priv(w, v), mode, flag, e);
    if s1 != OK {
      NoEffect(w, t, r, s1);
    } else {
      BindTargetKeeps(w, t1, v, r.target, flag, e);
      BindEffect(w, t, t1, r, t', s);
    }
  }

  lemma CheckedEffect(w: World, t: Table, r: PublishRequest, isBlock: bool, mode: AccessMode, multiAccessFlag: string,
                      e: PublishEnv, t': Table, s: Status)
    requires PlainWorld(w) && Placed(w, t) && Serves(w, r.volume, r.device, r.target)
    requires r.capability == Some(Capability(Some(mode), if isBlock then BlockAccess else MountAccess))
    requires (t', s) == PublishChecked(w.node, t, r, isBlock, mode, multiAccessFlag, e)
    ensures PublishEffect(w, t, r, t', s)
  {
    KindOfTarget(w, r.target);
    KindOfPrivate(w, r.volume);
    if !e.targetMade {
      CleanupEffect(w, t, r, e.cleanup, s);
    } else if !e.privDirMade {
      NoEffect(w, t, r, s);
    } else if isBlock {
      BlockEffect(w, t, r, mode, e, t', s);
    } else {
      FilesystemEffect(w, t, r, mode, multiAccessFlag, e, t', s);
    }
  }

  lemma CheckedCapability(n: Node, c: Capability)
    ensures match CheckCapability(n, c)
            case Rejected(s) => s != OK
            case Accepted(isBlock, mode, _) => c == Capability(Some(mode), if isBlock then BlockAccess else MountAccess)
  {
  }

  lemma PublishKeeps(w: World, t: Table, r: PublishRequest, e: PublishEnv)
    requires PlainWorld(w) && Placed(w, t) && Serves(w, r.volume, r.device, r.target)
    ensures var (t', s) := Publish(w.node, t, r, e); PublishEffect(w, t, r, t', s)
  {
    var (t', s) := Publish(w.node, t, r, e);
    if r.target == "" || r.capability.None? || !e.deviceFound {
      NoEffect(w, t, r, s);
    } else {
      var checked := CheckCapability(w.node, r.capability.value);
      CheckedCapability(w.node, r.capability.value);
      if checked.Rejected? {
        NoEffect(w, t, r, s);
      } else {
        CheckedEffect(w, t, r, checked.isBlock, checked.mode, checked.multiAccessFlag, e, t', s);
      }
    }
  }
}
