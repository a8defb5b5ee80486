/** When publishing and unpublishing succeed, if no outside call fails: exactly when they should. */
module MountSuccess {
  import opened CsiTypes
  import opened MountTable
  import opened MountFacts
  import opened MountRuns
  import opened MountTheorems
  import opened MountRoundTrip

  /** The calls of a publish that finds its private mount. */
  predicate BindSucceeds(e: PublishEnv) {
    NothingFails(e) && e.targetRemade && e.bound.Some?
  }

  /** The directory of the private mount may exist already; the mounts are then read once more. */
  predicate CallsSucceed(e: PublishEnv) {
    && BindSucceeds(e) && e.privMounted.Some?
    && e.privPathMade != MkdirFailed && (e.privPathMade == Existed ==> e.allMountsRead)
  }

  /** A private directory without a single mount on the node: the volume is reported as not published. */
  predicate NothingMountedYet(t: Table, e: PublishEnv) {
    e.privPathMade == Existed && t == []
  }

  lemma PrivateReusedIff(w: World, t: Table, v: string, target: string, mode: AccessMode, flag: string, e: PublishEnv)
    requires PlainWorld(w) && Placed(w, t) && v in w.devices && Kind(w, target) == TargetOf(v) && BindSucceeds(e)
    requires Mounted(t, Priv(w, v))
    ensures var (t', s) := EnsurePrivate(w.node, t, Dev(w, v), target, Priv(w, v), mode, flag, e);
            && t' == t
            && (s == OK <==>
                  Carries(t, Priv(w, v), flag) && (SingleAccess(w.node, mode) ==> OnlyTarget(w, t, v, target)))
  {
    var single := SingleAccess(w.node, mode);
    SomeRows(w, t, v);
    ReusePrivateFinds(w, t, v, target, flag, single);
    if single ==> OnlyTarget(w, t, v, target) {
      ReuseIff(w, t, v, target, flag, single);
    }
  }

  lemma BoundIff(w: World, t: Table, v: string, target: string, flag: string, e: PublishEnv)
    requires PlainWorld(w) && Placed(w, t) && v in w.devices && Kind(w, target) == TargetOf(v) && BindSucceeds(e)
    ensures BindTarget(t, Dev(w, v), target, Priv(w, v), flag, e).1 == OK <==> Carries(t, target, flag)
  {
    FirstAtMembers(t, target);
    if Mounted(t, target) {
      BindOverMount(t, Dev(w, v), target, Priv(w, v), flag, e);
    }
  }

  /** The private mount is there: it has to carry the option, the target too if it is mounted, and an
      exclusive request tolerates no other target. */
  lemma SharedPublish(w: World, t: Table, r: PublishRequest, mode: AccessMode, multiAccessFlag: string, e: PublishEnv)
    requires PlainWorld(w) && Placed(w, t) && Serves(w, r.volume, r.device, r.target) && BindSucceeds(e)
    requires Mounted(t, Priv(w, r.volume))
    ensures var flag := WantedOption(multiAccessFlag, r.readonly);
            PublishFilesystem(w.node, t, r, mode, multiAccessFlag, e).1 == OK <==>
              && Carries(t, Priv(w, r.volume), flag) && Carries(t, r.target, flag)
              && (SingleAccess(w.node, mode) ==> OnlyTarget(w, t, r.volume, r.target))
  {
    var flag := WantedOption(multiAccessFlag, r.readonly);
    KindOfTarget(w, r.target);
    PrivateReusedIff(w, t, r.volume, r.target, mode, flag, e);
    BoundIff(w, t, r.volume, r.target, flag, e);
  }

  lemma SomeRows(w: World, t: Table, v: string)
    requires PlainWorld(w) && GoodRows(w, t) && v in w.devices
    ensures DevMounts(t, Dev(w, v)) == [] <==> !Mounted(t, Priv(w, v)) && !TargetMounted(w, t, v)
  {
    if DevMounts(t, Dev(w, v)) == [] {
      NoRows(w, t, v);
    } else {
      DeviceRows(w, t, v);
      var m := DevMounts(t, Dev(w, v))[0];
      assert m in DevMounts(t, Dev(w, v));
      if Kind(w, m.path) == PrivateOf(v) {
        PathOfPrivate(w, m.path);
      }
    }
  }

  lemma MakePrivateSucceedsIff(n: Node, t: Table, d: Device, priv: string, mode: AccessMode, e: PublishEnv)
    requires CallsSucceed(e) && !Mounted(t, priv)
    ensures MakePrivate(n, t, d, priv, mode, e).1 == OK <==> CanMountPrivately(mode) && !NothingMountedYet(t, e)
    ensures MakePrivate(n, t, d, priv, mode, e).1 == OK ==>
              MakePrivate(n, t, d, priv, mode, e).0 == t + [Mount(d.realDev, d.realDev, priv, e.privMounted.value)]
  {
  }

  lemma BindFreeTarget(t: Table, d: Device, target: string, priv: string, flag: string, e: PublishEnv)
    requires BindSucceeds(e) && !Mounted(t, target)
    ensures BindTarget(t, d, target, priv, flag, e).1 == OK
  {
    FirstAtMembers(t, target);
  }

  /** The private mount is missing: it can be made unless the device is in use as a raw block device, or its
      directory is there while nothing at all is mounted on the node. */
  lemma FirstPublish(w: World, t: Table, r: PublishRequest, mode: AccessMode, multiAccessFlag: string, e: PublishEnv)
    requires PlainWorld(w) && Placed(w, t) && Serves(w, r.volume, r.device, r.target) && CallsSucceed(e)
    requires !Mounted(t, Priv(w, r.volume))
    ensures PublishFilesystem(w.node, t, r, mode, multiAccessFlag, e).1 == OK <==>
              CanMountPrivately(mode) && !TargetMounted(w, t, r.volume) && !NothingMountedYet(t, e)
  {
    var v := r.volume;
    var flag := WantedOption(multiAccessFlag, r.readonly);
    KindOfTarget(w, r.target);
    KindOfPrivate(w, v);
    SomeRows(w, t, v);
    if DevMounts(t, Dev(w, v)) != [] {
      ReusePrivateFinds(w, t, v, r.target, flag, SingleAccess(w.node, mode));
    } else {
      MakePrivateSucceedsIff(w.node, t, Dev(w, v), Priv(w, v), mode, e);
      var t1 := t + [PrivateRow(w, v, e.privMounted.value)];
      assert !Mounted(t1, r.target);
      BindFreeTarget(t1, Dev(w, v), r.target, Priv(w, v), flag, e);
    }
  }

  /** It happens: the private directory is there, nothing is mounted on the node, and a first publish fails. */
  lemma ExistingDirectoryFails(n: Node, r: PublishRequest, mode: AccessMode, multiAccessFlag: string, e: PublishEnv)
    requires CallsSucceed(e) && e.privPathMade == Existed
    ensures PublishFilesystem(n, [], r, mode, multiAccessFlag, e) == ([], Unavailable)
  {
  }

  /** A block publish is refused exactly when it asks for exclusive access to a device whose first row is
      not its own target. */
  lemma {:induction false} BlockRefusedIff(rows: Table, target: string, single: bool)
    ensures ScanBlock(rows, target, single) == InUse <==> single && rows != [] && rows[0].path != target
  {
    if |rows| > 1 {
      BlockRefusedIff(rows[..|rows| - 1], target, single);
    }
    if rows != [] && single {
      FirstRowDecides(rows, target);
    }
  }

  lemma {:induction false} FirstRowDecides(rows: Table, target: string)
    requires rows != []
    ensures ScanBlock(rows, target, true) == if rows[0].path == target then AlreadyMounted else InUse
  {
    if |rows| > 1 {
      FirstRowDecides(rows[..|rows| - 1], target);
    } else {
      assert rows[..0] == [];
    }
  }

  lemma BlockPublishSucceedsIff(t: Table, d: Device, target: string, single: bool, e: PublishEnv)
    requires e.devMountsRead && e.targetRemade && e.bound.Some?
    ensures var (t', s) := MountBlock(t, d, target, single, e);
            && (s == OK <==> !single || DevMounts(t, d) == [] || DevMounts(t, d)[0].path == target)
            && (s == OK ==> exists m :: m in t' && m.path == target && OfDevice(m, d))
  {
    var rows := DevMounts(t, d);
    BlockRefusedIff(rows, target, single);
    ScanBlockMembers(rows, target, single);
    DevMountsMembers(t, d);
    if ScanBlock(rows, target, single) == Free {
      var m := Mount(DEVTMPFS, d.realDev, target, e.bound.value);
      assert m in t + [m];
    }
  }

  /** An unpublish in which no call fails succeeds, and the target is gone. */
  lemma UnpublishSucceeds(w: World, t: Table, v: string, device: string, target: string, e: UnpublishEnv)
    requires PlainWorld(w) && Placed(w, t) && Serves(w, v, device, target) && target != ""
    requires e.deviceFound && e.mountsRead && e.targetUnmounted && e.targetRemoved && e.devMountsRead
             && e.privUnmounts > 0
    ensures Unpublish(w.node, t, v, device, target, e).1 == OK
    ensures !Mounted(Unpublish(w.node, t, v, device, target, e).0, target)
  {
    PlainFlags(w, t, v, target);
    DropTarget(w, t, target);
    if !Mounted(t, target) {
      UnmountOfMissing(t, target);
    }
    KindOfPrivate(w, v);
    KindOfTarget(w, target);
    if Mounted(t, Priv(w, v)) {
      var m :| m in t && m.path == Priv(w, v);
      assert m in Unmount(t, target);
      UnmountPrivateOnce(w, Unmount(t, target), v, e);
      DropRow(w, Unmount(t, target), Priv(w, v));
    }
    PlainResult(w, t, v, device, target, e);
  }

  lemma ModeDecides(n: Node, mode: AccessMode)
    ensures var c := CheckCapability(n, Capability(Some(mode), MountAccess));
            && (CanMountPrivately(mode) ==> c.Accepted?)
            && (c.Accepted? ==> !c.isBlock && c.mode == mode)
            && (c.Rejected? ==> c.status != OK)
  {
  }

  /** A whole publish of a filesystem volume that is mounted nowhere succeeds exactly for the modes that
      allow a private mount, with the same exception. */
  lemma NewFilesystemPublish(w: World, t: Table, r: PublishRequest, mode: AccessMode, e: PublishEnv)
    requires PlainWorld(w) && Placed(w, t) && Serves(w, r.volume, r.device, r.target) && r.target != ""
    requires r.capability == Some(Capability(Some(mode), MountAccess))
    requires CallsSucceed(e) && !Mounted(t, Priv(w, r.volume)) && !TargetMounted(w, t, r.volume)
    ensures Publish(w.node, t, r, e).1 == OK <==> CanMountPrivately(mode) && !NothingMountedYet(t, e)
  {
    ModeDecides(w.node, mode);
    var c := CheckCapability(w.node, r.capability.value);
    if c.Accepted? {
      FirstPublish(w, t, r, mode, c.multiAccessFlag, e);
    }
  }

  /** The calls of a publish, by access type: a raw block device has no private mount. */
  predicate CallsSucceedFor(access: AccessType, e: PublishEnv) {
    BindSucceeds(e) && (access == MountAccess ==> CallsSucceed(e))
  }

  /** A whole publish of a raw block volume that is mounted nowhere succeeds for every known mode. */
  lemma NewBlockPublish(w: World, t: Table, r: PublishRequest, mode: AccessMode, e: PublishEnv)
    requires PlainWorld(w) && Placed(w, t) && Serves(w, r.volume, r.device, r.target) && r.target != ""
    requires r.capability == Some(Capability(Some(mode), BlockAccess))
    requires BindSucceeds(e) && !Mounted(t, Priv(w, r.volume)) && !TargetMounted(w, t, r.volume)
    ensures Publish(w.node, t, r, e).1 == OK <==> mode != UnknownMode
  {
    SomeRows(w, t, r.volume);
    BlockPublishSucceedsIff(t, Dev(w, r.volume), r.target, SingleAccess(w.node, mode), e);
  }

  /** The modes in which a volume that is mounted nowhere can be published. */
  predicate Publishable(t: Table, c: Capability, e: PublishEnv) {
    && c.mode.Some?
    && match c.access
       case NoAccessType => false
       case BlockAccess => c.mode.value != UnknownMode
       case MountAccess => CanMountPrivately(c.mode.value) && !NothingMountedYet(t, e)
  }

  lemma NewPublish(w: World, t: Table, r: PublishRequest, c: Capability, e: PublishEnv)
    requires PlainWorld(w) && Placed(w, t) && Serves(w, r.volume, r.device, r.target) && r.target != ""
    requires r.capability == Some(c) && CallsSucceedFor(c.access, e)
    requires !Mounted(t, Priv(w, r.volume)) && !TargetMounted(w, t, r.volume)
    ensures Publish(w.node, t, r, e).1 == OK <==> Publishable(t, c, e)
  {
    if c.mode.Some? {
      match c.access
      case NoAccessType =>
      case BlockAccess => NewBlockPublish(w, t, r, c.mode.value, e);
      case MountAccess => NewFilesystemPublish(w, t, r, c.mode.value, e);
    }
  }
}
