/** Publish against unpublish, and publish against itself. */
module MountRoundTrip {
  import opened CsiTypes
  import opened MountTable
  import opened MountFacts
  import opened MountRuns
  import opened MountTheorems

  function PrivateRow(w: World, v: string, opts: seq<string>): Mount
    requires v in w.devices
  {
    Mount(Dev(w, v).realDev, Dev(w, v).realDev, Priv(w, v), opts)
  }

  /** The rows a publish at a free target adds. */
  ghost predicate AddedRows(w: World, t: Table, r: PublishRequest, t': Table)
    requires r.volume in w.devices
  {
    || (exists block, opts :: t' == t + [TargetRow(w, r.volume, r.target, block, opts)])
    || (&& !Mounted(t, Priv(w, r.volume)) && !TargetMounted(w, t, r.volume)
        && exists p, opts :: t' == t + [PrivateRow(w, r.volume, p)] + [TargetRow(w, r.volume, r.target, false, opts)])
  }

  lemma FilesystemShape(w: World, t: Table, r: PublishRequest, mode: AccessMode, multiAccessFlag: string, e: PublishEnv)
    requires PlainWorld(w) && Placed(w, t) && Serves(w, r.volume, r.device, r.target) && !Mounted(t, r.target)
    requires PublishFilesystem(w.node, t, r, mode, multiAccessFlag, e).1 == OK
    ensures AddedRows(w, t, r, PublishFilesystem(w.node, t, r, mode, multiAccessFlag, e).0)
  {
    var v := r.volume;
    var flag := WantedOption(multiAccessFlag, r.readonly);
    KindOfTarget(w, r.target);
    KindOfPrivate(w, v);
    EnsurePrivateKeeps(w, t, v, r.target, mode, flag, e);
    var t1 := EnsurePrivate(w.node, t, Dev(w, v), r.target, Priv(w, v), mode, flag, e).0;
    assert t1 == t || t1 == t + [PrivateRow(w, v, t1[|t|].opts)];
    assert !Mounted(t1, r.target);
    BindTargetKeeps(w, t1, v, r.target, flag, e);
    var t' := BindTarget(t1, Dev(w, v), r.target, Priv(w, v), flag, e).0;
    assert t' != t1 by {
      assert Mounted(t', r.target);
    }
    var opts :| t' == t1 + [TargetRow(w, v, r.target, false, opts)];
  }

  lemma PublishShape(w: World, t: Table, r: PublishRequest, e: PublishEnv)
    requires PlainWorld(w) && Placed(w, t) && Serves(w, r.volume, r.device, r.target) && !Mounted(t, r.target)
    requires Publish(w.node, t, r, e).1 == OK
    ensures AddedRows(w, t, r, Publish(w.node, t, r, e).0)
  {
    var Accepted(isBlock, mode, multiAccessFlag) := CheckCapability(w.node, r.capability.value);
    if isBlock {
      KindOfTarget(w, r.target);
      MountBlockKeeps(w, t, r.volume, r.target, SingleAccess(w.node, mode), e);
    } else {
      FilesystemShape(w, t, r, mode, multiAccessFlag, e);
    }
  }

  /** An orphan is a private mount without targets, left behind by a step that failed half way. */
  ghost predicate Orphan(w: World, t: Table, v: string) {
    Mounted(t, Priv(w, v)) && !TargetMounted(w, t, v)
  }

  lemma UnmountBoth(t: Table, m: Mount, n: Mount)
    requires m.path != n.path
    ensures Unmount(Unmount(t + [m] + [n], n.path), m.path) == t
    ensures Mounted(t + [m] + [n], m.path)
  {
    var t1 := t + [m] + [n];
    assert t1[..|t| + 1] == t + [m] && (t + [m])[..|t|] == t;
    assert t1[|t|] == m && m in t1;
  }

  /** A new target row tells nothing about other pods, and neither does a new private mount. */
  lemma NewRowsAreOwn(w: World, t: Table, r: PublishRequest, t1: Table)
    requires PlainWorld(w) && r.volume in w.devices && Kind(w, r.target) == TargetOf(r.volume) && AddedRows(w, t, r, t1)
    ensures (exists m :: m in t1 && InOtherPod(w, m, r.volume, r.target)) <==>
            exists m :: m in t && InOtherPod(w, m, r.volume, r.target)
    ensures forall m :: m in t ==> m in t1
  {
    KindOfPrivate(w, r.volume);
    assert forall m :: m in t ==> m in t1;
    assert forall m :: m in t1 && m !in t ==> m.path == r.target || m.path == Priv(w, r.volume);
  }

  lemma UndoAdded(w: World, t: Table, r: PublishRequest, t1: Table)
    requires PlainWorld(w) && r.volume in w.devices && Kind(w, r.target) == TargetOf(r.volume) && AddedRows(w, t, r, t1)
    ensures var priv := Priv(w, r.volume);
            || (Unmount(t1, r.target) == t && (Mounted(t1, priv) <==> Mounted(t, priv)))
            || (&& !Mounted(t, priv) && !TargetMounted(w, t, r.volume)
                && Mounted(t1, priv) && Unmount(Unmount(t1, r.target), priv) == t)
  {
    var v := r.volume;
    KindOfPrivate(w, v);
    if block, opts :| t1 == t + [TargetRow(w, v, r.target, block, opts)] {
      assert t1[..|t|] == t;
      assert forall m :: m in t1 <==> m in t || m == TargetRow(w, v, r.target, block, opts);
    } else {
      var p, opts :| t1 == t + [PrivateRow(w, v, p)] + [TargetRow(w, v, r.target, false, opts)];
      UnmountBoth(t, PrivateRow(w, v, p), TargetRow(w, v, r.target, false, opts));
    }
  }

  /**
    A successful unpublish undoes the successful publish before it, row for row, exactly when the volume had
    no private mount or has a target in another known pod. Otherwise the private mount is gone as well.
  */
  lemma UnpublishUndoesPublish(w: World, t: Table, r: PublishRequest, pe: PublishEnv, ue: UnpublishEnv)
    requires PlainWorld(w) && Placed(w, t) && Serves(w, r.volume, r.device, r.target) && !Mounted(t, r.target)
    requires Publish(w.node, t, r, pe).1 == OK
    requires Unpublish(w.node, Publish(w.node, t, r, pe).0, r.volume, r.device, r.target, ue).1 == OK
    ensures var t2 := Unpublish(w.node, Publish(w.node, t, r, pe).0, r.volume, r.device, r.target, ue).0;
            var others := exists m :: m in t && InOtherPod(w, m, r.volume, r.target);
            && t2 == (if others then t else Unmount(t, Priv(w, r.volume)))
            && (t2 == t <==> (Mounted(t, Priv(w, r.volume)) ==> others))
  {
    var v := r.volume;
    var t1 := Publish(w.node, t, r, pe).0;
    PublishKeeps(w, t, r, pe);
    PublishShape(w, t, r, pe);
    KindOfTarget(w, r.target);
    NewRowsAreOwn(w, t, r, t1);
    UndoAdded(w, t, r, t1);
    PlainResult(w, t1, v, r.device, r.target, ue);
    KindOfPrivate(w, v);
    DropRow(w, t, Priv(w, v));
    if !Mounted(t, Priv(w, v)) {
      UnmountOfMissing(t, Priv(w, v));
    }
  }

  /** If targets of a volume are in pods of their own, only an orphaned private mount is not given back. */
  lemma UnpublishTakesOrphans(w: World, t: Table, r: PublishRequest, pe: PublishEnv, ue: UnpublishEnv)
    requires ValidWorld(w) && Inv(w, t) && Serves(w, r.volume, r.device, r.target) && !Mounted(t, r.target)
    requires Publish(w.node, t, r, pe).1 == OK
    requires Unpublish(w.node, Publish(w.node, t, r, pe).0, r.volume, r.device, r.target, ue).1 == OK
    ensures var t2 := Unpublish(w.node, Publish(w.node, t, r, pe).0, r.volume, r.device, r.target, ue).0;
            && t2 == (if Orphan(w, t, r.volume) then Unmount(t, Priv(w, r.volume)) else t)
            && (t2 == t <==> !Orphan(w, t, r.volume))
  {
    UnpublishUndoesPublish(w, t, r, pe, ue);
    OtherTargetIsInOtherPod(w, t, r.volume, r.target);
    assert OtherTarget(w, t, r.volume, r.target) <==> TargetMounted(w, t, r.volume);
    if !Mounted(t, Priv(w, r.volume)) {
      UnmountOfMissing(t, Priv(w, r.volume));
    }
  }

  // ---------------------------------------------------------------- publishing twice

  predicate NothingFails(e: PublishEnv) {
    e.deviceFound && e.targetMade && e.privDirMade && e.devMountsRead && e.pathMountsRead
  }

  /** Every row at the path carries the option. */
  ghost predicate Carries(t: Table, path: string, flag: string) {
    flag == "" || forall m :: m in t && m.path == path ==> flag in m.opts
  }

  lemma CarriedRows(rows: Table, target: string, priv: string, flag: string, single: bool)
    requires target != priv && Mounted(rows, priv)
    requires single ==> forall m :: m in rows ==> m.path == target || m.path == priv
    ensures ReusePrivate(rows, target, priv, flag, single) == OK <==> Carries(rows, priv, flag)
  {
    ScanRowsMembers(rows, target, priv, flag, single);
  }

  lemma ReuseIff(w: World, t: Table, v: string, target: string, flag: string, single: bool)
    requires PlainWorld(w) && GoodRows(w, t) && v in w.devices && Kind(w, target) == TargetOf(v)
    requires Mounted(t, Priv(w, v)) && (single ==> OnlyTarget(w, t, v, target))
    ensures DevMounts(t, Dev(w, v)) != []
    ensures ReusePrivate(DevMounts(t, Dev(w, v)), target, Priv(w, v), flag, single) == OK
            <==> Carries(t, Priv(w, v), flag)
  {
    KindOfPrivate(w, v);
    DeviceRows(w, t, v);
    var rows := DevMounts(t, Dev(w, v));
    var m :| m in t && m.path == Priv(w, v);
    assert m in rows;
    forall x | x in rows && single
      ensures x.path == target || x.path == Priv(w, v)
    {
      if Kind(w, x.path) == PrivateOf(v) {
        PathOfPrivate(w, x.path);
      }
    }
    CarriedRows(rows, target, Priv(w, v), flag, single);
    assert Carries(t, Priv(w, v), flag) <==> Carries(rows, Priv(w, v), flag);
  }

  lemma {:induction false} FirstAtOnly(t: Table, m: Mount)
    requires m in t && Once(t, m.path)
    ensures FirstAt(t, m.path) == Some(m)
  {
    FirstAtMembers(t, m.path);
    var x := FirstAt(t, m.path).value;
    var i :| 0 <= i < |t| && t[i] == m;
    var j :| 0 <= j < |t| && t[j] == x;
  }

  /** Binding the target keeps the private mount and adds no other target. */
  lemma AfterBind(w: World, t: Table, t0: Table, v: string, target: string, t1: Table)
    requires v in w.devices && Kind(w, target) == TargetOf(v) && Kind(w, Priv(w, v)) == PrivateOf(v)
    requires PrivateEnsured(w, t, v, t0) && Mounted(t0, Priv(w, v)) && Published(w, t0, v, target, false, t1, OK)
    ensures Mounted(t1, Priv(w, v))
    ensures OnlyTarget(w, t, v, target) ==> OnlyTarget(w, t1, v, target)
  {
    assert forall m :: m in t0 && m !in t ==> m.path == Priv(w, v);
    assert forall m :: m in t0 ==> m in t1;
  }

  lemma AfterFilesystemPublish(w: World, t: Table, r: PublishRequest, mode: AccessMode, multiAccessFlag: string,
                               e: PublishEnv)
    requires PlainWorld(w) && Placed(w, t) && Serves(w, r.volume, r.device, r.target)
    requires PublishFilesystem(w.node, t, r, mode, multiAccessFlag, e).1 == OK
    ensures var t1 := PublishFilesystem(w.node, t, r, mode, multiAccessFlag, e).0;
            && Kept(w, t, t1) && Mounted(t1, r.target) && Mounted(t1, Priv(w, r.volume))
            && (SingleAccess(w.node, mode) ==> OnlyTarget(w, t1, r.volume, r.target))
  {
    var v := r.volume;
    var flag := WantedOption(multiAccessFlag, r.readonly);
    KindOfTarget(w, r.target);
    KindOfPrivate(w, v);
    EnsurePrivateKeeps(w, t, v, r.target, mode, flag, e);
    var t0 := EnsurePrivate(w.node, t, Dev(w, v), r.target, Priv(w, v), mode, flag, e).0;
    BindTargetKeeps(w, t0, v, r.target, flag, e);
    AfterBind(w, t, t0, v, r.target, BindTarget(t0, Dev(w, v), r.target, Priv(w, v), flag, e).0);
  }

  /** A volume published as a filesystem has its private mount. */
  lemma PublishedHasPrivate(w: World, t: Table, r: PublishRequest, e: PublishEnv)
    requires PlainWorld(w) && Placed(w, t) && Serves(w, r.volume, r.device, r.target) && AsMount(r)
    requires Publish(w.node, t, r, e).1 == OK
    ensures Mounted(Publish(w.node, t, r, e).0, Priv(w, r.volume))
  {
    CheckedCapability(w.node, r.capability.value);
    var c := CheckCapability(w.node, r.capability.value);
    AfterFilesystemPublish(w, t, r, c.mode, c.multiAccessFlag, e);
  }

  lemma BindOverMount(t: Table, d: Device, target: string, priv: string, flag: string, e: PublishEnv)
    requires Mounted(t, target) && Once(t, target) && e.pathMountsRead
    ensures BindTarget(t, d, target, priv, flag, e) == (t, if Carries(t, target, flag) then OK else Internal)
  {
    var m :| m in t && m.path == target;
    FirstAtOnly(t, m);
    forall x | x in t && x.path == target
      ensures x == m
    {
      FirstAtOnly(t, x);
    }
  }

  /** A publish where everything is mounted already. */
  lemma PublishOverMounts(w: World, t: Table, r: PublishRequest, mode: AccessMode, multiAccessFlag: string,
                          e: PublishEnv)
    requires PlainWorld(w) && Placed(w, t) && Serves(w, r.volume, r.device, r.target) && NothingFails(e)
    requires Mounted(t, r.target) && Mounted(t, Priv(w, r.volume))
    requires SingleAccess(w.node, mode) ==> OnlyTarget(w, t, r.volume, r.target)
    ensures var flag := WantedOption(multiAccessFlag, r.readonly);
            var (t', s) := PublishFilesystem(w.node, t, r, mode, multiAccessFlag, e);
            t' == t && (s == OK <==> Carries(t, Priv(w, r.volume), flag) && Carries(t, r.target, flag))
  {
    KindOfTarget(w, r.target);
    var flag := WantedOption(multiAccessFlag, r.readonly);
    ReuseIff(w, t, r.volume, r.target, flag, SingleAccess(w.node, mode));
    BindOverMount(t, Dev(w, r.volume), r.target, Priv(w, r.volume), flag, e);
  }

  /**
    Publishing a filesystem again with the same request never changes the table, and succeeds
    exactly when the options recorded for the private mount and for the target satisfy it.
  */
  lemma RepublishFilesystem(w: World, t: Table, r: PublishRequest, mode: AccessMode, multiAccessFlag: string,
                            e: PublishEnv, again: PublishEnv)
    requires PlainWorld(w) && Placed(w, t) && Serves(w, r.volume, r.device, r.target)
    requires PublishFilesystem(w.node, t, r, mode, multiAccessFlag, e).1 == OK && NothingFails(again)
    ensures var t1 := PublishFilesystem(w.node, t, r, mode, multiAccessFlag, e).0;
            var flag := WantedOption(multiAccessFlag, r.readonly);
            var (t2, s2) := PublishFilesystem(w.node, t1, r, mode, multiAccessFlag, again);
            && t2 == t1
            && (s2 == OK <==> Carries(t1, Priv(w, r.volume), flag) && Carries(t1, r.target, flag))
  {
    AfterFilesystemPublish(w, t, r, mode, multiAccessFlag, e);
    PublishOverMounts(w, PublishFilesystem(w.node, t, r, mode, multiAccessFlag, e).0, r, mode, multiAccessFlag, again);
  }

  /** Publishing a raw block volume again succeeds and changes nothing, on any table at all. */
  lemma RepublishBlock(t: Table, d: Device, target: string, single: bool, e: PublishEnv, again: PublishEnv)
    requires MountBlock(t, d, target, single, e).1 == OK && again.devMountsRead
    ensures var t1 := MountBlock(t, d, target, single, e).0;
            MountBlock(t1, d, target, single, again) == (t1, OK)
  {
    var rows := DevMounts(t, d);
    if ScanBlock(rows, target, single) == Free {
      var m := Mount(DEVTMPFS, d.realDev, target, e.bound.value);
      assert (t + [m])[..|t|] == t;
      assert DevMounts(t + [m], d) == rows + [m];
      assert (rows + [m])[..|rows|] == rows;
    }
  }
}
