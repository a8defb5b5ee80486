/** The node service working on its mount table in place, proved against the functions of MountTable. */
module NodeMounts {
  import opened CsiTypes
  import opened MountTable

  class NodeService {
    const node: Node
    var mounts: Table

    constructor (node: Node, mounts: Table)
      ensures this.node == node && this.mounts == mounts
    {
      this.node, this.mounts := node, mounts;
    }

    method GetDevMounts(d: Device) returns (rows: Table)
      ensures rows == DevMounts(mounts, d)
    {
      rows := [];
      var i := 0;
      while i < |mounts|
        invariant 0 <= i <= |mounts|
        invariant rows == DevMounts(mounts[..i], d)
      {
        assert mounts[..i + 1][..i] == mounts[..i];
        if OfDevice(mounts[i], d) {
          rows := rows + [mounts[i]];
        }
        i := i + 1;
      }
      assert mounts[..|mounts|] == mounts;
    }

    method CleanupPrivateTarget(d: Device, priv: string, e: CleanupEnv) returns (ok: bool)
      modifies this`mounts
      ensures mounts == Cleanup(old(mounts), d, priv, e)
      ensures var rows := DevMounts(old(mounts), d);
              ok <==> && e.mountsRead && (|rows| == 0 ==> e.statted) && ((|rows| == 0 && !e.isDir) || e.removed)
                      && (|rows| > 0 ==> |rows| == 1 && rows[0].path == priv && e.unmounted)
    {
      if !e.mountsRead {
        return false;
      }
      var rows := GetDevMounts(d);
      if |rows| == 1 && rows[0].path == priv {
        if !e.unmounted {
          return false;
        }
        mounts := Unmount(mounts, priv);
        ok := e.removed;
      } else if |rows| == 0 {
        ok := e.statted && (!e.isDir || e.removed);
      } else {
        ok := false;
      }
    }

    method BindBlock(d: Device, target: string, single: bool, e: PublishEnv) returns (s: Status)
      modifies this`mounts
      ensures (mounts, s) == MountBlock(old(mounts), d, target, single, e)
    {
      if !e.devMountsRead {
        return Internal;
      }
      var rows := GetDevMounts(d);
      var i := 0;
      while i < |rows|
        invariant 0 <= i <= |rows|
        invariant ScanBlock(rows[..i], target, single) == Free
      {
        assert rows[..i + 1][..i] == rows[..i];
        if rows[i].path == target {
          ScanBlockStops(rows, i + 1, target, single);
          return OK;
        } else if single {
          ScanBlockStops(rows, i + 1, target, single);
          return InvalidArgument;
        }
        i := i + 1;
      }
      assert rows[..|rows|] == rows;
      if !e.targetRemade {
        return FailedPrecondition;
      }
      if e.bound.None? {
        return Internal;
      }
      mounts := mounts + [Mount(DEVTMPFS, d.realDev, target, e.bound.value)];
      s := OK;
    }

    /** Is the private path mounted, and if so by the given device only? */
    method FindPrivateMount(d: Device, priv: string) returns (foreign: bool, found: bool)
      ensures foreign <==> exists m :: m in mounts && m.path == priv && Resolve(node, m.device) != d.realDev
      ensures !foreign ==> (found <==> Mounted(mounts, priv))
    {
      foreign, found := false, false;
      var i := 0;
      while i < |mounts|
        invariant 0 <= i <= |mounts|
        invariant forall j :: 0 <= j < i && mounts[j].path == priv ==> Resolve(node, mounts[j].device) == d.realDev
        invariant found <==> exists j :: 0 <= j < i && mounts[j].path == priv
      {
        if mounts[i].path == priv {
          if Resolve(node, mounts[i].device) != d.realDev {
            assert mounts[i] in mounts;
            return true, found;
          }
          found := true;
        }
        i := i + 1;
      }
    }

    method ScanDeviceRows(rows: Table, target: string, priv: string, flag: string, single: bool) returns (scan: Scan)
      ensures scan == ScanRows(rows, target, priv, flag, single)
    {
      var mounted := false;
      var i := 0;
      while i < |rows|
        invariant 0 <= i <= |rows|
        invariant ScanRows(rows[..i], target, priv, flag, single) == Clear(mounted)
      {
        assert rows[..i + 1][..i] == rows[..i];
        if rows[i].path == target {
        } else if rows[i].path == priv {
          mounted := true;
          if !(flag == "" || flag in rows[i].opts) {
            ScanRowsStops(rows, i + 1, target, priv, flag, single);
            return Conflict(InvalidArgument);
          }
        } else if single {
          ScanRowsStops(rows, i + 1, target, priv, flag, single);
          return Conflict(FailedPrecondition);
        }
        i := i + 1;
      }
      assert rows[..|rows|] == rows;
      scan := Clear(mounted);
    }

    method PrivateMount(d: Device, target: string, priv: string, mode: AccessMode, flag: string, e: PublishEnv)
      returns (s: Status)
      modifies this`mounts
      ensures (mounts, s) == EnsurePrivate(node, old(mounts), d, target, priv, mode, flag, e)
    {
      if !e.devMountsRead {
        return Internal;
      }
      var rows := GetDevMounts(d);
      if |rows| > 0 {
        var scan := ScanDeviceRows(rows, target, priv, flag, SingleAccess(node, mode));
        match scan
        case Conflict(c) => return c;
        case Clear(mounted) => return if mounted then OK else Internal;
      }
      if e.privPathMade == MkdirFailed {
        return Internal;
      }
      if e.privPathMade == Existed {
        if !e.allMountsRead {
          return Internal;
        }
        if |mounts| == 0 {
          return Unavailable;
        }
        var foreign, alreadyMounted := FindPrivateMount(d, priv);
        if foreign {
          return Internal;
        }
        if alreadyMounted {
          return OK;
        }
      }
      if !CanMountPrivately(mode) || e.privMounted.None? {
        var _ := CleanupPrivateTarget(d, priv, e.cleanup);
        return Internal;
      }
      mounts := mounts + [Mount(d.realDev, d.realDev, priv, e.privMounted.value)];
      s := OK;
    }

    method BindToTarget(d: Device, target: string, priv: string, flag: string, e: PublishEnv) returns (s: Status)
      modifies this`mounts
      ensures (mounts, s) == BindTarget(old(mounts), d, target, priv, flag, e)
    {
      if !e.pathMountsRead {
        return Internal;
      }
      var i := 0;
      while i < |mounts|
        invariant 0 <= i <= |mounts|
        invariant mounts == old(mounts)
        invariant FirstAt(mounts[..i], target) == None
      {
        assert mounts[..i + 1][..i] == mounts[..i];
        if mounts[i].path == target {
          FirstAtStops(mounts, i + 1, target);
          if flag != "" && flag !in mounts[i].opts {
            return Internal;
          }
          return OK;
        }
        i := i + 1;
      }
      assert mounts[..|mounts|] == mounts;
      if !e.targetRemade {
        var _ := CleanupPrivateTarget(d, priv, e.cleanup);
        return FailedPrecondition;
      }
      if e.bound.None? {
        var _ := CleanupPrivateTarget(d, priv, e.cleanup);
        return Internal;
      }
      mounts := mounts + [Mount(DeviceVisibleAt(mounts, priv), priv, target, e.bound.value)];
      s := OK;
    }

    method PublishVolume(r: PublishRequest, e: PublishEnv) returns (s: Status)
      modifies this`mounts
      ensures (mounts, s) == Publish(node, old(mounts), r, e)
    {
      if r.target == "" {
        return InvalidArgument;
      }
      if r.capability.None? {
        return InvalidArgument;
      }
      if !e.deviceFound {
        return Internal;
      }
      var d := DeviceAt(node, r.device);
      var checked := CheckCapability(node, r.capability.value);
      if checked.Rejected? {
        return checked.status;
      }
      var priv := PrivatePath(node, r.volume);
      if !e.targetMade {
        var _ := CleanupPrivateTarget(d, priv, e.cleanup);
        return FailedPrecondition;
      }
      if !e.privDirMade {
        return Unknown;
      }
      if checked.isBlock {
        s := BindBlock(d, r.target, SingleAccess(node, checked.mode), e);
        return;
      }
      var flag := WantedOption(checked.multiAccessFlag, r.readonly);
      s := PrivateMount(d, r.target, priv, checked.mode, flag, e);
      if s == OK {
        s := BindToTarget(d, r.target, priv, flag, e);
      }
    }

    method UnmountPrivMount(d: Device, priv: string, e: UnpublishEnv) returns (s: Status)
      modifies this`mounts
      ensures (mounts, s) == UnmountPrivate(old(mounts), d, priv, e)
    {
      if !e.devMountsRead {
        return Internal;
      }
      var rows := GetDevMounts(d);
      var done := 0;
      var i := 0;
      while i < |rows|
        invariant 0 <= i <= |rows|
        invariant done == CountAt(rows[..i], priv) <= e.privUnmounts
        invariant mounts == UnmountTimes(old(mounts), priv, done)
      {
        assert rows[..i + 1][..i] == rows[..i];
        if rows[i].path == priv {
          if done == e.privUnmounts {
            CountAtMonotone(rows, i + 1, priv);
            return Internal;
          }
          mounts := Unmount(mounts, priv);
          done := done + 1;
        }
        i := i + 1;
      }
      assert rows[..|rows|] == rows;
      s := OK;
    }

    method UnpublishVolume(volume: string, device: string, target: string, e: UnpublishEnv) returns (s: Status)
      modifies this`mounts
      ensures (mounts, s) == Unpublish(node, old(mounts), volume, device, target, e)
    {
      if target == "" {
        return InvalidArgument;
      }
      if !e.deviceFound {
        return Internal;
      }
      var d := DeviceAt(node, device);
      var priv := PrivatePath(node, volume);
      if !e.mountsRead {
        return Internal;
      }
      var tgtMntExist, privMntExist, keepPrivMnt := false, false, false;
      var i := 0;
      while i < |mounts|
        invariant 0 <= i <= |mounts|
        invariant mounts == old(mounts)
        invariant tgtMntExist <==> TargetFound(mounts[..i], d, target, priv)
        invariant privMntExist <==> PrivateFound(mounts[..i], d, priv)
        invariant keepPrivMnt <==> OtherPodFound(node, mounts[..i], d, target, priv)
      {
        var m := mounts[i];
        assert mounts[..i + 1] == mounts[..i] + [m];
        if UsesDevice(m, d) {
          if m.path == priv {
            privMntExist := true;
          } else if m.path == target {
            tgtMntExist := true;
          } else {
            var thisPod, thatPod := PodOf(node, target), PodOf(node, m.path);
            if thisPod != "" && thatPod != "" && thisPod != thatPod {
              keepPrivMnt := true;
            }
          }
        }
        i := i + 1;
      }
      assert mounts[..|mounts|] == mounts;
      if tgtMntExist {
        if !e.targetUnmounted {
          return Internal;
        }
        mounts := Unmount(mounts, target);
        if !e.targetRemoved {
          return Internal;
        }
      }
      if privMntExist && !keepPrivMnt {
        s := UnmountPrivMount(d, priv, e);
        return;
      }
      s := OK;
    }
  }

  // A pass that has stopped in a prefix has stopped in the whole sequence.

  lemma {:induction false} ScanBlockStops(rows: Table, k: nat, target: string, single: bool)
    requires k <= |rows| && ScanBlock(rows[..k], target, single) != Free
    ensures ScanBlock(rows, target, single) == ScanBlock(rows[..k], target, single)
    decreases |rows|
  {
    if k == |rows| {
      assert rows[..k] == rows;
    } else {
      assert rows[..|rows| - 1][..k] == rows[..k];
      ScanBlockStops(rows[..|rows| - 1], k, target, single);
    }
  }

  lemma {:induction false} ScanRowsStops(rows: Table, k: nat, target: string, priv: string, flag: string, single: bool)
    requires k <= |rows| && ScanRows(rows[..k], target, priv, flag, single).Conflict?
    ensures ScanRows(rows, target, priv, flag, single) == ScanRows(rows[..k], target, priv, flag, single)
    decreases |rows|
  {
    if k == |rows| {
      assert rows[..k] == rows;
    } else {
      assert rows[..|rows| - 1][..k] == rows[..k];
      ScanRowsStops(rows[..|rows| - 1], k, target, priv, flag, single);
    }
  }

  lemma {:induction false} FirstAtStops(t: Table, k: nat, path: string)
    requires k <= |t| && FirstAt(t[..k], path).Some?
    ensures FirstAt(t, path) == FirstAt(t[..k], path)
    decreases |t|
  {
    if k == |t| {
      assert t[..k] == t;
    } else {
      assert t[..|t| - 1][..k] == t[..k];
      FirstAtStops(t[..|t| - 1], k, path);
    }
  }

  lemma {:induction false} CountAtMonotone(t: Table, k: nat, path: string)
    requires k <= |t|
    ensures CountAt(t[..k], path) <= CountAt(t, path)
    decreases |t|
  {
    if k == |t| {
      assert t[..k] == t;
    } else {
      assert t[..|t| - 1][..k] == t[..k];
      CountAtMonotone(t[..|t| - 1], k, path);
    }
  }
}
