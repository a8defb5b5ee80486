/** Facts about tables in which no path of interest is mounted twice. */
module MountFacts {
  import opened CsiTypes
  import opened MountTable

  /** The path is mounted at most once. */
  ghost predicate Once(t: Table, path: string) {
    forall i, j :: 0 <= i < j < |t| && t[i].path == path ==> t[j].path != path
  }

  lemma {:induction false} DevMountsMembers(t: Table, d: Device)
    ensures forall m :: m in DevMounts(t, d) <==> m in t && OfDevice(m, d)
  {
    if t != [] {
      DevMountsMembers(t[..|t| - 1], d);
      assert t == t[..|t| - 1] + [t[|t| - 1]];
    }
  }

  lemma {:induction false} FirstAtMembers(t: Table, path: string)
    ensures FirstAt(t, path).None? <==> !Mounted(t, path)
    ensures FirstAt(t, path).Some? ==> FirstAt(t, path).value in t && FirstAt(t, path).value.path == path
  {
    if t != [] {
      FirstAtMembers(t[..|t| - 1], path);
      assert t == t[..|t| - 1] + [t[|t| - 1]];
    }
  }

  lemma {:induction false} UnmountMembers(t: Table, path: string)
    requires Once(t, path)
    ensures forall m :: m in Unmount(t, path) <==> m in t && m.path != path
    ensures forall p :: Once(t, p) ==> Once(Unmount(t, path), p)
  {
    if t != [] {
      var n := |t| - 1;
      assert t == t[..n] + [t[n]];
      if t[n].path != path {
        UnmountMembers(t[..n], path);
        forall p | Once(t, p)
          ensures Once(Unmount(t, path), p)
        {
          var u := Unmount(t[..n], path);
          assert Once(t[..n], p);
          forall i, j | 0 <= i < j < |u + [t[n]]| && (u + [t[n]])[i].path == p
            ensures (u + [t[n]])[j].path != p
          {
            if j == |u| {
              assert u[i] in u;
              assert u[i] in t[..n];
            }
          }
        }
      }
    }
  }

  lemma {:induction false} UnmountOfMissing(t: Table, path: string)
    requires !Mounted(t, path)
    ensures Unmount(t, path) == t
  {
    if t != [] {
      assert t[|t| - 1] in t;
      UnmountOfMissing(t[..|t| - 1], path);
    }
  }

  lemma {:induction false} CountNone(t: Table, d: Device, path: string)
    requires forall i :: 0 <= i < |t| ==> t[i].path != path
    ensures CountAt(DevMounts(t, d), path) == 0
  {
    if t != [] {
      CountNone(t[..|t| - 1], d, path);
      var rest := DevMounts(t[..|t| - 1], d);
      assert (rest + [t[|t| - 1]])[..|rest|] == rest;
    }
  }

  /** What the private unmount loop counts when the path is mounted at most once. */
  lemma {:induction false} CountOnce(t: Table, d: Device, path: string, m: Mount)
    requires Once(t, path) && m in t && m.path == path && OfDevice(m, d)
    ensures CountAt(DevMounts(t, d), path) == 1
  {
    var n := |t| - 1;
    var rest := DevMounts(t[..n], d);
    assert (rest + [t[n]])[..|rest|] == rest;
    var i :| 0 <= i < |t| && t[i] == m;
    if i == n {
      CountNone(t[..n], d, path);
    } else {
      assert t[..n][i] == m;
      CountOnce(t[..n], d, path, m);
    }
  }

  lemma {:induction false} VisibleDevice(t: Table, m: Mount)
    requires m in t && Once(t, m.path)
    ensures DeviceVisibleAt(t, m.path) == m.device
  {
    var n := |t| - 1;
    assert t == t[..n] + [t[n]];
    if t[n].path == m.path {
      var i :| 0 <= i < |t| && t[i] == m;
    } else {
      VisibleDevice(t[..n], m);
    }
  }

  lemma {:induction false} ScanRowsMembers(rows: Table, target: string, priv: string, flag: string, single: bool)
    ensures ScanRows(rows, target, priv, flag, single).Clear?
            <==> forall m :: m in rows ==> ScanRow(m, target, priv, flag, single).Clear?
    ensures target != priv && ScanRows(rows, target, priv, flag, single).Clear?
            ==> (ScanRows(rows, target, priv, flag, single).privMounted <==> Mounted(rows, priv))
    ensures ScanRows(rows, target, priv, flag, single) != Conflict(OK)
  {
    if rows != [] {
      ScanRowsMembers(rows[..|rows| - 1], target, priv, flag, single);
      assert rows == rows[..|rows| - 1] + [rows[|rows| - 1]];
    }
  }

  lemma {:induction false} ScanBlockMembers(rows: Table, target: string, single: bool)
    ensures ScanBlock(rows, target, single) == Free ==> !Mounted(rows, target) && (single ==> rows == [])
    ensures ScanBlock(rows, target, single) == AlreadyMounted ==> Mounted(rows, target)
  {
    if rows != [] {
      ScanBlockMembers(rows[..|rows| - 1], target, single);
      assert rows == rows[..|rows| - 1] + [rows[|rows| - 1]];
    }
  }

  // ---------------------------------------------------------------- rows elsewhere

  /** The rows at other paths than the given ones, in their order. */
  function Others(t: Table, paths: set<string>): Table {
    if t == [] then []
    else
      var rest := Others(t[..|t| - 1], paths);
      if t[|t| - 1].path in paths then rest else rest + [t[|t| - 1]]
  }

  lemma AddElsewhere(t: Table, m: Mount, paths: set<string>)
    requires m.path in paths
    ensures Others(t + [m], paths) == Others(t, paths)
  {
    assert (t + [m])[..|t|] == t;
  }

  lemma {:induction false} UnmountElsewhere(t: Table, path: string, paths: set<string>)
    requires path in paths
    ensures Others(Unmount(t, path), paths) == Others(t, paths)
  {
    if t != [] && t[|t| - 1].path != path {
      var u := Unmount(t[..|t| - 1], path);
      UnmountElsewhere(t[..|t| - 1], path, paths);
      assert (u + [t[|t| - 1]])[..|u|] == u;
    }
  }

  lemma {:induction false} UnmountTimesElsewhere(t: Table, path: string, k: nat, paths: set<string>)
    requires path in paths
    ensures Others(UnmountTimes(t, path, k), paths) == Others(t, paths)
  {
    if k != 0 {
      UnmountTimesElsewhere(t, path, k - 1, paths);
      UnmountElsewhere(UnmountTimes(t, path, k - 1), path, paths);
    }
  }

  lemma MakePrivateElsewhere(n: Node, t: Table, d: Device, priv: string, mode: AccessMode, e: PublishEnv,
                             paths: set<string>)
    requires priv in paths
    ensures Others(MakePrivate(n, t, d, priv, mode, e).0, paths) == Others(t, paths)
  {
    UnmountElsewhere(t, priv, paths);
    if e.privMounted.Some? {
      AddElsewhere(t, Mount(d.realDev, d.realDev, priv, e.privMounted.value), paths);
    }
  }

  lemma BindTargetElsewhere(t: Table, d: Device, target: string, priv: string, flag: string, e: PublishEnv,
                            paths: set<string>)
    requires target in paths && priv in paths
    ensures Others(BindTarget(t, d, target, priv, flag, e).0, paths) == Others(t, paths)
  {
    UnmountElsewhere(t, priv, paths);
    if e.bound.Some? {
      AddElsewhere(t, Mount(DeviceVisibleAt(t, priv), priv, target, e.bound.value), paths);
    }
  }

  lemma PublishFilesystemElsewhere(n: Node, t: Table, r: PublishRequest, mode: AccessMode, flag: string, e: PublishEnv,
                                   paths: set<string>)
    requires r.target in paths && PrivatePath(n, r.volume) in paths
    ensures Others(PublishFilesystem(n, t, r, mode, flag, e).0, paths) == Others(t, paths)
  {
    var d, priv := DeviceAt(n, r.device), PrivatePath(n, r.volume);
    var wanted := WantedOption(flag, r.readonly);
    MakePrivateElsewhere(n, t, d, priv, mode, e, paths);
    var t1 := EnsurePrivate(n, t, d, r.target, priv, mode, wanted, e).0;
    BindTargetElsewhere(t1, d, r.target, priv, wanted, e, paths);
  }

  /** Whatever fails and whatever is mounted, a publish leaves the rows elsewhere alone. */
  lemma PublishElsewhere(n: Node, t: Table, r: PublishRequest, e: PublishEnv, paths: set<string>)
    requires r.target in paths && PrivatePath(n, r.volume) in paths
    ensures Others(Publish(n, t, r, e).0, paths) == Others(t, paths)
  {
    UnmountElsewhere(t, PrivatePath(n, r.volume), paths);
    if r.capability.Some? {
      match CheckCapability(n, r.capability.value)
      case Rejected(_) =>
      case Accepted(isBlock, mode, flag) =>
        PublishFilesystemElsewhere(n, t, r, mode, flag, e, paths);
        if e.bound.Some? {
          AddElsewhere(t, Mount(DEVTMPFS, DeviceAt(n, r.device).realDev, r.target, e.bound.value), paths);
        }
    }
  }

  /** So does an unpublish. */
  lemma UnpublishElsewhere(n: Node, t: Table, volume: string, device: string, target: string, e: UnpublishEnv,
                           paths: set<string>)
    requires target in paths && PrivatePath(n, volume) in paths
    ensures Others(Unpublish(n, t, volume, device, target, e).0, paths) == Others(t, paths)
  {
    var d, priv := DeviceAt(n, device), PrivatePath(n, volume);
    var t1 := if TargetFound(t, d, target, priv) then Unmount(t, target) else t;
    UnmountElsewhere(t, target, paths);
    var rows := CountAt(DevMounts(t1, d), priv);
    UnmountTimesElsewhere(t1, priv, if e.privUnmounts < rows then e.privUnmounts else rows, paths);
  }

  // ---------------------------------------------------------------- pods

  /** The path lies in the directory that the kubelet keeps for the pod. */
  ghost predicate InPod(n: Node, path: string, pod: string) {
    pod != "" && '/' !in pod && n.isUuid(pod) && "/var/lib/kubelet/pods/" + pod + "/" <= path
  }

  lemma {:induction false} FirstComponentMeans(path: string, c: string)
    ensures FirstComponent(path) == Some(c) <==> '/' !in c && c + "/" <= path
  {
    if path != [] && c != "" {
      FirstComponentMeans(path[1..], c[1..]);
      assert c == [c[0]] + c[1..];
      assert path == [path[0]] + path[1..];
    }
  }

  /** The pod found in a path is the one whose directory the path lies in. */
  lemma PodMeans(n: Node, path: string, pod: string)
    requires pod != ""
    ensures PodOf(n, path) == pod <==> InPod(n, path, pod)
  {
    var prefix := "/var/lib/kubelet/pods/";
    if prefix <= path {
      var rest := path[|prefix|..];
      assert path == prefix + rest;
      FirstComponentMeans(rest, pod);
      assert prefix + pod + "/" == prefix + (pod + "/");
    }
  }

  /** The two paths lie in the directories of different pods. */
  ghost predicate ApartInPods(n: Node, path: string, other: string) {
    exists pod, otherPod :: InPod(n, path, pod) && InPod(n, other, otherPod) && pod != otherPod
  }

  lemma PodsApart(n: Node, path: string, other: string)
    ensures ApartInPods(n, path, other) <==>
              PodOf(n, path) != "" && PodOf(n, other) != "" && PodOf(n, path) != PodOf(n, other)
  {
    if pod, otherPod :| InPod(n, path, pod) && InPod(n, other, otherPod) && pod != otherPod {
      PodMeans(n, path, pod);
      PodMeans(n, other, otherPod);
    } else if PodOf(n, path) != "" && PodOf(n, other) != "" {
      PodMeans(n, path, PodOf(n, path));
      PodMeans(n, other, PodOf(n, other));
    }
  }
}
