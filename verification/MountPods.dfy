/** What the pod test of an unpublish is worth: exactly when a private mount outlives it. */
module MountPods {
  import opened CsiTypes
  import opened MountTable
  import opened MountFacts
  import opened MountRuns
  import opened MountTheorems

  // ---------------------------------------------------------------- any table

  lemma PrivateUnmounted(t: Table, d: Device, priv: string, e: UnpublishEnv, p: Mount)
    requires Once(t, priv) && p in t && p.path == priv && p.device == d.realDev
    ensures var (t', s) := UnmountPrivate(t, d, priv, e);
            && (s == OK <==> e.devMountsRead && e.privUnmounts > 0)
            && t' == (if s == OK then Unmount(t, priv) else t)
  {
    CountOnce(t, d, priv, p);
    assert UnmountTimes(t, priv, 1) == Unmount(t, priv);
  }

  /** A row is the device's if it names the path of the device, or what the path links to. */
  ghost predicate HoldsDevice(n: Node, m: Mount, device: string) {
    var linked := if device in n.links then n.links[device] else device;
    m.device == device || m.device == linked || m.source == linked
  }

  /**
    Whatever else is mounted, a private mount outlives a successful unpublish exactly when another row of
    the device lies in the directory of a pod, and the target in that of a different pod. Two targets of one
    pod, or a target that is not a pod path, lose it although the other target is still mounted.
  */
  lemma PrivateMountSurvivesIffPodsDiffer(n: Node, t: Table, volume: string, device: string, target: string,
                                          e: UnpublishEnv, p: Mount)
    requires var d, priv := DeviceAt(n, device), PrivatePath(n, volume);
             && target != priv && Once(t, priv) && Once(t, target)
             && p in t && p.path == priv && p.device == d.realDev
    requires Unpublish(n, t, volume, device, target, e).1 == OK
    ensures var t' := Unpublish(n, t, volume, device, target, e).0;
            && (Mounted(t', PrivatePath(n, volume)) <==>
                  exists m :: m in t && m.path != target && m.path != PrivatePath(n, volume)
                              && HoldsDevice(n, m, device) && ApartInPods(n, target, m.path))
            && (forall m :: m in t && m.path != target && m.path != PrivatePath(n, volume) ==> m in t')
  {
    var d, priv := DeviceAt(n, device), PrivatePath(n, volume);
    var t1 := if TargetFound(t, d, target, priv) then Unmount(t, target) else t;
    UnmountMembers(t, target);
    forall m | m in t
      ensures ApartInPods(n, target, m.path) <==>
                PodOf(n, target) != "" && PodOf(n, m.path) != "" && PodOf(n, target) != PodOf(n, m.path)
    {
      PodsApart(n, target, m.path);
    }
    assert p in t1 && Once(t1, priv);
    if OtherPodFound(n, t, d, target, priv) {
      assert Unpublish(n, t, volume, device, target, e).0 == t1;
    } else {
      assert UsesDevice(p, d) && PrivateFound(t, d, priv);
      PrivateUnmounted(t1, d, priv, e, p);
      UnmountMembers(t1, priv);
      assert Unpublish(n, t, volume, device, target, e).0 == Unmount(t1, priv);
    }
  }

  /** A private mount with two targets. */
  function TwoTargets(d: Device, priv: string, other: string, target: string): Table {
    [Mount(d.realDev, d.realDev, priv, []), Mount(d.realDev, priv, other, []), Mount(d.realDev, priv, target, [])]
  }

  lemma TwoTargetsRows(d: Device, priv: string, other: string, target: string, e: UnpublishEnv)
    requires target != other && target != priv && other != priv && e.devMountsRead && e.privUnmounts > 0
    ensures var t := TwoTargets(d, priv, other, target);
            var (t', s) := UnmountPrivate(Unmount(t, target), d, priv, e);
            && s == OK && Mounted(t', other) && !Mounted(t', priv)
            && t[0] in t && t[1] in t && t[2] in t
            && forall m :: m in t ==> m.path in {priv, other, target}
  {
    var t := TwoTargets(d, priv, other, target);
    assert t[0] in t && t[1] in t && t[2] in t;
    UnmountMembers(t, target);
    PrivateUnmounted(Unmount(t, target), d, priv, e, t[0]);
    UnmountMembers(Unmount(t, target), priv);
  }

  /** Two targets of one pod, or one target outside the pods: the second loses the private mount when the first
      is unpublished. */
  lemma SecondTargetOfPodLosesMount(n: Node, volume: string, device: string, target: string, other: string,
                                    e: UnpublishEnv)
    requires target != "" && target != other && target != PrivatePath(n, volume) && other != PrivatePath(n, volume)
    requires !ApartInPods(n, target, other)
    requires e.deviceFound && e.mountsRead && e.targetUnmounted && e.targetRemoved && e.devMountsRead
             && e.privUnmounts > 0
    ensures var t := TwoTargets(DeviceAt(n, device), PrivatePath(n, volume), other, target);
            var (t', s) := Unpublish(n, t, volume, device, target, e);
            s == OK && Mounted(t', other) && !Mounted(t', PrivatePath(n, volume))
  {
    var d, priv := DeviceAt(n, device), PrivatePath(n, volume);
    var t := TwoTargets(d, priv, other, target);
    TwoTargetsRows(d, priv, other, target, e);
    assert t[0] in t;
    assert UsesDevice(t[2], d) && TargetFound(t, d, target, priv) && UsesDevice(t[0], d) && PrivateFound(t, d, priv);
    PodsApart(n, target, other);
    assert forall m :: m in t ==> !OtherPodRow(n, m, d, target, priv);
    assert Unpublish(n, t, volume, device, target, e) == UnmountPrivate(Unmount(t, target), d, priv, e);
  }

  // ---------------------------------------------------------------- runs without the rule about pods

  /** An unpublish of the target would leave the filesystem targets that stay with their private mount. */
  ghost predicate PodsTell(w: World, t: Table, v: string, target: string) {
    (exists m :: m in t && Needs(w, m, v) && m.path != target) ==> exists m :: m in t && InOtherPod(w, m, v, target)
  }

  /** Whether the private mount goes decides whether the invariant holds afterwards. */
  lemma DropPrivateIff(w: World, t: Table, v: string)
    requires PlainWorld(w) && Inv(w, t) && v in w.devices
    ensures Inv(w, Unmount(t, Priv(w, v))) <==> !exists m :: m in t && Needs(w, m, v)
  {
    KindOfPrivate(w, v);
    UnmountMembers(t, Priv(w, v));
    if m :| m in t && Needs(w, m, v) {
      assert m in Unmount(t, Priv(w, v));
      assert !Mounted(Unmount(t, Priv(w, v)), Priv(w, v));
    } else {
      forall u, m | m in t && Needs(w, m, u)
        ensures Priv(w, v) != Priv(w, u)
      {
        KindOfPrivate(w, u);
      }
      DropRow(w, t, Priv(w, v));
    }
  }

  lemma StayingTargets(w: World, t: Table, v: string, target: string)
    requires PlainWorld(w) && Inv(w, t) && v in w.devices && target in w.targets
    ensures (exists m :: m in Unmount(t, target) && Needs(w, m, v)) <==>
            exists m :: m in t && Needs(w, m, v) && m.path != target
    ensures (exists m :: m in t && Needs(w, m, v)) ==> Mounted(t, Priv(w, v))
  {
    DropTarget(w, t, target);
  }

  /**
    Without the rule about pods, the invariant survives a successful unpublish exactly when no filesystem
    target stays, or the pods tell that one does. It survives every unpublish that fails.
  */
  lemma UnpublishKeepsIff(w: World, t: Table, v: string, device: string, target: string, e: UnpublishEnv)
    requires PlainWorld(w) && Inv(w, t) && Serves(w, v, device, target)
    ensures var (t', s) := Unpublish(w.node, t, v, device, target, e);
            && (s == OK ==> (Inv(w, t') <==> PodsTell(w, t, v, target)))
            && (s != OK ==> Inv(w, t'))
  {
    PlainResult(w, t, v, device, target, e);
    DropTarget(w, t, target);
    DropPrivateIff(w, Unmount(t, target), v);
    StayingTargets(w, t, v, target);
  }

  /** What a step has to meet for the invariant to survive it; only an unpublish can fail this. */
  ghost predicate Spares(w: World, t: Table, s: Step) {
    s.UnpublishStep? && UnpublishGoesThrough(w, t, s.volume, s.target, s.ue) ==> PodsTell(w, t, s.volume, s.target)
  }

  lemma StepKeepsIff(w: World, t: Table, s: Step)
    requires PlainWorld(w) && Inv(w, t) && Follows(w, s)
    ensures Inv(w, Apply(w.node, t, s).0) <==> Spares(w, t, s)
  {
    match s
    case PublishStep(r, e) => PublishKeeps(w, t, r, e);
    case UnpublishStep(volume, device, target, e) =>
      UnpublishKeepsIff(w, t, volume, device, target, e);
      UnpublishSucceedsIff(w, t, volume, device, target, e);
    case DetachStep(target, _) => DropTarget(w, t, target);
    case PublishNfsStep(r, e) => PublishNfsKeeps(w, t, r, e);
    case UnpublishNfsStep(_, target, _, _) => DropTarget(w, t, target);
  }

  /** The invariant holds after every step of a run. */
  ghost predicate AlwaysHolds(w: World, t: Table, steps: seq<Step>) {
    Inv(w, Run(w.node, t, steps)) && (steps != [] ==> AlwaysHolds(w, t, steps[..|steps| - 1]))
  }

  ghost predicate AlwaysSpares(w: World, t: Table, steps: seq<Step>) {
    steps != [] ==>
      && Spares(w, Run(w.node, t, steps[..|steps| - 1]), steps[|steps| - 1])
      && AlwaysSpares(w, t, steps[..|steps| - 1])
  }

  /** In runs without the rule about pods, no filesystem target ever loses its private mount exactly when
      every unpublish that goes through meets the pod test. */
  lemma {:induction false} RunKeepsIff(w: World, t: Table, steps: seq<Step>)
    requires PlainWorld(w) && Inv(w, t) && AllFollow(w, steps)
    ensures AlwaysHolds(w, t, steps) <==> AlwaysSpares(w, t, steps)
  {
    if steps != [] {
      var front := steps[..|steps| - 1];
      RunKeepsIff(w, t, front);
      if AlwaysHolds(w, t, front) {
        StepKeepsIff(w, Run(w.node, t, front), steps[|steps| - 1]);
      }
    }
  }
}
