/** The theorems about runs of the node service. */
module MountTheorems {
  import opened CsiTypes
  import opened MountTable
  import opened MountFacts
  import opened NfsMount
  import opened MountRuns

  // ---------------------------------------------------------------- one unpublish

  ghost predicate OtherTarget(w: World, t: Table, v: string, target: string) {
    exists m :: m in t && Kind(w, m.path) == TargetOf(v) && m.path != target
  }

  /** The row is a target of the volume in another pod, as far as the paths tell. */
  ghost predicate InOtherPod(w: World, m: Mount, v: string, target: string) {
    && Kind(w, m.path) == TargetOf(v) && m.path != target && ApartInPods(w.node, target, m.path)
  }

  /** Under the world's assignment the flags of an unpublish mean what their names say, and the pods decide
      about the third. */
  lemma PlainFlags(w: World, t: Table, v: string, target: string)
    requires PlainWorld(w) && GoodRows(w, t) && v in w.devices && target in w.targets && w.targets[target] == v
    ensures TargetFound(t, Dev(w, v), target, Priv(w, v)) <==> Mounted(t, target)
    ensures PrivateFound(t, Dev(w, v), Priv(w, v)) <==> Mounted(t, Priv(w, v))
    ensures OtherPodFound(w.node, t, Dev(w, v), target, Priv(w, v)) <==>
            exists m :: m in t && InOtherPod(w, m, v, target)
  {
    KindOfTarget(w, target);
    KindOfPrivate(w, v);
    forall m | m in t
      ensures UsesDevice(m, Dev(w, v)) <==> OwnPath(w, m.path, v)
      ensures OtherPodRow(w.node, m, Dev(w, v), target, Priv(w, v)) <==> InOtherPod(w, m, v, target)
    {
      OwnRows(w, m, v);
      PodsApart(w.node, target, m.path);
      if Kind(w, m.path) == PrivateOf(v) {
        PathOfPrivate(w, m.path);
      }
    }
  }

  /** If targets of a volume are in pods of their own, any other target keeps the private mount. */
  lemma UnpublishFlags(w: World, t: Table, v: string, target: string)
    requires ValidWorld(w) && GoodRows(w, t) && v in w.devices && target in w.targets && w.targets[target] == v
    ensures TargetFound(t, Dev(w, v), target, Priv(w, v)) <==> Mounted(t, target)
    ensures PrivateFound(t, Dev(w, v), Priv(w, v)) <==> Mounted(t, Priv(w, v))
    ensures OtherPodFound(w.node, t, Dev(w, v), target, Priv(w, v)) <==> OtherTarget(w, t, v, target)
  {
    PlainFlags(w, t, v, target);
    OtherTargetIsInOtherPod(w, t, v, target);
  }

  ghost predicate UnpublishEffect(w: World, t: Table, v: string, target: string, t': Table, s: Status) {
    && Inv(w, t')
    && (forall m :: m in t' ==> m in t)
    && (forall m :: m in t && m.path != target && m.path != Priv(w, v) ==> m in t')
    && (s == OK ==> !Mounted(t', target) && (Mounted(t', Priv(w, v)) ==> TargetMounted(w, t', v)))
  }

  lemma UnmountPrivateOnce(w: World, t: Table, v: string, e: UnpublishEnv)
    requires PlainWorld(w) && Placed(w, t) && v in w.devices && Mounted(t, Priv(w, v))
    ensures var (t', s) := UnmountPrivate(t, Dev(w, v), Priv(w, v), e);
            && (s == OK <==> e.devMountsRead && e.privUnmounts > 0)
            && t' == (if s == OK then Unmount(t, Priv(w, v)) else t)
  {
    KindOfPrivate(w, v);
    var m :| m in t && m.path == Priv(w, v);
    OwnRows(w, m, v);
    CountOnce(t, Dev(w, v), Priv(w, v), m);
    assert UnmountTimes(t, Priv(w, v), 1) == Unmount(t, Priv(w, v));
  }

  lemma TargetDropped(w: World, t: Table, v: string, target: string, s: Status)
    requires ValidWorld(w) && Inv(w, t) && v in w.devices && target in w.targets && w.targets[target] == v
    requires s == OK && Mounted(t, Priv(w, v)) ==> OtherTarget(w, t, v, target)
    ensures UnpublishEffect(w, t, v, target, Unmount(t, target), s)
  {
    DropTarget(w, t, target);
  }

  lemma BothDropped(w: World, t: Table, v: string, target: string)
    requires ValidWorld(w) && Inv(w, t) && v in w.devices && target in w.targets && w.targets[target] == v
    requires !OtherTarget(w, t, v, target)
    ensures UnpublishEffect(w, t, v, target, Unmount(Unmount(t, target), Priv(w, v)), OK)
  {
    DropTarget(w, t, target);
    DropPrivate(w, Unmount(t, target), v);
  }

  lemma PrivateAfterTarget(w: World, t: Table, v: string, target: string, e: UnpublishEnv)
    requires PlainWorld(w) && Placed(w, t) && v in w.devices && target in w.targets && Mounted(t, Priv(w, v))
    ensures var t1 := Unmount(t, target);
            var (t', s) := UnmountPrivate(t1, Dev(w, v), Priv(w, v), e);
            && Mounted(t1, Priv(w, v)) && (s == OK <==> e.devMountsRead && e.privUnmounts > 0)
            && t' == (if s == OK then Unmount(t1, Priv(w, v)) else t1)
  {
    DropTarget(w, t, target);
    KindOfTarget(w, target);
    KindOfPrivate(w, v);
    var p :| p in t && p.path == Priv(w, v);
    assert p in Unmount(t, target);
    UnmountPrivateOnce(w, Unmount(t, target), v, e);
  }

  /** The table after an unpublish: without target and private mount if it succeeds and no other pod is seen to
      use the volume, without the target or as before otherwise. */
  lemma PlainResult(w: World, t: Table, v: string, device: string, target: string, e: UnpublishEnv)
    requires PlainWorld(w) && Placed(w, t) && Serves(w, v, device, target)
    ensures var (t', s) := Unpublish(w.node, t, v, device, target, e);
            && (s == OK ==>
                  t' == if Mounted(t, Priv(w, v)) && !exists m :: m in t && InOtherPod(w, m, v, target)
                        then Unmount(Unmount(t, target), Priv(w, v)) else Unmount(t, target))
            && (s != OK ==> t' == t || t' == Unmount(t, target))
  {
    PlainFlags(w, t, v, target);
    if !Mounted(t, target) {
      UnmountOfMissing(t, target);
    }
    if Mounted(t, Priv(w, v)) {
      PrivateAfterTarget(w, t, v, target, e);
    }
  }

  /** The outcomes an unpublish needs to succeed: the unmounts count only if there is something to unmount. */
  ghost predicate UnpublishGoesThrough(w: World, t: Table, v: string, target: string, e: UnpublishEnv) {
    && target != "" && e.deviceFound && e.mountsRead
    && (Mounted(t, target) ==> e.targetUnmounted && e.targetRemoved)
    && (Mounted(t, Priv(w, v)) && !(exists m :: m in t && InOtherPod(w, m, v, target)) ==>
          e.devMountsRead && e.privUnmounts > 0)
  }

  lemma UnpublishSucceedsIff(w: World, t: Table, v: string, device: string, target: string, e: UnpublishEnv)
    requires PlainWorld(w) && Placed(w, t) && Serves(w, v, device, target)
    ensures Unpublish(w.node, t, v, device, target, e).1 == OK <==> UnpublishGoesThrough(w, t, v, target, e)
  {
    PlainFlags(w, t, v, target);
    if !Mounted(t, target) {
      UnmountOfMissing(t, target);
    }
    if Mounted(t, Priv(w, v)) {
      PrivateAfterTarget(w, t, v, target, e);
    }
  }

  /** An unpublish adds no row, takes away at most the target and the private mount, and keeps rows in place. */
  lemma UnpublishDrops(w: World, t: Table, v: string, device: string, target: string, e: UnpublishEnv)
    requires PlainWorld(w) && Placed(w, t) && Serves(w, v, device, target)
    ensures var t' := Unpublish(w.node, t, v, device, target, e).0;
            && Placed(w, t')
            && (forall m :: m in t' ==> m in t)
            && (forall m :: m in t && m.path != target && m.path != Priv(w, v) ==> m in t')
  {
    PlainResult(w, t, v, device, target, e);
    DropTarget(w, t, target);
    KindOfPrivate(w, v);
    DropRow(w, Unmount(t, target), Priv(w, v));
  }

  lemma OtherTargetIsInOtherPod(w: World, t: Table, v: string, target: string)
    requires ValidWorld(w) && target in w.targets && w.targets[target] == v
    ensures OtherTarget(w, t, v, target) <==> exists m :: m in t && InOtherPod(w, m, v, target)
  {
    assert OwnPod(w, target);
    if m :| m in t && Kind(w, m.path) == TargetOf(v) && m.path != target {
      assert OwnPod(w, m.path);
      var pod :| InPod(w.node, m.path, pod)
        && forall q :: q in w.targets && w.targets[q] == v && InPod(w.node, q, pod) ==> q == m.path;
      assert InOtherPod(w, m, v, target);
    }
  }

  /** The table after an unpublish is one of three. */
  lemma UnpublishResult(w: World, t: Table, v: string, device: string, target: string, e: UnpublishEnv)
    requires ValidWorld(w) && Inv(w, t) && Serves(w, v, device, target)
    ensures var (t', s) := Unpublish(w.node, t, v, device, target, e);
            || (t' == t && s != OK)
            || (t' == Unmount(t, target) && (s == OK && Mounted(t, Priv(w, v)) ==> OtherTarget(w, t, v, target)))
            || (t' == Unmount(Unmount(t, target), Priv(w, v)) && s == OK && !OtherTarget(w, t, v, target))
  {
    PlainResult(w, t, v, device, target, e);
    OtherTargetIsInOtherPod(w, t, v, target);
  }

  lemma UnpublishKeeps(w: World, t: Table, v: string, device: string, target: string, e: UnpublishEnv)
    requires ValidWorld(w) && Inv(w, t) && Serves(w, v, device, target)
    ensures UnpublishEffect(w, t, v, target, Unpublish(w.node, t, v, device, target, e).0,
                            Unpublish(w.node, t, v, device, target, e).1)
  {
    UnpublishResult(w, t, v, device, target, e);
    var (t', s) := Unpublish(w.node, t, v, device, target, e);
    if t' == t && s != OK {
    } else if s == OK && !OtherTarget(w, t, v, target) && t' == Unmount(Unmount(t, target), Priv(w, v)) {
      BothDropped(w, t, v, target);
    } else {
      TargetDropped(w, t, v, target, s);
    }
  }

  // ---------------------------------------------------------------- NFS steps

  lemma {:induction false} ScanNfsMembers(t: Table, url: string, target: string, option: string, single: bool)
    ensures ScanNfs(t, url, target, option, single) == None
            <==> forall m :: m in t && m.device == url ==> m.path != target && !single
  {
    if t != [] {
      ScanNfsMembers(t[..|t| - 1], url, target, option, single);
      assert t == t[..|t| - 1] + [t[|t| - 1]];
    }
  }

  /** An NFS publish leaves the table alone or adds one row, at a free target of the export; with a
      single-node mode the export was mounted nowhere. */
  lemma PublishNfsKeeps(w: World, t: Table, r: NfsRequest, e: NfsEnv)
    requires PlainWorld(w) && Placed(w, t) && r.target in w.exports && w.exports[r.target] == r.url
    ensures var t' := PublishNfs(t, r, e).0;
            && Kept(w, t, t')
            && (t' != t ==>
                  && |t'| == |t| + 1 && t' == t + [Mount(r.url, r.url, r.target, t'[|t|].opts)]
                  && r.capability.Some? && r.capability.value.mode.Some?
                  && (r.capability.value.mode.value in {SingleNodeWriter, SingleNodeReaderOnly, SingleNodeSingleWriter}
                      ==> forall m :: m in t ==> m.device != r.url))
  {
    var t' := PublishNfs(t, r, e).0;
    if t' != t {
      var single := SingleNfsMode(r.capability.value.mode.value);
      ScanNfsMembers(t, r.url, r.target, ReadWriteOption(r.readonly), single);
      var m := Mount(r.url, r.url, r.target, Outcome(e, 0).opts);
      assert t'[|t|] == m;
      assert forall x :: x in t && x.path == r.target ==> x.device == r.url;
      AddRow(w, t, m);
    }
  }

  // ---------------------------------------------------------------- runs

  ghost predicate AllFollow(w: World, steps: seq<Step>) {
    forall i :: 0 <= i < |steps| ==> Follows(w, steps[i])
  }

  /** Every step keeps rows in place, whatever the pods. */
  lemma StepPlaces(w: World, t: Table, s: Step)
    requires PlainWorld(w) && Placed(w, t) && Follows(w, s)
    ensures Placed(w, Apply(w.node, t, s).0)
  {
    match s
    case PublishStep(r, e) => PublishKeeps(w, t, r, e);
    case UnpublishStep(volume, device, target, e) => UnpublishDrops(w, t, volume, device, target, e);
    case DetachStep(target, _) => DropTarget(w, t, target);
    case PublishNfsStep(r, e) => PublishNfsKeeps(w, t, r, e);
    case UnpublishNfsStep(_, target, _, _) => DropTarget(w, t, target);
  }

  lemma {:induction false} RunPlaces(w: World, t: Table, steps: seq<Step>)
    requires PlainWorld(w) && Placed(w, t) && AllFollow(w, steps)
    ensures Placed(w, Run(w.node, t, steps))
  {
    if steps != [] {
      RunPlaces(w, t, steps[..|steps| - 1]);
      StepPlaces(w, Run(w.node, t, steps[..|steps| - 1]), steps[|steps| - 1]);
    }
  }

  lemma StepKeeps(w: World, t: Table, s: Step)
    requires ValidWorld(w) && Inv(w, t) && Follows(w, s)
    ensures Inv(w, Apply(w.node, t, s).0)
  {
    match s
    case PublishStep(r, e) => PublishKeeps(w, t, r, e);
    case UnpublishStep(volume, device, target, e) => UnpublishKeeps(w, t, volume, device, target, e);
    case DetachStep(target, _) => DropTarget(w, t, target);
    case PublishNfsStep(r, e) => PublishNfsKeeps(w, t, r, e);
    case UnpublishNfsStep(_, target, _, _) => DropTarget(w, t, target);
  }

  lemma {:induction false} RunKeeps(w: World, t: Table, steps: seq<Step>)
    requires ValidWorld(w) && Inv(w, t) && AllFollow(w, steps)
    ensures Inv(w, Run(w.node, t, steps))
  {
    if steps != [] {
      RunKeeps(w, t, steps[..|steps| - 1]);
      StepKeeps(w, Run(w.node, t, steps[..|steps| - 1]), steps[|steps| - 1]);
    }
  }

  /** A node on which the driver has mounted nothing satisfies the invariant. */
  lemma FreshNode(w: World, t: Table)
    requires forall m :: m in t ==> Kind(w, m.path) == Elsewhere && ForeignRow(w, m)
    ensures Inv(w, t)
  {
    forall p | Kind(w, p) != Elsewhere
      ensures Once(t, p)
    {
      forall i | 0 <= i < |t|
        ensures t[i].path != p
      {
        assert t[i] in t;
      }
    }
  }

  /**
    In every run, with every call failing as it likes, a filesystem target of a volume has the
    volume's private mount beside it: neither an unpublish nor a clean-up takes the private mount
    from under a target that stays.
  */
  lemma PrivateMountOutlivesTargets(w: World, t: Table, steps: seq<Step>)
    requires ValidWorld(w) && Inv(w, t) && AllFollow(w, steps)
    ensures forall m, v :: m in Run(w.node, t, steps) && v in w.devices
                           && m.path in w.targets && w.targets[m.path] == v && m.device == Dev(w, v).realDev
                           ==> Mounted(Run(w.node, t, steps), Priv(w, v))
  {
    RunKeeps(w, t, steps);
    forall m, v | m in Run(w.node, t, steps) && v in w.devices
                  && m.path in w.targets && w.targets[m.path] == v && m.device == Dev(w, v).realDev
      ensures Mounted(Run(w.node, t, steps), Priv(w, v))
    {
      KindOfTarget(w, m.path);
      assert Needs(w, m, v);
    }
  }

  predicate Publishes(s: Step, v: string) {
    s.PublishStep? && s.r.volume == v
  }

  /** Every target row of the volume is a filesystem row. */
  ghost predicate NoBlockRow(w: World, t: Table, v: string) {
    forall m :: m in t && Kind(w, m.path) == TargetOf(v) ==> Needs(w, m, v)
  }

  /** A target row that a step adds belongs to the volume the step publishes. */
  lemma StepAdds(w: World, t: Table, s: Step, m: Mount, v: string)
    requires PlainWorld(w) && Placed(w, t) && Follows(w, s)
    requires m in Apply(w.node, t, s).0 && m !in t && Kind(w, m.path) == TargetOf(v)
    ensures Publishes(s, v) && m.path == s.r.target
    ensures AsMount(s.r) ==> Needs(w, m, v)
    ensures Exclusive(w, s.r) ==> OnlyTarget(w, t, v, s.r.target)
  {
    match s
    case PublishStep(r, e) =>
      PublishKeeps(w, t, r, e);
      KindOfTarget(w, r.target);
      KindOfPrivate(w, r.volume);
    case UnpublishStep(volume, device, target, e) => UnpublishDrops(w, t, volume, device, target, e);
    case DetachStep(target, _) => DropTarget(w, t, target);
    case PublishNfsStep(r, e) => PublishNfsKeeps(w, t, r, e);
    case UnpublishNfsStep(_, target, _, _) => DropTarget(w, t, target);
  }

  lemma StepKeepsNoBlockRow(w: World, t: Table, s: Step, v: string)
    requires PlainWorld(w) && Placed(w, t) && Follows(w, s) && NoBlockRow(w, t, v)
    requires Publishes(s, v) ==> AsMount(s.r)
    ensures NoBlockRow(w, Apply(w.node, t, s).0, v)
  {
    forall m | m in Apply(w.node, t, s).0 && Kind(w, m.path) == TargetOf(v)
      ensures Needs(w, m, v)
    {
      if m !in t {
        StepAdds(w, t, s, m, v);
      }
    }
  }

  lemma {:induction false} RunKeepsNoBlockRow(w: World, t: Table, steps: seq<Step>, v: string)
    requires PlainWorld(w) && Placed(w, t) && AllFollow(w, steps) && NoBlockRow(w, t, v)
    requires forall i :: 0 <= i < |steps| && Publishes(steps[i], v) ==> AsMount(steps[i].r)
    ensures NoBlockRow(w, Run(w.node, t, steps), v)
  {
    if steps != [] {
      var before := steps[..|steps| - 1];
      RunPlaces(w, t, before);
      RunKeepsNoBlockRow(w, t, before, v);
      StepKeepsNoBlockRow(w, Run(w.node, t, before), steps[|steps| - 1], v);
    }
  }

  /**
    A volume used with a filesystem: whenever a publish or unpublish of it succeeds, however the
    steps before went, its private mount exists exactly when one of its targets does.
  */
  lemma PrivateMountExactlyWhileUsed(w: World, t: Table, steps: seq<Step>, last: Step, v: string)
    requires ValidWorld(w) && Inv(w, t) && AllFollow(w, steps) && Follows(w, last)
    requires v in w.devices && NoBlockRow(w, t, v)
    requires forall i :: 0 <= i < |steps| && Publishes(steps[i], v) ==> AsMount(steps[i].r)
    requires (Publishes(last, v) && AsMount(last.r)) || (last.UnpublishStep? && last.volume == v)
    requires Apply(w.node, Run(w.node, t, steps), last).1 == OK
    ensures var t' := Apply(w.node, Run(w.node, t, steps), last).0;
            Mounted(t', Priv(w, v)) <==> TargetMounted(w, t', v)
  {
    var t1 := Run(w.node, t, steps);
    var t' := Apply(w.node, t1, last).0;
    RunKeeps(w, t, steps);
    StepKeeps(w, t1, last);
    RunKeepsNoBlockRow(w, t, steps, v);
    StepKeepsNoBlockRow(w, t1, last, v);
    if last.PublishStep? {
      PublishKeeps(w, t1, last.r, last.pe);
      KindOfTarget(w, last.r.target);
    } else {
      UnpublishKeeps(w, t1, last.volume, last.device, last.target, last.ue);
    }
  }

  // ---------------------------------------------------------------- exclusive access

  ghost predicate OneTarget(w: World, t: Table, v: string) {
    forall m, x :: m in t && x in t && Kind(w, m.path) == TargetOf(v) && Kind(w, x.path) == TargetOf(v)
                   ==> m.path == x.path
  }

  lemma StepKeepsOneTarget(w: World, t: Table, s: Step, v: string)
    requires PlainWorld(w) && Placed(w, t) && Follows(w, s) && OneTarget(w, t, v)
    requires Publishes(s, v) ==> Exclusive(w, s.r)
    ensures OneTarget(w, Apply(w.node, t, s).0, v)
  {
    var t' := Apply(w.node, t, s).0;
    forall m, x | m in t' && x in t' && Kind(w, m.path) == TargetOf(v) && Kind(w, x.path) == TargetOf(v)
      ensures m.path == x.path
    {
      if m !in t {
        StepAdds(w, t, s, m, v);
      }
      if x !in t {
        StepAdds(w, t, s, x, v);
      }
    }
  }

  /**
    If multi-pod access is off and every publish of a volume asks for SINGLE_NODE_WRITER,
    SINGLE_NODE_READER_ONLY or SINGLE_NODE_SINGLE_WRITER, the volume never has two targets, as a filesystem, as
    a raw block device or mixed, whatever happens to other volumes and whatever the pods; as rows are in
    place, the one target is mounted once.
  */
  lemma {:induction false} SingleAccessMeansOneTarget(w: World, t: Table, steps: seq<Step>, v: string)
    requires PlainWorld(w) && Placed(w, t) && AllFollow(w, steps) && OneTarget(w, t, v)
    requires !w.node.multiPodAccess
    requires forall i :: 0 <= i < |steps| && Publishes(steps[i], v) ==>
               AsksFor(steps[i].r, {SingleNodeWriter, SingleNodeReaderOnly, SingleNodeSingleWriter})
    ensures OneTarget(w, Run(w.node, t, steps), v)
  {
    if steps != [] {
      var before := steps[..|steps| - 1];
      RunPlaces(w, t, before);
      SingleAccessMeansOneTarget(w, t, before, v);
      StepKeepsOneTarget(w, Run(w.node, t, before), steps[|steps| - 1], v);
    }
  }

  ghost predicate OneExportPath(t: Table, url: string) {
    forall m, x :: m in t && x in t && m.device == url && x.device == url ==> m.path == x.path
  }

  predicate PublishesSingle(s: Step, url: string) {
    s.PublishNfsStep? && s.nr.url == url && s.nr.capability.Some? && s.nr.capability.value.mode.Some? ==>
      s.nr.capability.value.mode.value in {SingleNodeWriter, SingleNodeReaderOnly, SingleNodeSingleWriter}
  }

  lemma NewRowIsNoExport(w: World, t: Table, r: PublishRequest, e: PublishEnv, m: Mount, url: string)
    requires PlainWorld(w) && Placed(w, t) && Serves(w, r.volume, r.device, r.target) && url in w.exports.Values
    requires m in Publish(w.node, t, r, e).0 && m !in t
    ensures m.device != url
  {
    PublishKeeps(w, t, r, e);
    KindOfTarget(w, r.target);
    KindOfPrivate(w, r.volume);
    assert GoodRow(w, m) && ValidDevice(w, r.volume);
    var p :| p in w.exports && w.exports[p] == url;
  }

  lemma StepKeepsOneExportPath(w: World, t: Table, s: Step, url: string)
    requires PlainWorld(w) && Placed(w, t) && Follows(w, s) && OneExportPath(t, url) && url in w.exports.Values
    requires PublishesSingle(s, url)
    ensures OneExportPath(Apply(w.node, t, s).0, url)
  {
    match s
    case PublishStep(r, e) =>
      forall m | m in Publish(w.node, t, r, e).0 && m.device == url
        ensures m in t
      {
        if m !in t {
          NewRowIsNoExport(w, t, r, e, m, url);
        }
      }
    case UnpublishStep(volume, device, target, e) => UnpublishDrops(w, t, volume, device, target, e);
    case DetachStep(target, _) => DropTarget(w, t, target);
    case PublishNfsStep(r, e) => PublishNfsKeeps(w, t, r, e);
    case UnpublishNfsStep(_, target, _, _) => DropTarget(w, t, target);
  }

  /** If every publish of an NFS export asks for one of the single-node modes, the export is never
      mounted at two paths of the node. */
  lemma {:induction false} SingleNodeMeansOneExportPath(w: World, t: Table, steps: seq<Step>, url: string)
    requires PlainWorld(w) && Placed(w, t) && AllFollow(w, steps) && OneExportPath(t, url) && url in w.exports.Values
    requires forall i :: 0 <= i < |steps| ==> PublishesSingle(steps[i], url)
    ensures OneExportPath(Run(w.node, t, steps), url)
  {
    if steps != [] {
      var before := steps[..|steps| - 1];
      RunPlaces(w, t, before);
      SingleNodeMeansOneExportPath(w, t, before, url);
      StepKeepsOneExportPath(w, Run(w.node, t, before), steps[|steps| - 1], url);
    }
  }
}
