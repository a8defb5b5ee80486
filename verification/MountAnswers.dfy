/** What the answers of a publish and an unpublish mean, by access mode, recorded options and failing calls. */
module MountAnswers {
  import opened CsiTypes
  import opened MountTable
  import opened MountFacts
  import opened NfsMount
  import opened MountRuns
  import opened MountTheorems
  import opened MountRoundTrip
  import opened MountSuccess
  import opened MountPods

  // ---------------------------------------------------------------- which mount serves which request

  /** The request is for reading only, by its flag or by its mode. */
  predicate WantsReadOnly(n: Node, mode: AccessMode, readonly: bool) {
    readonly || mode == MultiNodeReaderOnly || (n.multiPodAccess && mode == SingleNodeReaderOnly)
  }

  /** The request is for writing by more than one pod. */
  predicate WantsWriting(n: Node, mode: AccessMode, readonly: bool) {
    !readonly && n.multiPodAccess && mode == SingleNodeWriter
  }

  /** What is mounted at the path has the option that the request wants, if it wants one. */
  ghost predicate Suits(n: Node, t: Table, path: string, mode: AccessMode, readonly: bool) {
    && (WantsReadOnly(n, mode, readonly) ==> forall m :: m in t && m.path == path ==> "ro" in m.opts)
    && (WantsWriting(n, mode, readonly) ==> forall m :: m in t && m.path == path ==> "rw" in m.opts)
  }

  /** One target at a time: with multi-pod access off, for three of the modes. */
  predicate Alone(n: Node, mode: AccessMode) {
    !n.multiPodAccess && mode in {SingleNodeWriter, SingleNodeReaderOnly, SingleNodeSingleWriter}
  }

  ghost predicate OtherTargetMounted(w: World, t: Table, r: PublishRequest) {
    exists m :: m in t && m.path != r.target && m.path in w.targets && w.targets[m.path] == r.volume
  }

  predicate IsMount(r: PublishRequest, mode: AccessMode) {
    r.target != "" && r.capability == Some(Capability(Some(mode), MountAccess))
  }

  predicate IsBlock(r: PublishRequest, mode: AccessMode) {
    r.target != "" && r.capability == Some(Capability(Some(mode), BlockAccess))
  }

  lemma CapabilityMeans(n: Node, mode: AccessMode, readonly: bool)
    ensures var c := CheckCapability(n, Capability(Some(mode), MountAccess));
            && (c == Rejected(InvalidArgument) <==> mode == UnknownMode)
            && (c == Rejected(AlreadyExists) <==> mode == MultiNodeMultiWriter)
            && (c.Rejected? ==> mode == UnknownMode || mode == MultiNodeMultiWriter)
            && (c.Accepted? ==>
                  && !c.isBlock && c.mode == mode
                  && WantedOption(c.multiAccessFlag, readonly) ==
                     (if WantsReadOnly(n, mode, readonly) then "ro" else if WantsWriting(n, mode, readonly) then "rw"
                      else ""))
  {
  }

  /** A raw block publish refuses the unknown mode only; its option is for readers or writers on several nodes. */
  lemma BlockCapabilityMeans(n: Node, mode: AccessMode)
    ensures CheckCapability(n, Capability(Some(mode), BlockAccess)) ==
            if mode == UnknownMode then Rejected(InvalidArgument)
            else Accepted(true, mode, if mode == MultiNodeReaderOnly then "ro"
                                      else if mode == MultiNodeMultiWriter then "rw" else "")
  {
  }

  lemma OnlyTargetMeans(w: World, t: Table, r: PublishRequest)
    requires PlainWorld(w) && Serves(w, r.volume, r.device, r.target)
    ensures OnlyTarget(w, t, r.volume, r.target) <==> !OtherTargetMounted(w, t, r)
  {
    forall m | m in t && m.path in w.targets && w.targets[m.path] == r.volume
      ensures Kind(w, m.path) == TargetOf(r.volume)
    {
      KindOfTarget(w, m.path);
    }
  }

  lemma {:induction false} ConflictMeans(rows: Table, target: string, priv: string, flag: string, single: bool)
    requires ScanRows(rows, target, priv, flag, single).Conflict?
    ensures var s := ScanRows(rows, target, priv, flag, single).status;
            || (s == InvalidArgument && !Carries(rows, priv, flag))
            || (s == FailedPrecondition && single && exists m :: m in rows && m.path != target && m.path != priv)
  {
    var front, m := rows[..|rows| - 1], rows[|rows| - 1];
    assert forall x :: x in front ==> x in rows;
    assert m in rows;
    if ScanRows(front, target, priv, flag, single).Conflict? {
      ConflictMeans(front, target, priv, flag, single);
    }
  }

  /** How the check of a private mount that is there fails. */
  lemma ReuseFails(w: World, t: Table, r: PublishRequest, flag: string, single: bool)
    requires PlainWorld(w) && Placed(w, t) && Serves(w, r.volume, r.device, r.target)
    requires Mounted(t, Priv(w, r.volume))
    ensures var s := ReusePrivate(DevMounts(t, Dev(w, r.volume)), r.target, Priv(w, r.volume), flag, single);
            || (s == OK && Carries(t, Priv(w, r.volume), flag) && (single ==> OnlyTarget(w, t, r.volume, r.target)))
            || (s == InvalidArgument && !Carries(t, Priv(w, r.volume), flag))
            || (s == FailedPrecondition && single && !OnlyTarget(w, t, r.volume, r.target))
  {
    var v := r.volume;
    var rows := DevMounts(t, Dev(w, v));
    KindOfTarget(w, r.target);
    DeviceRows(w, t, v);
    if ScanRows(rows, r.target, Priv(w, v), flag, single).Conflict? {
      ConflictMeans(rows, r.target, Priv(w, v), flag, single);
      if m :| m in rows && m.path != r.target && m.path != Priv(w, v) {
        if Kind(w, m.path) == PrivateOf(v) {
          PathOfPrivate(w, m.path);
        }
      }
    } else {
      ClearScan(w, t, v, r.target, flag, single);
      ReuseIff(w, t, v, r.target, flag, single);
    }
  }

  /** Binding adds the target, or finds it. */
  lemma BindMeans(w: World, t: Table, r: PublishRequest, flag: string, e: PublishEnv)
    requires PlainWorld(w) && Placed(w, t) && Serves(w, r.volume, r.device, r.target) && BindSucceeds(e)
    requires Mounted(t, Priv(w, r.volume))
    ensures BindTarget(t, Dev(w, r.volume), r.target, Priv(w, r.volume), flag, e) ==
            if Mounted(t, r.target) then (t, if Carries(t, r.target, flag) then OK else Internal)
            else (t + [Mount(Dev(w, r.volume).realDev, Priv(w, r.volume), r.target, e.bound.value)], OK)
  {
    KindOfTarget(w, r.target);
    FirstAtMembers(t, r.target);
    PrivateDevice(w, t, r.volume);
    if Mounted(t, r.target) {
      BindOverMount(t, Dev(w, r.volume), r.target, Priv(w, r.volume), flag, e);
    }
  }

  lemma CarriesMeans(n: Node, t: Table, path: string, mode: AccessMode, readonly: bool)
    ensures Suits(n, t, path, mode, readonly) <==>
            Carries(t, path, if WantsReadOnly(n, mode, readonly) then "ro"
                             else if WantsWriting(n, mode, readonly) then "rw" else "")
  {
  }

  /** The path a device path links to. */
  function LinkOf(n: Node, device: string): string {
    if device in n.links then n.links[device] else device
  }

  /**
    A publish of a filesystem volume that has its private mount, if no call fails. It succeeds exactly for
    the modes that name an access, if what is mounted suits the request and no other target is in the way; the
    private mount is then bound to the target unless the target is mounted. Otherwise nothing changes, and
    the answer is the answer of something that is wrong.
  */
  lemma SharedPublishMeans(w: World, t: Table, r: PublishRequest, mode: AccessMode, e: PublishEnv)
    requires PlainWorld(w) && Placed(w, t) && Serves(w, r.volume, r.device, r.target) && IsMount(r, mode)
    requires BindSucceeds(e) && Mounted(t, w.node.privDir + "/" + r.volume)
    ensures var priv := w.node.privDir + "/" + r.volume;
            var (t', s) := Publish(w.node, t, r, e);
            var suits := Suits(w.node, t, priv, mode, r.readonly);
            var targetSuits := Suits(w.node, t, r.target, mode, r.readonly);
            var inTheWay := Alone(w.node, mode) && OtherTargetMounted(w, t, r);
            && (s == OK <==>
                  mode != UnknownMode && mode != MultiNodeMultiWriter && suits && targetSuits && !inTheWay)
            && (s == AlreadyExists <==> mode == MultiNodeMultiWriter)
            && (s == FailedPrecondition ==> inTheWay)
            && (s == InvalidArgument ==> mode == UnknownMode || !suits)
            && (s == Internal ==> suits && !targetSuits && !inTheWay)
            && s in {OK, AlreadyExists, FailedPrecondition, InvalidArgument, Internal}
            && t' == if s != OK || Mounted(t, r.target) then t
                     else t + [Mount(LinkOf(w.node, r.device), priv, r.target, e.bound.value)]
  {
    CapabilityMeans(w.node, mode, r.readonly);
    var c := CheckCapability(w.node, r.capability.value);
    if c.Accepted? {
      var flag := WantedOption(c.multiAccessFlag, r.readonly);
      CarriesMeans(w.node, t, Priv(w, r.volume), mode, r.readonly);
      CarriesMeans(w.node, t, r.target, mode, r.readonly);
      SharedStages(w, t, r, mode, c.multiAccessFlag, e, flag);
    }
  }

  lemma SharedStages(w: World, t: Table, r: PublishRequest, mode: AccessMode, multiAccessFlag: string, e: PublishEnv,
                     flag: string)
    requires PlainWorld(w) && Placed(w, t) && Serves(w, r.volume, r.device, r.target) && BindSucceeds(e)
    requires Mounted(t, Priv(w, r.volume)) && flag == WantedOption(multiAccessFlag, r.readonly)
    ensures var (t', s) := PublishFilesystem(w.node, t, r, mode, multiAccessFlag, e);
            var suits := Carries(t, Priv(w, r.volume), flag);
            var inTheWay := Alone(w.node, mode) && OtherTargetMounted(w, t, r);
            && (s == OK <==> suits && Carries(t, r.target, flag) && !inTheWay)
            && (s == FailedPrecondition ==> inTheWay)
            && (s == InvalidArgument ==> !suits)
            && (s == Internal ==> suits && !Carries(t, r.target, flag) && !inTheWay)
            && s in {OK, FailedPrecondition, InvalidArgument, Internal}
            && t' == if s != OK || Mounted(t, r.target) then t
                     else t + [Mount(LinkOf(w.node, r.device), Priv(w, r.volume), r.target, e.bound.value)]
  {
    SomeRows(w, t, r.volume);
    OnlyTargetMeans(w, t, r);
    ReuseFails(w, t, r, flag, Alone(w.node, mode));
    BindMeans(w, t, r, flag, e);
    assert Dev(w, r.volume).realDev == LinkOf(w.node, r.device);
  }

  /**
    A publish of a filesystem volume that is mounted nowhere, if no call fails: for five modes the private
    mount is made and bound to the target, unless the private directory is there with nothing mounted on
    the whole node.
  */
  lemma FirstPublishMeans(w: World, t: Table, r: PublishRequest, mode: AccessMode, e: PublishEnv)
    requires PlainWorld(w) && Placed(w, t) && Serves(w, r.volume, r.device, r.target) && IsMount(r, mode)
    requires CallsSucceed(e) && !Mounted(t, Priv(w, r.volume)) && !TargetMounted(w, t, r.volume)
    ensures var (t', s) := Publish(w.node, t, r, e);
            var (linked, priv) := (LinkOf(w.node, r.device), w.node.privDir + "/" + r.volume);
            && s == (if mode == UnknownMode then InvalidArgument
                     else if mode == MultiNodeMultiWriter then AlreadyExists
                     else if e.privPathMade == Existed && t == [] then Unavailable
                     else if mode == MultiNodeSingleWriter then Internal
                     else OK)
            && t' == if s != OK then t
                     else t + [Mount(linked, linked, priv, e.privMounted.value)]
                            + [Mount(linked, priv, r.target, e.bound.value)]
  {
    CapabilityMeans(w.node, mode, r.readonly);
    var c := CheckCapability(w.node, r.capability.value);
    if c.Accepted? {
      FirstStages(w, t, r, mode, c.multiAccessFlag, e);
    }
  }

  lemma FirstStages(w: World, t: Table, r: PublishRequest, mode: AccessMode, multiAccessFlag: string, e: PublishEnv)
    requires PlainWorld(w) && Placed(w, t) && Serves(w, r.volume, r.device, r.target) && CallsSucceed(e)
    requires !Mounted(t, Priv(w, r.volume)) && !TargetMounted(w, t, r.volume)
    requires mode != UnknownMode && mode != MultiNodeMultiWriter
    ensures var (t', s) := PublishFilesystem(w.node, t, r, mode, multiAccessFlag, e);
            var (linked, priv) := (LinkOf(w.node, r.device), Priv(w, r.volume));
            && s == (if e.privPathMade == Existed && t == [] then Unavailable
                     else if mode == MultiNodeSingleWriter then Internal else OK)
            && t' == if s != OK then t
                     else t + [Mount(linked, linked, priv, e.privMounted.value)]
                            + [Mount(linked, priv, r.target, e.bound.value)]
  {
    SomeRows(w, t, r.volume);
    KindOfTarget(w, r.target);
    KindOfPrivate(w, r.volume);
    var d, priv := Dev(w, r.volume), Priv(w, r.volume);
    var t1 := t + [Mount(d.realDev, d.realDev, priv, e.privMounted.value)];
    assert t1[|t|] in t1 && !Mounted(t1, r.target);
    AddPrivate(w, t, r.volume, e.privMounted.value);
    BindMeans(w, t1, r, WantedOption(multiAccessFlag, r.readonly), e);
    MakePrivateMeans(w.node, t, d, priv, mode, e);
  }

  lemma RawRowsConflict(w: World, t: Table, r: PublishRequest, flag: string, single: bool)
    requires PlainWorld(w) && Placed(w, t) && Serves(w, r.volume, r.device, r.target) && !Mounted(t, Priv(w, r.volume))
    ensures ReusePrivate(DevMounts(t, Dev(w, r.volume)), r.target, Priv(w, r.volume), flag, single) ==
            if single && OtherTargetMounted(w, t, r) then FailedPrecondition else Internal
  {
    var v := r.volume;
    var rows := DevMounts(t, Dev(w, v));
    KindOfTarget(w, r.target);
    DeviceRows(w, t, v);
    OnlyTargetMeans(w, t, r);
    if ScanRows(rows, r.target, Priv(w, v), flag, single).Clear? {
      ClearScan(w, t, v, r.target, flag, single);
    } else {
      ConflictMeans(rows, r.target, Priv(w, v), flag, single);
      assert Carries(rows, Priv(w, v), flag);
      var m :| m in rows && m.path != r.target && m.path != Priv(w, v);
      if Kind(w, m.path) == PrivateOf(v) {
        PathOfPrivate(w, m.path);
      }
    }
  }

  /** A filesystem publish of a volume that is in use as a raw block device fails and changes nothing, as does one
      that cannot read the mounts. */
  lemma RawInUseMeans(w: World, t: Table, r: PublishRequest, mode: AccessMode, e: PublishEnv)
    requires PlainWorld(w) && Placed(w, t) && Serves(w, r.volume, r.device, r.target) && IsMount(r, mode)
    requires mode != UnknownMode && mode != MultiNodeMultiWriter && e.deviceFound && e.targetMade && e.privDirMade
    requires !e.devMountsRead || (!Mounted(t, Priv(w, r.volume)) && TargetMounted(w, t, r.volume))
    ensures Publish(w.node, t, r, e) ==
            (t, if e.devMountsRead && Alone(w.node, mode) && OtherTargetMounted(w, t, r) then FailedPrecondition
                else Internal)
  {
    CapabilityMeans(w.node, mode, r.readonly);
    var c := CheckCapability(w.node, r.capability.value);
    if e.devMountsRead {
      SomeRows(w, t, r.volume);
      RawRowsConflict(w, t, r, WantedOption(c.multiAccessFlag, r.readonly), Alone(w.node, mode));
    }
  }

  /** Making a private mount where nothing is mounted: what comes of it, whichever call fails. */
  lemma MakePrivateMeans(n: Node, t: Table, d: Device, priv: string, mode: AccessMode, e: PublishEnv)
    requires DevMounts(t, d) == [] && !Mounted(t, priv)
    ensures var (t', s) := MakePrivate(n, t, d, priv, mode, e);
            && (s == Unavailable <==> e.privPathMade == Existed && e.allMountsRead && t == [])
            && (s == OK <==>
                  && e.privPathMade != MkdirFailed && (e.privPathMade == Existed ==> e.allMountsRead && t != [])
                  && mode in {SingleNodeWriter, SingleNodeReaderOnly, SingleNodeSingleWriter, SingleNodeMultiWriter,
                              MultiNodeReaderOnly}
                  && e.privMounted.Some?)
            && (s != OK && s != Unavailable ==> s == Internal)
            && t' == if s == OK then t + [Mount(d.realDev, d.realDev, priv, e.privMounted.value)] else t
  {
  }

  /**
    The private mount found under another name of its device: with the private directory there, a mount at it
    is taken for the volume's exactly if its device leads to the volume's.
  */
  lemma RenamedPrivateMeans(n: Node, t: Table, d: Device, priv: string, mode: AccessMode, e: PublishEnv)
    requires DevMounts(t, d) == [] && Mounted(t, priv) && e.privPathMade == Existed && e.allMountsRead
    ensures MakePrivate(n, t, d, priv, mode, e) ==
            (t, if forall m :: m in t && m.path == priv ==> LinkOf(n, m.device) == d.realDev then OK else Internal)
  {
  }

  /** A raw block volume, if no call fails: bound from its device to a target that is free; with one target at a
      time, any other mount of the device that comes first is in the way. */
  lemma BlockPublishMeans(w: World, t: Table, r: PublishRequest, mode: AccessMode, e: PublishEnv)
    requires PlainWorld(w) && Placed(w, t) && Serves(w, r.volume, r.device, r.target) && IsBlock(r, mode)
    requires BindSucceeds(e)
    ensures var (t', s) := Publish(w.node, t, r, e);
            var rows := DevMounts(t, Dev(w, r.volume));
            && (s == OK <==> mode != UnknownMode && (Alone(w.node, mode) ==> rows == [] || rows[0].path == r.target))
            && (s != OK ==> s == InvalidArgument)
            && t' == if s != OK || Mounted(t, r.target) then t
                     else t + [Mount("devtmpfs", LinkOf(w.node, r.device), r.target, e.bound.value)]
  {
    BlockStages(w, t, r, Alone(w.node, mode), e);
  }

  lemma BlockStages(w: World, t: Table, r: PublishRequest, single: bool, e: PublishEnv)
    requires PlainWorld(w) && Placed(w, t) && Serves(w, r.volume, r.device, r.target) && BindSucceeds(e)
    ensures var (t', s) := MountBlock(t, Dev(w, r.volume), r.target, single, e);
            var rows := DevMounts(t, Dev(w, r.volume));
            && (s == OK <==> (single ==> rows == [] || rows[0].path == r.target))
            && (s != OK ==> s == InvalidArgument)
            && t' == if s != OK || Mounted(t, r.target) then t
                     else t + [Mount("devtmpfs", LinkOf(w.node, r.device), r.target, e.bound.value)]
  {
    var rows := DevMounts(t, Dev(w, r.volume));
    KindOfTarget(w, r.target);
    BlockRefusedIff(rows, r.target, single);
    ScanBlockMembers(rows, r.target, single);
    DeviceRows(w, t, r.volume);
    assert Mounted(rows, r.target) <==> Mounted(t, r.target);
  }

  lemma OtherRowComesFirst(w: World, t: Table, r: PublishRequest)
    requires PlainWorld(w) && GoodRows(w, t) && r.volume in w.devices
    requires !Mounted(t, r.target) && OtherTargetMounted(w, t, r)
    ensures var rows := DevMounts(t, Dev(w, r.volume)); rows != [] && rows[0].path != r.target
  {
    var rows := DevMounts(t, Dev(w, r.volume));
    DeviceRows(w, t, r.volume);
    var m :| m in t && m.path != r.target && m.path in w.targets && w.targets[m.path] == r.volume;
    KindOfTarget(w, m.path);
    assert m in rows;
    assert rows[0] in rows && rows[0] in t;
  }

  lemma SecondBlockTarget(w: World, t: Table, r: PublishRequest, mode: AccessMode, e: PublishEnv)
    requires PlainWorld(w) && Placed(w, t) && Serves(w, r.volume, r.device, r.target) && BindSucceeds(e)
    requires !Mounted(t, r.target) && OtherTargetMounted(w, t, r) && mode != UnknownMode && IsBlock(r, mode)
    ensures Publish(w.node, t, r, e).1 == OK <==> !Alone(w.node, mode)
    ensures Publish(w.node, t, r, e).1 != OK ==> Publish(w.node, t, r, e).0 == t
  {
    OtherRowComesFirst(w, t, r);
    BlockPublishMeans(w, t, r, mode, e);
  }

  lemma SecondFilesystemTarget(w: World, t: Table, r: PublishRequest, mode: AccessMode, e: PublishEnv)
    requires PlainWorld(w) && Placed(w, t) && Serves(w, r.volume, r.device, r.target) && BindSucceeds(e)
    requires !Mounted(t, r.target) && OtherTargetMounted(w, t, r) && IsMount(r, mode)
    requires mode != UnknownMode && mode != MultiNodeMultiWriter && Mounted(t, w.node.privDir + "/" + r.volume)
    requires Suits(w.node, t, w.node.privDir + "/" + r.volume, mode, r.readonly)
    ensures Publish(w.node, t, r, e).1 == OK <==> !Alone(w.node, mode)
    ensures Publish(w.node, t, r, e).1 != OK ==> Publish(w.node, t, r, e).0 == t
  {
    SharedPublishMeans(w, t, r, mode, e);
  }

  /**
    The second target of a volume, for a filesystem whose mounts suit the request and for a raw block device:
    with calls working and another target mounted, the publish succeeds exactly if multi-pod access is on
    or the mode is none of SINGLE_NODE_WRITER, SINGLE_NODE_READER_ONLY and SINGLE_NODE_SINGLE_WRITER.
  */
  lemma SecondTargetSucceedsIff(w: World, t: Table, r: PublishRequest, mode: AccessMode, e: PublishEnv)
    requires PlainWorld(w) && Placed(w, t) && Serves(w, r.volume, r.device, r.target) && BindSucceeds(e)
    requires !Mounted(t, r.target) && OtherTargetMounted(w, t, r) && mode != UnknownMode
    requires || IsBlock(r, mode)
             || (&& IsMount(r, mode) && mode != MultiNodeMultiWriter && Mounted(t, w.node.privDir + "/" + r.volume)
                 && Suits(w.node, t, w.node.privDir + "/" + r.volume, mode, r.readonly))
    ensures Publish(w.node, t, r, e).1 == OK <==>
              w.node.multiPodAccess || mode !in {SingleNodeWriter, SingleNodeReaderOnly, SingleNodeSingleWriter}
    ensures Publish(w.node, t, r, e).1 != OK ==> Publish(w.node, t, r, e).0 == t
  {
    if IsBlock(r, mode) {
      SecondBlockTarget(w, t, r, mode, e);
    } else {
      SecondFilesystemTarget(w, t, r, mode, e);
    }
  }

  // ---------------------------------------------------------------- calls that fail

  /** A failed publish takes the private mount back exactly if it is the only mount of the device and both
      calls of the clean-up work. */
  lemma CleanupMeans(t: Table, d: Device, priv: string, opts: seq<string>, e: CleanupEnv)
    requires forall m :: m in t ==> m.device != d.realDev && !(m.device == "devtmpfs" && m.source == d.realDev)
    ensures var t1 := t + [Mount(d.realDev, d.realDev, priv, opts)];
            Cleanup(t1, d, priv, e) == if e.mountsRead && e.unmounted then t else t1
  {
    var t1 := t + [Mount(d.realDev, d.realDev, priv, opts)];
    assert t1[..|t|] == t;
    DevMountsMembers(t, d);
    assert DevMounts(t, d) == [] by {
      if DevMounts(t, d) != [] {
        assert DevMounts(t, d)[0] in DevMounts(t, d);
      }
    }
  }

  /** With a second mount of the device, or a single one elsewhere, the clean-up leaves everything alone. */
  lemma CleanupSpares(t: Table, d: Device, priv: string, m: Mount, e: CleanupEnv)
    requires m in t && m.path != priv && (m.device == d.realDev || (m.device == "devtmpfs" && m.source == d.realDev))
    ensures Cleanup(t, d, priv, e) == t
  {
    DevMountsMembers(t, d);
    assert m in DevMounts(t, d);
  }

  /** What is wrong before the table is looked at, and its answer; nothing is changed but for the clean-up. */
  lemma PublishRefused(n: Node, t: Table, r: PublishRequest, e: PublishEnv)
    ensures var (t', s) := Publish(n, t, r, e);
            && (r.target == "" || r.capability.None? ==> (t', s) == (t, InvalidArgument))
            && (r.target != "" && r.capability.Some? ==>
                  var c := r.capability.value;
                  var refused := c.mode.None? || c.access == NoAccessType || c.mode.value == UnknownMode
                                 || (c.access == MountAccess && c.mode.value == MultiNodeMultiWriter);
                  && (!e.deviceFound ==> (t', s) == (t, Internal))
                  && (e.deviceFound && refused ==>
                        && t' == t
                        && s == if c == Capability(Some(MultiNodeMultiWriter), MountAccess) then AlreadyExists
                                else InvalidArgument)
                  && (e.deviceFound && !refused && !e.targetMade ==> s == FailedPrecondition)
                  && (e.deviceFound && !refused && e.targetMade && !e.privDirMade ==> (t', s) == (t, Unknown)))
  {
  }

  /** A filesystem publish that finds or makes its private mount and cannot bind it. */
  lemma BindFails(t: Table, d: Device, target: string, priv: string, flag: string, e: PublishEnv)
    requires !(e.pathMountsRead && e.targetRemade && e.bound.Some?)
    ensures var (t', s) := BindTarget(t, d, target, priv, flag, e);
            && (!e.pathMountsRead ==> (t', s) == (t, Internal))
            && (e.pathMountsRead && !Mounted(t, target) ==>
                  && s == (if e.targetRemade then Internal else FailedPrecondition)
                  && t' == Cleanup(t, d, priv, e.cleanup))
            && (e.pathMountsRead && Mounted(t, target) ==> t' == t)
  {
    FirstAtMembers(t, target);
  }

  /** A raw block publish that fails changes nothing. */
  lemma BlockFails(t: Table, d: Device, target: string, single: bool, e: PublishEnv)
    requires !(e.devMountsRead && e.targetRemade && e.bound.Some?)
    ensures var (t', s) := MountBlock(t, d, target, single, e);
            && t' == t
            && (!e.devMountsRead ==> s == Internal)
            && (e.devMountsRead && DevMounts(t, d) == [] ==>
                  s == if e.targetRemade then Internal else FailedPrecondition)
  {
  }

  /** The private mount made by a publish whose binding fails is taken back if the clean-up works, so that the
      table is as before the publish. */
  lemma FailedFirstPublish(w: World, t: Table, r: PublishRequest, mode: AccessMode, e: PublishEnv)
    requires PlainWorld(w) && Placed(w, t) && Serves(w, r.volume, r.device, r.target) && IsMount(r, mode)
    requires !Mounted(t, Priv(w, r.volume)) && !TargetMounted(w, t, r.volume) && NothingFails(e)
    requires e.privPathMade == Created && e.privMounted.Some? && (e.targetRemade ==> e.bound.None?)
    requires mode !in {UnknownMode, MultiNodeMultiWriter, MultiNodeSingleWriter}
    ensures var (t', s) := Publish(w.node, t, r, e);
            && s == (if e.targetRemade then Internal else FailedPrecondition)
            && t' == if e.cleanup.mountsRead && e.cleanup.unmounted then t
                     else t + [Mount(LinkOf(w.node, r.device), LinkOf(w.node, r.device),
                                     w.node.privDir + "/" + r.volume, e.privMounted.value)]
  {
    CapabilityMeans(w.node, mode, r.readonly);
    SomeRows(w, t, r.volume);
    KindOfTarget(w, r.target);
    KindOfPrivate(w, r.volume);
    var d, priv := Dev(w, r.volume), Priv(w, r.volume);
    var t1 := t + [Mount(d.realDev, d.realDev, priv, e.privMounted.value)];
    assert !Mounted(t1, r.target);
    MakePrivateMeans(w.node, t, d, priv, mode, e);
    DevMountsMembers(t, d);
    CleanupMeans(t, d, priv, e.privMounted.value, e.cleanup);
    var c := CheckCapability(w.node, r.capability.value);
    BindFails(t1, d, r.target, priv, WantedOption(c.multiAccessFlag, r.readonly), e);
  }

  // ---------------------------------------------------------------- unpublish

  /** What each answer to an unpublish means, and what is left mounted. */
  lemma UnpublishMeans(w: World, t: Table, v: string, device: string, target: string, e: UnpublishEnv)
    requires PlainWorld(w) && Placed(w, t) && Serves(w, v, device, target)
    ensures var (t', s) := Unpublish(w.node, t, v, device, target, e);
            && (s == InvalidArgument <==> target == "")
            && s in {OK, InvalidArgument, Internal}
            && (s == Internal ==>
                  t' == if e.deviceFound && e.mountsRead && (Mounted(t, target) ==> e.targetUnmounted)
                        then Unmount(t, target) else t)
            && (s == InvalidArgument ==> t' == t)
  {
    PlainFlags(w, t, v, target);
    UnpublishSucceedsIff(w, t, v, device, target, e);
    if !Mounted(t, target) {
      UnmountOfMissing(t, target);
    }
    if Mounted(t, Priv(w, v)) {
      PrivateAfterTarget(w, t, v, target, e);
    }
  }

  /**
    A volume shared by two pods, whatever else is mounted: a successful unpublish of the one target takes that
    target away and leaves the other pod's target and the private mount.
  */
  lemma OtherPodKeepsMounts(n: Node, t: Table, volume: string, device: string, e: UnpublishEnv, p: Mount, m: Mount,
                            pod: string, rest: string, otherPod: string, otherRest: string)
    requires pod != "" && otherPod != "" && pod != otherPod && '/' !in pod && '/' !in otherPod
    requires n.isUuid(pod) && n.isUuid(otherPod)
    requires var target := "/var/lib/kubelet/pods/" + pod + "/" + rest;
             var priv := n.privDir + "/" + volume;
             && target != priv && Once(t, target) && Once(t, priv)
             && p in t && p.path == priv && p.device == LinkOf(n, device)
             && m in t && m.path == "/var/lib/kubelet/pods/" + otherPod + "/" + otherRest && m.path != priv
             && m.device == LinkOf(n, device)
             && Unpublish(n, t, volume, device, target, e).1 == OK
    ensures var target := "/var/lib/kubelet/pods/" + pod + "/" + rest;
            var t' := Unpublish(n, t, volume, device, target, e).0;
            && p in t' && m in t'
            && ((exists x :: x in t && x.path == target && HoldsDevice(n, x, device)) ==> !Mounted(t', target))
  {
    var target := "/var/lib/kubelet/pods/" + pod + "/" + rest;
    var d, priv := DeviceAt(n, device), PrivatePath(n, volume);
    assert InPod(n, target, pod);
    assert InPod(n, m.path, otherPod);
    PodMeans(n, target, pod);
    PodMeans(n, m.path, otherPod);
    assert OtherPodRow(n, m, d, target, priv);
    UnmountMembers(t, target);
  }

  // ---------------------------------------------------------------- NFS

  /** The rows that decide about a publish of an export: its row at the target, and with one path at a time any
      row of it. */
  predicate Decides(m: Mount, r: NfsRequest, mode: AccessMode) {
    && m.device == r.url
    && (m.path == r.target || mode in {SingleNodeWriter, SingleNodeReaderOnly, SingleNodeSingleWriter})
  }

  predicate IsNfs(r: NfsRequest, mode: AccessMode) {
    r.target != "" && r.capability == Some(Capability(Some(mode), MountAccess))
  }

  lemma {:induction false} ScanNfsIsFirst(t: Table, r: NfsRequest, mode: AccessMode, i: nat)
    requires i < |t| && Decides(t[i], r, mode) && forall j :: 0 <= j < i ==> !Decides(t[j], r, mode)
    ensures ScanNfs(t, r.url, r.target, if r.readonly then "ro" else "rw", SingleNfsMode(mode)) ==
            Some(if t[i].path != r.target then FailedPrecondition
                 else if (if r.readonly then "ro" else "rw") in t[i].opts then OK else AlreadyExists)
  {
    var option := if r.readonly then "ro" else "rw";
    ScanNfsMembers(t[..i], r.url, r.target, option, SingleNfsMode(mode));
    assert t[..i + 1][..i] == t[..i];
    ScanNfsStops(t, i + 1, r.url, r.target, option, SingleNfsMode(mode));
  }

  /** A publish of an export that is mounted changes nothing; the first row that decides gives the answer. */
  lemma NfsPublishFinds(t: Table, r: NfsRequest, mode: AccessMode, e: NfsEnv, i: nat)
    requires IsNfs(r, mode) && e.targetMade && e.mountsRead
    requires i < |t| && Decides(t[i], r, mode) && forall j :: 0 <= j < i ==> !Decides(t[j], r, mode)
    ensures PublishNfs(t, r, e) ==
            (t, if t[i].path != r.target then FailedPrecondition
                else if (if r.readonly then "ro" else "rw") in t[i].opts then OK else AlreadyExists)
  {
    ScanNfsIsFirst(t, r, mode, i);
  }

  lemma {:induction false} OutcomeMeans(e: NfsEnv, i: nat, k: nat)
    requires i <= k <= 5 && (forall j :: i <= j < k ==> e.attempt(j) == Refused)
    requires e.attempt(k) != Refused || k == 5
    ensures Outcome(e, i) == e.attempt(k)
    decreases k - i
  {
    if i < k {
      OutcomeMeans(e, i + 1, k);
    }
  }

  /** A publish of an export that no row decides about mounts it, if one of the first six attempts does and all
      before it are worth a retry. */
  lemma NfsPublishMounts(t: Table, r: NfsRequest, mode: AccessMode, e: NfsEnv, k: nat)
    requires IsNfs(r, mode) && e.targetMade && e.mountsRead && forall m :: m in t ==> !Decides(m, r, mode)
    requires k <= 5 && (forall j :: 0 <= j < k ==> e.attempt(j) == Refused) && (e.attempt(k) != Refused || k == 5)
    ensures PublishNfs(t, r, e) ==
            match e.attempt(k)
            case Attached(opts) => (t + [Mount(r.url, r.url, r.target, opts)], OK)
            case _ => (t, Unknown)
  {
    ScanNfsMembers(t, r.url, r.target, if r.readonly then "ro" else "rw", SingleNfsMode(mode));
    OutcomeMeans(e, 0, k);
  }

  /** What is wrong with a publish of an export before the table is looked at. */
  lemma NfsPublishRefused(t: Table, r: NfsRequest, e: NfsEnv)
    ensures (!exists mode :: IsNfs(r, mode)) ==> PublishNfs(t, r, e) == (t, InvalidArgument)
    ensures (exists mode :: IsNfs(r, mode)) && !(e.targetMade && e.mountsRead) ==>
              PublishNfs(t, r, e) == (t, if e.targetMade then Internal else FailedPrecondition)
  {
    if r.capability.Some? && r.capability.value.mode.Some? {
      assert IsNfs(r, r.capability.value.mode.value) <==> r.target != "" && r.capability.value.access == MountAccess;
    }
  }

  /** The row is of an export in whose address the filesystem's name occurs. */
  ghost predicate Names(m: Mount, filesystem: string) {
    exists before, after :: m.device == before + filesystem + after
  }

  lemma ContainsMeans(m: Mount, filesystem: string)
    ensures ContainsString(m.device, filesystem) <==> Names(m, filesystem)
  {
    if ContainsString(m.device, filesystem) {
      var i :| 0 <= i <= |m.device| && filesystem <= m.device[i..];
      var after := m.device[i..][|filesystem|..];
      assert m.device == m.device[..i] + filesystem + after;
    }
    if before, after :| m.device == before + filesystem + after {
      assert m.device[|before|..] == filesystem + after;
      assert filesystem <= m.device[|before|..];
    }
  }

  /** An unpublish of an export: on success nothing of it is mounted at the target, and all other rows stay. */
  lemma NfsUnpublishMeans(t: Table, filesystem: string, target: string, mountsRead: bool, unmounted: bool)
    requires Once(t, target)
    ensures var (t', s) := UnpublishNfs(t, filesystem, target, mountsRead, unmounted);
            var mounted := exists m :: m in t && Names(m, filesystem) && m.path == target;
            && (s == OK <==> mountsRead && (mounted ==> unmounted))
            && (s != OK ==> s == Internal && t' == t)
            && (s == OK && mounted ==> forall m :: m in t' <==> m in t && m.path != target)
            && (s == OK && !mounted ==> t' == t)
  {
    forall m | m in t
      ensures ContainsString(m.device, filesystem) <==> Names(m, filesystem)
    {
      ContainsMeans(m, filesystem);
    }
    UnmountMembers(t, target);
  }
}
