/** What expansion guarantees for a single call and for every run of calls. */
module ExpandTheorems {
  import opened CsiTypes
  import opened VolumeId
  import opened VolumeSize
  import opened Expand

  function Max(a: int, b: int): int {
    if a < b then b else a
  }

  /** No volume appears, disappears or shrinks; one that grows gets exactly the wanted size. */
  ghost predicate Grown(vols: Volumes, vols': Volumes, want: Sized) {
    && vols'.Keys == vols.Keys
    && forall k :: k in vols ==>
         || vols'[k] == vols[k]
         || (want.SizeKiB? && vols[k].size < want.kib && vols'[k] == vols[k].(size := want.kib))
  }

  lemma {:induction false} ExpandGrows(c: Config, env: nat -> ExpandEnv, level: nat, vols: Volumes, handle: string,
                                       want: Sized)
    requires Wanted(want)
    ensures Grown(vols, ExpandVolume(c, env, level, vols, handle, want).0, want)
    decreases Rank(vols, want), 0
  {
    var key := KeyOf(c, handle);
    if key in vols && want.SizeKiB? && vols[key].size < want.kib {
      ResizeIsExact(vols, key, want.kib);
      ResizeLeavesFewerSmaller(vols, key, want.kib);
      ExpandPairGrows(c, env, level, Resize(vols, key, want.kib), key, want);
    }
  }

  lemma {:induction false} ExpandPairGrows(c: Config, env: nat -> ExpandEnv, level: nat, vols: Volumes,
                                           key: VolumeKey, want: Sized)
    requires Wanted(want)
    ensures Grown(vols, ExpandPair(c, env, level, vols, key, want).0, want)
    decreases Rank(vols, want), 1
  {
    if PairOf(c, key).Some? && GroupOf(c, key).Some? {
      ExpandGrows(c, env, level + 1, vols, RemoteHandle(c, key), want);
    }
  }

  /** After a success the volume has the larger of its old and the wanted size. */
  lemma DoneReaches(c: Config, env: nat -> ExpandEnv, level: nat, vols: Volumes, handle: string, want: Sized)
    requires Wanted(want) && '/' !in handle && ExpandVolume(c, env, level, vols, handle, want).1.Done?
    ensures var key := KeyOf(c, handle);
            var vols' := ExpandVolume(c, env, level, vols, handle, want).0;
            && want.SizeKiB? && key in vols && key in vols'
            && vols'[key].size == Max(vols[key].size, want.kib)
  {
    ExpandGrows(c, env, level, vols, handle, want);
    var key := KeyOf(c, handle);
    if vols[key].size < want.kib {
      ResizeIsExact(vols, key, want.kib);
      ExpandPairGrows(c, env, level, Resize(vols, key, want.kib), key, want);
    }
  }

  /** The volume's pair replicates to a block volume other than itself. */
  ghost predicate ReplicatesTo(c: Config, vols: Volumes, key: VolumeKey, remote: VolumeKey) {
    && key in vols && vols[key].replicated && remote in vols && remote != key
    && PairOf(c, key).Some? && GroupOf(c, key).Some? && !GroupOf(c, key).value.remoteToLocal
    && '/' !in RemoteHandle(c, key) && KeyOf(c, RemoteHandle(c, key)) == remote
  }

  /**
    When a volume that replicates to a remote one is expanded with success, both end with the wanted
    size if the volume had to grow. A volume that is large enough already hides a remote that is not:
    nothing is done for it. So the two end equal exactly when the volume grew and the remote was not ahead
    of the wanted size, or they were equal before.
  */
  lemma PairEndsEqualIff(c: Config, env: nat -> ExpandEnv, level: nat, vols: Volumes, handle: string, want: Sized,
                         remote: VolumeKey)
    requires Wanted(want) && want.SizeKiB? && '/' !in handle && ReplicatesTo(c, vols, KeyOf(c, handle), remote)
    requires ExpandVolume(c, env, level, vols, handle, want).1.Done?
    ensures var key := KeyOf(c, handle);
            var vols' := ExpandVolume(c, env, level, vols, handle, want).0;
            && key in vols' && remote in vols'
            && (vols[key].size < want.kib ==> vols'[remote].size == Max(vols[remote].size, want.kib))
            && (vols'[remote].size == vols'[key].size <==>
                  if vols[key].size < want.kib then vols[remote].size <= want.kib
                  else vols[remote].size == vols[key].size)
  {
    var key := KeyOf(c, handle);
    ExpandGrows(c, env, level, vols, handle, want);
    DoneReaches(c, env, level, vols, handle, want);
    if vols[key].size < want.kib {
      ResizeIsExact(vols, key, want.kib);
      DoneReaches(c, env, level + 1, Resize(vols, key, want.kib), RemoteHandle(c, key), want);
    }
  }

  /** The calls of one level all work, up to the expansion of the remote volume. */
  predicate LevelWorks(e: ExpandEnv) {
    e.legacyChecked && e.probed && e.found && e.resized && e.pairsRead && e.groupRead
  }

  /** It happens: the remote expansion fails after the volume has grown, and the same request again reports
      success, whatever fails at deeper levels, and leaves the remote volume small. */
  lemma RetryLeavesReplicaSmall(c: Config, env: nat -> ExpandEnv, again: nat -> ExpandEnv, vols: Volumes,
                                handle: string, want: Sized, remote: VolumeKey)
    requires Wanted(want) && want.SizeKiB? && handle != "" && '/' !in handle && KeyOf(c, handle).0 != ""
    requires ReplicatesTo(c, vols, KeyOf(c, handle), remote)
    requires vols[KeyOf(c, handle)].size < want.kib && vols[remote].size < want.kib
    requires LevelWorks(env(0)) && !env(1).resized && LevelWorks(again(0))
    ensures var key := KeyOf(c, handle);
            var (vols1, o1) := ExpandVolume(c, env, 0, vols, handle, want);
            && o1 == Failed(Internal)
            && ExpandVolume(c, again, 0, vols1, handle, want) == (vols1, Done(want.kib))
            && key in vols1 && remote in vols1 && vols1[remote] == vols[remote] && vols1[remote].size < vols1[key].size
  {
    var key := KeyOf(c, handle);
    ResizeIsExact(vols, key, want.kib);
    var grown := Resize(vols, key, want.kib);
    var (v, o) := ExpandVolume(c, env, 1, grown, RemoteHandle(c, key), want);
    assert v == grown && o.Failed?;
    assert ExpandPair(c, env, 0, grown, key, want) == (grown, o);
  }

  // ---------------------------------------------------------------- runs

  datatype Call = Call(env: nat -> ExpandEnv, handle: string, want: Sized)

  ghost function Run(c: Config, vols: Volumes, calls: seq<Call>): Volumes
    requires forall i :: 0 <= i < |calls| ==> Wanted(calls[i].want)
  {
    if calls == [] then vols
    else
      var last := calls[|calls| - 1];
      ExpandVolume(c, last.env, 0, Run(c, vols, calls[..|calls| - 1]), last.handle, last.want).0
  }

  /** In every run of expansions, whichever of them fail and wherever, no volume ever shrinks and a
      volume that changed has a size somebody asked for. */
  lemma {:induction false} RunNeverShrinks(c: Config, vols: Volumes, calls: seq<Call>)
    requires forall i :: 0 <= i < |calls| ==> Wanted(calls[i].want)
    ensures Run(c, vols, calls).Keys == vols.Keys
    ensures forall k :: k in vols ==>
              && vols[k].size <= Run(c, vols, calls)[k].size
              && (Run(c, vols, calls)[k] == vols[k]
                  || exists i :: 0 <= i < |calls| && calls[i].want == SizeKiB(Run(c, vols, calls)[k].size))
  {
    if calls != [] {
      var last := calls[|calls| - 1];
      var before := Run(c, vols, calls[..|calls| - 1]);
      RunNeverShrinks(c, vols, calls[..|calls| - 1]);
      ExpandGrows(c, last.env, 0, before, last.handle, last.want);
      var after := Run(c, vols, calls);
      forall k | k in vols
        ensures vols[k].size <= after[k].size
        ensures after[k] == vols[k] || exists i :: 0 <= i < |calls| && calls[i].want == SizeKiB(after[k].size)
      {
        if after[k] == before[k] {
          if before[k] != vols[k] {
            var i :| 0 <= i < |calls| - 1 && calls[..|calls| - 1][i].want == SizeKiB(before[k].size);
            assert calls[i].want == SizeKiB(after[k].size);
          }
        } else {
          assert calls[|calls| - 1].want == SizeKiB(after[k].size);
        }
      }
    }
  }

  /** The size check produces what expansion may be called with. */
  lemma CheckedSizeIsWanted(rnd: real -> real, required: int64, limit: int64)
    requires Rounding(rnd)
    ensures Wanted(ValidateVolSize(rnd, required, limit))
  {
    ValidSize(rnd, required, limit);
  }

  // ---------------------------------------------------------------- success

  /** The first pair of the volume's system that has the volume at its local end. */
  ghost predicate IsPairOf(c: Config, key: VolumeKey, i: nat) {
    && key.0 in c.pairs && i < |c.pairs[key.0]| && c.pairs[key.0][i].local == key.1
    && forall j :: 0 <= j < i ==> c.pairs[key.0][j].local != key.1
  }

  lemma {:induction false} FindPairIsFirst(pairs: seq<Pair>, volume: string)
    ensures FindPair(pairs, volume).None? <==> forall j :: 0 <= j < |pairs| ==> pairs[j].local != volume
    ensures forall i :: && 0 <= i < |pairs| && pairs[i].local == volume
                        && (forall j :: 0 <= j < i ==> pairs[j].local != volume)
                        ==> FindPair(pairs, volume) == Some(pairs[i])
  {
    if pairs != [] {
      FindPairIsFirst(pairs[1..], volume);
      forall i | 0 <= i < |pairs| && pairs[i].local == volume && forall j :: 0 <= j < i ==> pairs[j].local != volume
        ensures FindPair(pairs, volume) == Some(pairs[i])
      {
        if i > 0 {
          assert pairs[0].local != volume;
          assert pairs[1..][i - 1] == pairs[i];
        }
      }
    }
  }

  /** The pair and the group that expansion finds for a volume, and the handle it makes of them. */
  lemma PairMeans(c: Config, key: VolumeKey, i: nat)
    requires IsPairOf(c, key, i)
    ensures var p := c.pairs[key.0][i];
            && PairOf(c, key) == Some(p)
            && (GroupOf(c, key).Some? <==> (key.0, p.group) in c.groups)
            && (GroupOf(c, key).Some? ==>
                  && GroupOf(c, key) == Some(c.groups[(key.0, p.group)])
                  && RemoteHandle(c, key) == c.groups[(key.0, p.group)].remoteSystem + "-" + p.remote)
  {
    FindPairIsFirst(c.pairs[key.0], key.1);
  }

  lemma NoPairMeans(c: Config, key: VolumeKey)
    ensures PairOf(c, key).None? <==>
              (key.0 in c.pairs ==> forall j :: 0 <= j < |c.pairs[key.0]| ==> c.pairs[key.0][j].local != key.1)
  {
    if key.0 in c.pairs {
      FindPairIsFirst(c.pairs[key.0], key.1);
    }
  }

  /** The volume a handle names: a handle without a dash names one of the default system, and a system may
      be written by an alias. */
  lemma HandleNames(c: Config, system: string, volume: string)
    requires volume != "" && '/' !in system + volume && '-' !in system && '-' !in volume
    requires system != "" && (system in c.names ==> c.names[system] != "")
    ensures KeyOf(c, volume) == (c.defaultSystem, volume)
    ensures KeyOf(c, system + "-" + volume) == (if system in c.names then c.names[system] else system, volume)
  {
    SplitFree(volume, '-');
    BlockRoundTrip(c.names, system, volume);
  }

  /** What one level gets right before it looks at sizes. */
  ghost predicate Reached(c: Config, e: ExpandEnv, vols: Volumes, handle: string, want: Sized) {
    && e.legacyChecked && KeyOf(c, handle).0 != "" && e.probed && KeyOf(c, handle) in vols && e.found && want.SizeKiB?
  }

  /** The remote volume follows: pair and group are found, and the group is replicated from the remote side or
      the remote expansion succeeds and the volume can be read again. */
  ghost predicate RemoteFollows(c: Config, env: nat -> ExpandEnv, level: nat, vols: Volumes, key: VolumeKey,
                                want: Sized)
    requires Wanted(want) && want.SizeKiB? && key in vols
  {
    var grown := vols[key := vols[key].(size := want.kib)];
    && env(level).pairsRead && PairOf(c, key).Some? && env(level).groupRead && GroupOf(c, key).Some?
    && (|| GroupOf(c, key).value.remoteToLocal
        || (ExpandVolume(c, env, level + 1, grown, RemoteHandle(c, key), want).1.Done? && env(level).reread(0)))
  }

  /** The polling loop ends without a crash exactly if its first read works, or, while the volume does not show the
      wanted size, all its reads, the first and a hundred more. */
  lemma {:induction false} ReadsMean(e: ExpandEnv, vols: Volumes, key: VolumeKey, kib: int, attempt: nat)
    requires attempt <= 100
    ensures Reads(e, vols, key, kib, attempt) <==>
              && key in vols
              && if vols[key].size == kib then e.reread(attempt) else forall i :: attempt <= i <= 100 ==> e.reread(i)
    decreases 100 - attempt
  {
    if attempt < 100 {
      ReadsMean(e, vols, key, kib, attempt + 1);
    }
  }

  /** The remote expansion leaves a volume that has the wanted size alone, so that the first read finds it. */
  lemma FirstReadSuffices(c: Config, env: nat -> ExpandEnv, level: nat, vols: Volumes, key: VolumeKey, want: Sized)
    requires Wanted(want) && want.SizeKiB? && key in vols && vols[key].size == want.kib
    ensures ExpandPair(c, env, level, vols, key, want).1.Done? <==> RemoteFollows(c, env, level, vols, key, want)
    ensures ExpandPair(c, env, level, vols, key, want).1.Crashed? <==>
              && env(level).pairsRead && PairOf(c, key).Some? && env(level).groupRead && GroupOf(c, key).Some?
              && !GroupOf(c, key).value.remoteToLocal
              && var o := ExpandVolume(c, env, level + 1, vols, RemoteHandle(c, key), want).1;
                 o.Crashed? || (o.Done? && !env(level).reread(0))
    ensures var o := ExpandPair(c, env, level, vols, key, want).1;
            var found := env(level).pairsRead && PairOf(c, key).Some? && env(level).groupRead && GroupOf(c, key).Some?;
            && (o.Done? ==> o.capacityKiB == 0)
            && (o.Failed? ==>
                  if found then o == ExpandVolume(c, env, level + 1, vols, RemoteHandle(c, key), want).1
                  else o == Failed(Unknown))
  {
    assert vols[key := vols[key].(size := want.kib)] == vols;
    if PairOf(c, key).Some? && GroupOf(c, key).Some? {
      ExpandGrows(c, env, level + 1, vols, RemoteHandle(c, key), want);
    }
  }

  /**
    When a block volume is expanded with success, and with what reply: 0 if it is larger than wanted, the
    wanted size otherwise. An unreplicated volume needs only that the calls of its own level work; a
    replicated one that has to grow needs the remote volume to follow. Nothing is changed in a volume
    that is large enough, and nothing but the volume if it is not replicated.
  */
  lemma ExpandSucceedsIff(c: Config, env: nat -> ExpandEnv, level: nat, vols: Volumes, handle: string, want: Sized)
    requires Wanted(want) && handle != "" && '/' !in handle
    ensures var key := KeyOf(c, handle);
            var (vols', o) := ExpandVolume(c, env, level, vols, handle, want);
            && (o.Done? <==>
                  && Reached(c, env(level), vols, handle, want)
                  && (vols[key].size < want.kib ==>
                        env(level).resized && (vols[key].replicated ==> RemoteFollows(c, env, level, vols, key, want))))
            && (o.Done? ==> o.capacityKiB == if want.kib < vols[key].size then 0 else want.kib)
            && (o.Done? && want.kib <= vols[key].size ==> vols' == vols)
            && (o.Done? && want.kib > vols[key].size && !vols[key].replicated ==>
                  vols' == vols[key := Volume(want.kib, false)])
  {
    var key := KeyOf(c, handle);
    if Reached(c, env(level), vols, handle, want) && vols[key].size < want.kib {
      ResizeIsExact(vols, key, want.kib);
      FirstReadSuffices(c, env, level, Resize(vols, key, want.kib), key, want);
      assert Resize(vols, key, want.kib)[key := vols[key].(size := want.kib)] == Resize(vols, key, want.kib);
    }
  }

  /** What goes wrong first decides the error; a failure behind the volume's own growth is internal. */
  lemma ExpandFails(c: Config, env: nat -> ExpandEnv, level: nat, vols: Volumes, handle: string, want: Sized)
    requires Wanted(want) && '/' !in handle
    ensures var (e, key, o) := (env(level), KeyOf(c, handle), ExpandVolume(c, env, level, vols, handle, want).1);
            && (handle == "" ==> o == Failed(InvalidArgument))
            && (handle != "" && !Reached(c, e, vols, handle, want) ==>
                  o == if !e.legacyChecked then Failed(Internal)
                       else if key.0 == "" then Failed(InvalidArgument)
                       else if !e.probed then Failed(FailedPrecondition)
                       else if key !in vols then Failed(NotFound)
                       else if !e.found then Failed(Internal)
                       else Failed(want.status))
            && (handle != "" && Reached(c, e, vols, handle, want) ==> o.Done? || o == Failed(Internal) || o.Crashed?)
            && (!Reached(c, e, vols, handle, want) ==> ExpandVolume(c, env, level, vols, handle, want).0 == vols)
  {
  }

  /** A handle with a slash is answered by the filesystem's expansion; an empty one never is. */
  lemma NfsHandleDispatches(c: Config, env: nat -> ExpandEnv, level: nat, vols: Volumes, handle: string, want: Sized)
    requires Wanted(want) && '/' in handle
    ensures ExpandVolume(c, env, level, vols, handle, want) ==
            (vols, if env(level).legacyChecked then env(level).nfs else Failed(Internal))
  {
  }
}
