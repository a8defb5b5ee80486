/** The node publishing and unpublishing ephemeral volumes in place, proved against the functions of Ephemeral. */
module EphemeralService {
  import opened CsiTypes
  import opened VolumeId
  import opened Ephemeral
  import opened EphemeralTheorems
  import M = MountTable
  import H = HostMapping

  class EphemeralNode {
    const config: Config
    var vols: map<string, ArrayVol>
    var table: M.Table
    var locks: map<string, string>

    constructor (config: Config, st: State)
      ensures this.config == config && Now() == st
    {
      this.config, vols, table, locks := config, st.vols, st.table, st.locks;
    }

    function Now(): State
      reads this
    {
      State(vols, table, locks)
    }

    method NodePublishVolume(r: Request, e: PublishEnv) returns (s: Status)
      requires UniqueNames(Now())
      modifies this
      ensures (Now(), s) == NodePublish(config, old(Now()), r, e)
      ensures old(Unused(Now(), r, e)) && PlainIds(config, e.freshId) ==>
                SameExcept(old(Now()), Now(), r.handle, e.freshId, OwnPaths(config, r, e.freshId))
    {
      if Unused(Now(), r, e) && PlainIds(config, e.freshId) {
        PublishTouchesOwnVolume(config, Now(), r, e);
      }
      if !Acceptable(r, e) || !e.created {
        return Internal;
      }
      var named := NamedVolume(Now(), r.name);
      var id := e.freshId;
      if named.Some? {
        id := named.value;
      } else {
        vols := vols[id := ArrayVol(r.name, [])];
      }
      if !e.lockDirMade {
        return Unknown;
      }
      if config.system == "" {
        return Internal;
      }
      s := MapAndContinue(r, id, e);
    }

    method MapAndContinue(r: Request, id: string, e: PublishEnv) returns (s: Status)
      requires id in vols
      modifies this
      ensures (Now(), s) == MapLockAndMount(config, old(Now()), r, id, e)
    {
      if r.capability.mode.None? {
        var _ := NodeUnpublishVolume(r.handle, r.target, e.rollback);
        return Internal;
      }
      var (hosts, mapped) := H.Publish(vols[id].hosts, MapRequest(config, r), e.mapping);
      vols := vols[id := vols[id].(hosts := hosts)];
      if mapped != OK {
        var _ := NodeUnpublishVolume(r.handle, r.target, e.rollback);
        return Internal;
      }
      if e.lock == NotCreated {
        return Unknown;
      }
      ghost var before := locks;
      locks := locks[r.handle := ""];
      if e.lock == LeftEmpty {
        return Unknown;
      }
      locks := locks[r.handle := Id(config, id)];
      assert locks == before[r.handle := Id(config, id)];
      if e.seen && id in config.devices {
        var (t, mounted) := M.Publish(config.node, table, MountRequest(config, r, id), e.mount);
        table := t;
        if mounted == OK {
          return OK;
        }
      }
      var _ := NodeUnpublishVolume(r.handle, r.target, e.rollback);
      s := Internal;
    }

    method NodeUnpublishVolume(handle: string, target: string, e: UnpublishEnv) returns (s: Status)
      modifies this
      ensures (Now(), s) == NodeUnpublish(config, old(Now()), handle, target, e)
    {
      if target == "" || handle == "" {
        return InvalidArgument;
      }
      var ephemeral := handle in locks;
      var csi := if ephemeral then locks[handle] else handle;
      if !e.probed {
        return FailedPrecondition;
      }
      if TooShort(csi) || !e.legacyChecked {
        return Internal;
      }
      var id := DecodeVolume(csi);
      if e.seen && id in config.devices {
        var (t, unmounted) := M.Unpublish(config.node, table, csi, config.devices[id], target, e.mount);
        table := t;
        if unmounted != OK {
          return unmounted;
        }
      } else if e.detached {
        table := M.Unmount(table, target);
      }
      s := OK;
      if ephemeral {
        s := ReleaseVolume(handle, e);
      }
    }

    method ReleaseVolume(handle: string, e: UnpublishEnv) returns (s: Status)
      requires handle in locks
      modifies this
      ensures (Now(), s) == Release(config, old(Now()), handle, e)
    {
      var id := DecodeVolume(locks[handle]);
      if id in vols {
        var (hosts, unmapped) := H.Unpublish(vols[id].hosts, config.host, e.unmap);
        ghost var before := vols;
        vols := vols[id := vols[id].(hosts := hosts)];
        if unmapped != OK {
          return Unknown;
        }
        if hosts != [] {
          return FailedPrecondition;
        }
        if !e.deleted {
          return Internal;
        }
        vols := vols - {id};
        assert vols == before - {id};
      }
      if !e.lockRemoved {
        return Unknown;
      }
      locks := locks - {handle};
      s := OK;
    }
  }
}
