/** The controller working on volumes and caches in place, proved against the functions of VolumeLife. */
module VolumeController {
  import opened CsiTypes
  import opened VolumeLife
  import opened VolumeLifeTheorems

  class Controller {
    var vols: Vols
    var volCache: seq<string>
    var snapCache: seq<string>

    method ClearCache()
      modifies this`volCache, this`snapCache
      ensures volCache == [] && snapCache == []
    {
      volCache, snapCache := [], [];
    }

    /** The state is the one the reply describes; the caches are empty if it says so and as before otherwise. */
    ghost predicate Is(r: Reply, volsCached: seq<string>, snapsCached: seq<string>)
      reads this
    {
      && vols == r.vols
      && volCache == (if r.cleared then [] else volsCached)
      && snapCache == (if r.cleared then [] else snapsCached)
    }

    ghost predicate Unique()
      reads this
    {
      UniqueIds(vols) && UniqueNames(vols)
    }

    /** Volumes in use are still there. */
    ghost predicate KeepsMapped(before: Vols)
      reads this
    {
      forall v :: v in before && v.mapped ==> v in vols
    }

    method CreateBlockVolume(name: string, size: int, pool: string, e: CreateEnv) returns (s: Status, id: string)
      modifies this
      ensures var r := CreateVolume(old(vols), name, size, pool, e);
              Is(r, old(volCache), old(snapCache)) && s == r.status && id == r.id
      ensures old(vols) <= vols <= old(vols) + [Vol(e.freshId, name, size, pool, "", "", false, false)]
    {
      id := "";
      var existing := WithName(vols, name);
      var vol: Vol;
      if existing.None? {
        if !e.created {
          return Internal, "";
        }
        vol := Vol(e.freshId, name, size, pool, "", "", false, false);
        vols := vols + [vol];
      } else {
        if !e.found {
          return Internal, "";
        }
        vol := existing.value;
      }
      if !e.read || !e.poolRead {
        return Unavailable, "";
      }
      if vol.pool != pool || vol.size != size {
        return AlreadyExists, "";
      }
      ClearCache();
      return if e.confirmed then OK else Unknown, vol.id;
    }

    /** Clone and createVolumeFromSnapshot: the source has to fit, and a volume of the name in its pool is taken
        for the copy. */
    method CopyBlockVolume(source: string, name: string, size: int, pool: string, group: string, e: CreateEnv)
      returns (s: Status, id: string)
      modifies this
      ensures var r := CopyVolume(old(vols), source, name, size, pool, group, e);
              Is(r, old(volCache), old(snapCache)) && s == r.status && id == r.id
      ensures old(vols) <= vols <= old(vols) + [Vol(e.freshId, name, size, pool, source, group, false, false)]
    {
      var src := WithId(vols, source);
      if !e.sourceRead || src.None? {
        return NotFound, "";
      }
      if src.value.size != size || src.value.pool != pool {
        return InvalidArgument, "";
      }
      if !e.found {
        return Internal, "";
      }
      var existing := WithName(vols, name);
      if existing.Some? && existing.value.pool == src.value.pool {
        return OK, existing.value.id;
      }
      if existing.Some? || !e.created {
        return Internal, "";
      }
      vols := vols + [Vol(e.freshId, name, size, pool, source, group, false, false)];
      if !e.read {
        return Internal, "";
      }
      ClearCache();
      return OK, e.freshId;
    }

    method CreateBlockSnapshot(source: string, name: string, group: string, e: CreateEnv)
      returns (s: Status, id: string)
      modifies this
      ensures var r := SnapshotVolume(old(vols), source, name, group, e);
              Is(r, old(volCache), old(snapCache)) && s == r.status && id == r.id
      ensures old(vols) <= vols && |vols| <= |old(vols)| + 1
    {
      if !e.found {
        return Internal, "";
      }
      var existing := WithName(vols, name);
      if existing.Some? && existing.value.ancestor == source {
        return OK, existing.value.id;
      }
      if !e.sourceRead {
        return Internal, "";
      }
      var src := WithId(vols, source);
      if src.None? {
        return NotFound, "";
      }
      if existing.Some? || !e.created {
        return AlreadyExists, "";
      }
      vols := vols + [Vol(e.freshId, name, src.value.size, src.value.pool, source, group, false, false)];
      if !e.read {
        return NotFound, "";
      }
      ClearCache();
      return OK, e.freshId;
    }

    method DeleteBlockVolume(id: string, e: DeleteEnv) returns (s: Status)
      modifies this
      ensures var r := DeleteVolume(old(vols), id, e);
              Is(r, old(volCache), old(snapCache)) && s == r.status
      ensures old(Unique()) ==> Unique() && KeepsMapped(old(vols))
    {
      if Unique() {
        DeletionKeeps(vols, Delete(id, e));
      }
      var v := WithId(vols, id);
      if !e.read {
        return Internal;
      }
      if v.None? {
        return OK;
      }
      if v.value.mapped {
        return FailedPrecondition;
      }
      if (v.value.replicated && !e.pairRemoved) || !e.removed {
        return Internal;
      }
      vols := Without(vols, id);
      ClearCache();
      s := if e.settled then OK else Unknown;
    }

    method DeleteBlockSnapshot(id: string, groupDelete: bool, e: DeleteEnv) returns (s: Status)
      modifies this
      ensures var r := DeleteSnapshot(old(vols), id, groupDelete, e);
              Is(r, old(volCache), old(snapCache)) && s == r.status
      ensures old(Unique()) ==> Unique() && KeepsMapped(old(vols))
    {
      if Unique() {
        DeletionKeeps(vols, DeleteSnap(id, groupDelete, e));
      }
      var v := WithId(vols, id);
      if !e.read {
        return Internal;
      }
      if v.None? {
        return OK;
      }
      if v.value.mapped {
        return FailedPrecondition;
      }
      if v.value.group != "" && groupDelete {
        s := DeleteSnapshotConsistencyGroup(v.value, e);
        return;
      }
      if !e.removed {
        return Internal;
      }
      vols := Without(vols, id);
      ClearCache();
      s := OK;
    }

    /** The members of the group that a listing shows, and whether one is in use. */
    method CollectGroup(snap: Vol, e: DeleteEnv) returns (cgVols: Vols, exposed: bool)
      ensures cgVols == GroupSeen(vols, snap, e)
      ensures exposed <==> exists v :: v in cgVols && v.mapped
    {
      cgVols, exposed := [], false;
      if e.listed {
        var i := 0;
        while i < |vols|
          invariant 0 <= i <= |vols|
          invariant cgVols == Members(vols[..i], snap.group)
          invariant exposed <==> exists v :: v in cgVols && v.mapped
        {
          assert vols[..i + 1][..i] == vols[..i];
          if Member(vols[i], snap.group) {
            cgVols := cgVols + [vols[i]];
            if vols[i].mapped {
              exposed := true;
              assert vols[i] in cgVols;
            }
          }
          i := i + 1;
        }
        assert vols[..|vols|] == vols;
      }
    }

    method RemoveVolumes(targets: Vols, e: DeleteEnv) returns (s: Status)
      modifies this`vols
      ensures vols == WithoutAll(old(vols), if e.removals < |targets| then targets[..e.removals] else targets)
      ensures s == if e.removals < |targets| then Internal else OK
    {
      var k := 0;
      while k < |targets|
        invariant 0 <= k <= |targets| && k <= e.removals
        invariant vols == WithoutAll(old(vols), targets[..k])
      {
        if k == e.removals {
          return Internal;
        }
        assert targets[..k + 1][..k] == targets[..k];
        vols := Without(vols, targets[k].id);
        k := k + 1;
      }
      assert targets[..|targets|] == targets;
      s := OK;
    }

    method DeleteSnapshotConsistencyGroup(snap: Vol, e: DeleteEnv) returns (s: Status)
      modifies this
      ensures var r := DeleteGroup(old(vols), snap, e);
              Is(r, old(volCache), old(snapCache)) && s == r.status
    {
      var cgVols, exposed := CollectGroup(snap, e);
      if exposed {
        return FailedPrecondition;
      }
      if |cgVols| == 0 {
        cgVols := [snap];
      }
      ClearCache();
      s := RemoveVolumes(cgVols, e);
    }
  }
}
