/**
  The life of block volumes and snapshots on one system: creation, copies, snapshots, deletion and
  the deletion of a whole consistency group. A call also reports whether it cleared the listing caches.
*/
module VolumeLife {
  import opened CsiTypes

  /** A volume or, with an ancestor, a snapshot or copy; mapped means some host is using it. */
  datatype Vol = Vol(id: string, name: string, size: int, pool: string, ancestor: string, group: string,
                     mapped: bool, replicated: bool)

  type Vols = seq<Vol>

  datatype Reply = Reply(vols: Vols, cleared: bool, status: Status, id: string)

  function Refuse(vols: Vols, s: Status): Reply {
    Reply(vols, false, s, "")
  }

  // ---------------------------------------------------------------- looking volumes up

  function WithId(vols: Vols, id: string): Option<Vol> {
    if vols == [] then None
    else if vols[0].id == id then Some(vols[0])
    else WithId(vols[1..], id)
  }

  function WithName(vols: Vols, name: string): Option<Vol> {
    if vols == [] then None
    else if vols[0].name == name then Some(vols[0])
    else WithName(vols[1..], name)
  }

  /** The array removes the volume alone, not what was copied from it. */
  function Without(vols: Vols, id: string): Vols {
    if vols == [] then []
    else if vols[0].id == id then Without(vols[1..], id)
    else [vols[0]] + Without(vols[1..], id)
  }

  // ---------------------------------------------------------------- creation

  /** freshId is the ID the array picks; the flags tell which calls succeed, sourceRead the first read of the
      source of a copy or snapshot. */
  datatype CreateEnv = CreateEnv(freshId: string, sourceRead: bool, created: bool, found: bool, read: bool,
                                 poolRead: bool, confirmed: bool)

  /** The array refuses a name that is in use; the driver then looks the volume up and compares it. */
  function CreateVolume(vols: Vols, name: string, size: int, pool: string, e: CreateEnv): Reply {
    var existing := WithName(vols, name);
    if existing.None? && !e.created then Refuse(vols, Internal)
    else if existing.Some? && !e.found then Refuse(vols, Internal)
    else
      var vols1 := if existing.Some? then vols
                   else vols + [Vol(e.freshId, name, size, pool, "", "", false, false)];
      var vol := if existing.Some? then existing.value else vols1[|vols|];
      if !e.read || !e.poolRead then Refuse(vols1, Unavailable)
      else if vol.pool != pool then Refuse(vols1, AlreadyExists)
      else if vol.size != size then Refuse(vols1, AlreadyExists)
      else Reply(vols1, true, if e.confirmed then OK else Unknown, vol.id)
  }

  /** Cloning a volume and creating a volume from a snapshot go the same way. */
  function CopyVolume(vols: Vols, source: string, name: string, size: int, pool: string, group: string,
                      e: CreateEnv): Reply {
    var src := WithId(vols, source);
    var existing := WithName(vols, name);
    if !e.sourceRead || src.None? then Refuse(vols, NotFound)
    else if src.value.size != size then Refuse(vols, InvalidArgument)
    else if src.value.pool != pool then Refuse(vols, InvalidArgument)
    else if !e.found then Refuse(vols, Internal)
    else if existing.Some? && existing.value.pool == src.value.pool then Reply(vols, false, OK, existing.value.id)
    else if existing.Some? || !e.created then Refuse(vols, Internal)
    else
      var vols1 := vols + [Vol(e.freshId, name, size, pool, source, group, false, false)];
      if !e.read then Refuse(vols1, Internal) else Reply(vols1, true, OK, e.freshId)
  }

  function SnapshotVolume(vols: Vols, source: string, name: string, group: string, e: CreateEnv): Reply {
    var existing := WithName(vols, name);
    var src := WithId(vols, source);
    if !e.found then Refuse(vols, Internal)
    else if existing.Some? && existing.value.ancestor == source then Reply(vols, false, OK, existing.value.id)
    else if !e.sourceRead then Refuse(vols, Internal)
    else if src.None? then Refuse(vols, NotFound)
    else if existing.Some? || !e.created then Refuse(vols, AlreadyExists)
    else
      var vols1 := vols + [Vol(e.freshId, name, src.value.size, src.value.pool, source, group, false, false)];
      if !e.read then Refuse(vols1, NotFound) else Reply(vols1, true, OK, e.freshId)
  }

  // ---------------------------------------------------------------- deletion

  /** removals counts how many removals of a group delete succeed before one fails. */
  datatype DeleteEnv = DeleteEnv(read: bool, pairRemoved: bool, removed: bool, settled: bool, listed: bool,
                                 removals: nat)

  function DeleteVolume(vols: Vols, id: string, e: DeleteEnv): Reply {
    var v := WithId(vols, id);
    if !e.read then Refuse(vols, Internal)
    else if v.None? then Reply(vols, false, OK, "")
    else if v.value.mapped then Refuse(vols, FailedPrecondition)
    else if v.value.replicated && !e.pairRemoved then Refuse(vols, Internal)
    else if !e.removed then Refuse(vols, Internal)
    else Reply(Without(vols, id), true, if e.settled then OK else Unknown, "")
  }

  predicate Member(v: Vol, group: string) {
    v.ancestor != "" && v.group == group
  }

  function Members(vols: Vols, group: string): Vols {
    if vols == [] then []
    else
      var rest := Members(vols[..|vols| - 1], group);
      if Member(vols[|vols| - 1], group) then rest + [vols[|vols| - 1]] else rest
  }

  function WithoutAll(vols: Vols, gone: Vols): Vols {
    if gone == [] then vols else Without(WithoutAll(vols, gone[..|gone| - 1]), gone[|gone| - 1].id)
  }

  /** The listing may fail without anybody noticing; the group then seems to be empty. */
  function GroupSeen(vols: Vols, snap: Vol, e: DeleteEnv): Vols {
    if e.listed then Members(vols, snap.group) else []
  }

  function DeleteGroup(vols: Vols, snap: Vol, e: DeleteEnv): Reply {
    var seen := GroupSeen(vols, snap, e);
    if exists v :: v in seen && v.mapped then Refuse(vols, FailedPrecondition)
    else
      var targets := if seen == [] then [snap] else seen;
      if e.removals < |targets| then Reply(WithoutAll(vols, targets[..e.removals]), true, Internal, "")
      else Reply(WithoutAll(vols, targets), true, OK, "")
  }

  function DeleteSnapshot(vols: Vols, id: string, groupDelete: bool, e: DeleteEnv): Reply {
    var v := WithId(vols, id);
    if !e.read then Refuse(vols, Internal)
    else if v.None? then Reply(vols, false, OK, "")
    else if v.value.mapped then Refuse(vols, FailedPrecondition)
    else if v.value.group != "" && groupDelete then DeleteGroup(vols, v.value, e)
    else if !e.removed then Refuse(vols, Internal)
    else Reply(Without(vols, id), true, OK, "")
  }
}
