/** What each answer to a creation or a deletion means, and what the system holds afterwards. */
module VolumeLifeAnswers {
  import opened CsiTypes
  import opened VolumeLife
  import opened VolumeLifeTheorems

  /** The volume is the one with its name, and the one with its ID. */
  lemma {:induction false} FoundByName(vols: Vols, v: Vol)
    requires UniqueNames(vols) && v in vols
    ensures WithName(vols, v.name) == Some(v)
  {
    WithNameMembers(vols, v.name);
    var i :| 0 <= i < |vols| && vols[i] == v;
    var j :| 0 <= j < |vols| && vols[j] == WithName(vols, v.name).value;
  }

  lemma {:induction false} FoundById(vols: Vols, v: Vol)
    requires UniqueIds(vols) && v in vols
    ensures WithId(vols, v.id) == Some(v)
  {
    WithIdMembers(vols, v.id);
    SameId(vols, v, WithId(vols, v.id).value);
  }

  // ---------------------------------------------------------------- creation

  /** A new name: the volume is made as asked for once the array carries the creation out, whatever fails
      after that; the caches are cleared exactly if the volume could be read. */
  lemma NewVolumeMeans(vols: Vols, name: string, size: int, pool: string, e: CreateEnv)
    requires forall v :: v in vols ==> v.name != name
    ensures var r := CreateVolume(vols, name, size, pool, e);
            && (r.status == OK <==> e.created && e.read && e.poolRead && e.confirmed)
            && (r.status == Unknown <==> e.created && e.read && e.poolRead && !e.confirmed)
            && (r.status == Unavailable <==> e.created && !(e.read && e.poolRead))
            && (r.status == Internal <==> !e.created)
            && (!e.created ==> r.vols == vols)
            && (e.created ==> r.vols == vols + [Vol(e.freshId, name, size, pool, "", "", false, false)])
            && (r.cleared <==> r.status == OK || r.status == Unknown)
            && r.id == if r.cleared then e.freshId else ""
  {
    WithNameMembers(vols, name);
  }

  /** A name in use: nothing is made, and the volume of the name is handed out exactly if it is as asked for. */
  lemma TakenVolumeMeans(vols: Vols, v: Vol, size: int, pool: string, e: CreateEnv)
    requires UniqueNames(vols) && v in vols
    ensures var r := CreateVolume(vols, v.name, size, pool, e);
            var same := v.size == size && v.pool == pool;
            && r.vols == vols
            && (r.status == OK <==> e.found && e.read && e.poolRead && same && e.confirmed)
            && (r.status == Unknown <==> e.found && e.read && e.poolRead && same && !e.confirmed)
            && (r.status == AlreadyExists <==> e.found && e.read && e.poolRead && !same)
            && (r.status == Unavailable <==> e.found && !(e.read && e.poolRead))
            && (r.status == Internal <==> !e.found)
            && (r.cleared <==> r.status == OK || r.status == Unknown)
            && r.id == if r.cleared then v.id else ""
  {
    FoundByName(vols, v);
  }

  /** A copy under a new name. */
  lemma NewCopyMeans(vols: Vols, src: Vol, name: string, size: int, pool: string, group: string, e: CreateEnv)
    requires UniqueIds(vols) && src in vols && forall v :: v in vols ==> v.name != name
    ensures var r := CopyVolume(vols, src.id, name, size, pool, group, e);
            var asked := e.sourceRead && src.size == size && src.pool == pool;
            && (r.status == NotFound <==> !e.sourceRead)
            && (r.status == InvalidArgument <==> e.sourceRead && !asked)
            && (r.status == OK <==> asked && e.found && e.created && e.read)
            && r.status in {OK, NotFound, InvalidArgument, Internal}
            && r.vols == (if asked && e.found && e.created
                          then vols + [Vol(e.freshId, name, size, pool, src.id, group, false, false)] else vols)
            && (r.cleared <==> r.status == OK)
            && r.id == if r.status == OK then e.freshId else ""
  {
    WithNameMembers(vols, name);
    FoundById(vols, src);
  }

  /** A copy under a name in use: nothing is made, and what is handed out is of the source's pool. */
  lemma TakenCopyMeans(vols: Vols, src: Vol, v: Vol, size: int, pool: string, group: string, e: CreateEnv)
    requires UniqueIds(vols) && UniqueNames(vols) && src in vols && v in vols
    ensures var r := CopyVolume(vols, src.id, v.name, size, pool, group, e);
            var asked := e.sourceRead && src.size == size && src.pool == pool;
            && (r.status == NotFound <==> !e.sourceRead)
            && (r.status == InvalidArgument <==> e.sourceRead && !asked)
            && (r.status == OK <==> asked && e.found && v.pool == src.pool)
            && r.status in {OK, NotFound, InvalidArgument, Internal}
            && r.vols == vols && !r.cleared && r.id == if r.status == OK then v.id else ""
  {
    FoundById(vols, src);
    FoundByName(vols, v);
  }

  /** A snapshot under a new name: of the source, with its size and pool. */
  lemma NewSnapshotMeans(vols: Vols, src: Vol, name: string, group: string, e: CreateEnv)
    requires UniqueIds(vols) && src in vols && forall v :: v in vols ==> v.name != name
    ensures var r := SnapshotVolume(vols, src.id, name, group, e);
            && (r.status == Internal <==> !e.found || !e.sourceRead)
            && (r.status == AlreadyExists <==> e.found && e.sourceRead && !e.created)
            && (r.status == NotFound <==> e.found && e.sourceRead && e.created && !e.read)
            && r.status in {OK, Internal, AlreadyExists, NotFound}
            && r.vols == (if e.found && e.sourceRead && e.created
                          then vols + [Vol(e.freshId, name, src.size, src.pool, src.id, group, false, false)] else vols)
            && (r.cleared <==> r.status == OK)
            && r.id == if r.status == OK then e.freshId else ""
  {
    WithNameMembers(vols, name);
    FoundById(vols, src);
  }

  /** A snapshot under a name in use: what is handed out is a snapshot of the source, or nothing is. */
  lemma TakenSnapshotMeans(vols: Vols, source: string, v: Vol, group: string, e: CreateEnv)
    requires UniqueNames(vols) && v in vols
    ensures var r := SnapshotVolume(vols, source, v.name, group, e);
            && (r.status == OK <==> e.found && v.ancestor == source)
            && (r.status == AlreadyExists <==>
                  e.found && v.ancestor != source && e.sourceRead && exists src :: src in vols && src.id == source)
            && (r.status == NotFound <==>
                  e.found && v.ancestor != source && e.sourceRead && !exists src :: src in vols && src.id == source)
            && r.status in {OK, Internal, AlreadyExists, NotFound}
            && r.vols == vols && !r.cleared && r.id == if r.status == OK then v.id else ""
  {
    WithIdMembers(vols, source);
    FoundByName(vols, v);
  }

  /** A copy or a snapshot of what the system does not hold. */
  lemma MissingSourceMeans(vols: Vols, source: string, name: string, size: int, pool: string, group: string,
                           e: CreateEnv)
    requires forall v :: v in vols ==> v.id != source && v.name != name
    ensures CopyVolume(vols, source, name, size, pool, group, e) == Reply(vols, false, NotFound, "")
    ensures SnapshotVolume(vols, source, name, group, e) ==
            Reply(vols, false, if e.found && e.sourceRead then NotFound else Internal, "")
  {
    WithIdMembers(vols, source);
    WithNameMembers(vols, name);
  }

  // ---------------------------------------------------------------- deletion

  /** Deleting a volume of the system takes it alone, and only if nobody uses it. */
  lemma DeleteMeans(vols: Vols, v: Vol, e: DeleteEnv)
    requires UniqueIds(vols) && v in vols
    ensures var r := DeleteVolume(vols, v.id, e);
            var gone := e.read && !v.mapped && (v.replicated ==> e.pairRemoved) && e.removed;
            && (r.status == FailedPrecondition <==> e.read && v.mapped)
            && (r.status == OK <==> gone && e.settled)
            && (r.status == Unknown <==> gone && !e.settled)
            && r.status in {OK, Unknown, FailedPrecondition, Internal}
            && (gone ==> |r.vols| == |vols| - 1 && forall x :: x in r.vols <==> x in vols && x != v)
            && (!gone ==> r.vols == vols)
            && (r.cleared <==> gone) && r.id == ""
  {
    FoundById(vols, v);
    OneGone(vols, v);
  }

  /** So does deleting a snapshot that is in no group, or alone in its own. */
  lemma DeleteSnapshotMeans(vols: Vols, v: Vol, groupDelete: bool, e: DeleteEnv)
    requires UniqueIds(vols) && v in vols && (v.group == "" || !groupDelete)
    ensures var r := DeleteSnapshot(vols, v.id, groupDelete, e);
            && (r.status == FailedPrecondition <==> e.read && v.mapped)
            && (r.status == OK <==> e.read && !v.mapped && e.removed)
            && r.status in {OK, FailedPrecondition, Internal}
            && (r.status == OK ==> |r.vols| == |vols| - 1 && forall x :: x in r.vols <==> x in vols && x != v)
            && (r.status != OK ==> r.vols == vols)
            && (r.cleared <==> r.status == OK) && r.id == ""
  {
    FoundById(vols, v);
    OneGone(vols, v);
  }

  /** What is not there is deleted already. */
  lemma MissingVolumeMeans(vols: Vols, id: string, groupDelete: bool, e: DeleteEnv)
    requires forall v :: v in vols ==> v.id != id
    ensures DeleteVolume(vols, id, e) == Reply(vols, false, if e.read then OK else Internal, "")
    ensures DeleteSnapshot(vols, id, groupDelete, e) == Reply(vols, false, if e.read then OK else Internal, "")
  {
    WithIdMembers(vols, id);
  }

  lemma {:induction false} WithoutMissing(vols: Vols, id: string)
    requires forall v :: v in vols ==> v.id != id
    ensures Without(vols, id) == vols
  {
    if vols != [] {
      WithoutMissing(vols[1..], id);
    }
  }

  lemma {:induction false} OneShorter(vols: Vols, v: Vol)
    requires UniqueIds(vols) && v in vols
    ensures |Without(vols, v.id)| == |vols| - 1
  {
    if vols[0].id == v.id {
      WithoutMissing(vols[1..], v.id);
    } else {
      assert v in vols[1..];
      OneShorter(vols[1..], v);
    }
  }

  lemma OneGone(vols: Vols, v: Vol)
    requires UniqueIds(vols) && v in vols
    ensures |Without(vols, v.id)| == |vols| - 1 && forall x :: x in Without(vols, v.id) <==> x in vols && x != v
  {
    WithoutMembers(vols, v.id);
    OneShorter(vols, v);
    forall x | x in vols && x.id == v.id
      ensures x == v
    {
      SameId(vols, x, v);
    }
  }

  // ---------------------------------------------------------------- deleting a group

  lemma {:induction false} WithoutIds(vols: Vols, id: string)
    requires UniqueIds(vols)
    ensures UniqueIds(Without(vols, id))
  {
    if vols != [] {
      WithoutIds(vols[1..], id);
      WithoutMembers(vols[1..], id);
      if vols[0].id != id {
        var rest := Without(vols[1..], id);
        forall j | 0 <= j < |rest|
          ensures rest[j].id != vols[0].id
        {
          assert rest[j] in rest && rest[j] in vols[1..];
        }
      }
    }
  }

  /** As many volumes are gone as were taken away. */
  lemma {:induction false} GoneCount(vols: Vols, gone: Vols)
    requires UniqueIds(vols) && UniqueIds(gone) && forall g :: g in gone ==> g in vols
    ensures |WithoutAll(vols, gone)| == |vols| - |gone| && UniqueIds(WithoutAll(vols, gone))
  {
    if gone != [] {
      var front, g := gone[..|gone| - 1], gone[|gone| - 1];
      GoneCount(vols, front);
      WithoutAllMembers(vols, front);
      assert g in gone && g in vols;
      assert forall x :: x in front ==> x.id != g.id;
      OneShorter(WithoutAll(vols, front), g);
      WithoutIds(WithoutAll(vols, front), g.id);
    }
  }

  lemma {:induction false} MembersAreUnique(vols: Vols, group: string)
    requires UniqueIds(vols)
    ensures UniqueIds(Members(vols, group))
  {
    if vols != [] {
      var front, v := vols[..|vols| - 1], vols[|vols| - 1];
      MembersAreUnique(front, group);
      MembersOf(front, group);
      var rest := Members(front, group);
      forall i | 0 <= i < |rest|
        ensures rest[i].id != v.id
      {
        assert rest[i] in rest && rest[i] in front;
      }
    }
  }

  lemma TargetsGone(vols: Vols, targets: Vols, k: nat)
    requires UniqueIds(vols) && UniqueIds(targets) && (forall g :: g in targets ==> g in vols) && k <= |targets|
    ensures |WithoutAll(vols, targets[..k])| == |vols| - k
    ensures forall x :: x in WithoutAll(vols, targets[..k]) ==> x in vols
    ensures forall x :: x in vols && x !in targets ==> x in WithoutAll(vols, targets[..k])
    ensures forall x :: x in targets[..k] ==> x !in WithoutAll(vols, targets[..k])
    ensures k < |targets| ==> targets[k] in WithoutAll(vols, targets[..k])
  {
    var gone := targets[..k];
    assert forall x :: x in gone ==> x in targets;
    GoneCount(vols, gone);
    WithoutAllMembers(vols, gone);
    forall x | x in vols && x !in gone
      ensures x in WithoutAll(vols, gone)
    {
      forall g | g in gone
        ensures g.id != x.id
      {
        if g.id == x.id {
          SameId(vols, g, x);
        }
      }
    }
  }

  /**
    Deleting the group of a snapshot: refused if one of its snapshots is in use, otherwise all of them go and
    nothing else; with a removal that fails, exactly the snapshots removed before it are gone.
  */
  lemma DeleteGroupMeans(vols: Vols, snap: Vol, e: DeleteEnv)
    requires UniqueIds(vols) && snap in vols && snap.ancestor != "" && snap.group != "" && e.listed && e.read
    ensures var r := DeleteSnapshot(vols, snap.id, true, e);
            && (r.status == FailedPrecondition <==>
                  exists v :: v in vols && v.ancestor != "" && v.group == snap.group && v.mapped)
            && r.status in {OK, FailedPrecondition, Internal} && r.id == ""
            && (r.status == FailedPrecondition ==> r.vols == vols && !r.cleared)
            && (r.status == OK ==>
                  r.cleared && forall v :: v in r.vols <==> v in vols && !(v.ancestor != "" && v.group == snap.group))
            && (r.status == Internal ==>
                  && r.cleared && |r.vols| == |vols| - e.removals
                  && (forall v :: v in r.vols ==> v in vols)
                  && (forall v :: v in vols && !(v.ancestor != "" && v.group == snap.group) ==> v in r.vols)
                  && exists v :: v in r.vols && v.ancestor != "" && v.group == snap.group)
  {
    FoundById(vols, snap);
    MembersOf(vols, snap.group);
    MembersAreUnique(vols, snap.group);
    var targets := Members(vols, snap.group);
    assert snap in targets;
    if e.removals < |targets| {
      TargetsGone(vols, targets, e.removals);
      assert targets[e.removals] in targets;
    } else {
      TargetsGone(vols, targets, |targets|);
      assert targets[..|targets|] == targets;
    }
  }

  /** With a listing that fails unnoticed, the one snapshot goes for its group. */
  lemma UnlistedGroupMeans(vols: Vols, snap: Vol, e: DeleteEnv)
    requires UniqueIds(vols) && snap in vols && snap.group != "" && !e.listed && e.read
    ensures var r := DeleteSnapshot(vols, snap.id, true, e);
            && (r.status == FailedPrecondition <==> snap.mapped)
            && (r.status == OK <==> !snap.mapped && e.removals > 0)
            && r.status in {OK, FailedPrecondition, Internal}
            && (r.status == OK ==> forall v :: v in r.vols <==> v in vols && v != snap)
            && (r.status != OK ==> r.vols == vols)
            && (r.cleared <==> !snap.mapped)
  {
    FoundById(vols, snap);
    OneGone(vols, snap);
    assert [snap][..0] == [];
    assert WithoutAll(vols, [snap]) == Without(vols, snap.id);
  }
}
