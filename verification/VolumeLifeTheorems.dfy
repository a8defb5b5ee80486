/** What holds in every run of creations and deletions on the array. */
module VolumeLifeTheorems {
  import opened CsiTypes
  import opened VolumeLife
  import Listing

  predicate UniqueIds(vols: Vols) {
    forall i, j :: 0 <= i < j < |vols| ==> vols[i].id != vols[j].id
  }

  predicate UniqueNames(vols: Vols) {
    forall i, j :: 0 <= i < j < |vols| ==> vols[i].name != vols[j].name
  }

  // ---------------------------------------------------------------- facts about the lists

  lemma {:induction false} WithIdMembers(vols: Vols, id: string)
    ensures WithId(vols, id).None? <==> forall v :: v in vols ==> v.id != id
    ensures WithId(vols, id).Some? ==> WithId(vols, id).value in vols && WithId(vols, id).value.id == id
  {
    if vols != [] {
      WithIdMembers(vols[1..], id);
      assert vols == [vols[0]] + vols[1..];
    }
  }

  lemma {:induction false} WithNameMembers(vols: Vols, name: string)
    ensures WithName(vols, name).None? <==> forall v :: v in vols ==> v.name != name
    ensures WithName(vols, name).Some? ==> WithName(vols, name).value in vols && WithName(vols, name).value.name == name
  {
    if vols != [] {
      WithNameMembers(vols[1..], name);
      assert vols == [vols[0]] + vols[1..];
    }
  }

  lemma ConsUnique(v: Vol, rest: Vols)
    requires forall x :: x in rest ==> x.id != v.id && x.name != v.name
    requires UniqueIds(rest) && UniqueNames(rest)
    ensures UniqueIds([v] + rest) && UniqueNames([v] + rest)
  {
    var r := [v] + rest;
    forall i, j | 0 <= i < j < |r|
      ensures r[i].id != r[j].id && r[i].name != r[j].name
    {
      assert r[j] == rest[j - 1] && r[j] in rest;
      if i > 0 {
        assert r[i] == rest[i - 1];
      }
    }
  }

  lemma {:induction false} WithoutMembers(vols: Vols, id: string)
    ensures forall v :: v in Without(vols, id) <==> v in vols && v.id != id
  {
    if vols != [] {
      WithoutMembers(vols[1..], id);
      assert vols == [vols[0]] + vols[1..];
    }
  }

  lemma {:induction false} WithoutUnique(vols: Vols, id: string)
    requires UniqueIds(vols) && UniqueNames(vols)
    ensures UniqueIds(Without(vols, id)) && UniqueNames(Without(vols, id))
  {
    if vols != [] {
      WithoutUnique(vols[1..], id);
      if vols[0].id != id {
        WithoutMembers(vols[1..], id);
        assert forall x :: x in vols[1..] ==> x.id != vols[0].id && x.name != vols[0].name;
        ConsUnique(vols[0], Without(vols[1..], id));
      }
    }
  }

  lemma {:induction false} WithoutAllUnique(vols: Vols, gone: Vols)
    requires UniqueIds(vols) && UniqueNames(vols)
    ensures UniqueIds(WithoutAll(vols, gone)) && UniqueNames(WithoutAll(vols, gone))
  {
    if gone != [] {
      WithoutAllUnique(vols, gone[..|gone| - 1]);
      WithoutUnique(WithoutAll(vols, gone[..|gone| - 1]), gone[|gone| - 1].id);
    }
  }

  lemma {:induction false} WithoutAllMembers(vols: Vols, gone: Vols)
    ensures forall v :: v in WithoutAll(vols, gone) <==> v in vols && forall g :: g in gone ==> v.id != g.id
  {
    if gone != [] {
      var n := |gone| - 1;
      WithoutAllMembers(vols, gone[..n]);
      WithoutMembers(WithoutAll(vols, gone[..n]), gone[n].id);
      assert gone == gone[..n] + [gone[n]];
    }
  }

  lemma {:induction false} MembersOf(vols: Vols, group: string)
    ensures forall v :: v in Members(vols, group) <==> v in vols && Member(v, group)
  {
    if vols != [] {
      MembersOf(vols[..|vols| - 1], group);
      assert vols == vols[..|vols| - 1] + [vols[|vols| - 1]];
    }
  }

  lemma SameId(vols: Vols, a: Vol, b: Vol)
    requires UniqueIds(vols) && a in vols && b in vols && a.id == b.id
    ensures a == b
  {
    var i :| 0 <= i < |vols| && vols[i] == a;
    var j :| 0 <= j < |vols| && vols[j] == b;
  }

  // ---------------------------------------------------------------- deleting a group

  /** A group delete takes away members of the group only, or the one snapshot if it sees no member. */
  ghost predicate Doomed(vols: Vols, snap: Vol, e: DeleteEnv, v: Vol) {
    if GroupSeen(vols, snap, e) == [] then v == snap else Member(v, snap.group)
  }

  /**
    What a group delete leaves: everything that is not doomed, always; nothing doomed, if it reports
    success; all of it, if a member it sees is in use.
  */
  lemma GroupDeleteIsExact(vols: Vols, snap: Vol, e: DeleteEnv)
    requires UniqueIds(vols) && snap in vols
    ensures var r := DeleteGroup(vols, snap, e);
            && (forall v :: v in r.vols ==> v in vols)
            && (forall v :: v in vols && !Doomed(vols, snap, e, v) ==> v in r.vols)
            && (r.status == OK ==> forall v :: v in r.vols ==> !Doomed(vols, snap, e, v))
            && (e.listed && (exists v :: v in vols && Member(v, snap.group) && v.mapped) ==>
                  r.vols == vols && r.status == FailedPrecondition)
  {
    var seen := GroupSeen(vols, snap, e);
    MembersOf(vols, snap.group);
    var targets := if seen == [] then [snap] else seen;
    assert forall v :: v in targets ==> v in vols && Doomed(vols, snap, e, v);
    if e.removals < |targets| {
      assert forall v :: v in targets[..e.removals] ==> v in targets;
      DoomedOnly(vols, targets[..e.removals], snap, e);
    } else {
      DoomedOnly(vols, targets, snap, e);
      WithoutAllMembers(vols, targets);
    }
  }

  lemma DoomedOnly(vols: Vols, gone: Vols, snap: Vol, e: DeleteEnv)
    requires UniqueIds(vols) && forall v :: v in gone ==> v in vols && Doomed(vols, snap, e, v)
    ensures forall v :: v in vols && !Doomed(vols, snap, e, v) ==> v in WithoutAll(vols, gone)
    ensures forall v :: v in WithoutAll(vols, gone) ==> v in vols
  {
    WithoutAllMembers(vols, gone);
    forall v | v in vols && !Doomed(vols, snap, e, v)
      ensures v in WithoutAll(vols, gone)
    {
      forall g | g in gone
        ensures v.id != g.id
      {
        if v.id == g.id {
          SameId(vols, v, g);
        }
      }
    }
  }

  /** With a member in use nothing is removed exactly when the listing that should have shown it worked, or
      no removal succeeded; its failure is not noticed. */
  lemma GroupInUseIsKeptIff(vols: Vols, snap: Vol, e: DeleteEnv)
    requires UniqueIds(vols) && snap in vols && exists v :: v in vols && Member(v, snap.group) && v.mapped
    ensures DeleteGroup(vols, snap, e).vols == vols <==> e.listed || e.removals == 0
  {
    if e.listed {
      GroupDeleteIsExact(vols, snap, e);
    } else if e.removals == 0 {
      assert [snap][..0] == [];
    } else {
      WithoutAllMembers(vols, [snap]);
    }
  }

  /** It happens: an unlisted group loses the one snapshot while another member is in use. */
  lemma UnlistedGroupLosesSnapshot(snap: Vol, other: Vol, e: DeleteEnv)
    requires snap.id != other.id && Member(snap, snap.group) && Member(other, snap.group) && other.mapped
    requires !e.listed && e.removals > 0
    ensures DeleteGroup([snap, other], snap, e).vols == [other] && DeleteGroup([snap, other], snap, e).status == OK
  {
    assert [snap, other][1..] == [other] && [other][1..] == [];
    assert Without([other], snap.id) == [other] && Without([snap, other], snap.id) == [other];
    assert [snap][..0] == [] && WithoutAll([snap, other], [snap]) == Without([snap, other], snap.id);
  }

  // ---------------------------------------------------------------- runs

  datatype Op =
    | Create(name: string, size: int, pool: string, ce: CreateEnv)
    | Copy(source: string, name: string, size: int, pool: string, group: string, ce: CreateEnv)
    | Snapshot(source: string, name: string, group: string, ce: CreateEnv)
    | Delete(id: string, de: DeleteEnv)
    | DeleteSnap(id: string, groupDelete: bool, de: DeleteEnv)
    | SetMapped(id: string, mapped: bool)

  function Remap(vols: Vols, id: string, mapped: bool): (r: Vols)
    ensures |r| == |vols|
    ensures forall i :: 0 <= i < |vols| ==> r[i] == if vols[i].id == id then vols[i].(mapped := mapped) else vols[i]
  {
    seq(|vols|, i requires 0 <= i < |vols| => if vols[i].id == id then vols[i].(mapped := mapped) else vols[i])
  }

  function Apply(vols: Vols, op: Op): Reply {
    match op
    case Create(name, size, pool, e) => CreateVolume(vols, name, size, pool, e)
    case Copy(source, name, size, pool, group, e) => CopyVolume(vols, source, name, size, pool, group, e)
    case Snapshot(source, name, group, e) => SnapshotVolume(vols, source, name, group, e)
    case Delete(id, e) => DeleteVolume(vols, id, e)
    case DeleteSnap(id, groupDelete, e) => DeleteSnapshot(vols, id, groupDelete, e)
    case SetMapped(id, mapped) => Reply(Remap(vols, id, mapped), false, OK, "")
  }

  /** The array gives new volumes new IDs. */
  predicate FreshId(vols: Vols, op: Op) {
    op.Create? || op.Copy? || op.Snapshot? ==> forall v :: v in vols ==> v.id != op.ce.freshId
  }

  function Run(vols: Vols, ops: seq<Op>): Vols {
    if ops == [] then vols else Apply(Run(vols, ops[..|ops| - 1]), ops[|ops| - 1]).vols
  }

  ghost predicate FreshIds(vols: Vols, ops: seq<Op>) {
    forall i :: 0 <= i < |ops| ==> FreshId(Run(vols, ops[..i]), ops[i])
  }

  /** A creation adds at most one volume, at the end, with an unused name. */
  lemma CreationAdds(vols: Vols, op: Op)
    requires op.Create? || op.Copy? || op.Snapshot?
    ensures var r := Apply(vols, op);
            || r.vols == vols
            || (&& |r.vols| == |vols| + 1 && r.vols[..|vols|] == vols && r.vols[|vols|].id == op.ce.freshId
                && r.vols[|vols|].name == op.name && !r.vols[|vols|].mapped
                && forall v :: v in vols ==> v.name != op.name)
  {
    WithNameMembers(vols, op.name);
  }

  lemma DeletionKeeps(vols: Vols, op: Op)
    requires op.Delete? || op.DeleteSnap?
    requires UniqueIds(vols) && UniqueNames(vols)
    ensures var r := Apply(vols, op).vols;
            && UniqueIds(r) && UniqueNames(r)
            && (forall v :: v in vols && v.mapped ==> v in r)
            && (forall v :: v in r ==> v in vols)
  {
    WithIdMembers(vols, op.id);
    WithoutMembers(vols, op.id);
    WithoutUnique(vols, op.id);
    var found := WithId(vols, op.id);
    if found.Some? {
      forall v | v in vols && v.id == op.id
        ensures v == found.value
      {
        SameId(vols, v, found.value);
      }
      if op.DeleteSnap? && !found.value.mapped {
        GroupDeleteKeeps(vols, found.value, op.de);
      }
    }
  }

  lemma GroupDeleteKeeps(vols: Vols, snap: Vol, e: DeleteEnv)
    requires UniqueIds(vols) && UniqueNames(vols) && snap in vols && !snap.mapped
    ensures var r := DeleteGroup(vols, snap, e).vols;
            && UniqueIds(r) && UniqueNames(r)
            && (forall v :: v in vols && v.mapped ==> v in r)
            && (forall v :: v in r ==> v in vols)
  {
    GroupDeleteIsExact(vols, snap, e);
    var seen := GroupSeen(vols, snap, e);
    MembersOf(vols, snap.group);
    var targets := if seen == [] then [snap] else seen;
    WithoutAllUnique(vols, if e.removals < |targets| then targets[..e.removals] else targets);
  }

  lemma StepKeepsUnique(vols: Vols, op: Op)
    requires UniqueIds(vols) && UniqueNames(vols) && FreshId(vols, op)
    ensures UniqueIds(Apply(vols, op).vols) && UniqueNames(Apply(vols, op).vols)
  {
    match op
    case Create(_, _, _, _) => CreationAdds(vols, op); AddedIsUnique(vols, Apply(vols, op).vols);
    case Copy(_, _, _, _, _, _) => CreationAdds(vols, op); AddedIsUnique(vols, Apply(vols, op).vols);
    case Snapshot(_, _, _, _) => CreationAdds(vols, op); AddedIsUnique(vols, Apply(vols, op).vols);
    case Delete(_, _) => DeletionKeeps(vols, op);
    case DeleteSnap(_, _, _) => DeletionKeeps(vols, op);
    case SetMapped(_, _) =>
  }

  lemma AddedIsUnique(vols: Vols, r: Vols)
    requires UniqueIds(vols) && UniqueNames(vols)
    requires r == vols || (|r| == |vols| + 1 && r[..|vols|] == vols
                           && forall v :: v in vols ==> v.id != r[|vols|].id && v.name != r[|vols|].name)
    ensures UniqueIds(r) && UniqueNames(r)
  {
    if r != vols {
      forall i, j | 0 <= i < j < |r|
        ensures r[i].id != r[j].id && r[i].name != r[j].name
      {
        assert r[i] == r[..|vols|][i] && r[i] in vols;
        if j < |vols| {
          assert r[j] == r[..|vols|][j];
        }
      }
    }
  }

  lemma StepKeepsMapped(vols: Vols, op: Op, v: Vol)
    requires UniqueIds(vols) && UniqueNames(vols) && v in vols && v.mapped && op != SetMapped(v.id, false)
    ensures v in Apply(vols, op).vols
  {
    match op
    case Create(_, _, _, _) => CreationAdds(vols, op);
    case Copy(_, _, _, _, _, _) => CreationAdds(vols, op);
    case Snapshot(_, _, _, _) => CreationAdds(vols, op);
    case Delete(_, _) => DeletionKeeps(vols, op);
    case DeleteSnap(_, _, _) => DeletionKeeps(vols, op);
    case SetMapped(id, mapped) =>
      var i :| 0 <= i < |vols| && vols[i] == v;
      assert Remap(vols, id, mapped)[i] == v;
  }

  /**
    In every run of creations, copies, snapshots, deletions and group deletions, whichever calls fail,
    IDs and names stay unique, and a volume that is in use and not unmapped is never removed.
  */
  lemma {:induction false} VolumesInUseSurvive(vols: Vols, ops: seq<Op>, v: Vol)
    requires UniqueIds(vols) && UniqueNames(vols) && FreshIds(vols, ops)
    requires v in vols && v.mapped && forall i :: 0 <= i < |ops| ==> ops[i] != SetMapped(v.id, false)
    ensures UniqueIds(Run(vols, ops)) && UniqueNames(Run(vols, ops)) && v in Run(vols, ops)
  {
    if ops != [] {
      var before := ops[..|ops| - 1];
      forall i | 0 <= i < |before|
        ensures FreshId(Run(vols, before[..i]), before[i])
      {
        assert before[..i] == ops[..i];
      }
      VolumesInUseSurvive(vols, before, v);
      StepKeepsUnique(Run(vols, before), ops[|ops| - 1]);
      StepKeepsMapped(Run(vols, before), ops[|ops| - 1], v);
    }
  }

  /** If no outside call fails, deleting succeeds exactly when the volume is missing or nobody uses it; then
      it alone is gone. */
  lemma DeleteSucceedsIff(vols: Vols, id: string, e: DeleteEnv)
    requires UniqueIds(vols) && e.read && e.pairRemoved && e.removed && e.settled
    ensures DeleteVolume(vols, id, e).status == OK <==> forall v :: v in vols && v.id == id ==> !v.mapped
    ensures DeleteVolume(vols, id, e).status == OK ==>
              forall v :: v in DeleteVolume(vols, id, e).vols <==> v in vols && v.id != id
  {
    WithIdMembers(vols, id);
    WithoutMembers(vols, id);
    var found := WithId(vols, id);
    forall v | v in vols && v.id == id
      ensures found == Some(v)
    {
      SameId(vols, v, found.value);
    }
  }

  // ---------------------------------------------------------------- creating twice

  /** Creating a volume again returns the same ID and changes nothing; with another size or pool it is
      refused and changes nothing. */
  lemma CreateIsIdempotent(vols: Vols, name: string, size: int, pool: string, e: CreateEnv,
                           size2: int, pool2: string, again: CreateEnv)
    requires CreateVolume(vols, name, size, pool, e).status == OK
    requires again.found && again.read && again.poolRead && again.confirmed
    ensures var r := CreateVolume(vols, name, size, pool, e);
            var r2 := CreateVolume(r.vols, name, size2, pool2, again);
            && r2.vols == r.vols
            && (if size2 == size && pool2 == pool then r2.status == OK && r2.id == r.id else r2.status == AlreadyExists)
  {
    var r := CreateVolume(vols, name, size, pool, e);
    if WithName(vols, name).None? {
      WithNameAppend(vols, r.vols[|vols|], name);
    }
  }

  /**
    A successful copy hands out a volume of the wanted name and pool. It is a copy of the source at the
    wanted size exactly when the name was unused or already belonged to one: an existing volume of the name
    is taken for the copy whatever its size and origin.
  */
  lemma CopyIsOfSourceIff(vols: Vols, source: string, name: string, size: int, pool: string, group: string,
                          e: CreateEnv)
    requires CopyVolume(vols, source, name, size, pool, group, e).status == OK
    ensures var r := CopyVolume(vols, source, name, size, pool, group, e);
            var existing := WithName(vols, name);
            exists v :: && v in r.vols && v.id == r.id && v.name == name && v.pool == pool
                        && (v.ancestor == source && v.size == size <==>
                              existing.None? || (existing.value.ancestor == source && existing.value.size == size))
  {
    var r := CopyVolume(vols, source, name, size, pool, group, e);
    WithNameMembers(vols, name);
    var v := if WithName(vols, name).Some? then WithName(vols, name).value else r.vols[|vols|];
    assert v in r.vols;
  }

  /** It happens: a copy of one volume is answered with an unrelated one. */
  lemma CopyReturnsUnrelated(source: Vol, other: Vol, group: string, e: CreateEnv)
    requires source.name != other.name && source.pool == other.pool && other.ancestor != source.id
    requires e.sourceRead && e.found
    ensures var r := CopyVolume([source, other], source.id, other.name, source.size, source.pool, group, e);
            r.status == OK && r.id == other.id && r.vols == [source, other]
  {
    assert [source, other][1..] == [other];
    assert WithId([source, other], source.id) == Some(source);
    assert WithName([source, other], other.name) == WithName([other], other.name) == Some(other);
  }

  lemma {:induction false} WithNameAppend(vols: Vols, v: Vol, name: string)
    requires WithName(vols, name).None? && v.name == name
    ensures WithName(vols + [v], name) == Some(v)
  {
    if vols != [] {
      assert (vols + [v])[1..] == vols[1..] + [v];
      WithNameAppend(vols[1..], v, name);
    }
  }

  // ---------------------------------------------------------------- the listing caches

  /** What a listing of the system shows. */
  function ContentOf(vols: Vols): Listing.Content {
    if vols == [] then Listing.Content([], [])
    else
      var c := ContentOf(vols[..|vols| - 1]);
      var v := vols[|vols| - 1];
      if v.ancestor == "" then c.(vols := c.vols + [v.id]) else c.(snaps := c.snaps + [v.id])
  }

  lemma {:induction false} RemapContent(vols: Vols, id: string, mapped: bool)
    ensures ContentOf(Remap(vols, id, mapped)) == ContentOf(vols)
  {
    if vols != [] {
      RemapContent(vols[..|vols| - 1], id, mapped);
      assert Remap(vols, id, mapped)[..|vols| - 1] == Remap(vols[..|vols| - 1], id, mapped);
    }
  }

  /** The driver's view: the systems and its caches. */
  datatype Driver = Driver(caches: Listing.Caches, systems: map<string, Vols>)

  datatype Event = Call(system: string, op: Op) | List(system: string, q: Listing.Query, e: Listing.FetchEnv)

  function Arrays(d: Driver): Listing.Arrays {
    map s | s in d.systems :: ContentOf(d.systems[s])
  }

  function Step(d: Driver, ev: Event): Driver
    requires ev.system in d.systems
  {
    match ev
    case Call(system, op) =>
      var r := Apply(d.systems[system], op);
      Driver(if r.cleared then Listing.Clear(d.caches) else d.caches, d.systems[system := r.vols])
    case List(system, q, e) =>
      Driver(Listing.ListVolumes(d.caches, Arrays(d), system, q, e).0, d.systems)
  }

  // A creation is half done when the array carried it out and a later read fails: the call then returns
  // an error without clearing the caches. The conditions are the guards of the failing branches.

  predicate HalfDoneCreate(vols: Vols, name: string, e: CreateEnv) {
    WithName(vols, name).None? && e.created && (!e.read || !e.poolRead)
  }

  predicate HalfDoneCopy(vols: Vols, source: string, name: string, size: int, pool: string, e: CreateEnv) {
    && WithName(vols, name).None? && WithId(vols, source).Some?
    && WithId(vols, source).value.size == size && WithId(vols, source).value.pool == pool
    && e.sourceRead && e.found && e.created && !e.read
  }

  predicate HalfDoneSnapshot(vols: Vols, source: string, name: string, e: CreateEnv) {
    WithName(vols, name).None? && WithId(vols, source).Some? && e.sourceRead && e.found && e.created && !e.read
  }

  predicate HalfDone(vols: Vols, op: Op) {
    match op
    case Create(name, _, _, e) => HalfDoneCreate(vols, name, e)
    case Copy(source, name, size, pool, _, e) => HalfDoneCopy(vols, source, name, size, pool, e)
    case Snapshot(source, name, _, e) => HalfDoneSnapshot(vols, source, name, e)
    case _ => false
  }

  /** The cache that would show the new volume: volumes without an ancestor and all others are cached apart. */
  function CacheFor(c: Listing.Caches, op: Op): Listing.Cache {
    if op.Create? || ((op.Copy? || op.Snapshot?) && op.source == "") then c.vols else c.snaps
  }

  predicate GoesStale(d: Driver, ev: Event)
    requires ev.system in d.systems
  {
    && ev.Call? && HalfDone(d.systems[ev.system], ev.op)
    && CacheFor(d.caches, ev.op).items != [] && CacheFor(d.caches, ev.op).system == ev.system
  }

  /** One more volume is one more entry in one of the lists. */
  lemma ContentGrows(vols: Vols, v: Vol)
    ensures var was, now := ContentOf(vols), ContentOf(vols + [v]);
            now == if v.ancestor == "" then was.(vols := was.vols + [v.id]) else was.(snaps := was.snaps + [v.id])
  {
    assert (vols + [v])[..|vols|] == vols;
  }

  lemma HalfDoneAdds(vols: Vols, op: Op)
    requires HalfDone(vols, op)
    ensures var r := Apply(vols, op);
            && !r.cleared && |r.vols| == |vols| + 1 && r.vols == vols + [r.vols[|vols|]]
            && r.vols[|vols|].id == op.ce.freshId && r.vols[|vols|].ancestor == if op.Create? then "" else op.source
  {
  }

  lemma UnclearedLeaves(vols: Vols, op: Op)
    requires !Apply(vols, op).cleared && !HalfDone(vols, op) && !op.SetMapped?
    ensures Apply(vols, op).vols == vols
  {
    match op
    case Create(_, _, _, _) =>
    case Copy(_, _, _, _, _, _) =>
    case Snapshot(_, _, _, _) =>
    case Delete(_, _) =>
    case DeleteSnap(_, _, _) =>
  }

  /** A call that does not clear the caches changes nothing that a listing shows, or is half done and adds
      one entry to one of the two lists. */
  lemma UnclearedChange(vols: Vols, op: Op)
    requires !Apply(vols, op).cleared
    ensures var was, now := ContentOf(vols), ContentOf(Apply(vols, op).vols);
            if !HalfDone(vols, op) then now == was
            else if op.Create? || op.source == "" then now == was.(vols := was.vols + [op.ce.freshId])
            else now == was.(snaps := was.snaps + [op.ce.freshId])
  {
    if HalfDone(vols, op) {
      HalfDoneAdds(vols, op);
      ContentGrows(vols, Apply(vols, op).vols[|vols|]);
    } else if op.SetMapped? {
      RemapContent(vols, op.id, op.mapped);
    } else {
      UnclearedLeaves(vols, op);
    }
  }

  /** Caches stay current through a call exactly when it is not half done, or no list of its system is cached
      that would show the new volume. */
  lemma EventKeepsCurrentIff(d: Driver, ev: Event)
    requires Listing.Current(d.caches, Arrays(d)) && ev.system in d.systems
    ensures Listing.Current(Step(d, ev).caches, Arrays(Step(d, ev))) <==> !GoesStale(d, ev)
  {
    match ev
    case Call(system, op) =>
      var vols := d.systems[system];
      if Apply(vols, op).cleared {
        ClearedIsDone(vols, op);
      } else {
        UnclearedChange(vols, op);
      }
    case List(system, q, e) =>
      Listing.StepKeepsCurrentIff(d.caches, Arrays(d), Listing.ListStep(system, q, e));
  }

  lemma ClearedIsDone(vols: Vols, op: Op)
    ensures Apply(vols, op).cleared || Apply(vols, op).status == OK ==> !HalfDone(vols, op)
  {
  }

  /** A call that succeeds has cleared the caches or changed nothing that a listing shows. */
  lemma SuccessClearsCaches(vols: Vols, op: Op)
    requires Apply(vols, op).status == OK
    ensures Apply(vols, op).cleared || ContentOf(Apply(vols, op).vols) == ContentOf(vols)
  {
    ClearedIsDone(vols, op);
    if !Apply(vols, op).cleared {
      UnclearedChange(vols, op);
    }
  }

  // ---------------------------------------------------------------- runs with listings in between

  predicate OnSystems(d: Driver, events: seq<Event>) {
    forall i :: 0 <= i < |events| ==> events[i].system in d.systems
  }

  function After(d: Driver, events: seq<Event>): (r: Driver)
    requires OnSystems(d, events)
    ensures r.systems.Keys == d.systems.Keys
  {
    if events == [] then d else Step(After(d, events[..|events| - 1]), events[|events| - 1])
  }

  /** The caches are current after every event of the run. */
  ghost predicate AlwaysCurrent(d: Driver, events: seq<Event>)
    requires OnSystems(d, events)
  {
    && Listing.Current(After(d, events).caches, Arrays(After(d, events)))
    && (events != [] ==> AlwaysCurrent(d, events[..|events| - 1]))
  }

  ghost predicate NeverStale(d: Driver, events: seq<Event>)
    requires OnSystems(d, events)
  {
    events != [] ==>
      && !GoesStale(After(d, events[..|events| - 1]), events[|events| - 1])
      && NeverStale(d, events[..|events| - 1])
  }

  /**
    In every run of creations, copies, snapshots and deletions on any systems, succeeding or not, with
    listings in between: a cache that is not empty lists exactly what its system holds, at all times, exactly
    when no creation is left half done while the list that should show it is cached.
  */
  lemma {:induction false} CachesStayCurrentIff(d: Driver, events: seq<Event>)
    requires Listing.Current(d.caches, Arrays(d)) && OnSystems(d, events)
    ensures AlwaysCurrent(d, events) <==> NeverStale(d, events)
  {
    if events != [] {
      var front := events[..|events| - 1];
      CachesStayCurrentIff(d, front);
      if AlwaysCurrent(d, front) {
        EventKeepsCurrentIff(After(d, front), events[|events| - 1]);
      }
    }
  }

  ghost predicate AllSucceed(d: Driver, events: seq<Event>)
    requires OnSystems(d, events)
  {
    events != [] ==>
      && (var before := After(d, events[..|events| - 1]);
          var last := events[|events| - 1];
          last.Call? ==> Apply(before.systems[last.system], last.op).status == OK)
      && AllSucceed(d, events[..|events| - 1])
  }

  /** In particular the caches stay current in every run of successful calls. */
  lemma {:induction false} CachesStayCurrent(d: Driver, events: seq<Event>)
    requires Listing.Current(d.caches, Arrays(d)) && OnSystems(d, events) && AllSucceed(d, events)
    ensures AlwaysCurrent(d, events) && NeverStale(d, events)
  {
    if events != [] {
      var front, last := events[..|events| - 1], events[|events| - 1];
      CachesStayCurrent(d, front);
      if last.Call? {
        ClearedIsDone(After(d, front).systems[last.system], last.op);
      }
    }
    CachesStayCurrentIff(d, events);
  }

  /** A creation that the array carried out but that fails afterwards leaves the caches as they were: a
      cached list of the system then misses the new volume. */
  lemma HalfDoneCreateGoesStale(c: Listing.Caches, vols: Vols, system: string, name: string, size: int, pool: string,
                                e: CreateEnv)
    requires HalfDoneCreate(vols, name, e)
    requires c.vols == Listing.Cache(system, ContentOf(vols).vols) && c.vols.items != []
    ensures var d := Driver(c, map[system := vols]);
            var d' := Step(d, Call(system, Create(name, size, pool, e)));
            && Apply(vols, Create(name, size, pool, e)).status == Unavailable
            && d'.caches == c && !Listing.Current(d'.caches, Arrays(d'))
  {
    UnclearedChange(vols, Create(name, size, pool, e));
  }
}
