/** Snapshots of a group of volumes: naming them and telling a repeated request from a new one. */
module GroupSnapshot {
  import opened CsiTypes
  import opened Decimal
  import opened VolumeId

  /** A snapshot on the array, with the volume it was taken of and its consistency group. */
  datatype Snap = Snap(id: string, name: string, ancestor: string, group: string)

  /** A snapshot to make. */
  datatype Def = Def(volume: string, name: string)

  const MAX_GROUP_NAME := 27

  predicate UniqueNames(snaps: seq<Snap>) {
    forall i, j :: 0 <= i < j < |snaps| ==> snaps[i].name != snaps[j].name
  }

  predicate DistinctDefs(defs: seq<Def>) {
    forall i, j :: 0 <= i < j < |defs| ==> defs[i].name != defs[j].name
  }

  // ---------------------------------------------------------------- building the definitions

  function ValidateRequest(sources: seq<string>, name: string): Status {
    if sources == [] then InvalidArgument
    else if |name| > MAX_GROUP_NAME then InvalidArgument
    else OK
  }

  function SnapName(group: string, i: nat): string {
    group + "-" + Itoa(i)
  }

  function DefOf(group: string, source: string, i: nat): Def {
    Def(DecodeVolume(source), SnapName(group, i))
  }

  function Defs(group: string, sources: seq<string>): seq<Def> {
    seq(|sources|, i requires 0 <= i < |sources| => DefOf(group, sources[i], i))
  }

  /** A source has to name the group's system or none, pass the legacy check and exist. */
  predicate GoodSource(names: Aliases, system: string, source: string, legacyOk: set<string>, present: set<string>) {
    && (DecodeSystem(names, source) == "" || DecodeSystem(names, source) == system)
    && source in legacyOk && DecodeVolume(source) in present
  }

  method BuildSnapshotDefs(names: Aliases, system: string, group: string, sources: seq<string>,
                           legacyOk: set<string>, present: set<string>) returns (defs: Option<seq<Def>>)
    ensures defs.Some? <==> forall i :: 0 <= i < |sources| ==> GoodSource(names, system, sources[i], legacyOk, present)
    ensures defs.Some? ==> defs.value == Defs(group, sources)
  {
    var done: seq<Def> := [];
    var index := 0;
    while index < |sources|
      invariant 0 <= index <= |sources|
      invariant forall i :: 0 <= i < index ==> GoodSource(names, system, sources[i], legacyOk, present)
      invariant done == Defs(group, sources)[..index]
    {
      if !GoodSource(names, system, sources[index], legacyOk, present) {
        return None;
      }
      done := done + [DefOf(group, sources[index], index)];
      index := index + 1;
    }
    defs := Some(done);
  }

  /** The names of one request are different from each other, and short enough for the array when an
      accepted request has at most 1000 sources. */
  lemma NamesAreGood(group: string, sources: seq<string>)
    requires ValidateRequest(sources, group) == OK
    ensures DistinctDefs(Defs(group, sources))
    ensures |sources| <= 1000 ==> forall i :: 0 <= i < |sources| ==> |Defs(group, sources)[i].name| <= 31
  {
    forall i, j | 0 <= i < j < |sources|
      ensures SnapName(group, i) != SnapName(group, j)
    {
      if SnapName(group, i) == SnapName(group, j) {
        var k := |group| + 1;
        assert SnapName(group, i)[k..] == Itoa(i) && SnapName(group, j)[k..] == Itoa(j);
        ItoaInjective(i, j);
      }
    }
    if |sources| <= 1000 {
      forall i | 0 <= i < |sources|
        ensures |SnapName(group, i)| <= 31
      {
        ShortNumeral(i);
      }
    }
  }

  // ---------------------------------------------------------------- has the request been served?

  datatype Verdict = Create | Existing(group: string, ids: map<string, string>) | Mixture | ExtraSnapshots

  /** What a pass over the definitions has gathered. */
  datatype Found = Found(present: map<string, bool>, any: bool, group: string, ids: map<string, string>)

  /** Snapshots of a name, of whatever volume. */
  function ByName(snaps: seq<Snap>, name: string): seq<Snap> {
    if snaps == [] then []
    else
      var rest := ByName(snaps[..|snaps| - 1], name);
      if snaps[|snaps| - 1].name == name then rest + [snaps[|snaps| - 1]] else rest
  }

  function Members(snaps: seq<Snap>, group: string): seq<Snap> {
    if snaps == [] then []
    else
      var rest := Members(snaps[..|snaps| - 1], group);
      if snaps[|snaps| - 1].group == group then rest + [snaps[|snaps| - 1]] else rest
  }

  function Note(f: Found, d: Def, s: Snap): Found {
    var f1 := f.(group := s.group);
    if d.volume == s.ancestor && d.name == s.name then
      f1.(present := f1.present[d.name := true], any := true, ids := f1.ids[s.name := s.id])
    else f1
  }

  function NoteAll(f: Found, d: Def, existing: seq<Snap>): Found {
    if existing == [] then f else Note(NoteAll(f, d, existing[..|existing| - 1]), d, existing[|existing| - 1])
  }

  /** A look-up that fails finds nothing. */
  function Gather(snaps: seq<Snap>, defs: seq<Def>, unread: set<string>): Found {
    if defs == [] then Found(map[], false, "", map[])
    else
      var f := Gather(snaps, defs[..|defs| - 1], unread);
      var d := defs[|defs| - 1];
      NoteAll(f.(present := f.present[d.name := false]), d, if d.name in unread then [] else ByName(snaps, d.name))
  }

  function CheckIdempotency(snaps: seq<Snap>, defs: seq<Def>, unread: set<string>, listed: bool): Verdict {
    var f := Gather(snaps, defs, unread);
    if exists n :: n in f.present && f.present[n] != f.any then Mixture
    else if !f.any then Create
    else if (if listed then |Members(snaps, f.group)| else 0) != |f.ids| then ExtraSnapshots
    else Existing(f.group, f.ids)
  }

  class Server {
    var snaps: seq<Snap>

    method Lookup(name: string) returns (found: seq<Snap>)
      ensures found == ByName(snaps, name)
    {
      found := [];
      var i := 0;
      while i < |snaps|
        invariant 0 <= i <= |snaps|
        invariant found == ByName(snaps[..i], name)
      {
        assert snaps[..i + 1][..i] == snaps[..i];
        if snaps[i].name == name {
          found := found + [snaps[i]];
        }
        i := i + 1;
      }
      assert snaps[..|snaps|] == snaps;
    }

    method Check(defs: seq<Def>, unread: set<string>, listed: bool) returns (v: Verdict)
      ensures v == CheckIdempotency(snaps, defs, unread, listed)
    {
      var idempotencyMap: map<string, bool> := map[];
      var idempotencyValue := false;
      var group := "";
      var ids: map<string, string> := map[];
      var i := 0;
      while i < |defs|
        invariant 0 <= i <= |defs|
        invariant Found(idempotencyMap, idempotencyValue, group, ids) == Gather(snaps, defs[..i], unread)
      {
        var d := defs[i];
        assert defs[..i + 1][..i] == defs[..i];
        var existing: seq<Snap> := [];
        if d.name !in unread {
          existing := Lookup(d.name);
        }
        idempotencyMap := idempotencyMap[d.name := false];
        ghost var start := Found(idempotencyMap, idempotencyValue, group, ids);
        var j := 0;
        while j < |existing|
          invariant 0 <= j <= |existing|
          invariant Found(idempotencyMap, idempotencyValue, group, ids) == NoteAll(start, d, existing[..j])
        {
          var s := existing[j];
          assert existing[..j + 1][..j] == existing[..j];
          group := s.group;
          if d.volume == s.ancestor && d.name == s.name {
            idempotencyMap := idempotencyMap[d.name := true];
            idempotencyValue := true;
            ids := ids[s.name := s.id];
          }
          j := j + 1;
        }
        assert existing[..|existing|] == existing;
        i := i + 1;
      }
      assert defs[..|defs|] == defs;
      if exists n :: n in idempotencyMap && idempotencyMap[n] != idempotencyValue {
        return Mixture;
      }
      if !idempotencyValue {
        return Create;
      }
      var onArray := 0;
      if listed {
        var k := 0;
        while k < |snaps|
          invariant 0 <= k <= |snaps|
          invariant onArray == |Members(snaps[..k], group)|
        {
          assert snaps[..k + 1][..k] == snaps[..k];
          if snaps[k].group == group {
            onArray := onArray + 1;
          }
          k := k + 1;
        }
        assert snaps[..|snaps|] == snaps;
      }
      v := if onArray != |ids| then ExtraSnapshots else Existing(group, ids);
    }
  }
}
