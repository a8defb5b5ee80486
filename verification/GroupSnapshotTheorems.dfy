/** When a group snapshot request counts as served. */
module GroupSnapshotTheorems {
  import opened CsiTypes
  import opened Decimal
  import opened GroupSnapshot
  import opened VolumeId

  /** The snapshot a definition asks for is on the array. */
  ghost predicate Matched(snaps: seq<Snap>, d: Def) {
    exists s :: s in snaps && s.name == d.name && s.ancestor == d.volume
  }

  ghost predicate AllMatched(snaps: seq<Snap>, defs: seq<Def>) {
    forall d :: d in defs ==> Matched(snaps, d)
  }

  ghost predicate SomeMatched(snaps: seq<Snap>, defs: seq<Def>) {
    exists d :: d in defs && Matched(snaps, d)
  }

  /** The check sees that the snapshot is there: it is, and its look-up did not fail. */
  ghost predicate Visible(snaps: seq<Snap>, unread: set<string>, d: Def) {
    d.name !in unread && Matched(snaps, d)
  }

  ghost predicate AllVisible(snaps: seq<Snap>, unread: set<string>, defs: seq<Def>) {
    forall d :: d in defs ==> Visible(snaps, unread, d)
  }

  ghost predicate SomeVisible(snaps: seq<Snap>, unread: set<string>, defs: seq<Def>) {
    exists d :: d in defs && Visible(snaps, unread, d)
  }

  lemma {:induction false} ByNameNone(snaps: seq<Snap>, name: string)
    requires forall i :: 0 <= i < |snaps| ==> snaps[i].name != name
    ensures ByName(snaps, name) == []
  {
    if snaps != [] {
      ByNameNone(snaps[..|snaps| - 1], name);
    }
  }

  lemma {:induction false} ByNameMembers(snaps: seq<Snap>, name: string)
    ensures forall s :: s in ByName(snaps, name) <==> s in snaps && s.name == name
    ensures UniqueNames(snaps) ==> |ByName(snaps, name)| <= 1
  {
    if snaps != [] {
      var n := |snaps| - 1;
      ByNameMembers(snaps[..n], name);
      assert snaps == snaps[..n] + [snaps[n]];
      if UniqueNames(snaps) && snaps[n].name == name {
        ByNameNone(snaps[..n], name);
      }
    }
  }

  function Names(defs: seq<Def>): set<string> {
    set d | d in defs :: d.name
  }

  /** The pass over the definitions knows which are visible; if all are, it has an ID for each and ends
      with the group of the last. */
  ghost predicate Gathered(snaps: seq<Snap>, unread: set<string>, defs: seq<Def>, f: Found) {
    && f.present.Keys == Names(defs)
    && (forall d :: d in defs ==> (f.present[d.name] <==> Visible(snaps, unread, d)))
    && (f.any <==> SomeVisible(snaps, unread, defs))
    && (AllVisible(snaps, unread, defs) ==> f.ids.Keys == Names(defs))
    && (defs != [] && Visible(snaps, unread, defs[|defs| - 1]) ==>
          exists s :: s in snaps && s.name == defs[|defs| - 1].name && f.group == s.group)
  }

  lemma {:induction false} GatherMeans(snaps: seq<Snap>, unread: set<string>, defs: seq<Def>)
    requires UniqueNames(snaps) && DistinctDefs(defs)
    ensures Gathered(snaps, unread, defs, Gather(snaps, defs, unread))
  {
    if defs != [] {
      var n := |defs| - 1;
      var d := defs[n];
      assert defs == defs[..n] + [d];
      GatherMeans(snaps, unread, defs[..n]);
      var f := Gather(snaps, defs[..n], unread);
      NoteStep(snaps, unread, d, f);
      GatherNoted(snaps, unread, defs[..n], d, f, Gather(snaps, defs, unread));
    }
  }

  /** With unique names a look-up finds nothing, or one snapshot that decides whether the definition is matched. */
  lemma LookupDecides(snaps: seq<Snap>, d: Def)
    requires UniqueNames(snaps)
    ensures var existing := ByName(snaps, d.name);
            || (existing == [] && !Matched(snaps, d))
            || (|existing| == 1 && existing[0] in snaps && existing[0].name == d.name
                && (Matched(snaps, d) <==> existing[0].ancestor == d.volume))
  {
    ByNameMembers(snaps, d.name);
    var existing := ByName(snaps, d.name);
    if existing != [] {
      assert existing[0] in existing;
      assert forall x :: x in snaps && x.name == d.name ==> x in existing && x == existing[0];
    }
  }

  lemma VisibleWithOneMore(snaps: seq<Snap>, unread: set<string>, before: seq<Def>, d: Def)
    ensures SomeVisible(snaps, unread, before + [d]) <==>
            SomeVisible(snaps, unread, before) || Visible(snaps, unread, d)
    ensures AllVisible(snaps, unread, before + [d]) <==> AllVisible(snaps, unread, before) && Visible(snaps, unread, d)
    ensures Names(before + [d]) == Names(before) + {d.name}
  {
    assert d in before + [d];
    assert forall x :: x in before ==> x in before + [d];
  }

  /** The effect of one definition on what was gathered. */
  ghost predicate Noted(snaps: seq<Snap>, unread: set<string>, d: Def, f: Found, f': Found) {
    && f'.present == f.present[d.name := Visible(snaps, unread, d)]
    && f'.any == (f.any || Visible(snaps, unread, d))
    && (Visible(snaps, unread, d) ==> f'.ids.Keys == f.ids.Keys + {d.name})
    && (Visible(snaps, unread, d) ==> exists s :: s in snaps && s.name == d.name && f'.group == s.group)
  }

  lemma NoteStep(snaps: seq<Snap>, unread: set<string>, d: Def, f: Found)
    requires UniqueNames(snaps)
    ensures Noted(snaps, unread, d, f, NoteAll(f.(present := f.present[d.name := false]), d,
                                               if d.name in unread then [] else ByName(snaps, d.name)))
  {
    var existing := ByName(snaps, d.name);
    LookupDecides(snaps, d);
    if existing != [] {
      assert existing[..0] == [];
    }
  }

  lemma GatherNoted(snaps: seq<Snap>, unread: set<string>, before: seq<Def>, d: Def, f: Found, f': Found)
    requires d.name !in Names(before) && Gathered(snaps, unread, before, f) && Noted(snaps, unread, d, f, f')
    ensures Gathered(snaps, unread, before + [d], f')
  {
    VisibleWithOneMore(snaps, unread, before, d);
    var defs := before + [d];
    assert defs[|defs| - 1] == d;
    forall x | x in defs
      ensures x.name in f'.present && (f'.present[x.name] <==> Visible(snaps, unread, x))
    {
      if x in before {
        assert x.name in Names(before);
      }
    }
  }

  // ---------------------------------------------------------------- counting a group

  ghost function MemberNames(snaps: seq<Snap>, group: string): set<string> {
    set s | s in snaps && s.group == group :: s.name
  }

  lemma {:induction false} CountMembers(snaps: seq<Snap>, group: string)
    requires UniqueNames(snaps)
    ensures |Members(snaps, group)| == |MemberNames(snaps, group)|
  {
    if snaps != [] {
      var n := |snaps| - 1;
      CountMembers(snaps[..n], group);
      assert snaps == snaps[..n] + [snaps[n]];
      if snaps[n].group == group {
        assert MemberNames(snaps, group) == MemberNames(snaps[..n], group) + {snaps[n].name};
        assert forall s :: s in snaps[..n] ==> s.name != snaps[n].name;
      } else {
        assert MemberNames(snaps, group) == MemberNames(snaps[..n], group);
      }
    }
  }

  lemma {:induction false} CountNames(defs: seq<Def>)
    requires DistinctDefs(defs)
    ensures |Names(defs)| == |defs|
  {
    if defs != [] {
      var n := |defs| - 1;
      CountNames(defs[..n]);
      assert defs == defs[..n] + [defs[n]];
      assert Names(defs) == Names(defs[..n]) + {defs[n].name};
      assert forall d :: d in defs[..n] ==> d.name != defs[n].name;
    }
  }

  lemma SameSize(a: set<string>, b: set<string>)
    requires a <= b
    ensures |a| == |b| <==> a == b
  {
    assert b == a + (b - a);
    assert |b| == |a| + |b - a|;
  }

  // ---------------------------------------------------------------- the verdict

  /** Every snapshot the definitions name on the array is in the group. */
  ghost predicate InGroup(snaps: seq<Snap>, defs: seq<Def>, group: string) {
    forall s :: s in snaps && s.name in Names(defs) ==> s.group == group
  }

  /** The group the check looks into: that of the last definition's snapshot. */
  ghost predicate LastGroup(snaps: seq<Snap>, defs: seq<Def>, group: string) {
    defs != [] && exists s :: s in snaps && s.name == defs[|defs| - 1].name && s.group == group
  }

  /** Whichever look-ups fail: a request is to be created exactly when none of its snapshots is seen, it is
      refused as a mixture exactly when some but not all are, and otherwise the last one's group is counted,
      if the listing works. */
  lemma VerdictByCounting(snaps: seq<Snap>, defs: seq<Def>, unread: set<string>, listed: bool)
    requires UniqueNames(snaps) && DistinctDefs(defs)
    ensures var v := CheckIdempotency(snaps, defs, unread, listed);
            && (v == Create <==> !SomeVisible(snaps, unread, defs))
            && (v == Mixture <==> SomeVisible(snaps, unread, defs) && !AllVisible(snaps, unread, defs))
            && (v.Existing? ==> listed && AllVisible(snaps, unread, defs))
            && (SomeVisible(snaps, unread, defs) && AllVisible(snaps, unread, defs) ==>
                  exists g :: LastGroup(snaps, defs, g)
                    && (v.Existing? <==> listed && |MemberNames(snaps, g)| == |Names(defs)|)
                    && (v.Existing? ==> v.group == g && v.ids.Keys == Names(defs)))
  {
    var f := Gather(snaps, defs, unread);
    GatherMeans(snaps, unread, defs);
    assert (exists n :: n in f.present && f.present[n] != f.any)
           <==> SomeVisible(snaps, unread, defs) && !AllVisible(snaps, unread, defs) by {
      assert forall d :: d in defs ==> d.name in f.present;
    }
    if SomeVisible(snaps, unread, defs) && AllVisible(snaps, unread, defs) {
      var d := defs[|defs| - 1];
      assert d in defs && d.name in f.ids.Keys;
      CountMembers(snaps, f.group);
      assert LastGroup(snaps, defs, f.group);
      assert |f.ids| == |f.ids.Keys|;
    }
  }

  lemma {:induction false} UnreadElsewhere(snaps: seq<Snap>, defs: seq<Def>, unread: set<string>)
    requires Names(defs) !! unread
    ensures Gather(snaps, defs, unread) == Gather(snaps, defs, {})
  {
    if defs != [] {
      var n := |defs| - 1;
      assert defs == defs[..n] + [defs[n]] && defs[n] in defs && defs[n].name in Names(defs);
      assert Names(defs[..n]) <= Names(defs);
      UnreadElsewhere(snaps, defs[..n], unread);
    }
  }

  /** The last snapshot's group has another number of members than the request. */
  ghost predicate Miscounted(snaps: seq<Snap>, defs: seq<Def>) {
    exists g :: LastGroup(snaps, defs, g) && |MemberNames(snaps, g)| != |Names(defs)|
  }

  /** If all match, the verdict of answered calls is by that count. */
  lemma TruthByCount(snaps: seq<Snap>, defs: seq<Def>)
    requires UniqueNames(snaps) && DistinctDefs(defs) && AllMatched(snaps, defs) && SomeMatched(snaps, defs)
    ensures var truth := CheckIdempotency(snaps, defs, {}, true);
            (truth == ExtraSnapshots <==> Miscounted(snaps, defs)) && (truth.Existing? <==> !Miscounted(snaps, defs))
  {
    VerdictByCounting(snaps, defs, {}, true);
    AllAnswered(snaps, defs);
    var truth := CheckIdempotency(snaps, defs, {}, true);
    var g :| LastGroup(snaps, defs, g) && (truth.Existing? <==> |MemberNames(snaps, g)| == |Names(defs)|);
    forall h | LastGroup(snaps, defs, h)
      ensures h == g
    {
      SameGroup(snaps, defs[|defs| - 1].name, g, h);
    }
  }

  /**
    The errors of the look-ups and of the listing are ignored. The verdict is nevertheless the one that
    answered calls would give exactly when nothing matches, or something matching is seen and, if all match,
    all are seen and the listing works or would not have counted as many members as the request has.
  */
  lemma VerdictIsTrueIff(snaps: seq<Snap>, defs: seq<Def>, unread: set<string>, listed: bool)
    requires UniqueNames(snaps) && DistinctDefs(defs)
    ensures CheckIdempotency(snaps, defs, unread, listed) == CheckIdempotency(snaps, defs, {}, true) <==>
              || !SomeMatched(snaps, defs)
              || (&& SomeVisible(snaps, unread, defs)
                  && (AllMatched(snaps, defs) ==>
                      AllVisible(snaps, unread, defs) && (listed || Miscounted(snaps, defs))))
  {
    VerdictByCounting(snaps, defs, {}, true);
    VerdictByCounting(snaps, defs, unread, listed);
    AllAnswered(snaps, defs);
    if SomeMatched(snaps, defs) && AllMatched(snaps, defs) {
      TruthByCount(snaps, defs);
    }
    if AllVisible(snaps, unread, defs) {
      UnreadElsewhere(snaps, defs, unread);
    }
  }

  lemma AllAnswered(snaps: seq<Snap>, defs: seq<Def>)
    ensures SomeVisible(snaps, {}, defs) <==> SomeMatched(snaps, defs)
    ensures AllVisible(snaps, {}, defs) <==> AllMatched(snaps, defs)
  {
    assert forall d :: Visible(snaps, {}, d) <==> Matched(snaps, d);
  }

  lemma MatchedNames(snaps: seq<Snap>, defs: seq<Def>, group: string)
    requires AllMatched(snaps, defs) && InGroup(snaps, defs, group)
    ensures Names(defs) <= MemberNames(snaps, group)
  {
    forall n | n in Names(defs)
      ensures n in MemberNames(snaps, group)
    {
      var d :| d in defs && d.name == n;
      assert Matched(snaps, d);
      var s :| s in snaps && s.name == d.name && s.ancestor == d.volume;
    }
  }

  /**
    If all snapshots of the request that exist lie in one group, the request counts as served exactly
    when every one of them exists and is seen, the listing works, and the group contains nothing else.
  */
  lemma ServedIff(snaps: seq<Snap>, defs: seq<Def>, unread: set<string>, listed: bool, group: string)
    requires UniqueNames(snaps) && DistinctDefs(defs) && defs != [] && InGroup(snaps, defs, group)
    ensures var v := CheckIdempotency(snaps, defs, unread, listed);
            && (v.Existing? <==> listed && AllVisible(snaps, unread, defs) && MemberNames(snaps, group) == Names(defs))
            && (v.Existing? ==> v.group == group)
  {
    VerdictByCounting(snaps, defs, unread, listed);
    if AllVisible(snaps, unread, defs) {
      assert defs[0] in defs && SomeVisible(snaps, unread, defs);
      var v := CheckIdempotency(snaps, defs, unread, listed);
      var g :| LastGroup(snaps, defs, g)
               && (v.Existing? <==> listed && |MemberNames(snaps, g)| == |Names(defs)|)
               && (v.Existing? ==> v.group == g);
      assert defs[|defs| - 1] in defs && defs[|defs| - 1].name in Names(defs);
      assert g == group;
      MatchedNames(snaps, defs, group);
      SameSize(Names(defs), MemberNames(snaps, group));
    }
  }

  lemma SameSnap(snaps: seq<Snap>, a: Snap, b: Snap)
    requires UniqueNames(snaps) && a in snaps && b in snaps && a.name == b.name
    ensures a == b
  {
    var i :| 0 <= i < |snaps| && snaps[i] == a;
    var j :| 0 <= j < |snaps| && snaps[j] == b;
  }

  lemma NoMember(snaps: seq<Snap>, s: Snap, group: string)
    requires UniqueNames(snaps) && s in snaps && s.group != group
    ensures s.name !in MemberNames(snaps, group)
  {
    forall x | x in snaps && x.name == s.name
      ensures x == s
    {
      SameSnap(snaps, x, s);
    }
  }

  lemma SameGroup(snaps: seq<Snap>, name: string, g: string, h: string)
    requires UniqueNames(snaps)
    requires exists s :: s in snaps && s.name == name && s.group == g
    requires exists s :: s in snaps && s.name == name && s.group == h
    ensures g == h
  {
    var a :| a in snaps && a.name == name && a.group == g;
    var b :| b in snaps && b.name == name && b.group == h;
    SameSnap(snaps, a, b);
  }

  /**
    Nothing but a comment checks that one group holds them all. When every snapshot exists and the
    last one's group happens to have as many members as the request, the request counts as served;
    that answer is right exactly when the snapshots do share a group.
  */
  lemma ServedByAccident(snaps: seq<Snap>, defs: seq<Def>, unread: set<string>, listed: bool, group: string)
    requires UniqueNames(snaps) && DistinctDefs(defs) && defs != []
    requires CheckIdempotency(snaps, defs, unread, listed).Existing? && LastGroup(snaps, defs, group)
    ensures |MemberNames(snaps, group)| == |defs|
    ensures MemberNames(snaps, group) == Names(defs) <==> InGroup(snaps, defs, group)
  {
    VerdictByCounting(snaps, defs, unread, listed);
    assert defs[0] in defs && SomeVisible(snaps, unread, defs);
    CountNames(defs);
    var g :| LastGroup(snaps, defs, g) && |MemberNames(snaps, g)| == |Names(defs)|;
    SameGroup(snaps, defs[|defs| - 1].name, g, group);
    if InGroup(snaps, defs, group) {
      ServedIff(snaps, defs, unread, listed, group);
    } else {
      var s :| s in snaps && s.name in Names(defs) && s.group != group;
      NoMember(snaps, s, group);
    }
  }

  /** Accidents happen: two snapshots of the request in two groups, the second with a stranger in it. */
  lemma AccidentHappens(a: Snap, b: Snap, stranger: Snap)
    requires a.name != b.name && a.name != stranger.name && b.name != stranger.name
    requires a.group != b.group && b.group == stranger.group
    ensures var snaps, defs := [a, b, stranger], [Def(a.ancestor, a.name), Def(b.ancestor, b.name)];
            var v := CheckIdempotency(snaps, defs, {}, true);
            v.Existing? && v.group == b.group && MemberNames(snaps, b.group) != Names(defs)
  {
    var snaps, defs := [a, b, stranger], [Def(a.ancestor, a.name), Def(b.ancestor, b.name)];
    assert snaps[0] in snaps && snaps[1] in snaps && snaps[2] in snaps && defs[0] in defs;
    assert Visible(snaps, {}, defs[0]) && Visible(snaps, {}, defs[1]);
    assert AllVisible(snaps, {}, defs) && SomeVisible(snaps, {}, defs);
    VerdictByCounting(snaps, defs, {}, true);
    assert stranger.name in MemberNames(snaps, b.group) && stranger.name !in Names(defs);
    assert MemberNames(snaps, b.group) == {b.name, stranger.name};
    CountNames(defs);
    forall g | LastGroup(snaps, defs, g)
      ensures g == b.group
    {
    }
  }

  // ---------------------------------------------------------------- creating and repeating

  /** What the array holds after it made the snapshots of a request in a group of their own. */
  ghost predicate Made(snaps: seq<Snap>, defs: seq<Def>, group: string, made: seq<Snap>) {
    && |made| == |defs|
    && (forall i :: 0 <= i < |defs| ==>
        made[i].name == defs[i].name && made[i].ancestor == defs[i].volume && made[i].group == group)
    && (forall s :: s in snaps ==> s.group != group && s.name !in Names(defs))
  }

  /** Once a request has been carried out, the same request counts as served, by the group it made, exactly
      when its look-ups and the listing work. */
  lemma RepeatIsServedIff(snaps: seq<Snap>, defs: seq<Def>, group: string, made: seq<Snap>, unread: set<string>,
                          listed: bool)
    requires UniqueNames(snaps) && DistinctDefs(defs) && defs != [] && Made(snaps, defs, group, made)
    ensures UniqueNames(snaps + made)
    ensures var v := CheckIdempotency(snaps + made, defs, unread, listed);
            && (v.Existing? <==> listed && Names(defs) !! unread)
            && (v.Existing? ==> v.group == group)
            && (v == Create <==> Names(defs) <= unread)
  {
    var all := snaps + made;
    forall i | 0 <= i < |made|
      ensures made[i].name in Names(defs) && made[i] in all
    {
      assert defs[i] in defs && all[|snaps| + i] == made[i];
    }
    forall i, j | 0 <= i < j < |all|
      ensures all[i].name != all[j].name
    {
      if i < |snaps| <= j {
        assert all[i] in snaps && all[j] == made[j - |snaps|];
      }
    }
    forall d | d in defs
      ensures Matched(all, d)
    {
      var i :| 0 <= i < |defs| && defs[i] == d;
      assert made[i] in all;
    }
    assert MemberNames(all, group) == Names(defs) by {
      forall n | n in Names(defs)
        ensures n in MemberNames(all, group)
      {
        var d :| d in defs && d.name == n;
        var i :| 0 <= i < |defs| && defs[i] == d;
        assert made[i] in all;
      }
    }
    ServedIff(all, defs, unread, listed, group);
    VerdictByCounting(all, defs, unread, listed);
    assert forall d :: d in defs ==> (Visible(all, unread, d) <==> d.name !in unread);
    assert forall d :: d in defs ==> d.name in Names(defs);
  }

  // ---------------------------------------------------------------- what the answers hold

  /** A request is taken up exactly if it names sources and has a name of at most 27 characters. */
  lemma RequestMeans(sources: seq<string>, name: string)
    ensures ValidateRequest(sources, name) == if |sources| > 0 && |name| <= 27 then OK else InvalidArgument
  {
  }

  /** One snapshot is asked for per source: of the volume that the source names, under the name of the request
      and the position of the source. */
  lemma DefsMean(group: string, sources: seq<string>, i: nat, system: string, volume: string)
    requires i < |sources| && sources[i] == system + "-" + volume && '-' !in volume
    ensures |Defs(group, sources)| == |sources|
    ensures Defs(group, sources)[i] == Def(volume, group + "-" + Itoa(i))
  {
    assert sources[i] == system + ['-'] + volume;
    LastIndexJoin(system, volume, '-');
    SplitJoin(system, volume, '-');
    SplitFree(volume, '-');
  }

  /** A source that names a system is good exactly if it is the group's, and the source passes both look-ups. */
  lemma GoodSourceMeans(names: Aliases, system: string, group: string, volume: string, legacyOk: set<string>,
                        present: set<string>)
    requires '/' !in system && '/' !in volume && '-' !in system && '-' !in volume
    requires system != "" && (system in names ==> names[system] != "")
    ensures GoodSource(names, group, system + "-" + volume, legacyOk, present) <==>
              && (if system in names then names[system] else system) == group
              && system + "-" + volume in legacyOk && volume in present
    ensures GoodSource(names, group, volume, legacyOk, present) <==> volume in legacyOk && volume in present
  {
    BlockRoundTrip(names, system, volume);
    SplitFree(volume, '-');
  }

  lemma {:induction false} NotedId(f: Found, d: Def, existing: seq<Snap>, n: string)
    requires n != d.name
    ensures n in NoteAll(f, d, existing).ids <==> n in f.ids
    ensures n in f.ids ==> NoteAll(f, d, existing).ids[n] == f.ids[n]
  {
    if existing != [] {
      NotedId(f, d, existing[..|existing| - 1], n);
    }
  }

  /** The IDs gathered are those of the snapshots of the names. */
  lemma {:induction false} GatheredIds(snaps: seq<Snap>, unread: set<string>, defs: seq<Def>, n: string)
    requires UniqueNames(snaps) && DistinctDefs(defs) && n in Gather(snaps, defs, unread).ids
    ensures exists s :: s in snaps && s.name == n && s.id == Gather(snaps, defs, unread).ids[n]
  {
    if defs != [] {
      var d := defs[|defs| - 1];
      var f := Gather(snaps, defs[..|defs| - 1], unread);
      var existing := if d.name in unread then [] else ByName(snaps, d.name);
      var f0 := f.(present := f.present[d.name := false]);
      if n != d.name {
        NotedId(f0, d, existing, n);
        GatheredIds(snaps, unread, defs[..|defs| - 1], n);
      } else {
        OwnId(snaps, unread, defs, d, f);
      }
    }
  }

  lemma OwnId(snaps: seq<Snap>, unread: set<string>, defs: seq<Def>, d: Def, f: Found)
    requires UniqueNames(snaps) && DistinctDefs(defs) && defs != [] && d == defs[|defs| - 1]
    requires f == Gather(snaps, defs[..|defs| - 1], unread) && d.name in Gather(snaps, defs, unread).ids
    ensures exists s :: s in snaps && s.name == d.name && s.id == Gather(snaps, defs, unread).ids[d.name]
  {
    IdsAreOfDefs(snaps, unread, defs[..|defs| - 1], d.name);
    LookupDecides(snaps, d);
    var existing := ByName(snaps, d.name);
    var f0 := f.(present := f.present[d.name := false]);
    if existing != [] && d.name !in unread {
      assert existing[..0] == [];
      assert |existing| == 1 && NoteAll(f0, d, existing[..0]) == f0;
      assert NoteAll(f0, d, existing) == Note(f0, d, existing[0]);
      assert existing[0] in snaps;
    }
  }

  lemma {:induction false} IdsAreOfDefs(snaps: seq<Snap>, unread: set<string>, defs: seq<Def>, n: string)
    requires forall d :: d in defs ==> d.name != n
    ensures n !in Gather(snaps, defs, unread).ids
  {
    if defs != [] {
      var d := defs[|defs| - 1];
      assert d in defs;
      IdsAreOfDefs(snaps, unread, defs[..|defs| - 1], n);
      var f := Gather(snaps, defs[..|defs| - 1], unread);
      NotedId(f.(present := f.present[d.name := false]), d, if d.name in unread then [] else ByName(snaps, d.name), n);
    }
  }

  /** A request that counts as served is answered with the IDs of the snapshots it names. */
  lemma ServedIds(snaps: seq<Snap>, defs: seq<Def>, unread: set<string>, listed: bool, s: Snap)
    requires UniqueNames(snaps) && DistinctDefs(defs) && CheckIdempotency(snaps, defs, unread, listed).Existing?
    requires s in snaps && s.name in Names(defs)
    ensures var ids := CheckIdempotency(snaps, defs, unread, listed).ids; s.name in ids && ids[s.name] == s.id
  {
    VerdictByCounting(snaps, defs, unread, listed);
    GatherMeans(snaps, unread, defs);
    GatheredIds(snaps, unread, defs, s.name);
    var x :| x in snaps && x.name == s.name && x.id == Gather(snaps, defs, unread).ids[s.name];
    SameSnap(snaps, x, s);
  }
}
