/** What controller publish and unpublish guarantee about the hosts a volume is mapped to. */
module HostMappingTheorems {
  import opened CsiTypes
  import opened Decimal
  import opened HostMapping

  // ---------------------------------------------------------------- facts about the two list functions

  lemma {:induction false} FirstMatchMembers(ms: Mappings, h: Host)
    ensures FirstMatch(ms, h).None? <==> forall m :: m in ms ==> !Matches(h, m)
  {
    if ms != [] {
      FirstMatchMembers(ms[..|ms| - 1], h);
      assert ms == ms[..|ms| - 1] + [ms[|ms| - 1]];
    }
  }

  lemma {:induction false} UnmapShrinks(ms: Mappings, id: string)
    ensures |Unmap(ms, id)| <= |ms|
    ensures (forall m :: m in ms ==> m.id != id) ==> Unmap(ms, id) == ms
    ensures (exists m :: m in ms && m.id == id) ==> |Unmap(ms, id)| < |ms|
  {
    if ms != [] {
      UnmapShrinks(ms[..|ms| - 1], id);
      assert ms == ms[..|ms| - 1] + [ms[|ms| - 1]];
    }
  }

  /** Unmapping the mapping made last gives the mappings before it back. */
  lemma UnmapLast(ms: Mappings, m: Mapping)
    requires forall x :: x in ms ==> x.id != m.id
    ensures Unmap(ms + [m], m.id) == ms
  {
    assert (ms + [m])[..|ms|] == ms;
    UnmapShrinks(ms, m.id);
  }

  // ---------------------------------------------------------------- exclusivity

  datatype Step =
    | PublishStep(r: PublishRequest, pe: PublishEnv)
    | UnpublishStep(host: Option<Host>, ue: UnpublishEnv)

  function Apply(ms: Mappings, s: Step): Mappings {
    match s
    case PublishStep(r, e) => Publish(ms, r, e).0
    case UnpublishStep(h, e) => Unpublish(ms, h, e).0
  }

  function Run(ms: Mappings, steps: seq<Step>): Mappings {
    if steps == [] then ms else Apply(Run(ms, steps[..|steps| - 1]), steps[|steps| - 1])
  }

  /** The requests that may put a volume on a second host. */
  predicate Shares(r: PublishRequest) {
    r.mode == MultiNodeReaderOnly || (r.mode == MultiNodeMultiWriter && r.isBlock)
  }

  /** A mode that may take a volume nobody uses. */
  predicate UsableAlone(mode: AccessMode, isBlock: bool) {
    || mode in {SingleNodeWriter, SingleNodeSingleWriter, SingleNodeMultiWriter, MultiNodeReaderOnly}
    || (mode == SingleNodeReaderOnly && !isBlock) || (mode == MultiNodeMultiWriter && isBlock)
  }

  lemma UnpublishShrinks(ms: Mappings, h: Option<Host>, e: UnpublishEnv)
    ensures |Unpublish(ms, h, e).0| <= |ms|
  {
    if h.Some? {
      UnmapShrinks(ms, h.value.id);
    }
  }

  /** A step adds at most one mapping, and a second one only for a sharing request. */
  lemma StepAdds(ms: Mappings, s: Step)
    ensures |Apply(ms, s)| <= |ms| + 1
    ensures |Apply(ms, s)| > |ms| && ms != [] ==> s.PublishStep? && Shares(s.r)
  {
    match s
    case PublishStep(r, e) =>
      if r.host.Some? {
        UnpublishShrinks(ms + [NewMapping(r.host.value)], r.host, e.rollback);
      }
    case UnpublishStep(h, e) => UnpublishShrinks(ms, h, e);
  }

  /**
    In every run in which no publish of the volume asks for shared access, the volume is mapped to
    at most one host, SDC and NVMe hosts mixed and calls failing as they like. All four single-node
    modes are among the modes that do not share.
  */
  lemma {:induction false} UnsharedMeansOneHost(ms: Mappings, steps: seq<Step>)
    requires |ms| <= 1
    requires forall i :: 0 <= i < |steps| && steps[i].PublishStep? ==> !Shares(steps[i].r)
    ensures |Run(ms, steps)| <= 1
    ensures forall r: PublishRequest ::
              r.mode in {SingleNodeWriter, SingleNodeMultiWriter, SingleNodeSingleWriter, SingleNodeReaderOnly} ==>
                !Shares(r)
  {
    if steps != [] {
      UnsharedMeansOneHost(ms, steps[..|steps| - 1]);
      StepAdds(Run(ms, steps[..|steps| - 1]), steps[|steps| - 1]);
    }
  }

  // ---------------------------------------------------------------- undoing and repeating

  ghost predicate Unmapped(ms: Mappings, h: Host) {
    forall m :: m in ms ==> m.id != h.id && m.name != h.name
  }

  const ALL_WELL := UnpublishEnv(Present, true)

  lemma UndoLast(ms: Mappings, h: Host, m: Mapping, e: UnpublishEnv)
    requires Unmapped(ms, h) && h.kind != OtherHost && m.id == h.id && m.kind == h.kind && e == ALL_WELL
    ensures Unpublish(ms + [m], Some(h), e) == (ms, OK)
  {
    assert m in ms + [m] && Removable(h, m);
    UnmapLast(ms, m);
  }

  /** A publish that maps a new host, followed by its unpublish, restores the mappings exactly, limits
      of other hosts included. */
  lemma UnpublishUndoesPublish(ms: Mappings, r: PublishRequest, e: PublishEnv)
    requires r.host.Some? && Unmapped(ms, r.host.value) && r.host.value.kind != OtherHost && Publish(ms, r, e).1 == OK
    ensures Unpublish(Publish(ms, r, e).0, r.host, ALL_WELL) == (ms, OK)
  {
    var h := r.host.value;
    FirstMatchMembers(ms, h);
    var ms' := Publish(ms, r, e).0;
    var m := ms'[|ms|];
    assert ms' == ms + [m];
    UndoLast(ms, h, m, ALL_WELL);
  }

  /**
    A publish that fails leaves the mappings as they were unless it had mapped a new host, and then
    exactly if the array refused the limits and the roll-back worked. Limits that are not numbers,
    or a volume that cannot be read again, leave the host mapped.
  */
  lemma FailedPublishRestoresIff(ms: Mappings, r: PublishRequest, e: PublishEnv)
    requires r.host.Some? && Unmapped(ms, r.host.value) && r.host.value.kind != OtherHost && Publish(ms, r, e).1 != OK
    ensures Publish(ms, r, e).0 == ms <==>
              || !(if ms == [] then UsableAlone(r.mode, r.isBlock) else Shares(r)) || !e.mapped
              || (ValidLimits(r.limits) && e.reread && e.rollback == ALL_WELL)
  {
    var h := r.host.value;
    FirstMatchMembers(ms, h);
    var ms1 := ms + [NewMapping(h)];
    assert ms1 != ms;
    assert NewMapping(h) in ms1 && Removable(h, NewMapping(h));
    if e.rollback == ALL_WELL {
      UndoLast(ms, h, NewMapping(h), ALL_WELL);
    }
  }

  /** It happens: a bandwidth that is no number is refused after the host was mapped. */
  lemma BadLimitsLeaveHostMapped(h: Host, e: PublishEnv)
    requires e.mapped
    ensures Publish([], PublishRequest(false, Some(h), SingleNodeWriter, true, Limits("x", "")), e)
            == ([Mapping(h.id, h.name, h.kind, 0, 0)], InvalidArgument)
  {
    assert "x"[0] == 'x' && 'x' in "x" && !IsDigit('x');
    assert ParseInt("x") == None;
    assert [] + [NewMapping(h)] == [NewMapping(h)];
  }

  predicate Canonical(s: string) {
    s == "" || (ParseInt(s).Some? && Itoa(ParseInt(s).value) == s)
  }

  lemma {:induction false} FirstMatchIsLast(ms: Mappings, h: Host, m: Mapping)
    requires FirstMatch(ms, h).None? && Matches(h, m)
    ensures FirstMatch(ms + [m], h) == Some(m)
  {
    assert (ms + [m])[..|ms|] == ms;
  }

  lemma RoundedDown(n: int, d: int)
    requires d > 0
    ensures n / d * d <= n && (n / d * d == n <==> n % d == 0)
  {
    assert n == d * (n / d) + n % d;
  }

  /** A number in range reads as the numeral exactly when the numeral is canonical and of that number. */
  lemma ReadsAsIff(s: string, k: int)
    requires s != "" && ParseInt(s).Some? && MIN_INT64 <= k <= MAX_INT64
    ensures Itoa(k) == s <==> Canonical(s) && k == ParseInt(s).value
  {
    if Itoa(k) == s {
      ParseItoa(k);
    }
  }

  lemma InRange(n: int)
    requires MIN_INT64 <= n <= MAX_INT64
    ensures MIN_INT64 <= n / 1024 * 1024 <= MAX_INT64
  {
    RoundedDown(n, 1024);
    assert MIN_INT64 == -0x20_0000_0000_0000 * 1024;
    assert n / 1024 >= -0x20_0000_0000_0000;
  }

  /** What the array hands back as a limit reads as the request exactly for canonical multiples of 1024. */
  lemma BandwidthSurvivesIff(s: string)
    requires s != "" && ParseInt(s).Some?
    ensures var n := ParseInt(s).value; Itoa(n / 1024 * 1024) == s <==> Canonical(s) && n % 1024 == 0
  {
    var n := ParseInt(s).value;
    InRange(n);
    RoundedDown(n, 1024);
    ReadsAsIff(s, n / 1024 * 1024);
  }

  /**
    Repeating a publish that mapped a new host never changes the mappings, and succeeds exactly when
    the limits are written canonically and the bandwidth is a multiple of 1024 Kbps.
  */
  lemma RepublishSucceedsIff(ms: Mappings, r: PublishRequest, e: PublishEnv, again: PublishEnv)
    requires r.host.Some? && Unmapped(ms, r.host.value) && r.host.value.kind != OtherHost && Publish(ms, r, e).1 == OK
    ensures var ms' := Publish(ms, r, e).0;
            && Publish(ms', r, again).0 == ms'
            && (Publish(ms', r, again).1 == OK <==>
                  && Canonical(r.limits.bandwidthKbps) && Canonical(r.limits.iops)
                  && (r.limits.bandwidthKbps == "" || ParseInt(r.limits.bandwidthKbps).value % 1024 == 0))
  {
    var h := r.host.value;
    var l := r.limits;
    FirstMatchMembers(ms, h);
    var ms' := Publish(ms, r, e).0;
    var m := ms'[|ms|];
    assert ms' == ms + [m];
    FirstMatchIsLast(ms, h, m);
    if l.bandwidthKbps != "" {
      BandwidthSurvivesIff(l.bandwidthKbps);
    }
  }

  /** Unpublishing twice is the same as once. */
  lemma UnpublishIsIdempotent(ms: Mappings, h: Host, e: UnpublishEnv, again: UnpublishEnv)
    requires Unpublish(ms, Some(h), e).1 == OK && e.volume == Present && again.volume == Present
    ensures Unpublish(Unpublish(ms, Some(h), e).0, Some(h), again) == (Unpublish(ms, Some(h), e).0, OK)
  {
    UnmapRemoves(ms, h.id);
  }

  lemma {:induction false} UnmapRemoves(ms: Mappings, id: string)
    ensures forall m :: m in Unmap(ms, id) <==> m in ms && m.id != id
  {
    if ms != [] {
      UnmapRemoves(ms[..|ms| - 1], id);
      assert ms == ms[..|ms| - 1] + [ms[|ms| - 1]];
    }
  }

  // ---------------------------------------------------------------- success

  /**
    If no outside call fails, publishing to a host that is not mapped succeeds exactly when the limits
    are numbers and the volume is free and the mode usable, or the request may share. The host is then
    mapped with the limits asked for, after all the mappings there were.
  */
  lemma PublishSucceedsIff(ms: Mappings, r: PublishRequest, e: PublishEnv)
    requires r.host.Some? && Unmapped(ms, r.host.value) && e.mapped && e.reread && e.limitsSet
    ensures Publish(ms, r, e).1 == OK <==>
              ValidLimits(r.limits) && (if ms == [] then UsableAlone(r.mode, r.isBlock) else Shares(r))
    ensures Publish(ms, r, e).1 == OK ==>
              var (h, l) := (r.host.value, r.limits);
              Publish(ms, r, e).0 ==
              ms + [Mapping(h.id, h.name, h.kind,
                            if l.bandwidthKbps == "" then 0 else ParseInt(l.bandwidthKbps).value / 1024,
                            if l.iops == "" then 0 else ParseInt(l.iops).value)]
  {
    FirstMatchMembers(ms, r.host.value);
  }

  /**
    What each answer to a publish to a host that the volume is not mapped to means, and what the volume is
    mapped to afterwards: all the earlier mappings and the host, with the limits asked for in Mbps and I/O
    operations and 0 for a limit that was not asked for.
  */
  lemma NewHostMeans(ms: Mappings, r: PublishRequest, e: PublishEnv)
    requires r.host.Some?
    requires forall m :: m in ms ==>
               if r.host.value.kind == NvmeHost then m.name != r.host.value.name else m.id != r.host.value.id
    ensures var (ms', s) := Publish(ms, r, e);
            var (h, l) := (r.host.value, r.limits);
            var taken := ms != [] && r.mode in {SingleNodeWriter, SingleNodeMultiWriter, SingleNodeSingleWriter,
                                                SingleNodeReaderOnly};
            var allowed := if ms == [] then UsableAlone(r.mode, r.isBlock) else Shares(r);
            var numbers :=
              (l.bandwidthKbps == "" || ParseInt(l.bandwidthKbps).Some?) && (l.iops == "" || ParseInt(l.iops).Some?);
            var limited := l.bandwidthKbps != "" || l.iops != "";
            && (s == FailedPrecondition <==> taken)
            && (s == InvalidArgument <==> !taken && (!allowed || (e.mapped && !numbers)))
            && (s == NotFound <==> allowed && e.mapped && numbers && limited && !e.reread)
            && (s == Internal <==> allowed && (!e.mapped || (numbers && limited && e.reread && !e.limitsSet)))
            && s in {OK, FailedPrecondition, InvalidArgument, NotFound, Internal}
            && (!allowed || !e.mapped ==> ms' == ms)
            && (allowed && e.mapped && s != Internal ==>
                  && |ms'| == |ms| + 1 && ms'[..|ms|] == ms
                  && var m := ms'[|ms|];
                  && m.id == h.id && m.name == h.name && m.kind == h.kind
                  && m.bandwidthMbps ==
                     (if s != OK || l.bandwidthKbps == "" then 0 else ParseInt(l.bandwidthKbps).value / 1024)
                  && m.iops == (if s != OK || l.iops == "" then 0 else ParseInt(l.iops).value))
  {
    FirstMatchMembers(ms, r.host.value);
  }

  lemma {:induction false} FirstMatchIsFirst(ms: Mappings, h: Host, i: nat)
    requires i < |ms| && Matches(h, ms[i]) && forall j :: 0 <= j < i ==> !Matches(h, ms[j])
    ensures FirstMatch(ms, h) == Some(ms[i])
  {
    FirstMatchMembers(ms[..i], h);
    assert ms[..i + 1][..i] == ms[..i];
    FirstMatchStops(ms, i + 1, h);
  }

  /** A publish to a host the volume is mapped to changes nothing; it succeeds exactly if the limits are
      written as those of the first mapping that matches. */
  lemma KnownHostMeans(ms: Mappings, r: PublishRequest, e: PublishEnv, i: nat)
    requires r.host.Some? && i < |ms|
    requires forall j :: 0 <= j <= i ==>
               ((if r.host.value.kind == NvmeHost then ms[j].name == r.host.value.name else ms[j].id == r.host.value.id)
                <==> j == i)
    ensures var (ms', s) := Publish(ms, r, e);
            var l := r.limits;
            && ms' == ms
            && (s == OK <==>
                  && r.mode != UnknownMode
                  && (l.bandwidthKbps == "" || ParseInt(l.bandwidthKbps).Some?)
                  && (l.iops == "" || ParseInt(l.iops).Some?)
                  && (l.bandwidthKbps == "" || l.bandwidthKbps == Itoa(1024 * ms[i].bandwidthMbps))
                  && (l.iops == "" || l.iops == Itoa(ms[i].iops)))
            && (s != OK ==> s == InvalidArgument)
  {
    FirstMatchIsFirst(ms, r.host.value, i);
  }

  /** A publish to a host the array does not know changes nothing and tells so, unless the mode is missing. */
  lemma UnknownHostMeans(ms: Mappings, r: PublishRequest, e: PublishEnv)
    requires r.host.None?
    ensures Publish(ms, r, e) ==
            (ms, if r.mode == UnknownMode then InvalidArgument else if r.nvme then Internal else NotFound)
  {
  }

  /** What each answer to an unpublish means: success leaves no mapping of an SDC or NVMe host by the ID and
      all the others; a volume that is gone counts as success. */
  lemma UnpublishMeans(ms: Mappings, h: Option<Host>, e: UnpublishEnv)
    ensures var (ms', s) := Unpublish(ms, h, e);
            var mapped := h.Some? && exists m :: m in ms && m.id == h.value.id && m.kind != OtherHost;
            && (s == OK <==> e.volume == Gone || (e.volume == Present && h.Some? && (mapped ==> e.unmapped)))
            && (s != OK ==> s == Internal)
            && (s != OK || e.volume == Gone || !mapped ==> ms' == ms)
            && (s == OK && e.volume == Present && mapped ==>
                  |ms'| < |ms| && forall m :: m in ms' <==> m in ms && m.id != h.value.id)
  {
    if h.Some? {
      UnmapRemoves(ms, h.value.id);
      UnmapShrinks(ms, h.value.id);
    }
  }

  /** Where the array refuses the limits, the roll-back is an unpublish of the host: it takes the new mapping
      back exactly if it works. */
  lemma RollbackMeans(ms: Mappings, r: PublishRequest, e: PublishEnv)
    requires r.host.Some? && Unmapped(ms, r.host.value) && r.host.value.kind != OtherHost
    requires Publish(ms, r, e).1 == Internal && e.mapped
    ensures Publish(ms, r, e).0 ==
            if e.rollback.volume == Present && e.rollback.unmapped then ms
            else ms + [Mapping(r.host.value.id, r.host.value.name, r.host.value.kind, 0, 0)]
  {
    var h := r.host.value;
    FirstMatchMembers(ms, h);
    if e.rollback == ALL_WELL {
      UndoLast(ms, h, NewMapping(h), ALL_WELL);
    } else {
      assert NewMapping(h) in ms + [NewMapping(h)] && Removable(h, NewMapping(h));
    }
  }

  /** The array is told to allow a second mapping exactly for the requests that may share; two kinds of request
      are refused before. */
  lemma MultipleMappingsMeans(r: PublishRequest)
    ensures MultipleMappings(r.isBlock, r.mode) == Some(true) <==> Shares(r)
    ensures MultipleMappings(r.isBlock, r.mode) == None <==>
              r.mode == MultiNodeSingleWriter || (r.mode == MultiNodeMultiWriter && !r.isBlock)
  {
  }

  /** Setting limits succeeds exactly if they are numbers and, with one given, both calls work; it changes the
      limits given of the mapping made last and nothing else. */
  lemma LimitsMeans(ms: Mappings, h: Host, l: Limits, e: PublishEnv)
    requires ms != []
    ensures var (ms', s) := SetLimits(ms, h, l, e);
            var numbers :=
              (l.bandwidthKbps == "" || ParseInt(l.bandwidthKbps).Some?) && (l.iops == "" || ParseInt(l.iops).Some?);
            var last := |ms| - 1;
            && (s == OK <==> numbers && (l.bandwidthKbps != "" || l.iops != "" ==> e.reread && e.limitsSet))
            && (s == OK ==>
                  && |ms'| == |ms| && ms'[..last] == ms[..last]
                  && ms'[last].id == ms[last].id && ms'[last].name == ms[last].name && ms'[last].kind == ms[last].kind
                  && ms'[last].bandwidthMbps ==
                     (if l.bandwidthKbps == "" then ms[last].bandwidthMbps else ParseInt(l.bandwidthKbps).value / 1024)
                  && ms'[last].iops == (if l.iops == "" then ms[last].iops else ParseInt(l.iops).value))
  {
  }
}
