/** Mapping a block volume to hosts on the array: controller publish and unpublish with QoS limits. */
module HostMapping {
  import opened CsiTypes
  import opened Decimal

  datatype HostType = SdcHost | NvmeHost | OtherHost

  datatype Host = Host(id: string, name: string, kind: HostType)

  /** One host a volume is mapped to, with its limits; 0 means unlimited. */
  datatype Mapping = Mapping(id: string, name: string, kind: HostType, bandwidthMbps: int, iops: int)

  type Mappings = seq<Mapping>

  /** Limits as the storage class writes them; "" means not given. */
  datatype Limits = Limits(bandwidthKbps: string, iops: string)

  /** nvme tells which of the two publishers serves the node; the host is missing if the array does not know it. */
  datatype PublishRequest = PublishRequest(nvme: bool, host: Option<Host>, mode: AccessMode, isBlock: bool,
                                           limits: Limits)

  datatype Lookup = Present | Gone | LookupFailed

  datatype UnpublishEnv = UnpublishEnv(volume: Lookup, unmapped: bool)

  datatype PublishEnv = PublishEnv(mapped: bool, reread: bool, limitsSet: bool, rollback: UnpublishEnv)

  // ---------------------------------------------------------------- tables of access modes

  predicate SingleNode(mode: AccessMode) {
    mode in {SingleNodeWriter, SingleNodeMultiWriter, SingleNodeSingleWriter, SingleNodeReaderOnly}
  }

  /** shouldAllowMultipleMappings: None is an error. */
  function MultipleMappings(isBlock: bool, mode: AccessMode): Option<bool> {
    match mode
    case MultiNodeReaderOnly => Some(true)
    case MultiNodeMultiWriter => if isBlock then Some(true) else None
    case MultiNodeSingleWriter => None
    case _ => Some(false)
  }

  predicate ValidAccessType(mode: AccessMode, isBlock: bool) {
    if isBlock then
      mode in {SingleNodeWriter, SingleNodeMultiWriter, SingleNodeSingleWriter, MultiNodeReaderOnly,
        MultiNodeMultiWriter}
    else
      mode in {SingleNodeWriter, SingleNodeMultiWriter, SingleNodeSingleWriter, SingleNodeReaderOnly,
        MultiNodeReaderOnly}
  }

  // ---------------------------------------------------------------- limits

  predicate Numeric(s: string) {
    s == "" || ParseInt(s).Some?
  }

  predicate ValidLimits(l: Limits) {
    Numeric(l.bandwidthKbps) && Numeric(l.iops)
  }

  predicate Given(l: Limits) {
    l.bandwidthKbps != "" || l.iops != ""
  }

  predicate SameLimits(l: Limits, m: Mapping) {
    && ValidLimits(l)
    && (l.bandwidthKbps == "" || Itoa(m.bandwidthMbps * 1024) == l.bandwidthKbps)
    && (l.iops == "" || Itoa(m.iops) == l.iops)
  }

  /** The array keeps bandwidth in whole Mbps. */
  function WithLimits(m: Mapping, l: Limits): Mapping
    requires ValidLimits(l)
  {
    m.(bandwidthMbps := if l.bandwidthKbps == "" then m.bandwidthMbps else ParseInt(l.bandwidthKbps).value / 1024,
       iops := if l.iops == "" then m.iops else ParseInt(l.iops).value)
  }

  // ---------------------------------------------------------------- publish and unpublish

  /** An SDC host is recognised by its ID, an NVMe host by its name. */
  predicate Matches(h: Host, m: Mapping) {
    if h.kind == NvmeHost then m.name == h.name else m.id == h.id
  }

  predicate Removable(h: Host, m: Mapping) {
    (m.kind == SdcHost || m.kind == NvmeHost) && m.id == h.id
  }

  function FirstMatch(ms: Mappings, h: Host): Option<Mapping> {
    if ms == [] then None
    else
      match FirstMatch(ms[..|ms| - 1], h)
      case Some(m) => Some(m)
      case None => if Matches(h, ms[|ms| - 1]) then Some(ms[|ms| - 1]) else None
  }

  function Unmap(ms: Mappings, id: string): Mappings {
    if ms == [] then []
    else Unmap(ms[..|ms| - 1], id) + (if ms[|ms| - 1].id == id then [] else [ms[|ms| - 1]])
  }

  function Unpublish(ms: Mappings, h: Option<Host>, e: UnpublishEnv): (Mappings, Status) {
    if e.volume == Gone then (ms, OK)
    else if e.volume == LookupFailed then (ms, Internal)
    else if h.None? then (ms, Internal)
    else if !(exists m :: m in ms && Removable(h.value, m)) then (ms, OK)
    else if !e.unmapped then (ms, Internal)
    else (Unmap(ms, h.value.id), OK)
  }

  /** Setting the limits of the mapping made last; a refusal by the array rolls the mapping back. */
  function SetLimits(ms: Mappings, h: Host, l: Limits, e: PublishEnv): (Mappings, Status)
    requires ms != []
  {
    if !ValidLimits(l) then (ms, InvalidArgument)
    else if !Given(l) then (ms, OK)
    else if !e.reread then (ms, NotFound)
    else if !e.limitsSet then (Unpublish(ms, Some(h), e.rollback).0, Internal)
    else (ms[|ms| - 1 := WithLimits(ms[|ms| - 1], l)], OK)
  }

  function NewMapping(h: Host): Mapping {
    Mapping(h.id, h.name, h.kind, 0, 0)
  }

  function MapTo(ms: Mappings, h: Host, mode: AccessMode, isBlock: bool, l: Limits, e: PublishEnv): (Mappings, Status) {
    if MultipleMappings(isBlock, mode).None? then (ms, InvalidArgument)
    else if !ValidAccessType(mode, isBlock) then (ms, InvalidArgument)
    else if !e.mapped then (ms, Internal)
    else SetLimits(ms + [NewMapping(h)], h, l, e)
  }

  function Publish(ms: Mappings, r: PublishRequest, e: PublishEnv): (Mappings, Status) {
    if r.mode == UnknownMode then (ms, InvalidArgument)
    else if r.host.None? then (ms, if r.nvme then Internal else NotFound)
    else
      match FirstMatch(ms, r.host.value)
      case Some(m) => (ms, if SameLimits(r.limits, m) then OK else InvalidArgument)
      case None =>
        if ms != [] && SingleNode(r.mode) then (ms, FailedPrecondition)
        else MapTo(ms, r.host.value, r.mode, r.isBlock, r.limits, e)
  }

  class MappedVolume {
    var mapped: Mappings

    method ControllerPublishVolume(r: PublishRequest, e: PublishEnv) returns (s: Status)
      modifies this
      ensures (mapped, s) == Publish(old(mapped), r, e)
    {
      if r.mode == UnknownMode {
        return InvalidArgument;
      }
      if r.host.None? {
        return if r.nvme then Internal else NotFound;
      }
      var h := r.host.value;
      if |mapped| > 0 {
        var i := 0;
        while i < |mapped|
          invariant 0 <= i <= |mapped|
          invariant mapped == old(mapped)
          invariant FirstMatch(mapped[..i], h) == None
        {
          assert mapped[..i + 1][..i] == mapped[..i];
          if Matches(h, mapped[i]) {
            FirstMatchStops(mapped, i + 1, h);
            return if SameLimits(r.limits, mapped[i]) then OK else InvalidArgument;
          }
          i := i + 1;
        }
        assert mapped[..|mapped|] == mapped;
        if SingleNode(r.mode) {
          return FailedPrecondition;
        }
      }
      if MultipleMappings(r.isBlock, r.mode).None? {
        return InvalidArgument;
      }
      if !ValidAccessType(r.mode, r.isBlock) {
        return InvalidArgument;
      }
      if !e.mapped {
        return Internal;
      }
      mapped := mapped + [NewMapping(h)];
      s := SetQoSIfNeeded(h, r.limits, e);
    }

    method SetQoSIfNeeded(h: Host, l: Limits, e: PublishEnv) returns (s: Status)
      requires mapped != []
      modifies this
      ensures (mapped, s) == SetLimits(old(mapped), h, l, e)
    {
      if !ValidLimits(l) {
        return InvalidArgument;
      }
      if !Given(l) {
        return OK;
      }
      if !e.reread {
        return NotFound;
      }
      if !e.limitsSet {
        var _ := ControllerUnpublishVolume(Some(h), e.rollback);
        return Internal;
      }
      mapped := mapped[|mapped| - 1 := WithLimits(mapped[|mapped| - 1], l)];
      s := OK;
    }

    method ControllerUnpublishVolume(h: Option<Host>, e: UnpublishEnv) returns (s: Status)
      modifies this
      ensures (mapped, s) == Unpublish(old(mapped), h, e)
    {
      match e.volume
      case Gone => return OK;
      case LookupFailed => return Internal;
      case Present =>
      if h.None? {
        return Internal;
      }
      var mappedToNode := false;
      var i := 0;
      while i < |mapped| && !mappedToNode
        invariant 0 <= i <= |mapped|
        invariant mapped == old(mapped)
        invariant mappedToNode ==> exists m :: m in mapped && Removable(h.value, m)
        invariant !mappedToNode ==> forall m :: m in mapped[..i] ==> !Removable(h.value, m)
      {
        if Removable(h.value, mapped[i]) {
          mappedToNode := true;
        }
        assert mapped[..i + 1] == mapped[..i] + [mapped[i]];
        i := i + 1;
      }
      if !mappedToNode {
        assert mapped[..|mapped|] == mapped;
        return OK;
      }
      if !e.unmapped {
        return Internal;
      }
      mapped := Unmap(mapped, h.value.id);
      s := OK;
    }
  }

  lemma {:induction false} FirstMatchStops(ms: Mappings, k: nat, h: Host)
    requires k <= |ms| && FirstMatch(ms[..k], h).Some?
    ensures FirstMatch(ms, h) == FirstMatch(ms[..k], h)
    decreases |ms|
  {
    if k == |ms| {
      assert ms[..k] == ms;
    } else {
      assert ms[..|ms| - 1][..k] == ms[..k];
      FirstMatchStops(ms[..|ms| - 1], k, h);
    }
  }
}
