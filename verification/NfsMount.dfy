/** Publishing and unpublishing an NFS export on a node: one mount of the export at the target, no private mount. */
module NfsMount {
  import opened CsiTypes
  import opened MountTable

  /** One attempt to mount an export: it succeeds with the recorded options, is refused in a way
      worth retrying, or fails for good. */
  datatype Attempt = Attached(opts: seq<string>) | Refused | Failed

  const MAX_RETRIES := 5

  datatype NfsEnv = NfsEnv(targetMade: bool, mountsRead: bool, attempt: nat -> Attempt)

  datatype NfsRequest = NfsRequest(url: string, target: string, readonly: bool, capability: Option<Capability>)

  predicate SingleNfsMode(mode: AccessMode) {
    mode in {SingleNodeWriter, SingleNodeReaderOnly, SingleNodeSingleWriter}
  }

  function ReadWriteOption(readonly: bool): string {
    if readonly then "ro" else "rw"
  }

  /** None when the rows leave the mount to be made, otherwise the status they decide. */
  function ScanNfs(rows: Table, url: string, target: string, option: string, single: bool): Option<Status> {
    if rows == [] then None
    else
      var m := rows[|rows| - 1];
      match ScanNfs(rows[..|rows| - 1], url, target, option, single)
      case Some(s) => Some(s)
      case None =>
        if m.device != url then None
        else if m.path == target then Some(if option in m.opts then OK else AlreadyExists)
        else if single then Some(FailedPrecondition)
        else None
  }

  /** The outcome of attempt number i and the retries after it. */
  function Outcome(e: NfsEnv, i: nat): Attempt
    decreases MAX_RETRIES - i
  {
    if e.attempt(i) == Refused && i < MAX_RETRIES then Outcome(e, i + 1) else e.attempt(i)
  }

  function PublishNfs(t: Table, r: NfsRequest, e: NfsEnv): (Table, Status) {
    if r.capability.None? then (t, InvalidArgument)
    else if r.capability.value.mode.None? then (t, InvalidArgument)
    else if r.capability.value.access != MountAccess then (t, InvalidArgument)
    else if r.target == "" then (t, InvalidArgument)
    else if !e.targetMade then (t, FailedPrecondition)
    else if !e.mountsRead then (t, Internal)
    else
      match ScanNfs(t, r.url, r.target, ReadWriteOption(r.readonly), SingleNfsMode(r.capability.value.mode.value))
      case Some(s) => (t, s)
      case None =>
        match Outcome(e, 0)
        case Attached(opts) => (t + [Mount(r.url, r.url, r.target, opts)], OK)
        case _ => (t, Unknown)
  }

  predicate ContainsString(s: string, part: string) {
    exists i :: 0 <= i <= |s| && part <= s[i..]
  }

  /** filesystem is the name that picks out the rows of the export among all rows. */
  function UnpublishNfs(t: Table, filesystem: string, target: string, mountsRead: bool, unmounted: bool)
    : (Table, Status)
  {
    if !mountsRead then (t, Internal)
    else if !(exists m :: m in t && ContainsString(m.device, filesystem) && m.path == target) then (t, OK)
    else if !unmounted then (t, Internal)
    else (Unmount(t, target), OK)
  }

  class NfsNode {
    var mounts: Table

    method PublishVolume(r: NfsRequest, e: NfsEnv) returns (s: Status)
      modifies this`mounts
      ensures (mounts, s) == PublishNfs(old(mounts), r, e)
    {
      if r.capability.None? || r.capability.value.mode.None? || r.capability.value.access != MountAccess {
        return InvalidArgument;
      }
      if r.target == "" {
        return InvalidArgument;
      }
      if !e.targetMade {
        return FailedPrecondition;
      }
      if !e.mountsRead {
        return Internal;
      }
      var option := ReadWriteOption(r.readonly);
      var single := SingleNfsMode(r.capability.value.mode.value);
      var i := 0;
      while i < |mounts|
        invariant 0 <= i <= |mounts|
        invariant mounts == old(mounts)
        invariant ScanNfs(mounts[..i], r.url, r.target, option, single) == None
      {
        var m := mounts[i];
        assert mounts[..i + 1][..i] == mounts[..i];
        if m.device == r.url {
          if m.path == r.target {
            ScanNfsStops(mounts, i + 1, r.url, r.target, option, single);
            return if option in m.opts then OK else AlreadyExists;
          }
          if single {
            ScanNfsStops(mounts, i + 1, r.url, r.target, option, single);
            return FailedPrecondition;
          }
        }
        i := i + 1;
      }
      assert mounts[..|mounts|] == mounts;
      var count: nat := 0;
      var last := e.attempt(0);
      while last == Refused && count < MAX_RETRIES
        invariant count <= MAX_RETRIES
        invariant last == e.attempt(count)
        invariant Outcome(e, 0) == Outcome(e, count)
        decreases MAX_RETRIES - count
      {
        count := count + 1;
        last := e.attempt(count);
      }
      if !last.Attached? {
        return Unknown;
      }
      mounts := mounts + [Mount(r.url, r.url, r.target, last.opts)];
      s := OK;
    }

    method UnpublishVolume(filesystem: string, target: string, mountsRead: bool, unmounted: bool) returns (s: Status)
      modifies this`mounts
      ensures (mounts, s) == UnpublishNfs(old(mounts), filesystem, target, mountsRead, unmounted)
    {
      if !mountsRead {
        return Internal;
      }
      var i := 0;
      while i < |mounts| && !(ContainsString(mounts[i].device, filesystem) && mounts[i].path == target)
        invariant 0 <= i <= |mounts|
        invariant forall j :: 0 <= j < i ==> !(ContainsString(mounts[j].device, filesystem) && mounts[j].path == target)
      {
        i := i + 1;
      }
      if i == |mounts| {
        return OK;
      }
      assert mounts[i] in mounts;
      if !unmounted {
        return Internal;
      }
      mounts := Unmount(mounts, target);
      s := OK;
    }
  }

  lemma {:induction false} ScanNfsStops(t: Table, k: nat, url: string, target: string, option: string, single: bool)
    requires k <= |t| && ScanNfs(t[..k], url, target, option, single).Some?
    ensures ScanNfs(t, url, target, option, single) == ScanNfs(t[..k], url, target, option, single)
    decreases |t|
  {
    if k == |t| {
      assert t[..k] == t;
    } else {
      assert t[..|t| - 1][..k] == t[..k];
      ScanNfsStops(t[..|t| - 1], k, url, target, option, single);
    }
  }
}
