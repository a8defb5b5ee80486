/**
  Expanding a block volume and, through it, the remote volume of its replication pair.

  Expansion calls itself on the remote volume, whose own pair leads back. The direction flag of a
  replication group is not what stops it: every call is preceded by a resize, so fewer volumes are
  below the requested size each time.
*/
module Expand {
  import opened CsiTypes
  import opened VolumeId
  import opened VolumeSize

  type VolumeKey = (string, string)

  datatype Volume = Volume(size: int, replicated: bool)

  type Volumes = map<VolumeKey, Volume>

  datatype Pair = Pair(local: string, remote: string, group: string)
  datatype Group = Group(remoteToLocal: bool, remoteSystem: string)

  /** Aliases, default system, and per system its replication pairs and groups. */
  datatype Config = Config(
    names: Aliases,
    defaultSystem: string,
    pairs: map<string, seq<Pair>>,
    groups: map<VolumeKey, Group>)

  datatype Outcome = Done(capacityKiB: int) | Failed(status: Status) | Crashed

  /** Outcomes of the outside calls of one level of the recursion: a flag tells whether the call succeeded. */
  datatype ExpandEnv = ExpandEnv(
    legacyChecked: bool,
    nfs: Outcome,
    probed: bool,
    found: bool,
    resized: bool,
    pairsRead: bool,
    groupRead: bool,
    reread: nat -> bool)

  const MAX_READS := 100

  function SystemOf(c: Config, handle: string): string {
    var s := DecodeSystem(c.names, handle);
    if s == "" then c.defaultSystem else s
  }

  function KeyOf(c: Config, handle: string): VolumeKey {
    (SystemOf(c, handle), DecodeVolume(handle))
  }

  function FindPair(pairs: seq<Pair>, volume: string): Option<Pair> {
    if pairs == [] then None
    else if pairs[0].local == volume then Some(pairs[0])
    else FindPair(pairs[1..], volume)
  }

  function PairOf(c: Config, key: VolumeKey): Option<Pair> {
    if key.0 in c.pairs then FindPair(c.pairs[key.0], key.1) else None
  }

  function GroupOf(c: Config, key: VolumeKey): Option<Group> {
    match PairOf(c, key)
    case None => None
    case Some(p) => if (key.0, p.group) in c.groups then Some(c.groups[(key.0, p.group)]) else None
  }

  /** The handle of the remote volume, as the recursive call receives it. */
  function RemoteHandle(c: Config, key: VolumeKey): string
    requires PairOf(c, key).Some? && GroupOf(c, key).Some?
  {
    EncodeBlock(GroupOf(c, key).value.remoteSystem, PairOf(c, key).value.remote)
  }

  /** The array sizes volumes in whole GiB. */
  function Resize(vols: Volumes, key: VolumeKey, kib: int): Volumes
    requires key in vols
  {
    vols[key := vols[key].(size := kib / KIB_IN_GIB * KIB_IN_GIB)]
  }

  // ---------------------------------------------------------------- termination

  ghost function Smaller(vols: Volumes, kib: int): set<VolumeKey> {
    set k | k in vols && vols[k].size < kib
  }

  lemma ProductIsFar(k: int, n: int)
    requires n > 0
    ensures k >= 1 ==> k * n >= n
    ensures k <= -1 ==> k * n <= -n
  {
    if k >= 1 {
      assert (k - 1) * n >= 0;
    } else if k <= -1 {
      assert (-1 - k) * n >= 0;
    }
  }

  lemma QuotientOfMultiple(q: int, n: int)
    requires n > 0
    ensures q * n / n == q
  {
    var r := q * n / n;
    assert q * n == n * r + q * n % n;
    assert (q - r) * n == q * n % n;
    ProductIsFar(q - r, n);
  }

  /** A multiple of m * n is a multiple of n. */
  lemma MultipleOfFactor(k: int, m: int, n: int)
    requires m > 0 && n > 0 && m * n > 0 && k % (m * n) == 0
    ensures k / n * n == k
  {
    var q := k / (m * n);
    assert k == m * n * q;
    assert k == m * q * n;
    QuotientOfMultiple(m * q, n);
  }

  lemma WholeGiB(kib: int)
    requires kib % MULTIPLE_KIB == 0
    ensures kib / KIB_IN_GIB * KIB_IN_GIB == kib
  {
    MultipleOfFactor(kib, MULTIPLE_GIB, KIB_IN_GIB);
  }

  lemma ResizeIsExact(vols: Volumes, key: VolumeKey, kib: int)
    requires key in vols && IsVolumeSize(kib)
    ensures Resize(vols, key, kib) == vols[key := vols[key].(size := kib)]
  {
    WholeGiB(kib);
  }

  lemma ResizeLeavesFewerSmaller(vols: Volumes, key: VolumeKey, kib: int)
    requires key in vols && vols[key].size < kib && IsVolumeSize(kib)
    ensures |Smaller(Resize(vols, key, kib), kib)| < |Smaller(vols, kib)|
  {
    ResizeIsExact(vols, key, kib);
    assert Smaller(Resize(vols, key, kib), kib) == Smaller(vols, kib) - {key};
  }

  ghost function Rank(vols: Volumes, want: Sized): nat {
    if want.SizeKiB? then |Smaller(vols, want.kib)| else 0
  }

  ghost predicate Wanted(want: Sized) {
    want.SizeKiB? ==> IsVolumeSize(want.kib)
  }

  // ---------------------------------------------------------------- the two functions

  /** want is what the size check makes of the request; it is the same at every level. */
  ghost function ExpandVolume(c: Config, env: nat -> ExpandEnv, level: nat, vols: Volumes, handle: string,
                              want: Sized): (Volumes, Outcome)
    requires Wanted(want)
    decreases Rank(vols, want), 0
  {
    var e := env(level);
    var key := KeyOf(c, handle);
    if handle == "" then (vols, Failed(InvalidArgument))
    else if !e.legacyChecked then (vols, Failed(Internal))
    else if '/' in handle then (vols, e.nfs)
    else if key.0 == "" then (vols, Failed(InvalidArgument))
    else if !e.probed then (vols, Failed(FailedPrecondition))
    else if key !in vols then (vols, Failed(NotFound))
    else if !e.found then (vols, Failed(Internal))
    else if want.Refused? then (vols, Failed(want.status))
    else if want.kib < vols[key].size then (vols, Done(0))
    else if want.kib == vols[key].size then (vols, Done(want.kib))
    else if !e.resized then (vols, Failed(Internal))
    else
      ResizeLeavesFewerSmaller(vols, key, want.kib);
      var vols1 := Resize(vols, key, want.kib);
      if !vols[key].replicated then (vols1, Done(want.kib))
      else
        var (vols2, o) := ExpandPair(c, env, level, vols1, key, want);
        match o
        case Done(_) => (vols2, Done(want.kib))
        case Failed(_) => (vols2, Failed(Internal))
        case Crashed => (vols2, Crashed)
  }

  ghost function ExpandPair(c: Config, env: nat -> ExpandEnv, level: nat, vols: Volumes, key: VolumeKey,
                            want: Sized): (Volumes, Outcome)
    requires Wanted(want)
    decreases Rank(vols, want), 1
  {
    var e := env(level);
    if !e.pairsRead || PairOf(c, key).None? then (vols, Failed(Unknown))
    else if !e.groupRead || GroupOf(c, key).None? then (vols, Failed(Unknown))
    else if GroupOf(c, key).value.remoteToLocal then (vols, Done(0))
    else
      var (vols1, o) := ExpandVolume(c, env, level + 1, vols, RemoteHandle(c, key), want);
      match o
      case Done(_) =>
        if want.Refused? then (vols1, Failed(want.status))
        else if Reads(e, vols1, key, want.kib, 0) then (vols1, Done(0))
        else (vols1, Crashed)
      case _ => (vols1, o)
  }

  /** Reading the volume until it has the wanted size; a read that fails is a crash. */
  predicate Reads(e: ExpandEnv, vols: Volumes, key: VolumeKey, kib: int, attempt: nat)
    decreases MAX_READS - attempt
  {
    e.reread(attempt) && key in vols
    && (vols[key].size != kib && attempt < MAX_READS ==> Reads(e, vols, key, kib, attempt + 1))
  }

  class Controller {
    const config: Config
    var vols: Volumes

    constructor (config: Config, vols: Volumes)
      ensures this.config == config && this.vols == vols
    {
      this.config, this.vols := config, vols;
    }

    method ControllerExpandVolume(env: nat -> ExpandEnv, level: nat, handle: string, want: Sized) returns (o: Outcome)
      requires Wanted(want)
      modifies this`vols
      ensures (vols, o) == ExpandVolume(config, env, level, old(vols), handle, want)
      decreases Rank(vols, want), 0
    {
      var e := env(level);
      if handle == "" {
        return Failed(InvalidArgument);
      }
      if !e.legacyChecked {
        return Failed(Internal);
      }
      if '/' in handle {
        return e.nfs;
      }
      var key := KeyOf(config, handle);
      if key.0 == "" {
        return Failed(InvalidArgument);
      }
      if !e.probed {
        return Failed(FailedPrecondition);
      }
      if key !in vols {
        return Failed(NotFound);
      }
      if !e.found {
        return Failed(Internal);
      }
      if want.Refused? {
        return Failed(want.status);
      }
      var current := vols[key].size;
      if want.kib < current {
        return Done(0);
      }
      if want.kib == current {
        return Done(want.kib);
      }
      if !e.resized {
        return Failed(Internal);
      }
      ResizeLeavesFewerSmaller(vols, key, want.kib);
      var replicated := vols[key].replicated;
      vols := Resize(vols, key, want.kib);
      if replicated {
        o := ExpandReplicationPair(env, level, key, want);
        match o
        case Done(_) =>
        case Failed(_) => return Failed(Internal);
        case Crashed => return;
      }
      o := Done(want.kib);
    }

    method ExpandReplicationPair(env: nat -> ExpandEnv, level: nat, key: VolumeKey, want: Sized) returns (o: Outcome)
      requires Wanted(want)
      modifies this`vols
      ensures (vols, o) == ExpandPair(config, env, level, old(vols), key, want)
      decreases Rank(vols, want), 1
    {
      var e := env(level);
      if !e.pairsRead || PairOf(config, key).None? {
        return Failed(Unknown);
      }
      if !e.groupRead || GroupOf(config, key).None? {
        return Failed(Unknown);
      }
      if GroupOf(config, key).value.remoteToLocal {
        return Done(0);
      }
      o := ControllerExpandVolume(env, level + 1, RemoteHandle(config, key), want);
      if !o.Done? {
        return;
      }
      if want.Refused? {
        return Failed(want.status);
      }
      if !e.reread(0) || key !in vols {
        return Crashed;
      }
      var attempts: nat := 0;
      while vols[key].size != want.kib && attempts < MAX_READS
        invariant attempts <= MAX_READS && key in vols && e.reread(attempts)
        invariant Reads(e, vols, key, want.kib, 0) == Reads(e, vols, key, want.kib, attempts)
        decreases MAX_READS - attempts
      {
        attempts := attempts + 1;
        if !e.reread(attempts) {
          return Crashed;
        }
      }
      o := Done(0);
    }
  }
}
