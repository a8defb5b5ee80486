/**
  The index from the first three characters of a volume ID to the systems that hold such IDs. It
  answers without a full scan whether a volume of the default system, known by its bare ID, also
  exists on another system.
*/
module PrefixIndex {
  import opened VolumeId

  type Ids = seq<string>

  /** The volumes of each registered or unregistered system. */
  type Arrays = map<string, Ids>

  type Index = map<string, seq<string>>

  const KEY_LENGTH := 3

  function Key(id: string): string
    requires |id| >= KEY_LENGTH
  {
    id[..KEY_LENGTH]
  }

  /** Systems number their volumes with IDs of at least three characters. */
  predicate ProperIds(arrays: Arrays) {
    forall s :: s in arrays ==> forall id :: id in arrays[s] ==> |id| >= KEY_LENGTH
  }

  /** A system is filed under the key of the first volume it lists. */
  function Update(index: Index, arrays: Arrays, system: string, listed: bool): (Index, bool)
    requires system in arrays && ProperIds(arrays)
  {
    if !listed then (index, false)
    else if arrays[system] == [] then (index, true)
    else
      assert arrays[system][0] in arrays[system];
      var key := Key(arrays[system][0]);
      if key !in index then (index[key := [system]], true)
      else if system in index[key] then (index, true)
      else (index[key := index[key] + [system]], true)
  }

  /** listed tells which systems can be listed. The answer is true when the ID raises no objection. */
  predicate Check(index: Index, arrays: Arrays, names: Aliases, handle: string, listed: set<string>) {
    || DecodeSystem(names, handle) != ""
    || (&& |handle| >= KEY_LENGTH
        && (Key(handle) in index ==>
              forall s :: s in index[Key(handle)] ==> s in listed && s in arrays && handle !in arrays[s]))
  }

  class Service {
    var volumePrefixToSystems: Index

    method UpdateVolumePrefixToSystemsMap(arrays: Arrays, system: string, listed: bool) returns (ok: bool)
      requires system in arrays && ProperIds(arrays)
      modifies this
      ensures (volumePrefixToSystems, ok) == Update(old(volumePrefixToSystems), arrays, system, listed)
    {
      if !listed {
        return false;
      }
      if |arrays[system]| == 0 {
        return true;
      }
      assert arrays[system][0] in arrays[system];
      var key := Key(arrays[system][0]);
      if key in volumePrefixToSystems {
        if system in volumePrefixToSystems[key] {
          return true;
        }
        volumePrefixToSystems := volumePrefixToSystems[key := volumePrefixToSystems[key] + [system]];
      } else {
        volumePrefixToSystems := volumePrefixToSystems[key := [system]];
      }
      ok := true;
    }

    method CheckVolumesMap(arrays: Arrays, names: Aliases, handle: string, listed: set<string>) returns (ok: bool)
      ensures ok <==> Check(volumePrefixToSystems, arrays, names, handle, listed)
    {
      if DecodeSystem(names, handle) != "" {
        return true;
      }
      if |handle| < KEY_LENGTH {
        return false;
      }
      var key := Key(handle);
      if key in volumePrefixToSystems {
        var systems := volumePrefixToSystems[key];
        var i := 0;
        while i < |systems|
          invariant 0 <= i <= |systems|
          invariant forall j :: 0 <= j < i ==>
                    systems[j] in listed && systems[j] in arrays && handle !in arrays[systems[j]]
        {
          if systems[i] !in listed || systems[i] !in arrays {
            return false;
          }
          var vols := arrays[systems[i]];
          var k := 0;
          while k < |vols|
            invariant 0 <= k <= |vols|
            invariant forall j :: 0 <= j < k ==> vols[j] != handle
          {
            if vols[k] == handle {
              assert handle in arrays[systems[i]];
              return false;
            }
            k := k + 1;
          }
          i := i + 1;
        }
      }
      ok := true;
    }
  }

  // ---------------------------------------------------------------- the index against a plain scan

  /** The plain scan: some registered system holds the ID. */
  predicate Scan(registered: set<string>, arrays: Arrays, id: string) {
    exists s :: s in registered && s in arrays && id in arrays[s]
  }

  ghost predicate Filed(index: Index, system: string, key: string) {
    key in index && system in index[key]
  }

  ghost predicate Covers(index: Index, registered: set<string>) {
    forall k, s :: Filed(index, s, k) ==> s in registered
  }

  /** For one bare ID, with every registered system listed, agreement comes to this: if a registered system holds
      the ID, one that holds it is filed under its key. */
  lemma IndexAgreesIff(index: Index, arrays: Arrays, names: Aliases, id: string, registered: set<string>)
    requires DecodeSystem(names, id) == "" && |id| >= KEY_LENGTH
    requires Covers(index, registered) && registered <= arrays.Keys
    ensures (Check(index, arrays, names, id, registered) <==> !Scan(registered, arrays, id))
            <==> (Scan(registered, arrays, id) ==>
              exists s :: Filed(index, s, Key(id)) && s in arrays && id in arrays[s])
  {
    var key := Key(id);
    if key in index {
      assert forall s :: s in index[key] ==> Filed(index, s, key);
    }
  }

  /** A bare ID that the check does not refuse for its length. */
  predicate Legacy(names: Aliases, id: string) {
    DecodeSystem(names, id) == "" && |id| >= KEY_LENGTH
  }

  /** Every bare ID gets the answer that a scan of the registered systems would give. */
  ghost predicate AnswersAll(index: Index, arrays: Arrays, names: Aliases, registered: set<string>) {
    forall id :: Legacy(names, id) ==> (Check(index, arrays, names, id, registered) <==> !Scan(registered, arrays, id))
  }

  /** No two of the systems hold the same ID. */
  ghost predicate HoldersDiffer(arrays: Arrays, registered: set<string>)
    requires registered <= arrays.Keys
  {
    forall s, u, id :: s in registered && u in registered && id in arrays[s] && id in arrays[u] ==> s == u
  }

  /**
    The index answers as the scan on every bare ID exactly when each such ID on a registered system is also on
    one that is filed under its key. If no two systems hold the same ID, that is to say that each system is
    filed under the keys of all its volumes; the design counts on there being one.
  */
  lemma IndexAnswersAllIff(index: Index, arrays: Arrays, names: Aliases, registered: set<string>)
    requires Covers(index, registered) && registered <= arrays.Keys
    ensures AnswersAll(index, arrays, names, registered) <==>
              forall s, id :: s in registered && id in arrays[s] && Legacy(names, id) ==>
                exists u :: u in registered && id in arrays[u] && Filed(index, u, Key(id))
    ensures HoldersDiffer(arrays, registered) ==>
              (AnswersAll(index, arrays, names, registered) <==>
                 forall s, id :: s in registered && id in arrays[s] && Legacy(names, id) ==> Filed(index, s, Key(id)))
  {
    forall id | Legacy(names, id)
      ensures (Check(index, arrays, names, id, registered) <==> !Scan(registered, arrays, id))
              <==> forall s :: s in registered && id in arrays[s] ==>
                     exists u :: u in registered && id in arrays[u] && Filed(index, u, Key(id))
    {
      IndexAgreesIff(index, arrays, names, id, registered);
    }
  }

  // ---------------------------------------------------------------- runs

  /** The prefix a system gives all its volumes. */
  type Prefixes = map<string, string>

  ghost predicate Uniform(prefixes: Prefixes, arrays: Arrays) {
    && ProperIds(arrays)
    && forall s, id :: s in arrays && s in prefixes && id in arrays[s] ==> prefixes[s] == id[..KEY_LENGTH]
  }

  datatype Step = RegisterStep(system: string, listed: bool) | ChangeStep(arrays: Arrays)

  datatype State = State(index: Index, registered: set<string>, arrays: Arrays)

  ghost predicate ValidStep(prefixes: Prefixes, st: State, s: Step) {
    match s
    case RegisterStep(system, _) => system in st.arrays && system in prefixes
    case ChangeStep(arrays) => Uniform(prefixes, arrays) && arrays.Keys == st.arrays.Keys
  }

  /** A system counts as registered once it was listed with volumes. */
  function Apply(st: State, s: Step): State
    requires ProperIds(st.arrays) && (s.RegisterStep? ==> s.system in st.arrays)
  {
    match s
    case RegisterStep(system, listed) =>
      State(Update(st.index, st.arrays, system, listed).0,
            if listed && st.arrays[system] != [] then st.registered + {system} else st.registered,
            st.arrays)
    case ChangeStep(arrays) => st.(arrays := arrays)
  }

  ghost predicate NoRepeats(systems: seq<string>) {
    forall i, j :: 0 <= i < j < |systems| ==> systems[i] != systems[j]
  }

  ghost predicate Inv(prefixes: Prefixes, st: State) {
    && Uniform(prefixes, st.arrays) && st.registered <= st.arrays.Keys && st.registered <= prefixes.Keys
    && Covers(st.index, st.registered)
    && (forall s :: s in st.registered ==> Filed(st.index, s, prefixes[s]))
    && (forall k :: k in st.index ==> NoRepeats(st.index[k]))
  }

  lemma StepKeeps(prefixes: Prefixes, st: State, s: Step)
    requires Inv(prefixes, st) && ValidStep(prefixes, st, s)
    ensures Inv(prefixes, Apply(st, s))
  {
    if s.RegisterStep? && s.listed && st.arrays[s.system] != [] {
      var id := st.arrays[s.system][0];
      assert id in st.arrays[s.system];
      var key := Key(id);
      var index := Apply(st, s).index;
      assert key == prefixes[s.system];
      assert forall k, x :: Filed(index, x, k) ==> Filed(st.index, x, k) || (k == key && x == s.system);
      assert forall k, x :: Filed(st.index, x, k) ==> Filed(index, x, k);
    }
  }

  ghost predicate ValidRun(prefixes: Prefixes, st: State, steps: seq<Step>)
    decreases |steps|
  {
    steps == [] || (Uniform(prefixes, st.arrays) && ValidStep(prefixes, st, steps[0])
      && ValidRun(prefixes, Apply(st, steps[0]), steps[1..]))
  }

  ghost function Run(prefixes: Prefixes, st: State, steps: seq<Step>): State
    requires ValidRun(prefixes, st, steps)
    decreases |steps|
  {
    if steps == [] then st else Run(prefixes, Apply(st, steps[0]), steps[1..])
  }

  /**
    In every run of registrations and volume changes in which each system keeps to one prefix, the
    index answers a bare ID as a scan of all registered systems would, and no key lists a system twice.
  */
  lemma {:induction false} IndexAnswersAsScan(prefixes: Prefixes, st: State, steps: seq<Step>, names: Aliases,
                                              id: string)
    requires Inv(prefixes, st) && ValidRun(prefixes, st, steps)
    requires DecodeSystem(names, id) == "" && |id| >= KEY_LENGTH
    ensures var st' := Run(prefixes, st, steps);
            && Inv(prefixes, st')
            && (Check(st'.index, st'.arrays, names, id, st'.registered) <==> !Scan(st'.registered, st'.arrays, id))
    decreases |steps|
  {
    if steps == [] {
      IndexAgreesIff(st.index, st.arrays, names, id, st.registered);
      if Scan(st.registered, st.arrays, id) {
        var s :| s in st.registered && s in st.arrays && id in st.arrays[s];
        assert Filed(st.index, s, Key(id));
      }
    } else {
      StepKeeps(prefixes, st, steps[0]);
      IndexAnswersAsScan(prefixes, Apply(st, steps[0]), steps[1..], names, id);
    }
  }

  /** Registering a registered system again changes nothing. */
  lemma ReregisterIsNoOp(prefixes: Prefixes, st: State, system: string, listed: bool)
    requires Inv(prefixes, st) && system in st.registered
    ensures Apply(st, RegisterStep(system, listed)) == st
  {
    if st.arrays[system] != [] {
      assert st.arrays[system][0] in st.arrays[system];
      assert Filed(st.index, system, prefixes[system]);
    }
  }

  // ---------------------------------------------------------------- runs whatever the prefixes

  /** Registrations of the given systems, and changes to what they hold. */
  predicate Sensible(systems: set<string>, steps: seq<Step>) {
    forall i :: 0 <= i < |steps| ==>
      match steps[i]
      case RegisterStep(system, _) => system in systems
      case ChangeStep(arrays) => ProperIds(arrays) && arrays.Keys == systems
  }

  function After(st: State, steps: seq<Step>): (r: State)
    requires ProperIds(st.arrays) && Sensible(st.arrays.Keys, steps)
    ensures ProperIds(r.arrays) && r.arrays.Keys == st.arrays.Keys
  {
    if steps == [] then st
    else
      assert steps[|steps| - 1] in steps;
      Apply(After(st, steps[..|steps| - 1]), steps[|steps| - 1])
  }

  /** The step files the system under the key, as the first volume it lists has that key. */
  predicate Files(st: State, step: Step, system: string, key: string)
    requires ProperIds(st.arrays)
  {
    && step.RegisterStep? && step.system == system && step.listed && system in st.arrays && st.arrays[system] != []
    && st.arrays[system][0] in st.arrays[system] && Key(st.arrays[system][0]) == key
  }

  /** Some registration of the run found the system listing a volume with the key first. */
  predicate EverFiles(st: State, steps: seq<Step>, system: string, key: string)
    requires ProperIds(st.arrays) && Sensible(st.arrays.Keys, steps)
  {
    steps != []
    && (|| Files(After(st, steps[..|steps| - 1]), steps[|steps| - 1], system, key)
        || EverFiles(st, steps[..|steps| - 1], system, key))
  }

  lemma StepFiles(st: State, step: Step, system: string, key: string)
    requires ProperIds(st.arrays) && (step.RegisterStep? ==> step.system in st.arrays)
    ensures Filed(Apply(st, step).index, system, key) <==> Filed(st.index, system, key) || Files(st, step, system, key)
  {
    if step.RegisterStep? && st.arrays[step.system] != [] {
      assert st.arrays[step.system][0] in st.arrays[step.system];
    }
  }

  /** The index is the history of the registrations. */
  lemma {:induction false} IndexIsHistory(st: State, steps: seq<Step>, system: string, key: string)
    requires ProperIds(st.arrays) && Sensible(st.arrays.Keys, steps)
    ensures Filed(After(st, steps).index, system, key) <==>
            Filed(st.index, system, key) || EverFiles(st, steps, system, key)
  {
    if steps != [] {
      IndexIsHistory(st, steps[..|steps| - 1], system, key);
      assert steps[|steps| - 1] in steps;
      StepFiles(After(st, steps[..|steps| - 1]), steps[|steps| - 1], system, key);
    }
  }

  /** What holds whatever the prefixes: only registered systems are filed, and none twice under a key. */
  ghost predicate Tidy(st: State) {
    && ProperIds(st.arrays) && st.registered <= st.arrays.Keys && Covers(st.index, st.registered)
    && forall k :: k in st.index ==> NoRepeats(st.index[k])
  }

  lemma {:induction false} RunKeepsTidy(st: State, steps: seq<Step>)
    requires Tidy(st) && Sensible(st.arrays.Keys, steps)
    ensures Tidy(After(st, steps))
  {
    if steps != [] {
      var before := After(st, steps[..|steps| - 1]);
      RunKeepsTidy(st, steps[..|steps| - 1]);
      var last := steps[|steps| - 1];
      assert last in steps;
      forall k, s | Filed(After(st, steps).index, s, k)
        ensures s in After(st, steps).registered
      {
        StepFiles(before, last, s, k);
      }
    }
  }

  /**
    After every run of registrations and changes from an empty index, whatever the prefixes, and for any set of
    systems that includes those filed: the index answers as a scan of these systems on every bare ID exactly
    when each such ID on one of them is also on one that listed, at some registration, a volume with the same
    key first. No key ever lists a system twice.
  */
  lemma RunAnswersAllIff(st: State, steps: seq<Step>, names: Aliases, all: set<string>)
    requires Tidy(st) && st.index == map[] && Sensible(st.arrays.Keys, steps)
    requires After(st, steps).registered <= all <= st.arrays.Keys
    ensures var st' := After(st, steps);
            && Tidy(st')
            && (AnswersAll(st'.index, st'.arrays, names, all) <==>
                  forall s, id :: s in all && id in st'.arrays[s] && Legacy(names, id) ==>
                    exists u :: u in all && id in st'.arrays[u] && EverFiles(st, steps, u, Key(id)))
  {
    var st' := After(st, steps);
    RunKeepsTidy(st, steps);
    IndexAnswersAllIff(st'.index, st'.arrays, names, all);
    forall u, k
      ensures Filed(st'.index, u, k) <==> EverFiles(st, steps, u, k)
    {
      IndexIsHistory(st, steps, u, k);
    }
  }

  /** It misses a volume: a system is registered while it lists a volume with another key first. */
  lemma IndexMissesSecondPrefix(system: string, a: string, b: string, names: Aliases)
    requires Legacy(names, a) && Legacy(names, b) && Key(a) != Key(b)
    ensures var arrays := map[system := [a, b]];
            var st := After(State(map[], {}, arrays), [RegisterStep(system, true)]);
            && Scan(st.registered, arrays, b) && Check(st.index, arrays, names, b, st.registered)
            && !AnswersAll(st.index, arrays, names, st.registered)
  {
    var st0 := State(map[], {}, map[system := [a, b]]);
    var steps := [RegisterStep(system, true)];
    assert steps[..0] == [] && After(st0, steps[..0]) == st0;
    assert After(st0, steps) == Apply(st0, steps[0]);
    assert b == st0.arrays[system][1] && b in st0.arrays[system];
  }

  /** It misses a volume again: a system that was empty when it was registered is not filed at all. */
  lemma IndexMissesLateVolume(system: string, b: string, names: Aliases)
    requires Legacy(names, b)
    ensures var arrays := map[system := [b]];
            var st := After(State(map[], {}, map[system := []]), [RegisterStep(system, true), ChangeStep(arrays)]);
            && st.arrays == arrays && Scan({system}, arrays, b) && Check(st.index, arrays, names, b, {system})
            && !AnswersAll(st.index, arrays, names, {system})
  {
    var st0 := State(map[], {}, map[system := []]);
    var arrays := map[system := [b]];
    var steps := [RegisterStep(system, true), ChangeStep(arrays)];
    assert steps[..1] == [steps[0]] && [steps[0]][..0] == [];
    assert After(st0, [steps[0]][..0]) == st0 && After(st0, [steps[0]]) == Apply(st0, steps[0]) == st0;
    assert After(st0, steps) == Apply(st0, steps[1]);
    assert arrays[system][0] == b;
  }

  // ---------------------------------------------------------------- what filing and checking answer

  /** A registration succeeds exactly if the system can be listed; it files the system under the first three
      characters of the volume listed first, and changes nothing else. */
  lemma UpdateMeans(index: Index, arrays: Arrays, system: string, listed: bool, s: string, key: string)
    requires system in arrays && ProperIds(arrays)
    ensures var (index', ok) := Update(index, arrays, system, listed);
            && (ok <==> listed)
            && (Filed(index', s, key) <==>
                  || Filed(index, s, key)
                  || (listed && s == system && arrays[system] != [] && |key| == 3 && key <= arrays[system][0]))
  {
    if arrays[system] != [] {
      assert arrays[system][0] in arrays[system];
      KeyMeans(arrays[system][0], key);
    }
  }

  lemma KeyMeans(id: string, key: string)
    requires |id| >= 3
    ensures key == Key(id) <==> |key| == 3 && key <= id
  {
  }

  /** A handle that names its system raises no objection; a bare ID of fewer than three characters always does. */
  lemma HandlesNeedNoCheck(index: Index, arrays: Arrays, names: Aliases, listed: set<string>, system: string,
                           volume: string)
    requires '/' !in system && '/' !in volume && '-' !in system && '-' !in volume
    requires system != "" && (system in names ==> names[system] != "")
    ensures Check(index, arrays, names, system + "-" + volume, listed)
    ensures |volume| < 3 ==> !Check(index, arrays, names, volume, listed)
  {
    BlockRoundTrip(names, system, volume);
    SplitFree(volume, '-');
  }

  /** A bare ID raises an objection exactly if a system filed under its first three characters holds it, or
      cannot be asked. */
  lemma BareIdMeans(index: Index, arrays: Arrays, names: Aliases, listed: set<string>, volume: string)
    requires '/' !in volume && '-' !in volume && |volume| >= 3
    ensures !Check(index, arrays, names, volume, listed) <==>
              exists s, key :: && Filed(index, s, key) && |key| == 3 && key <= volume
                               && (s !in listed || s !in arrays || volume in arrays[s])
  {
    SplitFree(volume, '-');
    if !Check(index, arrays, names, volume, listed) {
      var s :| s in index[Key(volume)] && !(s in listed && s in arrays && volume !in arrays[s]);
      assert Filed(index, s, Key(volume));
    }
    forall key | |key| == 3 && key <= volume
      ensures key == Key(volume)
    {
      KeyMeans(volume, key);
    }
  }
}
