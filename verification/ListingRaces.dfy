/**
  Listings and changes that overlap. A listing reads the array and stores what it read in two steps, and only
  requests on one volume wait for each other; so an array may change, and the caches be cleared, in between.
*/
module ListingRaces {
  import opened CsiTypes
  import opened Listing

  /** A listing under way: what it has read, of which system, and for which cache. */
  datatype Pending = Pending(system: string, snaps: bool, list: Ids)

  datatype World = World(caches: Caches, arrays: Arrays, pending: map<nat, Pending>)

  datatype Move =
    | Fetch(call: nat, system: string, snaps: bool)
    | Store(call: nat)
    | Change(arrays: Arrays, cleared: bool)

  function Held(arrays: Arrays, system: string, snaps: bool): Ids
    requires system in arrays
  {
    if snaps then arrays[system].snaps else arrays[system].vols
  }

  function Put(c: Caches, p: Pending): Caches {
    if p.list == [] then c
    else if p.snaps then c.(snaps := Cache(p.system, p.list))
    else c.(vols := Cache(p.system, p.list))
  }

  function Act(w: World, m: Move): World {
    match m
    case Fetch(call, system, snaps) =>
      if system in w.arrays then w.(pending := w.pending[call := Pending(system, snaps, Held(w.arrays, system, snaps))])
      else w
    case Store(call) =>
      if call in w.pending then World(Put(w.caches, w.pending[call]), w.arrays, w.pending - {call}) else w
    case Change(arrays, cleared) => World(if cleared then Clear(w.caches) else w.caches, arrays, w.pending)
  }

  function Run(w: World, moves: seq<Move>): World {
    if moves == [] then w else Act(Run(w, moves[..|moves| - 1]), moves[|moves| - 1])
  }

  /** Without anything in between, the two steps are what a whole listing does to its cache. */
  lemma WholeCall(w: World, call: nat, system: string)
    requires system in w.arrays
    ensures Run(w, [Fetch(call, system, false), Store(call)]).caches
            == w.caches.(vols := Source(w.caches.vols, system, 0, w.arrays[system].vols, true).0)
    ensures Run(w, [Fetch(call, system, true), Store(call)]).caches
            == w.caches.(snaps := Source(w.caches.snaps, system, 0, w.arrays[system].snaps, true).0)
  {
    TwoMoves(w, Fetch(call, system, false), Store(call));
    TwoMoves(w, Fetch(call, system, true), Store(call));
  }

  lemma TwoMoves(w: World, m: Move, n: Move)
    ensures Run(w, [m, n]) == Act(Act(w, m), n)
  {
    assert [m, n][..1] == [m] && [m][..0] == [];
    assert Run(w, [m][..0]) == w && Run(w, [m]) == Act(w, m);
  }

  // ---------------------------------------------------------------- when caches go stale

  /** The cache holds a list that its system does not hold after the change. */
  predicate Outdated(cache: Cache, snaps: bool, arrays: Arrays) {
    cache.items != [] && (cache.system in arrays ==> Held(arrays, cache.system, snaps) != cache.items)
  }

  /** The call read something that its system does not hold any more. */
  predicate ReadIsOld(arrays: Arrays, p: Pending) {
    p.list != [] && (p.system in arrays ==> Held(arrays, p.system, p.snaps) != p.list)
  }

  predicate Spoils(w: World, m: Move) {
    match m
    case Fetch(_, _, _) => false
    case Store(call) => call in w.pending && ReadIsOld(w.arrays, w.pending[call])
    case Change(arrays, cleared) =>
      !cleared && (Outdated(w.caches.vols, false, arrays) || Outdated(w.caches.snaps, true, arrays))
  }

  /** What Current comes to after one step. */
  lemma MoveKeepsCurrentIff(w: World, m: Move)
    requires Current(w.caches, w.arrays)
    ensures Current(Act(w, m).caches, Act(w, m).arrays) <==> !Spoils(w, m)
  {
  }

  ghost predicate AlwaysCurrent(w: World, moves: seq<Move>) {
    && Current(Run(w, moves).caches, Run(w, moves).arrays)
    && (moves != [] ==> AlwaysCurrent(w, moves[..|moves| - 1]))
  }

  ghost predicate NeverSpoils(w: World, moves: seq<Move>) {
    moves != [] ==> !Spoils(Run(w, moves[..|moves| - 1]), moves[|moves| - 1]) && NeverSpoils(w, moves[..|moves| - 1])
  }

  lemma {:induction false} NeverSpoilsIff(w: World, moves: seq<Move>)
    requires Current(w.caches, w.arrays)
    ensures AlwaysCurrent(w, moves) <==> NeverSpoils(w, moves)
  {
    if moves != [] {
      var front := moves[..|moves| - 1];
      NeverSpoilsIff(w, front);
      if AlwaysCurrent(w, front) {
        MoveKeepsCurrentIff(Run(w, front), moves[|moves| - 1]);
      }
    }
  }

  // ---------------------------------------------------------------- the same by the history of a run

  /** What the system held before step k of the run, if it was there. */
  function ListAt(w: World, moves: seq<Move>, k: nat, system: string, snaps: bool): Option<Ids>
    requires k <= |moves|
  {
    var arrays := Run(w, moves[..k]).arrays;
    if system in arrays then Some(Held(arrays, system, snaps)) else None
  }

  /** The step at which the call last read a list that it has not stored since. */
  function LastRead(w: World, moves: seq<Move>, call: nat): (k: Option<nat>)
    ensures k.Some? ==> k.value < |moves| && moves[k.value].Fetch?
  {
    if moves == [] then None
    else
      var n := |moves| - 1;
      match moves[n]
      case Fetch(c, system, _) =>
        if c == call && system in Run(w, moves[..n]).arrays then Some(n) else LastRead(w, moves[..n], call)
      case Store(c) => if c == call then None else LastRead(w, moves[..n], call)
      case Change(_, _) => LastRead(w, moves[..n], call)
  }

  /** What a call is about to store is what its system held when the call last read. */
  ghost predicate PendingIs(w: World, moves: seq<Move>, call: nat) {
    match LastRead(w, moves, call)
    case None => call !in Run(w, moves).pending
    case Some(k) =>
      && call in Run(w, moves).pending
      && var p := Run(w, moves).pending[call];
         && p.system == moves[k].system && p.snaps == moves[k].snaps
         && ListAt(w, moves, k, p.system, p.snaps) == Some(p.list)
  }

  lemma {:induction false} PendingIsLastRead(w: World, moves: seq<Move>, call: nat)
    requires w.pending == map[]
    ensures PendingIs(w, moves, call)
  {
    if moves != [] {
      var front := moves[..|moves| - 1];
      PendingIsLastRead(w, front, call);
      var k := LastRead(w, front, call);
      if k.Some? {
        assert front[..k.value] == moves[..k.value];
      }
    }
  }

  /** The last step stores a list that was not empty, and that its system has changed since the call read it. */
  ghost predicate StoresChanged(w: World, moves: seq<Move>) {
    && moves != [] && moves[|moves| - 1].Store?
    && var n := |moves| - 1;
       var k := LastRead(w, moves[..n], moves[n].call);
       && k.Some?
       && var m := moves[k.value];
          && ListAt(w, moves, k.value, m.system, m.snaps) != Some([])
          && ListAt(w, moves, n, m.system, m.snaps) != ListAt(w, moves, k.value, m.system, m.snaps)
  }

  ghost predicate EverStoresChanged(w: World, moves: seq<Move>) {
    moves != [] && (StoresChanged(w, moves) || EverStoresChanged(w, moves[..|moves| - 1]))
  }

  predicate ChangesClear(moves: seq<Move>) {
    forall i :: 0 <= i < |moves| && moves[i].Change? ==> moves[i].cleared
  }

  lemma SpoilsIffStoresChanged(w: World, moves: seq<Move>)
    requires w.pending == map[] && ChangesClear(moves) && moves != []
    ensures Spoils(Run(w, moves[..|moves| - 1]), moves[|moves| - 1]) <==> StoresChanged(w, moves)
  {
    var n := |moves| - 1;
    if moves[n].Store? {
      var call := moves[n].call;
      PendingIsLastRead(w, moves[..n], call);
      var k := LastRead(w, moves[..n], call);
      if k.Some? {
        assert moves[..n][..k.value] == moves[..k.value];
      }
    }
  }

  /**
    In every run of overlapping listings and of changes that clear the caches, with no listing under way at the
    start: the caches are current after every step exactly when no listing ever stores a list that its system
    changed between the read and the store.
  */
  lemma {:induction false} CachesStayCurrentIff(w: World, moves: seq<Move>)
    requires Current(w.caches, w.arrays) && w.pending == map[] && ChangesClear(moves)
    ensures AlwaysCurrent(w, moves) <==> !EverStoresChanged(w, moves)
  {
    if moves != [] {
      var front := moves[..|moves| - 1];
      CachesStayCurrentIff(w, front);
      SpoilsIffStoresChanged(w, moves);
      if AlwaysCurrent(w, front) {
        MoveKeepsCurrentIff(Run(w, front), moves[|moves| - 1]);
      }
    }
  }

  /** It happens: a volume list read before a change and stored after it is stale, although the change cleared
      the caches. */
  lemma StaleAfterClear(caches: Caches, arrays: Arrays, arrays': Arrays, call: nat, system: string)
    requires system in arrays && system in arrays' && arrays[system].vols != []
             && arrays'[system].vols != arrays[system].vols
    ensures var w := Run(World(caches, arrays, map[]),
                         [Fetch(call, system, false), Change(arrays', true), Store(call)]);
            w.caches.vols == Cache(system, arrays[system].vols) && !Current(w.caches, w.arrays)
  {
    var w0 := World(caches, arrays, map[]);
    var moves := [Fetch(call, system, false), Change(arrays', true), Store(call)];
    assert moves[..2] == [moves[0], moves[1]];
    TwoMoves(w0, moves[0], moves[1]);
    assert Run(w0, moves) == Act(Run(w0, moves[..2]), moves[2]);
  }
}
