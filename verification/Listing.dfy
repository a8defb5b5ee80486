/** Paged listing of volumes and snapshots over caches that remember the last full list of one system. */
module Listing {
  import opened CsiTypes

  type Ids = seq<string>

  /** What a system holds. */
  datatype Content = Content(vols: Ids, snaps: Ids)

  type Arrays = map<string, Content>

  /** A cached list and the system it was read from; clearing empties the list and keeps the system. */
  datatype Cache = Cache(system: string, items: Ids)

  datatype Caches = Caches(vols: Cache, snaps: Cache)

  /** A slot of a page is None where the source hands out a nil pointer. */
  type Slots = seq<Option<string>>

  datatype Page = Page(items: Slots, next: Option<int>) | Error(status: Status) | Crash

  datatype Query = Query(token: int, maxEntries: int, doVols: bool, doSnaps: bool)

  /** Whether reading the full lists from the array succeeds. */
  datatype FetchEnv = FetchEnv(volsRead: bool, snapsRead: bool)

  function Filled(items: Ids): Slots {
    seq(|items|, i requires 0 <= i < |items| => Some(items[i]))
  }

  function Nils(n: nat): Slots {
    seq(n, i => None)
  }

  function Clear(c: Caches): Caches {
    Caches(c.vols.(items := []), c.snaps.(items := []))
  }

  /** One of the two lists: from the cache beyond the first page, from the array otherwise. */
  function Source(cache: Cache, system: string, token: int, stored: Ids, read: bool): (Cache, Option<Slots>) {
    if token != 0 && |cache.items| > 0 then
      (cache, Some(if cache.system == system then Filled(cache.items) else Nils(|cache.items|)))
    else if !read then (cache, None)
    else (if |stored| > 0 then Cache(system, stored) else cache, Some(Filled(stored)))
  }

  /** A window of a list, with the token of the next one if entries remain. */
  function Window(items: Slots, token: int, maxEntries: int): Page {
    if token > |items| then Error(Aborted)
    else
      var rem := |items| - token;
      var count := if maxEntries == 0 || maxEntries > rem then rem else maxEntries;
      var next := token + count;
      if token < 0 || count < 0 then Crash
      else Page(items[token..next], if next < token + rem then Some(next) else None)
  }

  function ListVolumes(c: Caches, arrays: Arrays, system: string, q: Query, e: FetchEnv): (Caches, Page)
    requires system in arrays
  {
    var (vc, vols) := if q.doVols then Source(c.vols, system, q.token, arrays[system].vols, e.volsRead)
                      else (c.vols, Some([]));
    if vols.None? then (Caches(vc, c.snaps), Error(Internal))
    else
      var (sc, snaps) := if q.doSnaps then Source(c.snaps, system, q.token, arrays[system].snaps, e.snapsRead)
                         else (c.snaps, Some([]));
      if snaps.None? then (Caches(vc, sc), Error(Internal))
      else (Caches(vc, sc), Window(vols.value + snaps.value, q.token, q.maxEntries))
  }

  class Service {
    var volCache: Ids
    var volCacheSystemID: string
    var snapCache: Ids
    var snapCacheSystemID: string

    ghost function State(): Caches
      reads this
    {
      Caches(Cache(volCacheSystemID, volCache), Cache(snapCacheSystemID, snapCache))
    }

    method ClearCache()
      modifies this
      ensures State() == Clear(old(State()))
    {
      volCache := [];
      snapCache := [];
    }

    method List(arrays: Arrays, system: string, q: Query, e: FetchEnv) returns (p: Page)
      requires system in arrays
      modifies this
      ensures (State(), p) == ListVolumes(old(State()), arrays, system, q, e)
    {
      var sioVols, sioSnaps: Slots := [], [];
      if q.doVols {
        if q.token != 0 && |volCache| > 0 {
          sioVols := if volCacheSystemID == system then Filled(volCache) else Nils(|volCache|);
        }
        if |sioVols| == 0 {
          if !e.volsRead {
            return Error(Internal);
          }
          var fetched := arrays[system].vols;
          sioVols := Filled(fetched);
          if |fetched| > 0 {
            volCache, volCacheSystemID := fetched, system;
          }
        }
      }
      if q.doSnaps {
        if q.token != 0 && |snapCache| > 0 {
          sioSnaps := if snapCacheSystemID == system then Filled(snapCache) else Nils(|snapCache|);
        }
        if |sioSnaps| == 0 {
          if !e.snapsRead {
            return Error(Internal);
          }
          var fetched := arrays[system].snaps;
          sioSnaps := Filled(fetched);
          if |fetched| > 0 {
            snapCache, snapCacheSystemID := fetched, system;
          }
        }
      }
      p := Window(sioVols + sioSnaps, q.token, q.maxEntries);
    }
  }

  // ---------------------------------------------------------------- pages of one system

  /** The list a query is about. */
  function Whole(arrays: Arrays, system: string, q: Query): Slots
    requires system in arrays
  {
    (if q.doVols then Filled(arrays[system].vols) else []) + (if q.doSnaps then Filled(arrays[system].snaps) else [])
  }

  predicate Holds(cache: Cache, system: string, stored: Ids) {
    cache.items == [] || (cache.system == system && cache.items == stored)
  }

  /** Each cache is empty or holds the system's current list. */
  predicate Coherent(c: Caches, arrays: Arrays, system: string)
    requires system in arrays
  {
    Holds(c.vols, system, arrays[system].vols) && Holds(c.snaps, system, arrays[system].snaps)
  }

  /** With coherent caches a page is a window of the current list, and the caches stay coherent. */
  lemma CoherentPage(c: Caches, arrays: Arrays, system: string, q: Query, e: FetchEnv)
    requires system in arrays && Coherent(c, arrays, system)
    ensures var (c', p) := ListVolumes(c, arrays, system, q, e);
            && Coherent(c', arrays, system)
            && (p == Error(Internal) || p == Window(Whole(arrays, system, q), q.token, q.maxEntries))
            && (e.volsRead && e.snapsRead ==> p == Window(Whole(arrays, system, q), q.token, q.maxEntries))
  {
  }

  /** What others may do on the same system between two pages. */
  datatype Other = ClearCaches | FirstPage(q: Query, e: FetchEnv)

  function Interfere(c: Caches, arrays: Arrays, system: string, others: seq<Other>): Caches
    requires system in arrays
  {
    if others == [] then c
    else
      var c1 := Interfere(c, arrays, system, others[..|others| - 1]);
      match others[|others| - 1]
      case ClearCaches => Clear(c1)
      case FirstPage(q, e) => ListVolumes(c1, arrays, system, q.(token := 0), e).0
  }

  lemma {:induction false} InterferenceIsCoherent(c: Caches, arrays: Arrays, system: string, others: seq<Other>)
    requires system in arrays && Coherent(c, arrays, system)
    ensures Coherent(Interfere(c, arrays, system, others), arrays, system)
  {
    if others != [] {
      var before := others[..|others| - 1];
      InterferenceIsCoherent(c, arrays, system, before);
      var last := others[|others| - 1];
      if last.FirstPage? {
        CoherentPage(Interfere(c, arrays, system, before), arrays, system, last.q.(token := 0), last.e);
      }
    }
  }

  const READS := FetchEnv(true, true)

  /** All pages of a query put together, others interfering before each page. It follows the tokens it
      is handed; that it ends is part of its definition. */
  ghost function Walk(c: Caches, arrays: Arrays, system: string, q: Query, others: nat -> seq<Other>, page: nat): Slots
    requires system in arrays && Coherent(c, arrays, system) && 0 <= q.token <= |Whole(arrays, system, q)|
             && q.maxEntries >= 0
    decreases |Whole(arrays, system, q)| - q.token
  {
    InterferenceIsCoherent(c, arrays, system, others(page));
    var c1 := Interfere(c, arrays, system, others(page));
    CoherentPage(c1, arrays, system, q, READS);
    var (c2, p) := ListVolumes(c1, arrays, system, q, READS);
    if p.next.None? then p.items
    else p.items + Walk(c2, arrays, system, q.(token := p.next.value), others, page + 1)
  }

  /** A window and what follows it make up the rest of the list. */
  lemma WindowSplits(items: Slots, token: int, maxEntries: int)
    requires 0 <= token <= |items| && maxEntries >= 0
    ensures var p := Window(items, token, maxEntries);
            && p.Page?
            && (if p.next.None? then p.items == items[token..]
                else token < p.next.value <= |items| && p.items + items[p.next.value..] == items[token..])
  {
  }

  /** The pages of a walk from any token make up the rest of the list, each entry once and in order,
      whatever the page size and whatever others do to the caches in between. */
  lemma {:induction false} WalkCoversTheList(c: Caches, arrays: Arrays, system: string, q: Query,
                                             others: nat -> seq<Other>, page: nat)
    requires system in arrays && Coherent(c, arrays, system) && 0 <= q.token <= |Whole(arrays, system, q)|
             && q.maxEntries >= 0
    ensures Walk(c, arrays, system, q, others, page) == Whole(arrays, system, q)[q.token..]
    decreases |Whole(arrays, system, q)| - q.token
  {
    InterferenceIsCoherent(c, arrays, system, others(page));
    var c1 := Interfere(c, arrays, system, others(page));
    CoherentPage(c1, arrays, system, q, READS);
    var (c2, p) := ListVolumes(c1, arrays, system, q, READS);
    var whole := Whole(arrays, system, q);
    WindowSplits(whole, q.token, q.maxEntries);
    if p.next.Some? {
      WalkCoversTheList(c2, arrays, system, q.(token := p.next.value), others, page + 1);
    }
  }

  // ---------------------------------------------------------------- caches across systems and changes

  /** A step of the driver: a listing of any system, or a call that changed an array. Such a call
      clears the caches when it reports success. */
  datatype Step = ListStep(system: string, q: Query, e: FetchEnv) | ChangeStep(arrays: Arrays, cleared: bool)

  function Apply(c: Caches, arrays: Arrays, s: Step): (Caches, Arrays) {
    match s
    case ListStep(system, q, e) =>
      if system in arrays then (ListVolumes(c, arrays, system, q, e).0, arrays) else (c, arrays)
    case ChangeStep(arrays', cleared) => (if cleared then Clear(c) else c, arrays')
  }

  function Run(c: Caches, arrays: Arrays, steps: seq<Step>): (Caches, Arrays) {
    if steps == [] then (c, arrays)
    else
      var (c1, a1) := Run(c, arrays, steps[..|steps| - 1]);
      Apply(c1, a1, steps[|steps| - 1])
  }

  /** A cache that holds anything holds the current list of the system it names. */
  predicate Current(c: Caches, arrays: Arrays) {
    && (c.vols.items != [] ==> c.vols.system in arrays && c.vols.items == arrays[c.vols.system].vols)
    && (c.snaps.items != [] ==> c.snaps.system in arrays && c.snaps.items == arrays[c.snaps.system].snaps)
  }

  /** What Current comes to after a step: listings and changes that clear the caches keep it, and a change that
      does not has to leave alone what they hold. */
  lemma StepKeepsCurrentIff(c: Caches, arrays: Arrays, s: Step)
    requires Current(c, arrays)
    ensures Current(Apply(c, arrays, s).0, Apply(c, arrays, s).1) <==>
              s.ListStep? || s.cleared
              || (&& (c.vols.items != [] ==>
                      c.vols.system in s.arrays && s.arrays[c.vols.system].vols == arrays[c.vols.system].vols)
                  && (c.snaps.items != [] ==>
                      c.snaps.system in s.arrays && s.arrays[c.snaps.system].snaps == arrays[c.snaps.system].snaps))
  {
  }

  // ---------------------------------------------------------------- later pages

  /** What a half of a later page is cut from: the cached list, nil slots in place of another system's list,
      or what the array holds if nothing is cached. */
  function Half(cache: Cache, system: string, stored: Ids): Slots {
    if cache.items == [] then Filled(stored)
    else if cache.system == system then Filled(cache.items)
    else Nils(|cache.items|)
  }

  /** The list a later page is a window of. */
  function Assembled(c: Caches, arrays: Arrays, system: string, q: Query): Slots
    requires system in arrays
  {
    (if q.doVols then Half(c.vols, system, arrays[system].vols) else [])
    + (if q.doSnaps then Half(c.snaps, system, arrays[system].snaps) else [])
  }

  lemma LaterPage(c: Caches, arrays: Arrays, system: string, q: Query, e: FetchEnv)
    requires system in arrays && q.token != 0
    ensures var p := ListVolumes(c, arrays, system, q, e).1;
            && (p == Window(Assembled(c, arrays, system, q), q.token, q.maxEntries) || p == Error(Internal))
            && (e.volsRead && e.snapsRead ==> p == Window(Assembled(c, arrays, system, q), q.token, q.maxEntries))
  {
  }

  predicate Foreign(cache: Cache, system: string) {
    cache.items != [] && cache.system != system
  }

  /** No cache the query uses was filled from another system. */
  predicate Served(c: Caches, system: string, q: Query) {
    !(q.doVols && Foreign(c.vols, system)) && !(q.doSnaps && Foreign(c.snaps, system))
  }

  /** A half is the system's current list exactly when its cache is not another system's, and consists of nil
      slots otherwise. */
  lemma HalfIsCurrentIff(cache: Cache, system: string, stored: Ids)
    requires cache.items != [] && cache.system == system ==> cache.items == stored
    ensures Half(cache, system, stored) == Filled(stored) <==> !Foreign(cache, system)
    ensures Foreign(cache, system) ==> Half(cache, system, stored) == Nils(|cache.items|)
  {
    if Foreign(cache, system) {
      assert Half(cache, system, stored)[0].None?;
    }
  }

  lemma JoinedIff(a: Slots, b: Slots, x: Ids, y: Ids)
    requires a == Filled(x) || (|a| > 0 && a == Nils(|a|))
    requires b == Filled(y) || (|b| > 0 && b == Nils(|b|))
    ensures a + b == Filled(x) + Filled(y) <==> a == Filled(x) && b == Filled(y)
  {
    var w := Filled(x) + Filled(y);
    assert forall i :: 0 <= i < |w| ==> w[i].Some?;
    if a != Filled(x) {
      assert (a + b)[0] == Nils(|a|)[0] == None;
    } else if b != Filled(y) {
      assert (a + b)[|a|] == Nils(|b|)[0] == None;
    }
  }

  /** The list a later page is cut from is the system's own exactly when no cache in use is another system's. */
  lemma AssembledIsWholeIff(c: Caches, arrays: Arrays, system: string, q: Query)
    requires system in arrays && Current(c, arrays)
    ensures Assembled(c, arrays, system, q) == Whole(arrays, system, q) <==> Served(c, system, q)
  {
    var content := arrays[system];
    HalfIsCurrentIff(c.vols, system, content.vols);
    HalfIsCurrentIff(c.snaps, system, content.snaps);
    var x, y := if q.doVols then content.vols else [], if q.doSnaps then content.snaps else [];
    JoinedIff(if q.doVols then Half(c.vols, system, content.vols) else [],
              if q.doSnaps then Half(c.snaps, system, content.snaps) else [], x, y);
    assert Whole(arrays, system, q) == Filled(x) + Filled(y);
  }

  /**
    In every run of listings of any systems and of changes that clear the caches, a later page of any query
    is a window of the list its system holds now exactly when neither cache it uses was filled from another
    system last. It never shows a stale list.
  */
  lemma {:induction false} LaterPagesAreCurrentIff(c: Caches, arrays: Arrays, steps: seq<Step>, system: string,
                                                   q: Query, e: FetchEnv)
    requires Current(c, arrays) && forall i :: 0 <= i < |steps| && steps[i].ChangeStep? ==> steps[i].cleared
    requires q.token != 0 && e.volsRead && e.snapsRead
    ensures var (c', a') := Run(c, arrays, steps);
            && Current(c', a')
            && (system in a' ==>
                  && ListVolumes(c', a', system, q, e).1 == Window(Assembled(c', a', system, q), q.token, q.maxEntries)
                  && (Assembled(c', a', system, q) == Whole(a', system, q) <==> Served(c', system, q)))
  {
    if steps != [] {
      LaterPagesAreCurrentIff(c, arrays, steps[..|steps| - 1], system, q, e);
      var (c1, a1) := Run(c, arrays, steps[..|steps| - 1]);
      StepKeepsCurrentIff(c1, a1, steps[|steps| - 1]);
    }
    var (c', a') := Run(c, arrays, steps);
    if system in a' {
      LaterPage(c', a', system, q, e);
      AssembledIsWholeIff(c', a', system, q);
    }
  }

  /** It happens: the second page of one system after the first page of another consists of nil slots. */
  lemma NilSlotsHappen(arrays: Arrays, one: string, other: string, e: FetchEnv)
    requires one in arrays && other in arrays && one != other && e == READS
    requires |arrays[one].vols| == 2 && |arrays[other].vols| == 2
    ensures var none := Cache("", []);
            var q := Query(0, 1, true, false);
            var c := Run(Caches(none, none), arrays, [ListStep(one, q, e), ListStep(other, q, e)]).0;
            && ListVolumes(Caches(none, none), arrays, one, q, e).1 == Page([Some(arrays[one].vols[0])], Some(1))
            && ListVolumes(c, arrays, one, q.(token := 1), e).1 == Page([None], None)
  {
    var none := Cache("", []);
    var q := Query(0, 1, true, false);
    var steps := [ListStep(one, q, e), ListStep(other, q, e)];
    var start := Caches(none, none);
    assert |steps| == 2 && steps[..1] == [steps[0]] && steps[..1][..0] == [];
    assert Run(start, arrays, steps[..1][..0]) == (start, arrays);
    assert Run(start, arrays, steps[..1]) == Apply(start, arrays, steps[0]);
    assert Run(start, arrays, steps) == Apply(Run(start, arrays, steps[..1]).0, arrays, steps[1]);
    assert Filled(arrays[one].vols) + [] == Filled(arrays[one].vols);
    assert Nils(2) + [] == Nils(2);
  }

  // ---------------------------------------------------------------- what a page holds

  /** A window holds the entries from the token on, as many as asked for or all that are left; it comes with the
      token of the entry after it, if there is one. A negative token or number crashes. */
  lemma WindowMeans(items: Slots, token: int, maxEntries: int)
    ensures var p := Window(items, token, maxEntries);
            && (p.Error? <==> token > |items|)
            && (p.Error? ==> p.status == Aborted)
            && (p.Crash? <==> token <= |items| && (token < 0 || maxEntries < 0))
            && (p.Page? ==>
                  && |p.items| ==
                     (if maxEntries == 0 || token + maxEntries > |items| then |items| - token else maxEntries)
                  && (forall i :: 0 <= i < |p.items| ==> p.items[i] == items[token + i])
                  && p.next == if token + |p.items| < |items| then Some(token + |p.items|) else None)
  {
  }

  /** The first page is read from the array, whatever is cached: volumes, then snapshots, both remembered with
      their system unless there are none. */
  lemma FirstPageMeans(c: Caches, arrays: Arrays, system: string, q: Query, e: FetchEnv)
    requires system in arrays && q.token == 0 && q.maxEntries >= 0
    ensures var (c', p) := ListVolumes(c, arrays, system, q, e);
            var ids :=
              (if q.doVols then arrays[system].vols else []) + (if q.doSnaps then arrays[system].snaps else []);
            var volsFail, snapsFail := q.doVols && !e.volsRead, q.doSnaps && !e.snapsRead;
            && (p.Error? <==> volsFail || snapsFail)
            && (p.Error? ==> p.status == Internal)
            && !p.Crash?
            && (p.Page? ==>
                  && |p.items| == (if q.maxEntries == 0 || q.maxEntries > |ids| then |ids| else q.maxEntries)
                  && (forall i :: 0 <= i < |p.items| ==> p.items[i] == Some(ids[i]))
                  && p.next == if |p.items| < |ids| then Some(|p.items|) else None)
            && c'.vols == (if q.doVols && e.volsRead && arrays[system].vols != []
                           then Cache(system, arrays[system].vols) else c.vols)
            && c'.snaps == (if q.doSnaps && !volsFail && e.snapsRead && arrays[system].snaps != []
                            then Cache(system, arrays[system].snaps) else c.snaps)
  {
  }

  /** A later page fails to be read exactly if a list it needs is not cached and cannot be read; what is read is
      cached, and what is cached stays. */
  lemma LaterPageMeans(c: Caches, arrays: Arrays, system: string, q: Query, e: FetchEnv)
    requires system in arrays && q.token != 0
    ensures var (c', p) := ListVolumes(c, arrays, system, q, e);
            var volsFail := q.doVols && c.vols.items == [] && !e.volsRead;
            var snapsFail := q.doSnaps && c.snaps.items == [] && !e.snapsRead;
            && (p == Error(Internal) <==> volsFail || snapsFail)
            && c'.vols == (if q.doVols && c.vols.items == [] && e.volsRead && arrays[system].vols != []
                           then Cache(system, arrays[system].vols) else c.vols)
            && c'.snaps ==
               if !volsFail && q.doSnaps && c.snaps.items == [] && e.snapsRead && arrays[system].snaps != []
               then Cache(system, arrays[system].snaps) else c.snaps
  {
  }

  /** Clearing forgets both lists and keeps the systems they were of. */
  lemma ClearMeans(c: Caches)
    ensures Clear(c).vols.items == [] && Clear(c).snaps.items == []
    ensures Clear(c).vols.system == c.vols.system && Clear(c).snaps.system == c.snaps.system
  {
  }

  /** Slots of a list hold its entries, and nil slots nothing. */
  lemma SlotsMean(items: Ids, n: nat)
    ensures |Filled(items)| == |items| && forall i :: 0 <= i < |items| ==> Filled(items)[i] == Some(items[i])
    ensures |Nils(n)| == n && forall i :: 0 <= i < n ==> Nils(n)[i] == None
  {
  }
}
