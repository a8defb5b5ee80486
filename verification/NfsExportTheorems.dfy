/** What exporting and unexporting guarantee about who has access to a filesystem. */
module NfsExportTheorems {
  import opened CsiTypes
  import opened NfsExport

  // ---------------------------------------------------------------- lists

  lemma {:induction false} AddMembers(list: Hosts, hosts: Hosts)
    ensures forall h :: h in Add(list, hosts) <==> h in list || h in hosts
  {
    if hosts != [] {
      AddMembers(list, hosts[..|hosts| - 1]);
      assert hosts == hosts[..|hosts| - 1] + [hosts[|hosts| - 1]];
    }
  }

  lemma {:induction false} RemoveMembers(list: Hosts, hosts: Hosts)
    ensures forall h :: h in Remove(list, hosts) <==> h in list && h !in hosts
  {
    if list != [] {
      RemoveMembers(list[..|list| - 1], hosts);
      assert list == list[..|list| - 1] + [list[|list| - 1]];
    }
  }

  lemma {:induction false} RemoveNothing(list: Hosts, hosts: Hosts)
    requires !Meets(list, hosts)
    ensures Remove(list, hosts) == list
  {
    if list != [] {
      assert list[|list| - 1] in list;
      RemoveNothing(list[..|list| - 1], hosts);
    }
  }

  lemma {:induction false} RemoveAdded(list: Hosts, hosts: Hosts, added: Hosts)
    requires !Meets(list, hosts) && forall h :: h in added ==> h in hosts
    ensures Remove(Add(list, added), hosts) == list
  {
    if added == [] {
      RemoveNothing(list, hosts);
    } else {
      var l := Add(list, added[..|added| - 1]);
      RemoveAdded(list, hosts, added[..|added| - 1]);
      assert added[|added| - 1] in added;
      assert (l + [added[|added| - 1]])[..|l|] == l;
    }
  }

  lemma {:induction false} CountBounds(list: Hosts, ips: Hosts)
    ensures CountIn(list, ips) <= |list|
    ensures CountIn(list, ips) == |list| <==> forall h :: h in list ==> h in ips
    ensures CountIn(list, ips) == 0 <==> !Meets(list, ips)
  {
    if list != [] {
      CountBounds(list[..|list| - 1], ips);
      assert list == list[..|list| - 1] + [list[|list| - 1]];
    }
  }

  // ---------------------------------------------------------------- exclusive access

  /** Nobody has access but the given hosts and the external one, and that as root writers. */
  ghost predicate OnlyWriters(l: Lists, ips: Hosts, external: string) {
    && l.readOnly == [] && l.readWrite == [] && l.readOnlyRoot == []
    && forall h :: h in l.readWriteRoot ==> h in ips || h == external
  }

  /** Before a writer's export succeeds nobody else had access, the external host not excepted. */
  lemma WriterNeedsEmptyLists(l: Lists, ips: Hosts, mode: AccessMode)
    requires WriterMode(mode) && !Incompatible(l, ips, mode)
    ensures OthersWithAccess(l, ips, mode) <= 0 <==>
              l.readOnly == [] && l.readWrite == [] && l.readOnlyRoot == []
                && forall h :: h in l.readWriteRoot ==> h in ips
  {
    CountBounds(l.readWriteRoot, ips);
  }

  /** A successful export for a writer mode leaves this node, and the external host, as the only ones
      with access. */
  lemma WriterIsAlone(st: Option<Lists>, ips: Hosts, external: string, mode: AccessMode, e: ExportEnv)
    requires mode in {SingleNodeWriter, SingleNodeSingleWriter, SingleNodeMultiWriter}
    requires Export(st, ips, external, mode, e).1 == OK
    ensures var (st', _) := Export(st, ips, external, mode, e);
            var l := if st.None? then NO_ACCESS else st.value;
            && st'.Some? && OnlyWriters(st'.value, ips, external)
            && (!HasAccess(l, ips, mode) ==> forall h :: h in ips ==> h in st'.value.readWriteRoot)
  {
    var l := if st.None? then NO_ACCESS else st.value;
    WriterNeedsEmptyLists(l, ips, mode);
    AddMembers(l.readWriteRoot, Additions(l, ips, external));
  }

  /** If no outside call fails, a writer's export succeeds exactly when nobody else is on any list. */
  lemma WriterSucceedsIff(st: Option<Lists>, ips: Hosts, external: string, mode: AccessMode, e: ExportEnv)
    requires mode in {SingleNodeWriter, SingleNodeSingleWriter, SingleNodeMultiWriter}
    requires e.exportsRead && e.created && e.listsRead && e.modified
    ensures Export(st, ips, external, mode, e).1 == OK <==>
              (st.Some? ==>
                 && (forall h :: h in st.value.readWriteRoot ==> h in ips)
                 && st.value.readOnly == [] && st.value.readWrite == [] && st.value.readOnlyRoot == [])
  {
    var l := if st.None? then NO_ACCESS else st.value;
    if !Incompatible(l, ips, mode) {
      WriterNeedsEmptyLists(l, ips, mode);
    }
  }

  datatype Step =
    | ExportStep(node: string, mode: AccessMode, ee: ExportEnv)
    | UnexportStep(node: string, ue: ExportEnv)

  /** Each node always presents the same addresses, given here with their netmask. */
  type Nodes = map<string, Hosts>

  function Apply(nodes: Nodes, external: string, st: Option<Lists>, s: Step): Option<Lists>
    requires s.node in nodes
  {
    match s
    case ExportStep(node, mode, e) => Export(st, nodes[node], external, mode, e).0
    case UnexportStep(node, e) => Unexport(st, nodes[node], e).0
  }

  function Run(nodes: Nodes, external: string, st: Option<Lists>, steps: seq<Step>): Option<Lists>
    requires forall i :: 0 <= i < |steps| ==> steps[i].node in nodes
  {
    if steps == [] then st
    else Apply(nodes, external, Run(nodes, external, st, steps[..|steps| - 1]), steps[|steps| - 1])
  }

  /** One node at most holds the access there is. */
  ghost predicate HeldByOne(nodes: Nodes, external: string, st: Option<Lists>) {
    st.Some? ==> exists n :: n in nodes && OnlyWriters(st.value, nodes[n], external)
  }

  lemma UnexportKeepsHolder(l: Lists, gone: Hosts, ips: Hosts, external: string)
    requires OnlyWriters(l, ips, external)
    ensures OnlyWriters(TakeAccess(l, gone), ips, external)
  {
    RemoveMembers(l.readWriteRoot, gone);
  }

  lemma StepKeepsHolder(nodes: Nodes, external: string, st: Option<Lists>, s: Step)
    requires s.node in nodes && HeldByOne(nodes, external, st) && (s.ExportStep? ==> WriterMode(s.mode))
    ensures HeldByOne(nodes, external, Apply(nodes, external, st, s))
  {
    match s
    case ExportStep(node, mode, e) =>
      if Export(st, nodes[node], external, mode, e).1 == OK {
        WriterIsAlone(st, nodes[node], external, mode, e);
      } else if st.None? {
        assert OnlyWriters(NO_ACCESS, nodes[node], external);
      }
    case UnexportStep(node, e) =>
      if st.Some? {
        var n :| n in nodes && OnlyWriters(st.value, nodes[n], external);
        UnexportKeepsHolder(st.value, nodes[node], nodes[n], external);
      }
  }

  /**
    In every run in which all exports ask for a writer mode, succeeding or failing, any two node
    addresses with access belong to one node, so nodes without a common address take turns.
  */
  lemma {:induction false} WritersTakeTurns(nodes: Nodes, external: string, st: Option<Lists>, steps: seq<Step>)
    requires forall i :: 0 <= i < |steps| ==>
               && steps[i].node in nodes
               && (steps[i].ExportStep? ==>
                     steps[i].mode in {SingleNodeWriter, SingleNodeSingleWriter, SingleNodeMultiWriter})
    requires HeldByOne(nodes, external, st)
    ensures HeldByOne(nodes, external, Run(nodes, external, st, steps))
    ensures var st' := Run(nodes, external, st, steps);
            forall a, b, x, y :: a in nodes && b in nodes && st'.Some? && external !in nodes[a] && external !in nodes[b]
                && x in nodes[a] && !Nowhere(st'.value, x) && y in nodes[b] && !Nowhere(st'.value, y)
                ==> exists n :: n in nodes && x in nodes[n] && y in nodes[n]
  {
    if steps != [] {
      WritersTakeTurns(nodes, external, st, steps[..|steps| - 1]);
      StepKeepsHolder(nodes, external, Run(nodes, external, st, steps[..|steps| - 1]), steps[|steps| - 1]);
    }
  }

  // ---------------------------------------------------------------- repeating

  /**
    Repeating a writer's successful export never changes the lists, and succeeds exactly when the
    first one did not have to add the external host: that host counts as another one the second time.
  */
  lemma ReexportSucceedsIff(st: Option<Lists>, ips: Hosts, external: string, mode: AccessMode, e: ExportEnv,
                            again: ExportEnv)
    requires mode in {SingleNodeWriter, SingleNodeSingleWriter, SingleNodeMultiWriter} && ips != []
    requires Export(st, ips, external, mode, e).1 == OK
    requires again.exportsRead && again.listsRead
    ensures var st' := Export(st, ips, external, mode, e).0;
            && Export(st', ips, external, mode, again).0 == st'
            && (Export(st', ips, external, mode, again).1 == OK <==>
                  external == "" || external in ips || (st.Some? && Has(st.value.readWriteRoot, ips)))
  {
    var l := if st.None? then NO_ACCESS else st.value;
    var l' := Export(st, ips, external, mode, e).0.value;
    ExportMeans(st, ips, external, mode, e);
    ReexportLists(l, l', ips, external, mode);
    ExportMeans(Some(l'), ips, external, mode, again);
  }

  /** The lists that a writer's successful export leaves, seen by the same export again. */
  lemma ReexportLists(l: Lists, l': Lists, ips: Hosts, external: string, mode: AccessMode)
    requires mode in {SingleNodeWriter, SingleNodeSingleWriter, SingleNodeMultiWriter} && ips != []
    requires !Clashes(l, ips, mode) && !Crowded(l, ips, mode)
    requires if Served(l, ips, mode) then l' == l else AccessGiven(l, l', ips, external, mode)
    ensures Served(l', ips, mode) && !Clashes(l', ips, mode)
    ensures Crowded(l', ips, mode) <==> external != "" && external !in ips && !Served(l, ips, mode)
  {
    if !Served(l, ips, mode) {
      assert ips[0] in l'.readWriteRoot && ips[0] in ips;
    }
  }

  /** It happens: the second export of the same node finds the external host in its way. */
  lemma ExternalHostBlocksReexport(ip: string, external: string, e: ExportEnv)
    requires external != "" && external != ip && e.exportsRead && e.created && e.listsRead && e.modified
    ensures var (st, s) := Export(None, [ip], external, SingleNodeWriter, e);
            s == OK && Export(st, [ip], external, SingleNodeWriter, e) == (st, NotFound)
  {
    WriterSucceedsIff(None, [ip], external, SingleNodeWriter, e);
    ReexportSucceedsIff(None, [ip], external, SingleNodeWriter, e, e);
    var st := Export(None, [ip], external, SingleNodeWriter, e).0;
    WriterSucceedsIff(st, [ip], external, SingleNodeWriter, e);
  }

  // ---------------------------------------------------------------- undoing

  /** Unexporting takes the node's entries from all four lists and leaves every other entry. */
  lemma UnexportRemovesExactly(l: Lists, ips: Hosts, e: ExportEnv)
    requires Unexport(Some(l), ips, e).1 == OK
    ensures var st' := Unexport(Some(l), ips, e).0;
            && st'.Some?
            && (forall h :: h in st'.value.readOnly <==> h in l.readOnly && h !in ips)
            && (forall h :: h in st'.value.readWrite <==> h in l.readWrite && h !in ips)
            && (forall h :: h in st'.value.readOnlyRoot <==> h in l.readOnlyRoot && h !in ips)
            && (forall h :: h in st'.value.readWriteRoot <==> h in l.readWriteRoot && h !in ips)
  {
    RemoveMembers(l.readOnly, ips);
    RemoveMembers(l.readWrite, ips);
    RemoveMembers(l.readOnlyRoot, ips);
    RemoveMembers(l.readWriteRoot, ips);
  }

  /** The node has no entry in any list. */
  ghost predicate Absent(l: Lists, ips: Hosts) {
    !Meets(l.readOnly, ips) && !Meets(l.readWrite, ips) && !Meets(l.readOnlyRoot, ips) && !Meets(l.readWriteRoot, ips)
  }

  /**
    Export then unexport, in any mode, for a node without entries: the lists come back, order
    included, exactly when the external host did not have to be added.
  */
  lemma UnexportUndoesExportIff(st: Option<Lists>, ips: Hosts, external: string, mode: AccessMode, e: ExportEnv,
                                u: ExportEnv)
    requires var l := if st.None? then NO_ACCESS else st.value; Absent(l, ips)
    requires Export(st, ips, external, mode, e).1 == OK
    requires Unexport(Export(st, ips, external, mode, e).0, ips, u).1 == OK
    ensures var l := if st.None? then NO_ACCESS else st.value;
            Unexport(Export(st, ips, external, mode, e).0, ips, u).0 == Some(l)
            <==> external == "" || external in ips || Listed(l, external)
  {
    var l := if st.None? then NO_ACCESS else st.value;
    var added := Additions(l, ips, external);
    RemoveNothing(l.readOnly, ips);
    RemoveNothing(l.readWrite, ips);
    RemoveNothing(l.readOnlyRoot, ips);
    RemoveNothing(l.readWriteRoot, ips);
    if added == ips {
      RemoveAdded(l.readOnlyRoot, ips, ips);
      RemoveAdded(l.readWriteRoot, ips, ips);
    } else {
      AddMembers(l.readOnlyRoot, added);
      AddMembers(l.readWriteRoot, added);
      RemoveMembers(Add(l.readOnlyRoot, added), ips);
      RemoveMembers(Add(l.readWriteRoot, added), ips);
    }
  }

  // ---------------------------------------------------------------- who gets which access

  ghost predicate Has(list: Hosts, ips: Hosts) {
    exists h :: h in list && h in ips
  }

  ghost predicate Nowhere(l: Lists, host: string) {
    host !in l.readOnly && host !in l.readWrite && host !in l.readOnlyRoot && host !in l.readWriteRoot
  }

  /** The node is on a list that its mode cannot use: a reader needs the root readers' list, all others the root
      writers' list, and a reader that is on both is served. */
  ghost predicate Clashes(l: Lists, ips: Hosts, mode: AccessMode) {
    || Has(l.readOnly, ips) || Has(l.readWrite, ips)
    || if mode == MultiNodeReaderOnly then Has(l.readWriteRoot, ips) && !Has(l.readOnlyRoot, ips)
       else Has(l.readOnlyRoot, ips)
  }

  /** A single-node writer tolerates nobody else on any list. */
  ghost predicate Crowded(l: Lists, ips: Hosts, mode: AccessMode) {
    && mode in {SingleNodeWriter, SingleNodeSingleWriter, SingleNodeMultiWriter}
    && !(l.readOnly == [] && l.readWrite == [] && l.readOnlyRoot == [] && forall h :: h in l.readWriteRoot ==> h in ips)
  }

  ghost predicate Served(l: Lists, ips: Hosts, mode: AccessMode) {
    Has(if mode == MultiNodeReaderOnly then l.readOnlyRoot else l.readWriteRoot, ips)
  }

  /** A list with additions at its end, none of them twice: the node, and the external host if it was given and
      is on no list yet. */
  ghost predicate Gains(l: Lists, was: Hosts, now: Hosts, ips: Hosts, external: string) {
    && was <= now
    && (forall h :: h in now <==> h in was || h in ips || (h == external && h != "" && Nowhere(l, h)))
    && (forall i, j :: |was| <= i < |now| && 0 <= j < i ==> now[j] != now[i])
  }

  /** One list gains: that of the root readers for a multi-node reader, that of the root writers otherwise. */
  ghost predicate AccessGiven(l: Lists, l': Lists, ips: Hosts, external: string, mode: AccessMode) {
    if mode == MultiNodeReaderOnly then
      && l' == l.(readOnlyRoot := l'.readOnlyRoot)
      && Gains(l, l.readOnlyRoot, l'.readOnlyRoot, ips, external)
    else
      && l' == l.(readWriteRoot := l'.readWriteRoot)
      && Gains(l, l.readWriteRoot, l'.readWriteRoot, ips, external)
  }

  lemma {:induction false} AddAppends(list: Hosts, hosts: Hosts)
    ensures list <= Add(list, hosts)
    ensures forall i, j :: |list| <= i < |Add(list, hosts)| && 0 <= j < i ==> Add(list, hosts)[j] != Add(list, hosts)[i]
  {
    if hosts != [] {
      AddAppends(list, hosts[..|hosts| - 1]);
    }
  }

  lemma AdditionsGain(l: Lists, was: Hosts, ips: Hosts, external: string)
    requires was == l.readOnlyRoot || was == l.readWriteRoot
    ensures Gains(l, was, Add(was, Additions(l, ips, external)), ips, external)
  {
    AddAppends(was, Additions(l, ips, external));
    AddMembers(was, Additions(l, ips, external));
  }

  lemma AccessMeans(l: Lists, ips: Hosts, external: string, mode: AccessMode, modified: bool)
    ensures var (l', s) := GiveAccess(l, ips, external, mode, modified);
            && (s == NotFound <==> Clashes(l, ips, mode) || Crowded(l, ips, mode))
            && (s == Internal <==>
                  !Clashes(l, ips, mode) && !Crowded(l, ips, mode) && !Served(l, ips, mode) && !modified)
            && s in {OK, NotFound, Internal}
            && (s != OK || Served(l, ips, mode) ==> l' == l)
            && (s == OK && !Served(l, ips, mode) ==> AccessGiven(l, l', ips, external, mode))
  {
    AdditionsGain(l, l.readOnlyRoot, ips, external);
    AdditionsGain(l, l.readWriteRoot, ips, external);
    if WriterMode(mode) && !Incompatible(l, ips, mode) {
      WriterNeedsEmptyLists(l, ips, mode);
    }
  }

  /**
    What each answer to an export means, in any mode, and who has which access afterwards. One list gains the
    node's addresses: that of the root readers for a multi-node reader, that of the root writers otherwise.
  */
  lemma ExportMeans(st: Option<Lists>, ips: Hosts, external: string, mode: AccessMode, e: ExportEnv)
    ensures var (st', s) := Export(st, ips, external, mode, e);
            var l := if st.None? then Lists([], [], [], []) else st.value;
            var exported := e.exportsRead && (st.None? ==> e.created);
            var refused := Clashes(l, ips, mode) || Crowded(l, ips, mode);
            && (s == Unknown <==> !e.exportsRead)
            && (s == NotFound <==> exported && (!e.listsRead || refused))
            && (s == Internal <==>
                  && e.exportsRead
                  && (exported ==> e.listsRead && !refused && !Served(l, ips, mode) && !e.modified))
            && s in {OK, Unknown, NotFound, Internal}
            && (!exported ==> st' == st)
            && (exported ==> st'.Some?)
            && (exported && (s != OK || Served(l, ips, mode)) ==> st' == Some(l))
            && (s == OK && !Served(l, ips, mode) ==> AccessGiven(l, st'.value, ips, external, mode))
  {
    AccessMeans(if st.None? then NO_ACCESS else st.value, ips, external, mode, e.modified);
  }

  /** What each answer to an unexport means; an export that is not there counts as taken back. */
  lemma UnexportMeans(st: Option<Lists>, ips: Hosts, e: ExportEnv)
    ensures var (st', s) := Unexport(st, ips, e);
            && (s == Unknown <==> !e.exportsRead)
            && (s == OK <==> e.exportsRead && (st.Some? ==> e.listsRead && e.modified))
            && s in {OK, Unknown, NotFound}
            && (s != OK || st.None? ==> st' == st)
            && (s == OK && st.Some? ==> st'.Some? && forall h :: h in ips ==> Nowhere(st'.value, h))
  {
    if st.Some? {
      RemoveMembers(st.value.readOnly, ips);
      RemoveMembers(st.value.readWrite, ips);
      RemoveMembers(st.value.readOnlyRoot, ips);
      RemoveMembers(st.value.readWriteRoot, ips);
    }
  }

  /** Every address is sent with the netmask of one host. */
  lemma MaskedMeans(ips: Hosts)
    ensures |Masked(ips)| == |ips| && forall i :: 0 <= i < |ips| ==> Masked(ips)[i] == ips[i] + "/255.255.255.255"
  {
  }
}
