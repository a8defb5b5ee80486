/** The host access lists of an NFS export: giving a node access to a filesystem and taking it away. */
module NfsExport {
  import opened CsiTypes

  type Hosts = seq<string>

  datatype Lists = Lists(readOnly: Hosts, readWrite: Hosts, readOnlyRoot: Hosts, readWriteRoot: Hosts)

  const NO_ACCESS := Lists([], [], [], [])
  const NETMASK := "/255.255.255.255"

  datatype ExportEnv = ExportEnv(exportsRead: bool, created: bool, listsRead: bool, modified: bool)

  function Masked(ips: Hosts): Hosts {
    seq(|ips|, i requires 0 <= i < |ips| => ips[i] + NETMASK)
  }

  predicate WriterMode(mode: AccessMode) {
    mode in {SingleNodeWriter, SingleNodeSingleWriter, SingleNodeMultiWriter}
  }

  // ---------------------------------------------------------------- what the array does with a list

  /** Adding keeps a list free of repetitions of what it holds already. */
  function Add(list: Hosts, hosts: Hosts): Hosts {
    if hosts == [] then list
    else
      var l := Add(list, hosts[..|hosts| - 1]);
      var h := hosts[|hosts| - 1];
      if h in l then l else l + [h]
  }

  function Remove(list: Hosts, hosts: Hosts): Hosts {
    if list == [] then []
    else
      var l := Remove(list[..|list| - 1], hosts);
      var h := list[|list| - 1];
      if h in hosts then l else l + [h]
  }

  // ---------------------------------------------------------------- classifying the lists

  predicate Meets(list: Hosts, ips: Hosts) {
    exists h :: h in list && h in ips
  }

  function CountIn(list: Hosts, ips: Hosts): nat {
    if list == [] then 0 else CountIn(list[..|list| - 1], ips) + (if list[|list| - 1] in ips then 1 else 0)
  }

  /** The node has access of a kind that its mode cannot use, before the writers' list is looked at. */
  predicate EarlyConflict(l: Lists, ips: Hosts, mode: AccessMode) {
    Meets(l.readOnly, ips) || Meets(l.readWrite, ips) || (mode != MultiNodeReaderOnly && Meets(l.readOnlyRoot, ips))
  }

  predicate Incompatible(l: Lists, ips: Hosts, mode: AccessMode) {
    || EarlyConflict(l, ips, mode)
    || (mode == MultiNodeReaderOnly && !Meets(l.readOnlyRoot, ips) && Meets(l.readWriteRoot, ips))
  }

  predicate HasAccess(l: Lists, ips: Hosts, mode: AccessMode) {
    && !EarlyConflict(l, ips, mode)
    && if mode == MultiNodeReaderOnly then Meets(l.readOnlyRoot, ips) else Meets(l.readWriteRoot, ips)
  }

  function OthersWithAccess(l: Lists, ips: Hosts, mode: AccessMode): int {
    |l.readOnly| + |l.readWrite| + |l.readOnlyRoot| + |l.readWriteRoot|
    - (if mode != MultiNodeReaderOnly && !EarlyConflict(l, ips, mode) then CountIn(l.readWriteRoot, ips) else 0)
  }

  predicate Listed(l: Lists, host: string) {
    host in l.readOnly || host in l.readWrite || host in l.readOnlyRoot || host in l.readWriteRoot
  }

  // ---------------------------------------------------------------- export and unexport

  /** The hosts a new export adds: the node's addresses, and the external one unless it is there. */
  function Additions(l: Lists, ips: Hosts, external: string): Hosts {
    if external == "" || external in ips || Listed(l, external) then ips else ips + [external]
  }

  function GiveAccess(l: Lists, ips: Hosts, external: string, mode: AccessMode, modified: bool): (Lists, Status) {
    if Incompatible(l, ips, mode) then (l, NotFound)
    else if WriterMode(mode) && OthersWithAccess(l, ips, mode) > 0 then (l, NotFound)
    else if HasAccess(l, ips, mode) then (l, OK)
    else if !modified then (l, Internal)
    else if mode == MultiNodeReaderOnly then
      (l.(readOnlyRoot := Add(l.readOnlyRoot, Additions(l, ips, external))), OK)
    else
      (l.(readWriteRoot := Add(l.readWriteRoot, Additions(l, ips, external))), OK)
  }

  /** ips carry the netmask. None is a filesystem that was never exported. */
  function Export(st: Option<Lists>, ips: Hosts, external: string, mode: AccessMode, e: ExportEnv)
    : (Option<Lists>, Status)
  {
    if !e.exportsRead then (st, Unknown)
    else if st.None? && !e.created then (st, Internal)
    else
      var l := if st.None? then NO_ACCESS else st.value;
      if !e.listsRead then (Some(l), NotFound)
      else
        var (l', s) := GiveAccess(l, ips, external, mode, e.modified);
        (Some(l'), s)
  }

  function TakeAccess(l: Lists, ips: Hosts): Lists {
    Lists(Remove(l.readOnly, ips), Remove(l.readWrite, ips), Remove(l.readOnlyRoot, ips), Remove(l.readWriteRoot, ips))
  }

  function Unexport(st: Option<Lists>, ips: Hosts, e: ExportEnv): (Option<Lists>, Status) {
    if !e.exportsRead then (st, Unknown)
    else if st.None? then (st, OK)
    else if !e.listsRead || !e.modified then (st, NotFound)
    else (Some(TakeAccess(st.value, ips)), OK)
  }

  // ---------------------------------------------------------------- in place

  class Share {
    var lists: Option<Lists>

    method MaskAddresses(nodeIPs: array<string>)
      modifies nodeIPs
      ensures nodeIPs[..] == Masked(old(nodeIPs[..]))
    {
      var i := 0;
      while i < nodeIPs.Length
        invariant 0 <= i <= nodeIPs.Length
        invariant nodeIPs[..i] == Masked(old(nodeIPs[..]))[..i]
        invariant forall k :: i <= k < nodeIPs.Length ==> nodeIPs[k] == old(nodeIPs[k])
      {
        nodeIPs[i] := nodeIPs[i] + NETMASK;
        i := i + 1;
      }
    }

    method Classify(l: Lists, ips: Hosts, mode: AccessMode) returns (incompatible: bool, idempotent: bool, others: int)
      ensures incompatible <==> Incompatible(l, ips, mode)
      ensures !incompatible ==> (idempotent <==> HasAccess(l, ips, mode)) && others == OthersWithAccess(l, ips, mode)
    {
      others := |l.readOnly|;
      incompatible := Holds(l.readOnly, ips);
      idempotent := false;
      others := others + |l.readWrite|;
      if !incompatible {
        incompatible := Holds(l.readWrite, ips);
      }
      others := others + |l.readOnlyRoot|;
      if !incompatible {
        var found := Holds(l.readOnlyRoot, ips);
        if found && mode == MultiNodeReaderOnly {
          idempotent := true;
        } else if found {
          incompatible := true;
        }
      }
      others := others + |l.readWriteRoot|;
      if !incompatible && !idempotent {
        var i := 0;
        ghost var before := others;
        while i < |l.readWriteRoot|
          invariant 0 <= i <= |l.readWriteRoot|
          invariant incompatible <==> mode == MultiNodeReaderOnly && Meets(l.readWriteRoot[..i], ips)
          invariant idempotent <==> mode != MultiNodeReaderOnly && Meets(l.readWriteRoot[..i], ips)
          invariant others == before - (if mode == MultiNodeReaderOnly then 0 else CountIn(l.readWriteRoot[..i], ips))
        {
          var host := l.readWriteRoot[i];
          assert l.readWriteRoot[..i + 1] == l.readWriteRoot[..i] + [host];
          assert l.readWriteRoot[..i + 1][..i] == l.readWriteRoot[..i];
          if host in ips {
            if mode == MultiNodeReaderOnly {
              incompatible := true;
            } else {
              idempotent := true;
              others := others - 1;
            }
          }
          i := i + 1;
        }
        assert l.readWriteRoot[..|l.readWriteRoot|] == l.readWriteRoot;
      }
    }

    method Holds(list: Hosts, ips: Hosts) returns (found: bool)
      ensures found <==> Meets(list, ips)
    {
      found := false;
      var i := 0;
      while i < |list|
        invariant 0 <= i <= |list|
        invariant !Meets(list[..i], ips)
      {
        assert list[..i + 1] == list[..i] + [list[i]];
        if list[i] in ips {
          return true;
        }
        i := i + 1;
      }
      assert list[..|list|] == list;
    }

    method ExportFilesystem(nodeIPs: array<string>, external: string, mode: AccessMode, e: ExportEnv)
      returns (s: Status)
      modifies this, nodeIPs
      ensures nodeIPs[..] == Masked(old(nodeIPs[..]))
      ensures (lists, s) == Export(old(lists), nodeIPs[..], external, mode, e)
    {
      MaskAddresses(nodeIPs);
      if !e.exportsRead {
        return Unknown;
      }
      if lists.None? {
        if !e.created {
          return Internal;
        }
        lists := Some(NO_ACCESS);
      }
      if !e.listsRead {
        return NotFound;
      }
      var l := lists.value;
      var ips := nodeIPs[..];
      var incompatible, idempotent, others := Classify(l, ips, mode);
      if incompatible {
        return NotFound;
      }
      if WriterMode(mode) && others > 0 {
        return NotFound;
      }
      if idempotent {
        return OK;
      }
      var additions := Additions(l, ips, external);
      if !e.modified {
        return Internal;
      }
      if mode == MultiNodeReaderOnly {
        lists := Some(l.(readOnlyRoot := Add(l.readOnlyRoot, additions)));
      } else {
        lists := Some(l.(readWriteRoot := Add(l.readWriteRoot, additions)));
      }
      s := OK;
    }

    /** The read-only lists are searched with a binary search whose result is never negative, so all
        addresses are sent; from the other two only addresses that are there. */
    method UnexportFilesystem(nodeIPs: seq<string>, e: ExportEnv) returns (s: Status)
      modifies this
      ensures (lists, s) == Unexport(old(lists), Masked(nodeIPs), e)
    {
      if !e.exportsRead {
        return Unknown;
      }
      if lists.None? {
        return OK;
      }
      if !e.listsRead {
        return NotFound;
      }
      var l := lists.value;
      var ips := Masked(nodeIPs);
      var dropWriters := PresentIn(l.readWrite, nodeIPs);
      var dropRootWriters := PresentIn(l.readWriteRoot, nodeIPs);
      if !e.modified {
        return NotFound;
      }
      RemoveSame(l.readWrite, dropWriters, ips);
      RemoveSame(l.readWriteRoot, dropRootWriters, ips);
      lists := Some(Lists(
        if |l.readOnly| > 0 then Remove(l.readOnly, ips) else l.readOnly,
        Remove(l.readWrite, dropWriters),
        if |l.readOnlyRoot| > 0 then Remove(l.readOnlyRoot, ips) else l.readOnlyRoot,
        Remove(l.readWriteRoot, dropRootWriters)));
      s := OK;
    }

    /** The node's masked addresses that the list holds. */
    method PresentIn(list: Hosts, nodeIPs: seq<string>) returns (found: Hosts)
      ensures forall h :: h in found <==> h in Masked(nodeIPs) && h in list
    {
      found := [];
      var i := 0;
      while i < |nodeIPs|
        invariant 0 <= i <= |nodeIPs|
        invariant forall h :: h in found <==> h in Masked(nodeIPs)[..i] && h in list
      {
        var h := nodeIPs[i] + NETMASK;
        assert Masked(nodeIPs)[..i + 1] == Masked(nodeIPs)[..i] + [h];
        if h in list {
          found := found + [h];
        }
        i := i + 1;
      }
      assert Masked(nodeIPs)[..|nodeIPs|] == Masked(nodeIPs);
    }
  }

  lemma {:induction false} RemoveSame(list: Hosts, a: Hosts, b: Hosts)
    requires forall h :: h in list ==> (h in a <==> h in b)
    ensures Remove(list, a) == Remove(list, b)
  {
    if list != [] {
      assert list[|list| - 1] in list;
      RemoveSame(list[..|list| - 1], a, b);
    }
  }
}
