/**
  CSI volume handles: "system-volume" for a block volume, "system/filesystem" for an NFS volume, and a
  bare volume ID for a volume that predates systems in handles. A system may be written by an alias.
*/
module VolumeId {

  type Aliases = map<string, string>

  function ResolveSystem(names: Aliases, system: string): string {
    if system in names then names[system] else system
  }

  function EncodeBlock(system: string, volume: string): string {
    system + "-" + volume
  }

  function EncodeNfs(system: string, filesystem: string): string {
    system + "/" + filesystem
  }

  // ---------------------------------------------------------------- splitting strings

  /** The tokens between the separators; there is always one more token than separators. */
  function Split(s: string, sep: char): (tokens: seq<string>)
    ensures |tokens| > 0
  {
    if s == [] then [""]
    else
      var rest := Split(s[1..], sep);
      if s[0] == sep then [""] + rest else [[s[0]] + rest[0]] + rest[1..]
  }

  function LastIndex(s: string, sep: char): (i: int)
    ensures -1 <= i < |s|
  {
    if s == [] then -1
    else if s[|s| - 1] == sep then |s| - 1
    else LastIndex(s[..|s| - 1], sep)
  }

  function LastToken(s: string, sep: char): string {
    var tokens := Split(s, sep);
    tokens[|tokens| - 1]
  }

  // ---------------------------------------------------------------- decoding

  function DecodeVolume(handle: string): string {
    if handle == "" then ""
    else if LastIndex(handle, '-') == -1 then handle
    else LastToken(handle, '-')
  }

  function DecodeFilesystem(handle: string): string {
    if handle == "" then ""
    else if '/' in handle then LastToken(handle, '/')
    else ""
  }

  /** The system a handle names, by its ID; "" when the handle names none. */
  function DecodeSystem(names: Aliases, handle: string): string {
    var sep := if '/' in handle then '/' else '-';
    var i := LastIndex(handle, sep);
    if i == -1 then ""
    else if |Split(handle, sep)| == 2 then ResolveSystem(names, handle[..i])
    else ""
  }

  // ---------------------------------------------------------------- facts about splitting

  lemma {:induction false} SplitFree(s: string, sep: char)
    requires sep !in s
    ensures Split(s, sep) == [s] && LastIndex(s, sep) == -1
  {
    if s != [] {
      SplitFree(s[1..], sep);
      LastIndexFree(s, sep);
      assert [s[0]] + s[1..] == s;
    }
  }

  lemma {:induction false} LastIndexFree(s: string, sep: char)
    requires sep !in s
    ensures LastIndex(s, sep) == -1
  {
    if s != [] {
      LastIndexFree(s[..|s| - 1], sep);
    }
  }

  /** Splitting a concatenation around one separator concatenates the tokens. */
  lemma {:induction false} SplitJoin(a: string, b: string, sep: char)
    ensures Split(a + [sep] + b, sep) == Split(a, sep) + Split(b, sep)
  {
    if a == [] {
      assert (a + [sep] + b)[1..] == b;
    } else {
      assert (a + [sep] + b)[1..] == a[1..] + [sep] + b;
      SplitJoin(a[1..], b, sep);
    }
  }

  lemma {:induction false} TokenCount(s: string, sep: char)
    ensures |Split(s, sep)| == 1 <==> sep !in s
  {
    if s != [] {
      TokenCount(s[1..], sep);
      assert s == [s[0]] + s[1..];
    }
  }

  lemma {:induction false} LastIndexJoin(a: string, b: string, sep: char)
    requires sep !in b
    ensures LastIndex(a + [sep] + b, sep) == |a|
  {
    var s := a + [sep] + b;
    if b != [] {
      assert s[..|s| - 1] == a + [sep] + b[..|b| - 1];
      LastIndexJoin(a, b[..|b| - 1], sep);
    }
  }

  // ---------------------------------------------------------------- the codec

  /** Decoding a handle made of two parts around the separator it is decoded by. */
  lemma DecodeJoin(names: Aliases, a: string, b: string, sep: char)
    requires sep == '/' || (sep == '-' && '/' !in a + b)
    ensures LastToken(a + [sep] + b, sep) == LastToken(b, sep)
    ensures sep !in a && sep !in b ==> DecodeSystem(names, a + [sep] + b) == ResolveSystem(names, a)
    ensures sep in a || sep in b ==> DecodeSystem(names, a + [sep] + b) == ""
  {
    var s := a + [sep] + b;
    SplitJoin(a, b, sep);
    TokenCount(a, sep);
    TokenCount(b, sep);
    assert s[|a|] == sep && sep in s;
    if sep !in a && sep !in b {
      LastIndexJoin(a, b, sep);
      assert s[..|a|] == a;
    } else {
      assert |Split(s, sep)| > 2;
    }
  }

  /**
    A block handle gives its parts back exactly when neither contains a dash: the volume then
    decodes to itself and the system to the ID its name stands for.
  */
  lemma BlockRoundTrip(names: Aliases, system: string, volume: string)
    requires '/' !in system && '/' !in volume && ResolveSystem(names, system) != ""
    ensures DecodeVolume(EncodeBlock(system, volume)) == volume <==> '-' !in volume
    ensures DecodeSystem(names, EncodeBlock(system, volume)) == ResolveSystem(names, system)
            <==> '-' !in system && '-' !in volume
  {
    var s := EncodeBlock(system, volume);
    assert s == system + ['-'] + volume;
    DecodeJoin(names, system, volume, '-');
    if '-' !in volume {
      SplitFree(volume, '-');
      LastIndexJoin(system, volume, '-');
    } else {
      LastTokenFree(s, '-');
      assert s[|system|] == '-';
      if LastIndex(s, '-') == -1 {
        LastIndexFinds(s, '-', |system|);
      }
    }
  }

  lemma {:induction false} LastTokenFree(s: string, sep: char)
    ensures sep !in LastToken(s, sep)
  {
    if s != [] {
      LastTokenFree(s[1..], sep);
      var rest := Split(s[1..], sep);
      if s[0] != sep && |rest| == 1 {
        assert LastToken(s, sep) == [s[0]] + rest[0];
      }
    }
  }

  lemma {:induction false} LastIndexFinds(s: string, sep: char, i: nat)
    requires i < |s| && s[i] == sep
    ensures LastIndex(s, sep) >= i
  {
    if s[|s| - 1] != sep {
      LastIndexFinds(s[..|s| - 1], sep, i);
    }
  }

  /** An NFS handle gives its parts back when neither contains a slash; dashes do not matter. */
  lemma NfsRoundTrip(names: Aliases, system: string, filesystem: string)
    requires '/' !in system && '/' !in filesystem
    ensures DecodeFilesystem(EncodeNfs(system, filesystem)) == filesystem
    ensures DecodeSystem(names, EncodeNfs(system, filesystem)) == ResolveSystem(names, system)
  {
    var s := EncodeNfs(system, filesystem);
    assert s == system + ['/'] + filesystem;
    assert s[|system|] == '/';
    DecodeJoin(names, system, filesystem, '/');
    SplitFree(filesystem, '/');
  }

  lemma JoinInjective(a: string, b: string, c: string, d: string, sep: char)
    requires sep !in b && sep !in d && a + [sep] + b == c + [sep] + d
    ensures a == c && b == d
  {
    LastIndexJoin(a, b, sep);
    LastIndexJoin(c, d, sep);
    var s := a + [sep] + b;
    assert s[..|a|] == a && s[|a| + 1..] == b;
    assert s[..|c|] == c && s[|c| + 1..] == d;
  }

  /** The slash tells the two kinds of handle apart, and a handle of either kind has one reading. */
  lemma HandlesNeverCollide(s1: string, v1: string, s2: string, v2: string, f1: string, f2: string)
    requires '/' !in s1 && '/' !in v1 && '-' !in v1 && '-' !in v2 && '/' !in f1 && '/' !in f2
    ensures EncodeBlock(s1, v1) != EncodeNfs(s2, f2)
    ensures EncodeBlock(s1, v1) == EncodeBlock(s2, v2) ==> s1 == s2 && v1 == v2
    ensures EncodeNfs(s1, f1) == EncodeNfs(s2, f2) ==> s1 == s2 && f1 == f2
  {
    assert EncodeNfs(s2, f2)[|s2|] == '/' && '/' in EncodeNfs(s2, f2) && '/' !in EncodeBlock(s1, v1);
    if EncodeBlock(s1, v1) == EncodeBlock(s2, v2) {
      JoinInjective(s1, v1, s2, v2, '-');
    }
    if EncodeNfs(s1, f1) == EncodeNfs(s2, f2) {
      JoinInjective(s1, f1, s2, f2, '/');
    }
  }

  /** A handle without a slash names no filesystem, and the empty handle names nothing. */
  lemma NoFilesystem(names: Aliases, handle: string)
    requires '/' !in handle
    ensures DecodeFilesystem(handle) == ""
    ensures DecodeVolume("") == "" && DecodeSystem(names, "") == ""
  {
  }
}
