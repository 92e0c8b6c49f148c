/**
 * Firmware bundles: which archives are accepted, and where their files end up
 * relative to the package directory.
 */
module Bundles {
  import opened Streams

  const MANIFEST := "update.fuf"

  datatype Bundle = Bundle(manifestName: string, target: string, files: seq<(string, Bytes)>)

  // ----- paths

  /** The components of a path, split at every slash. */
  function Split(s: string): (parts: seq<string>)
    ensures parts != []
  {
    if s == [] then [""]
    else
      var rest := Split(s[1..]);
      if s[0] == '/' then [""] + rest else [[s[0]] + rest[0]] + rest[1..]
  }

  lemma {:induction false} SplitJoined(a: string, b: string)
    ensures Split(a + "/" + b) == Split(a) + Split(b)
  {
    if a == [] {
      assert (a + "/" + b)[1..] == b;
    } else {
      assert (a + "/" + b)[1..] == a[1..] + "/" + b;
      SplitJoined(a[1..], b);
    }
  }

  /** The directory reached from `at`: empty and "." components stay, ".." goes up, others go down. */
  function Walk(at: seq<string>, parts: seq<string>): (r: seq<string>)
    decreases |parts|
  {
    if parts == [] then at
    else if parts[0] == "" || parts[0] == "." then Walk(at, parts[1..])
    else if parts[0] == ".." then Walk(if at == [] then [] else at[..|at| - 1], parts[1..])
    else Walk(at + [parts[0]], parts[1..])
  }

  lemma {:induction false} WalkJoined(at: seq<string>, a: seq<string>, b: seq<string>)
    ensures Walk(at, a + b) == Walk(Walk(at, a), b)
    decreases |a|
  {
    if a == [] {
      assert a + b == b;
    } else {
      assert (a + b)[1..] == a[1..] + b;
      var next := if a[0] == "" || a[0] == "." then at
                  else if a[0] == ".." then if at == [] then [] else at[..|at| - 1]
                  else at + [a[0]];
      WalkJoined(next, a[1..], b);
    }
  }

  lemma {:induction false} WalkOnlyDown(at: seq<string>, parts: seq<string>)
    requires ".." !in parts
    ensures at <= Walk(at, parts)
    decreases |parts|
  {
    if parts != [] {
      WalkOnlyDown(if parts[0] == "" || parts[0] == "." then at else at + [parts[0]], parts[1..]);
    }
  }

  /** `path` names something at or below directory `dir`. */
  predicate Below(dir: string, path: string)
  {
    Walk([], Split(dir)) <= Walk([], Split(path))
  }

  /** The path check of the archive reader. */
  predicate Safe(rel: string)
  {
    !("/" <= rel) && ".." !in Split(rel)
  }

  /** A path that passes the check cannot leave the directory it is put into. */
  lemma SafeStaysBelow(dir: string, rel: string)
    requires Safe(rel)
    ensures Below(dir, dir + "/" + rel)
  {
    SplitJoined(dir, rel);
    WalkJoined([], Split(dir), Split(rel));
    WalkOnlyDown(Walk([], Split(dir)), Split(rel));
  }

  // ----- archives

  datatype TarEntry = TarEntry(name: string, isFile: bool, content: Option<Bytes>)

  function FilesOf(entries: seq<TarEntry>): (r: seq<TarEntry>)
  {
    if entries == [] then []
    else (if entries[0].isFile then [entries[0]] else []) + FilesOf(entries[1..])
  }

  function RemovePrefix(s: string, prefix: string): (r: string)
  {
    if prefix <= s then s[|prefix|..] else s
  }

  /** The first file's top directory, which is removed from all names. */
  function TopDir(members: seq<TarEntry>): (r: string)
    requires members != []
  {
    Split(members[0].name)[0] + "/"
  }

  /** What a member contributes: nothing if it cannot be read. */
  function FileOf(member: TarEntry, prefix: string): (files: seq<(string, Bytes)>)
  {
    if member.content.None? then [] else [(RemovePrefix(member.name, prefix), member.content.value)]
  }

  /** The readable ones of the first `n` members, in order, under their relative names. */
  function Extracted(members: seq<TarEntry>, prefix: string, n: nat): (files: seq<(string, Bytes)>)
    requires n <= |members|
  {
    if n == 0 then [] else Extracted(members, prefix, n - 1) + FileOf(members[n - 1], prefix)
  }

  predicate SafeMember(member: TarEntry, prefix: string) { Safe(RemovePrefix(member.name, prefix)) }

  ghost predicate AllSafe(members: seq<TarEntry>, prefix: string)
  {
    forall i :: 0 <= i < |members| ==> SafeMember(members[i], prefix)
  }

  lemma {:induction false} ExtractedIsSafe(members: seq<TarEntry>, prefix: string, n: nat)
    requires n <= |members| && AllSafe(members, prefix)
    ensures forall i :: 0 <= i < |Extracted(members, prefix, n)| ==> Safe(Extracted(members, prefix, n)[i].0)
  {
    if n > 0 {
      ExtractedIsSafe(members, prefix, n - 1);
      assert SafeMember(members[n - 1], prefix);
    }
  }

  /** Reads one member, or refuses its name. */
  method ExtractOne(member: TarEntry, prefix: string) returns (r: Option<seq<(string, Bytes)>>)
    ensures r.Some? <==> SafeMember(member, prefix)
    ensures r.Some? ==> r.value == FileOf(member, prefix)
  {
    var rel := RemovePrefix(member.name, prefix);
    if "/" <= rel || ".." in Split(rel) {
      return None;
    }
    return Some(if member.content.None? then [] else [(rel, member.content.value)]);
  }

  /** The files of the first `n` members, or nothing if one of them is refused. */
  ghost function Extract(members: seq<TarEntry>, prefix: string, n: nat): (r: Option<seq<(string, Bytes)>>)
    requires n <= |members|
  {
    if n == 0 then Some([])
    else
      var r := Extract(members, prefix, n - 1);
      if r.Some? && SafeMember(members[n - 1], prefix) then Some(r.value + FileOf(members[n - 1], prefix)) else None
  }

  lemma {:induction false} ExtractIsAllOrNothing(members: seq<TarEntry>, prefix: string, n: nat)
    requires n <= |members|
    ensures Extract(members, prefix, n).Some? <==> forall i :: 0 <= i < n ==> SafeMember(members[i], prefix)
  {
    if n > 0 {
      ExtractIsAllOrNothing(members, prefix, n - 1);
    }
  }

  lemma {:induction false} ExtractIsExtracted(members: seq<TarEntry>, prefix: string, n: nat)
    requires n <= |members| && Extract(members, prefix, n).Some?
    ensures Extract(members, prefix, n).value == Extracted(members, prefix, n)
  {
    if n > 0 {
      ExtractIsExtracted(members, prefix, n - 1);
    }
  }

  lemma {:induction false} RefusedStaysRefused(members: seq<TarEntry>, prefix: string, i: nat, n: nat)
    requires i <= n <= |members| && Extract(members, prefix, i).None?
    ensures Extract(members, prefix, n).None?
    decreases n
  {
    if i < n {
      RefusedStaysRefused(members, prefix, i, n - 1);
    }
  }

  method ExtractAll(members: seq<TarEntry>, prefix: string) returns (r: Option<seq<(string, Bytes)>>)
    ensures r == Extract(members, prefix, |members|)
  {
    var files := [];
    for i := 0 to |members|
      invariant Extract(members, prefix, i) == Some(files)
    {
      var file := ExtractOne(members[i], prefix);
      if file.None? {
        RefusedStaysRefused(members, prefix, i + 1, |members|);
        return None;
      }
      files := files + file.value;
    }
    return Some(files);
  }

  /** An archive is read exactly if it has files and all their names are safe; one bad name refuses all. */
  method MembersFromTar(entries: seq<TarEntry>) returns (r: Option<seq<(string, Bytes)>>)
    ensures var members := FilesOf(entries);
            && (r.Some? <==> members != [] && AllSafe(members, TopDir(members)))
            && (r.Some? ==> r.value == Extracted(members, TopDir(members), |members|))
    ensures r.Some? ==> forall i :: 0 <= i < |r.value| ==> Safe(r.value[i].0)
  {
    var members := FilesOf(entries);
    if members == [] {
      return None;
    }
    r := ExtractAll(members, TopDir(members));
    ExtractIsAllOrNothing(members, TopDir(members), |members|);
    if r.Some? {
      ExtractIsExtracted(members, TopDir(members), |members|);
      ExtractedIsSafe(members, TopDir(members), |members|);
    }
  }

  ghost predicate HasManifest(files: seq<(string, Bytes)>)
  {
    exists i :: 0 <= i < |files| && files[i].0 == MANIFEST
  }

  /** A bundle is built exactly from files that include the manifest. */
  method BuildBundle(files: seq<(string, Bytes)>, target: string) returns (r: Option<Bundle>)
    ensures r.Some? <==> HasManifest(files)
    ensures r.Some? ==> r.value == Bundle(MANIFEST, target, files)
  {
    for i := 0 to |files|
      invariant forall j :: 0 <= j < i ==> files[j].0 != MANIFEST
    {
      if files[i].0 == MANIFEST {
        return Some(Bundle(MANIFEST, target, files));
      }
    }
    return None;
  }

  /** A bundle that can be installed: it has its manifest, and no file can leave the package directory. */
  ghost predicate Sound(bundle: Bundle)
  {
    && bundle.manifestName == MANIFEST && HasManifest(bundle.files)
    && forall i :: 0 <= i < |bundle.files| ==> Safe(bundle.files[i].0)
  }

  /** Whatever the archive, a bundle that comes out of it is sound. */
  method LoadBundle(entries: seq<TarEntry>, target: string) returns (r: Option<Bundle>)
    ensures r.Some? ==> Sound(r.value) && r.value.target == target
    ensures var members := FilesOf(entries);
            r.Some? <==> && members != [] && AllSafe(members, TopDir(members))
                         && HasManifest(Extracted(members, TopDir(members), |members|))
  {
    var files := MembersFromTar(entries);
    if files.None? {
      return None;
    }
    r := BuildBundle(files.value, target);
  }

  /** Exactly the regular files of an archive are members. */
  lemma {:induction false} MembersAreFiles(entries: seq<TarEntry>)
    ensures forall e :: e in FilesOf(entries) <==> e in entries && e.isFile
  {
    if entries != [] {
      MembersAreFiles(entries[1..]);
      assert entries == [entries[0]] + entries[1..];
    }
  }

  // ----- the usual archive

  /** An archive of readable files in one top directory. */
  function Archive(top: string, files: seq<(string, Bytes)>): (entries: seq<TarEntry>)
    ensures |entries| == |files|
  {
    if files == [] then []
    else [TarEntry(top + "/" + files[0].0, true, Some(files[0].1))] + Archive(top, files[1..])
  }

  lemma {:induction false} ArchiveEntry(top: string, files: seq<(string, Bytes)>, i: nat)
    requires i < |files|
    ensures Archive(top, files)[i] == TarEntry(top + "/" + files[i].0, true, Some(files[i].1))
  {
    if i > 0 {
      ArchiveEntry(top, files[1..], i - 1);
    }
  }

  lemma {:induction false} ArchiveFiles(top: string, files: seq<(string, Bytes)>)
    ensures FilesOf(Archive(top, files)) == Archive(top, files)
  {
    if files != [] {
      ArchiveFiles(top, files[1..]);
      assert Archive(top, files)[1..] == Archive(top, files[1..]);
    }
  }

  lemma {:induction false} TopComponent(top: string, rel: string)
    requires '/' !in top
    ensures Split(top + "/" + rel)[0] == top
  {
    if top == [] {
      assert (top + "/" + rel)[0] == '/';
    } else {
      assert (top + "/" + rel)[1..] == top[1..] + "/" + rel;
      TopComponent(top[1..], rel);
    }
  }

  lemma {:induction false} ArchiveExtracted(top: string, files: seq<(string, Bytes)>, n: nat)
    requires n <= |files|
    ensures Extracted(Archive(top, files), top + "/", n) == files[..n]
  {
    if n > 0 {
      ArchiveExtracted(top, files, n - 1);
      ArchiveEntry(top, files, n - 1);
      var name := top + "/" + files[n - 1].0;
      assert top + "/" <= name && name[|top + "/"|..] == files[n - 1].0;
    }
  }

  /** Loading such an archive gives back exactly its files, under their names below the top directory. */
  lemma ArchiveRoundTrip(top: string, files: seq<(string, Bytes)>)
    requires '/' !in top && files != []
    ensures var members := FilesOf(Archive(top, files));
            && members != [] && TopDir(members) == top + "/"
            && Extracted(members, TopDir(members), |members|) == files
  {
    ArchiveFiles(top, files);
    ArchiveEntry(top, files, 0);
    TopComponent(top, files[0].0);
    ArchiveExtracted(top, files, |files|);
    assert files[..|files|] == files;
  }

  /** And it is refused exactly if one of these names is not safe. */
  lemma ArchiveSafeIff(top: string, files: seq<(string, Bytes)>)
    ensures AllSafe(Archive(top, files), top + "/") <==> forall i :: 0 <= i < |files| ==> Safe(files[i].0)
  {
    forall i | 0 <= i < |files|
      ensures SafeMember(Archive(top, files)[i], top + "/") <==> Safe(files[i].0)
    {
      ArchiveEntry(top, files, i);
      var name := top + "/" + files[i].0;
      assert top + "/" <= name && name[|top + "/"|..] == files[i].0;
    }
  }
}
