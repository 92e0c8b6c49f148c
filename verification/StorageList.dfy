/** Streamed directory listings: complete or not at all. */
module StorageList {
  import opened Streams

  const MAX_CONTINUATIONS := 100

  datatype FileEntry = FileEntry(name: string, isDir: bool, size: nat, md5sum: string)

  /** One response frame; `files` is None if the frame holds no listing. */
  datatype Response = Response(ok: bool, hasNext: bool, files: Option<seq<FileEntry>>)

  datatype Item = Item(name: string, isDir: bool, size: nat, md5sum: Option<string>)

  datatype Listing<+T> = Listed(items: seq<T>) | TimedOut | ProtocolError

  /** What the device answers, in order; a frame that never arrives is None. */
  type Stream = seq<Option<Response>>

  function At(s: Stream, i: nat): (r: Option<Response>) { if i < |s| then s[i] else None }

  predicate OkAt(s: Stream, i: nat) { At(s, i).Some? && At(s, i).value.ok }

  predicate Continues(s: Stream, i: nat) { OkAt(s, i) && At(s, i).value.hasNext }

  /** The first `k` frames arrived, are OK and announce a successor. */
  ghost predicate Flowing(s: Stream, k: nat)
  {
    forall i :: 0 <= i < k ==> At(s, i).Some? && Continues(s, i)
  }

  /** The first frame that does not lead on to another one, or the first beyond the ceiling. */
  ghost predicate Stops(s: Stream, k: nat)
  {
    k <= MAX_CONTINUATIONS + 1 && Flowing(s, k) && (k == MAX_CONTINUATIONS + 1 || !Continues(s, k))
  }

  lemma StopUnique(s: Stream, j: nat, k: nat)
    requires Stops(s, j) && Stops(s, k)
    ensures j == k
  {
    assert j < k ==> Continues(s, j);
    assert k < j ==> Continues(s, k);
  }

  /** Frame `k` is the last one of a listing that stayed within the frame ceiling. */
  ghost predicate Ends(s: Stream, k: nat)
  {
    k <= 100 && Flowing(s, k) && OkAt(s, k) && !At(s, k).value.hasNext
  }

  /** Frame `k` was announced, or is the first one, and never arrives. */
  ghost predicate Breaks(s: Stream, k: nat)
  {
    k <= 100 && Flowing(s, k) && At(s, k).None?
  }

  /** Where a stream stops decides whether it ends, breaks or neither. */
  lemma StopDecides(s: Stream, k: nat)
    requires Stops(s, k)
    ensures forall j: nat :: Ends(s, j) || Breaks(s, j) ==> j == k
  {
    forall j: nat | Ends(s, j) || Breaks(s, j)
      ensures j == k
    {
      StopUnique(s, j, k);
    }
  }

  function Prefix(s: Stream, k: nat): (r: seq<Response>)
    requires forall i :: 0 <= i < k ==> At(s, i).Some?
    ensures |r| == k
  {
    seq(k, i requires 0 <= i < k => At(s, i).value)
  }

  /** The generator's loop: the frames it yields and how it ended. */
  method Frames(s: Stream) returns (frames: seq<Response>, end: Listing<Response>)
    ensures end.Listed? <==> exists k: nat :: Ends(s, k)
    ensures end.TimedOut? <==> exists k: nat :: Breaks(s, k)
    ensures end.Listed? ==> frames != [] && Ends(s, |frames| - 1) && frames == Prefix(s, |frames|)
  {
    frames := [];
    while true
      invariant |frames| <= MAX_CONTINUATIONS + 1
      invariant Flowing(s, |frames|) && frames == Prefix(s, |frames|)
      decreases MAX_CONTINUATIONS + 1 - |frames|
    {
      var k := |frames|;
      if k > MAX_CONTINUATIONS {
        StopDecides(s, k);
        return frames, ProtocolError;
      }
      var response := At(s, k);
      if response.None? {
        StopDecides(s, k);
        assert Breaks(s, k);
        return frames, TimedOut;
      }
      if !response.value.ok {
        StopDecides(s, k);
        return frames, ProtocolError;
      }
      frames := frames + [response.value];
      if !response.value.hasNext {
        StopDecides(s, k);
        assert Ends(s, k);
        return frames, Listed(frames);
      }
    }
  }

  // ----- the two collectors

  function Named(files: seq<FileEntry>): (r: seq<string>)
  {
    if files == [] then []
    else (if files[0].name != "" then [files[0].name] else []) + Named(files[1..])
  }

  function Names(frames: seq<Response>): (r: seq<string>)
  {
    if frames == [] then []
    else NamesIn(frames[0]) + Names(frames[1..])
  }

  function ToItem(f: FileEntry, includeMd5: bool): (r: Item)
  {
    Item(f.name, f.isDir, f.size, if includeMd5 && f.md5sum != "" then Some(f.md5sum) else None)
  }

  function Detailed(files: seq<FileEntry>, includeMd5: bool): (r: seq<Item>)
  {
    if files == [] then []
    else (if files[0].name != "" then [ToItem(files[0], includeMd5)] else []) + Detailed(files[1..], includeMd5)
  }

  function Details(frames: seq<Response>, includeMd5: bool): (r: seq<Item>)
  {
    if frames == [] then []
    else DetailsIn(frames[0], includeMd5) + Details(frames[1..], includeMd5)
  }

  function NamesIn(f: Response): (r: seq<string>) { if f.files.Some? then Named(f.files.value) else [] }

  function DetailsIn(f: Response, includeMd5: bool): (r: seq<Item>)
  {
    if f.files.Some? then Detailed(f.files.value, includeMd5) else []
  }

  lemma {:induction false} NamesSnoc(frames: seq<Response>, f: Response)
    ensures Names(frames + [f]) == Names(frames) + NamesIn(f)
  {
    if frames == [] {
      assert frames + [f] == [f] && [f][1..] == [];
    } else {
      assert (frames + [f])[1..] == frames[1..] + [f];
      NamesSnoc(frames[1..], f);
      Assoc(NamesIn(frames[0]), Names(frames[1..]), NamesIn(f));
    }
  }

  lemma {:induction false} DetailsSnoc(frames: seq<Response>, f: Response, includeMd5: bool)
    ensures Details(frames + [f], includeMd5) == Details(frames, includeMd5) + DetailsIn(f, includeMd5)
  {
    if frames == [] {
      assert frames + [f] == [f] && [f][1..] == [];
    } else {
      assert (frames + [f])[1..] == frames[1..] + [f];
      DetailsSnoc(frames[1..], f, includeMd5);
      Assoc(DetailsIn(frames[0], includeMd5), Details(frames[1..], includeMd5), DetailsIn(f, includeMd5));
    }
  }

  method CollectNames(frames: seq<Response>) returns (names: seq<string>)
    ensures names == Names(frames)
  {
    names := [];
    for i := 0 to |frames|
      invariant names == Names(frames[..i])
    {
      assert frames[..i + 1] == frames[..i] + [frames[i]];
      NamesSnoc(frames[..i], frames[i]);
      if frames[i].files.Some? {
        names := names + Named(frames[i].files.value);
      }
    }
    assert frames[..|frames|] == frames;
  }

  method CollectDetails(frames: seq<Response>, includeMd5: bool) returns (entries: seq<Item>)
    ensures entries == Details(frames, includeMd5)
  {
    entries := [];
    for i := 0 to |frames|
      invariant entries == Details(frames[..i], includeMd5)
    {
      assert frames[..i + 1] == frames[..i] + [frames[i]];
      DetailsSnoc(frames[..i], frames[i], includeMd5);
      if frames[i].files.Some? {
        entries := entries + Detailed(frames[i].files.value, includeMd5);
      }
    }
    assert frames[..|frames|] == frames;
  }

  /**
   * Returns every non-empty name in order if and only if the listing is
   * complete; otherwise it raises, a timeout if and only if a frame is missing.
   */
  method StorageList(s: Stream) returns (r: Listing<string>)
    ensures r.Listed? <==> exists k: nat :: Ends(s, k)
    ensures r.TimedOut? <==> exists k: nat :: Breaks(s, k)
    ensures forall k: nat :: Ends(s, k) ==> r == Listed(Names(Prefix(s, k + 1)))
  {
    var frames, end := Frames(s);
    if !end.Listed? {
      return if end.TimedOut? then TimedOut else ProtocolError;
    }
    StopDecides(s, |frames| - 1);
    var names := CollectNames(frames);
    return Listed(names);
  }

  method StorageListDetailed(s: Stream, includeMd5: bool) returns (r: Listing<Item>)
    ensures r.Listed? <==> exists k: nat :: Ends(s, k)
    ensures r.TimedOut? <==> exists k: nat :: Breaks(s, k)
    ensures forall k: nat :: Ends(s, k) ==> r == Listed(Details(Prefix(s, k + 1), includeMd5))
  {
    var frames, end := Frames(s);
    if !end.Listed? {
      return if end.TimedOut? then TimedOut else ProtocolError;
    }
    StopDecides(s, |frames| - 1);
    var entries := CollectDetails(frames, includeMd5);
    return Listed(entries);
  }

  // ----- the two agree

  function NamesOf(items: seq<Item>): (r: seq<string>)
  {
    if items == [] then [] else [items[0].name] + NamesOf(items[1..])
  }

  lemma {:induction false} NamesOfSplit(a: seq<Item>, b: seq<Item>)
    ensures NamesOf(a + b) == NamesOf(a) + NamesOf(b)
  {
    if a == [] {
      assert a + b == b;
    } else {
      assert (a + b)[1..] == a[1..] + b;
      NamesOfSplit(a[1..], b);
    }
  }

  lemma {:induction false} NamedIsProjection(files: seq<FileEntry>, includeMd5: bool)
    ensures NamesOf(Detailed(files, includeMd5)) == Named(files)
  {
    if files != [] {
      NamedIsProjection(files[1..], includeMd5);
      if files[0].name != "" {
        var item := ToItem(files[0], includeMd5);
        NamesOfSplit([item], Detailed(files[1..], includeMd5));
        assert NamesOf([item]) == [item.name] + NamesOf([]);
      } else {
        assert Detailed(files, includeMd5) == Detailed(files[1..], includeMd5);
      }
    }
  }

  /** On the same frames, the plain listing is the list of names of the detailed one. */
  lemma {:induction false} ListIsProjection(frames: seq<Response>, includeMd5: bool)
    ensures NamesOf(Details(frames, includeMd5)) == Names(frames)
  {
    if frames != [] {
      NamesOfSplit(DetailsIn(frames[0], includeMd5), Details(frames[1..], includeMd5));
      ListIsProjection(frames[1..], includeMd5);
      if frames[0].files.Some? {
        NamedIsProjection(frames[0].files.value, includeMd5);
      }
    }
  }

  // ----- entry by entry

  /** All files of a listing in order. */
  function FilesOf(frames: seq<Response>): (r: seq<FileEntry>)
  {
    if frames == [] then []
    else (if frames[0].files.Some? then frames[0].files.value else []) + FilesOf(frames[1..])
  }

  /** The files that have a name, in order. */
  function WithName(files: seq<FileEntry>): (r: seq<FileEntry>)
  {
    if files == [] then [] else (if files[0].name == "" then [] else [files[0]]) + WithName(files[1..])
  }

  lemma {:induction false} WithNameSplit(a: seq<FileEntry>, b: seq<FileEntry>)
    ensures WithName(a + b) == WithName(a) + WithName(b)
  {
    if a == [] {
      assert a + b == b;
    } else {
      assert (a + b)[1..] == a[1..] + b;
      WithNameSplit(a[1..], b);
    }
  }

  /** Exactly the named files are kept: none without a name, and all if every file has one. */
  lemma {:induction false} WithNameKeeps(files: seq<FileEntry>)
    ensures forall f :: f in WithName(files) <==> f in files && f.name != ""
    ensures (forall f :: f in files ==> f.name != "") ==> WithName(files) == files
  {
    if files != [] {
      WithNameKeeps(files[1..]);
      assert files == [files[0]] + files[1..];
    }
  }

  /** The item tells the file's name, type and size, and its digest exactly if asked for and known. */
  ghost predicate Tells(item: Item, f: FileEntry, includeMd5: bool)
  {
    && item.name == f.name && item.isDir == f.isDir && item.size == f.size
    && (item.md5sum.Some? <==> includeMd5 && f.md5sum != "")
    && (item.md5sum.Some? ==> item.md5sum.value == f.md5sum)
  }

  ghost predicate TellsAll(items: seq<Item>, files: seq<FileEntry>, includeMd5: bool)
  {
    |items| == |files| && forall i :: 0 <= i < |items| ==> Tells(items[i], files[i], includeMd5)
  }

  lemma TellsJoin(a: seq<Item>, b: seq<Item>, x: seq<FileEntry>, y: seq<FileEntry>, includeMd5: bool)
    requires TellsAll(a, x, includeMd5) && TellsAll(b, y, includeMd5)
    ensures TellsAll(a + b, x + y, includeMd5)
  {
  }

  lemma {:induction false} DetailedTells(files: seq<FileEntry>, includeMd5: bool)
    ensures TellsAll(Detailed(files, includeMd5), WithName(files), includeMd5)
  {
    if files != [] {
      DetailedTells(files[1..], includeMd5);
      if files[0].name != "" {
        TellsJoin([ToItem(files[0], includeMd5)], Detailed(files[1..], includeMd5),
                  [files[0]], WithName(files[1..]), includeMd5);
      } else {
        assert Detailed(files, includeMd5) == Detailed(files[1..], includeMd5);
        assert WithName(files) == WithName(files[1..]);
      }
    }
  }

  /** The detailed listing has one item for every named file of the frames, in order, that tells all about it. */
  lemma {:induction false} DetailsTell(frames: seq<Response>, includeMd5: bool)
    ensures TellsAll(Details(frames, includeMd5), WithName(FilesOf(frames)), includeMd5)
  {
    if frames != [] {
      var files := if frames[0].files.Some? then frames[0].files.value else [];
      DetailedTells(files, includeMd5);
      DetailsTell(frames[1..], includeMd5);
      WithNameSplit(files, FilesOf(frames[1..]));
      TellsJoin(DetailsIn(frames[0], includeMd5), Details(frames[1..], includeMd5),
                WithName(files), WithName(FilesOf(frames[1..])), includeMd5);
    }
  }
}
