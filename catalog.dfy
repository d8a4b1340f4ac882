/**
 * The catalog state machine of the upload page: the `files` listing and the
 * `imageflag` field, together with the managed folder `my_media` they mirror.
 * The File plugin is modelled by the state it exposes (`Disk`), and the
 * outcome of each plugin call the code cannot see is a boolean parameter.
 * Each function here is the new page state after one operation; the class in
 * module Upload is proved to produce exactly these states.
 */
module Catalog {
  import opened Strings
  import opened Naming
  import VideoGate

  datatype Option<T> = None | Some(value: T)

  /** A listed file: its name and the URL the plugin resolves it to. */
  datatype FileEntry = FileEntry(name: string, nativeURL: string)

  /** The private data directory, whether `my_media` exists under it, and the names it holds in
      listing order. */
  datatype Disk = Disk(dataDirectory: string, folderExists: bool, media: seq<string>)

  /** The URL prefix of every file in the managed folder. */
  function FolderURL(dataDirectory: string): string {
    CopyTo(dataDirectory) + "/"
  }

  predicate Distinct(names: seq<string>) {
    forall i, j :: 0 <= i < j < |names| ==> names[i] != names[j]
  }

  lemma DistinctCons(a: string, s: seq<string>)
    ensures Distinct([a] + s) <==> a !in s && Distinct(s)
  {
    if a !in s && Distinct(s) {
      forall i, j | 0 <= i < j < |[a] + s| ensures ([a] + s)[i] != ([a] + s)[j] {
        if i > 0 { assert ([a] + s)[i] == s[i - 1]; }
        assert ([a] + s)[j] == s[j - 1];
      }
    }
    if Distinct([a] + s) {
      forall i, j | 0 <= i < j < |s| ensures s[i] != s[j] {
        assert s[i] == ([a] + s)[i + 1] && s[j] == ([a] + s)[j + 1];
      }
      forall k | 0 <= k < |s| ensures s[k] != a {
        assert ([a] + s)[0] == a && ([a] + s)[k + 1] == s[k];
      }
    }
  }

  /** The folder holds plain file names, each at most once, and nothing while it is absent. */
  predicate Wellformed(d: Disk) {
    && (!d.folderExists ==> d.media == [])
    && Distinct(d.media)
    && (forall n :: n in d.media ==> '/' !in n)
  }

  /** The entries `listDir` reports for the managed folder. */
  function Listing(d: Disk): seq<FileEntry> {
    seq(|d.media|, i requires 0 <= i < |d.media| => FileEntry(d.media[i], FolderURL(d.dataDirectory) + d.media[i]))
  }

  function Names(files: seq<FileEntry>): seq<string> {
    seq(|files|, i requires 0 <= i < |files| => files[i].name)
  }

  /** `listDir(dataDirectory, 'my_media')`: the listing, or a failure when the folder is absent. */
  function ListDir(d: Disk): Option<seq<FileEntry>> {
    if d.folderExists then Some(Listing(d)) else None
  }

  /** The assumed behaviour of the plugin's `copyFile`, which the page does not show: it lands a
      file only when the plugin reports success (`ok`), the managed folder exists and is the target,
      the new name is a plain file name, and no file of that name is there yet. Refusing to overwrite
      is an assumption of this model. The source directory and name are not checked. */
  predicate CopySucceeds(d: Disk, req: CopyRequest, ok: bool) {
    ok && d.folderExists && req.copyTo == CopyTo(d.dataDirectory) && '/' !in req.newName && req.newName !in d.media
  }

  /** The plugin's `removeFile` removes a file of the managed folder when the plugin reports success
      and the file is there. */
  predicate RemoveSucceeds(d: Disk, path: string, name: string, ok: bool) {
    ok && d.folderExists && path == FolderURL(d.dataDirectory) && name in d.media
  }

  /** `names` without `x`, order kept. */
  function Remove(names: seq<string>, x: string): (r: seq<string>)
    ensures x !in r
    ensures forall y :: y != x ==> (y in r <==> y in names)
    ensures x !in names ==> r == names
    ensures Distinct(names) ==> Distinct(r) && (x in names ==> |r| == |names| - 1)
  {
    if |names| == 0 then []
    else
      var rest := Remove(names[1..], x);
      assert names == [names[0]] + names[1..];
      DistinctCons(names[0], names[1..]);
      DistinctCons(names[0], rest);
      if names[0] == x then rest else [names[0]] + rest
  }

  /** The state the page keeps: the fields `files` and `imageflag`, and the folder behind `file`. */
  datatype PageState = PageState(files: seq<FileEntry>, imageflag: bool, disk: Disk)

  /** `loadFiles`: replace `files` by a full listing; keep it when listing fails. */
  function LoadFiles(p: PageState): PageState {
    match ListDir(p.disk)
    case Some(listing) => p.(files := listing)
    case None => p
  }

  /** The success and failure callbacks of the copy issued by `copyFileToLocalDir`. */
  function CompleteCopy(p: PageState, req: CopyRequest, ok: bool): (q: PageState)
    requires Wellformed(p.disk)
    ensures Wellformed(q.disk)
  {
    if CopySucceeds(p.disk, req, ok) then
      var disk := p.disk.(media := p.disk.media + [req.newName]);
      LoadFiles(p.(disk := disk)).(imageflag := false)
    else
      p
  }

  /** `copyFileToLocalDir(fullPath)` with `Date.now()` equal to `now`, once its copy has settled. */
  function CopyFileToLocalDir(p: PageState, fullPath: string, now: nat, ok: bool): (q: PageState)
    requires Wellformed(p.disk)
    ensures Wellformed(q.disk)
  {
    CompleteCopy(p, CopyPlan(p.disk.dataDirectory, fullPath, now), ok)
  }

  /** `deleteFile(f)`: remove `f.name` from the directory part of `f.nativeURL`, re-list on success. */
  function DeleteFile(p: PageState, f: FileEntry, ok: bool): (q: PageState)
    requires Wellformed(p.disk)
    ensures Wellformed(q.disk)
  {
    var path := DirPart(f.nativeURL);
    if RemoveSucceeds(p.disk, path, f.name, ok) then
      LoadFiles(p.(disk := p.disk.(media := Remove(p.disk.media, f.name))))
    else
      p
  }

  /** The copies `selectMultiple` issues, one per picked result, in array order. */
  function Plans(dataDirectory: string, results: seq<string>, stamps: seq<nat>): (reqs: seq<CopyRequest>)
    requires |results| == |stamps|
    ensures |reqs| == |results|
  {
    seq(|results|, k requires 0 <= k < |results| => CopyPlan(dataDirectory, results[k], stamps[k]))
  }

  /** Issuing one more copy of a batch extends the issued prefix. */
  lemma PlansStep(dataDirectory: string, results: seq<string>, stamps: seq<nat>, i: nat)
    requires |results| == |stamps| && i < |results|
    ensures Plans(dataDirectory, results[..i + 1], stamps[..i + 1])
         == Plans(dataDirectory, results[..i], stamps[..i]) + [CopyPlan(dataDirectory, results[i], stamps[i])]
  {
    var longer := Plans(dataDirectory, results[..i + 1], stamps[..i + 1]);
    var extended := Plans(dataDirectory, results[..i], stamps[..i]) + [CopyPlan(dataDirectory, results[i], stamps[i])];
    forall k | 0 <= k <= i
      ensures longer[k] == extended[k]
    {
      assert results[..i + 1][k] == results[k] && stamps[..i + 1][k] == stamps[k];
      if k < i {
        assert results[..i][k] == results[k] && stamps[..i][k] == stamps[k];
      }
    }
  }

  /** The copies of a batch settling in order. */
  function CompleteAll(p: PageState, reqs: seq<CopyRequest>, oks: seq<bool>): (q: PageState)
    requires |reqs| == |oks| && Wellformed(p.disk)
    ensures Wellformed(q.disk)
    decreases |reqs|
  {
    if |reqs| == 0 then p
    else
      var n := |reqs| - 1;
      CompleteCopy(CompleteAll(p, reqs[..n], oks[..n]), reqs[n], oks[n])
  }

  /** Settling one more copy of a batch extends the settled prefix. */
  lemma CompleteAllStep(p: PageState, reqs: seq<CopyRequest>, oks: seq<bool>, i: nat)
    requires |reqs| == |oks| && Wellformed(p.disk) && i < |reqs|
    ensures CompleteAll(p, reqs[..i + 1], oks[..i + 1])
         == CompleteCopy(CompleteAll(p, reqs[..i], oks[..i]), reqs[i], oks[i])
  {
    assert reqs[..i + 1][..i] == reqs[..i] && oks[..i + 1][..i] == oks[..i];
  }

  /** `selectMultiple`: raise `imageflag`, then copy every picked result. A picker failure is the
      empty batch. */
  function SelectMultiple(p: PageState, results: seq<string>, stamps: seq<nat>, oks: seq<bool>): (q: PageState)
    requires |results| == |stamps| == |oks| && Wellformed(p.disk)
    ensures Wellformed(q.disk)
  {
    CompleteAll(p.(imageflag := true), Plans(p.disk.dataDirectory, results, stamps), oks)
  }

  /** `ngOnInit`: list the folder when it exists, otherwise create it (non-recursively, with
      outcome `createOk`). */
  function NgOnInit(p: PageState, createOk: bool): (q: PageState)
    requires Wellformed(p.disk)
    ensures Wellformed(q.disk)
  {
    if p.disk.folderExists then LoadFiles(p)
    else p.(disk := p.disk.(folderExists := createOk, media := []))
  }

  /** `pickVideo` once the picked file's metadata is known. */
  function PickVideo(p: PageState, videoUrl: string, meta: VideoGate.Metadata, now: nat, ok: bool): (q: PageState)
    requires Wellformed(p.disk)
    ensures Wellformed(q.disk)
  {
    if VideoGate.Decide(meta).copy then CopyFileToLocalDir(p, PickedVideoPaths(videoUrl).path, now, ok)
    else p
  }

  // ---------------------------------------------------------------------------
  // Properties of the state machine

  /** Listing the folder reports its names in order. */
  lemma ListingNames(d: Disk)
    ensures Names(Listing(d)) == d.media
  {
  }

  /** Re-listing twice with no change in between gives the same snapshot as re-listing once. */
  lemma LoadFilesIdempotent(p: PageState)
    ensures LoadFiles(LoadFiles(p)) == LoadFiles(p)
  {
  }

  /** A digit string and `.` hold no `/`, so the destination name is a plain file name exactly when
      the extension is. */
  lemma NewNameLeaf(d: nat, ext: string)
    ensures '/' in NewName(d, ext) <==> '/' in ext
  {
    var digits := NumberToString(d);
    assert NewName(d, ext) == (digits + ".") + ext;
    if '/' in NewName(d, ext) {
      var k :| 0 <= k < |NewName(d, ext)| && NewName(d, ext)[k] == '/';
      if k > |digits| {
        assert ext[k - |digits| - 1] == '/';
      }
    }
  }

  /** A copy succeeds when the plugin reports success, the folder exists, the source's extension is
      a plain name and the timestamped name is new. Then the folder gains exactly that name at the
      end, `files` is the fresh listing and `imageflag` drops; otherwise nothing changes. The
      folder only ever grows: the source is never removed. */
  lemma CopyOutcome(p: PageState, fullPath: string, now: nat, ok: bool)
    requires Wellformed(p.disk)
    ensures var req := CopyPlan(p.disk.dataDirectory, fullPath, now);
            var ext := Ext(EnsureFileScheme(fullPath));
            var q := CopyFileToLocalDir(p, fullPath, now, ok);
            && (CopySucceeds(p.disk, req, ok)
                <==> ok && p.disk.folderExists && '/' !in ext && req.newName !in p.disk.media)
            && (CopySucceeds(p.disk, req, ok) ==>
                  && q.disk.media == p.disk.media + [NumberToString(now) + "." + ext]
                  && q.files == Listing(q.disk)
                  && |q.files| == |p.disk.media| + 1
                  && Ext(q.files[|q.files| - 1].name) == ext
                  && !q.imageflag)
            && (!CopySucceeds(p.disk, req, ok) ==> q == p)
            && p.disk.media <= q.disk.media
            && q.disk.dataDirectory == p.disk.dataDirectory && q.disk.folderExists == p.disk.folderExists
  {
    var req := CopyPlan(p.disk.dataDirectory, fullPath, now);
    var ext := Ext(EnsureFileScheme(fullPath));
    CopyPlanFacts(p.disk.dataDirectory, fullPath, now);
    NewNameLeaf(now, ext);
    NewNameRoundTrip(now, ext);
  }

  /** Deleting succeeds when the plugin reports success and the entry's directory is the managed
      folder holding its name. Then `files` is the fresh listing without that name and with every
      other name kept; otherwise nothing changes. */
  lemma DeleteOutcome(p: PageState, f: FileEntry, ok: bool)
    requires Wellformed(p.disk)
    ensures var q := DeleteFile(p, f, ok);
            && (RemoveSucceeds(p.disk, DirPart(f.nativeURL), f.name, ok) ==>
                  && q.files == Listing(q.disk)
                  && f.name !in Names(q.files)
                  && |q.files| == |p.disk.media| - 1
                  && (forall y :: y != f.name ==> (y in Names(q.files) <==> y in p.disk.media))
                  && q.imageflag == p.imageflag)
            && (!RemoveSucceeds(p.disk, DirPart(f.nativeURL), f.name, ok) ==> q == p)
  {
    var q := DeleteFile(p, f, ok);
    ListingNames(q.disk);
  }

  /** Every entry the catalog lists resolves back to the managed folder and its own name, so
      deleting it succeeds whenever the plugin does. */
  lemma DeleteListedEntry(d: Disk, i: nat, ok: bool)
    requires Wellformed(d) && i < |d.media| && ok
    ensures var f := Listing(d)[i];
            RemoveSucceeds(d, DirPart(f.nativeURL), f.name, ok)
  {
    var dir, name := FolderURL(d.dataDirectory), d.media[i];
    assert name in d.media;
    LastIndexOfConcat(dir, name, '/');
    LastIndexOfUnique(name, '/', -1);
    LastIndexOfUnique(dir, '/', |dir| - 1);
    assert (dir + name)[..|dir|] == dir;
  }

  /** A batch only adds names, at most one per picked result and each the destination name of one
      of its copies; `imageflag` stays raised exactly when nothing landed, and once something
      landed `files` is the fresh listing. */
  lemma {:induction false} BatchOutcome(p: PageState, reqs: seq<CopyRequest>, oks: seq<bool>)
    requires |reqs| == |oks| && Wellformed(p.disk)
    ensures var q := CompleteAll(p, reqs, oks);
            && p.disk.media <= q.disk.media
            && |q.disk.media| <= |p.disk.media| + |reqs|
            && (forall j :: |p.disk.media| <= j < |q.disk.media| ==>
                  exists k :: 0 <= k < |reqs| && q.disk.media[j] == reqs[k].newName)
            && (q.disk.media == p.disk.media ==> q == p)
            && (q.disk.media != p.disk.media ==> q.files == Listing(q.disk) && !q.imageflag)
            && q.disk.dataDirectory == p.disk.dataDirectory
    decreases |reqs|
  {
    if |reqs| > 0 {
      var n := |reqs| - 1;
      BatchOutcome(p, reqs[..n], oks[..n]);
      var mid := CompleteAll(p, reqs[..n], oks[..n]);
      var q := CompleteCopy(mid, reqs[n], oks[n]);
      forall j | |p.disk.media| <= j < |q.disk.media|
        ensures exists k :: 0 <= k < |reqs| && q.disk.media[j] == reqs[k].newName
      {
        if j < |mid.disk.media| {
          var k :| 0 <= k < n && mid.disk.media[j] == reqs[..n][k].newName;
          assert reqs[k] == reqs[..n][k];
        } else {
          assert q.disk.media[j] == reqs[n].newName;
        }
      }
    }
  }

  /** Two pictures with the same extension copied within the same millisecond get the same
      destination name, so at most one of them lands. */
  lemma SameMillisecondCollision(p: PageState, results: seq<string>, stamps: seq<nat>, oks: seq<bool>)
    requires Wellformed(p.disk) && |results| == |stamps| == |oks| == 2
    requires stamps[0] == stamps[1]
    requires Ext(EnsureFileScheme(results[0])) == Ext(EnsureFileScheme(results[1]))
    ensures |SelectMultiple(p, results, stamps, oks).disk.media| <= |p.disk.media| + 1
  {
    var dd := p.disk.dataDirectory;
    CopyPlanName(dd, dd, results[0], results[1], stamps[0]);
    CollidingPair(p.(imageflag := true), Plans(dd, results, stamps), oks);
  }

  /** The destination name depends only on the timestamp and the source's extension: two sources
      with the same extension copied at the same time get the same name, whatever their
      directories and whatever data directory they are copied into. */
  lemma CopyPlanName(dataDirectory1: string, dataDirectory2: string, a: string, b: string, d: nat)
    requires Ext(EnsureFileScheme(a)) == Ext(EnsureFileScheme(b))
    ensures CopyPlan(dataDirectory1, a, d).newName == CopyPlan(dataDirectory2, b, d).newName
  {
  }

  /** Of two copies with the same destination name, at most one lands. */
  lemma CollidingPair(p: PageState, reqs: seq<CopyRequest>, oks: seq<bool>)
    requires Wellformed(p.disk) && |reqs| == |oks| == 2 && reqs[0].newName == reqs[1].newName
    ensures |CompleteAll(p, reqs, oks).disk.media| <= |p.disk.media| + 1
  {
    assert reqs[..1][..0] == [] && oks[..1][..0] == [];
    var mid := CompleteCopy(p, reqs[0], oks[0]);
    assert CompleteAll(p, reqs[..1], oks[..1]) == mid;
    SettledCopyBound(p, reqs[0], oks[0]);
    SettledCopyBound(mid, reqs[1], oks[1]);
  }

  /** One settled copy adds at most its own destination name. */
  lemma SettledCopyBound(p: PageState, req: CopyRequest, ok: bool)
    requires Wellformed(p.disk)
    ensures var q := CompleteCopy(p, req, ok);
            && |q.disk.media| <= |p.disk.media| + 1
            && (q.disk.media != p.disk.media ==> req.newName in q.disk.media)
            && (req.newName in p.disk.media ==> q == p)
  {
  }

  /** On start-up the page lists an existing folder; a missing folder is created empty and the
      catalog stays empty. `imageflag` is untouched. */
  lemma InitOutcome(disk: Disk, createOk: bool)
    requires Wellformed(disk)
    ensures var q := NgOnInit(PageState([], false, disk), createOk);
            && (disk.folderExists ==> q.files == Listing(disk) && q.disk == disk)
            && (!disk.folderExists ==> q.files == [] && q.disk.media == [] && q.disk.folderExists == createOk)
            && !q.imageflag
  {
  }

  /** The picked video is copied exactly when its size is within `MAX_FILE_SIZE`; its MIME type
      makes no difference to the resulting state. */
  lemma PickVideoOutcome(p: PageState, videoUrl: string, size: nat, t1: string, t2: string, now: nat, ok: bool)
    requires Wellformed(p.disk)
    ensures size > 5242880 ==> PickVideo(p, videoUrl, VideoGate.Metadata(size, t1), now, ok) == p
    ensures size <= 5242880 ==>
              PickVideo(p, videoUrl, VideoGate.Metadata(size, t1), now, ok)
              == CopyFileToLocalDir(p, FileScheme + videoUrl, now, ok)
    ensures PickVideo(p, videoUrl, VideoGate.Metadata(size, t1), now, ok)
         == PickVideo(p, videoUrl, VideoGate.Metadata(size, t2), now, ok)
  {
  }

  // ---------------------------------------------------------------------------
  // The catalog stays the folder's listing

  /** What the page shows is exactly the listing of the managed folder. */
  predicate Consistent(p: PageState) {
    p.files == Listing(p.disk)
  }

  /** Re-listing makes the catalog consistent whenever the folder exists, and keeps it otherwise. */
  lemma LoadFilesConsistent(p: PageState)
    ensures Consistent(LoadFiles(p)) <==> p.disk.folderExists || Consistent(p)
  {
  }

  /** A copy that lands leaves a consistent catalog; one that does not leaves it as it was. */
  lemma CompleteCopyConsistent(p: PageState, req: CopyRequest, ok: bool)
    requires Wellformed(p.disk)
    ensures Consistent(CompleteCopy(p, req, ok)) <==> CopySucceeds(p.disk, req, ok) || Consistent(p)
  {
    if CopySucceeds(p.disk, req, ok) {
      var q := p.(disk := p.disk.(media := p.disk.media + [req.newName]));
      LoadFilesConsistent(q);
    }
  }

  /** A removal that succeeds leaves a consistent catalog; one that fails leaves it as it was. */
  lemma DeleteFileConsistent(p: PageState, f: FileEntry, ok: bool)
    requires Wellformed(p.disk)
    ensures Consistent(DeleteFile(p, f, ok)) <==> RemoveSucceeds(p.disk, DirPart(f.nativeURL), f.name, ok) || Consistent(p)
  {
    if RemoveSucceeds(p.disk, DirPart(f.nativeURL), f.name, ok) {
      LoadFilesConsistent(p.(disk := p.disk.(media := Remove(p.disk.media, f.name))));
    }
  }

  /** A settling batch keeps a consistent catalog consistent. */
  lemma {:induction false} CompleteAllConsistent(p: PageState, reqs: seq<CopyRequest>, oks: seq<bool>)
    requires |reqs| == |oks| && Wellformed(p.disk) && Consistent(p)
    ensures Consistent(CompleteAll(p, reqs, oks))
    decreases |reqs|
  {
    if |reqs| > 0 {
      var n := |reqs| - 1;
      CompleteAllConsistent(p, reqs[..n], oks[..n]);
      CompleteCopyConsistent(CompleteAll(p, reqs[..n], oks[..n]), reqs[n], oks[n]);
    }
  }

  /** `selectMultiple` keeps a consistent catalog consistent. */
  lemma SelectMultipleConsistent(p: PageState, results: seq<string>, stamps: seq<nat>, oks: seq<bool>)
    requires |results| == |stamps| == |oks| && Wellformed(p.disk) && Consistent(p)
    ensures Consistent(SelectMultiple(p, results, stamps, oks))
  {
    CompleteAllConsistent(p.(imageflag := true), Plans(p.disk.dataDirectory, results, stamps), oks);
  }

  /** The video pick keeps a consistent catalog consistent. */
  lemma PickVideoConsistent(p: PageState, videoUrl: string, meta: VideoGate.Metadata, now: nat, ok: bool)
    requires Wellformed(p.disk) && Consistent(p)
    ensures Consistent(PickVideo(p, videoUrl, meta, now, ok))
  {
    CompleteCopyConsistent(p, CopyPlan(p.disk.dataDirectory, PickedVideoPaths(videoUrl).path, now), ok);
  }

  /** Start-up from the freshly constructed page makes the catalog consistent, whether the folder
      was there or had to be created; from a consistent page it keeps it so. */
  lemma NgOnInitConsistent(p: PageState, createOk: bool)
    requires Wellformed(p.disk)
    ensures Consistent(NgOnInit(PageState([], false, p.disk), createOk))
    ensures Consistent(p) ==> Consistent(NgOnInit(p, createOk))
  {
    LoadFilesConsistent(PageState([], false, p.disk));
    LoadFilesConsistent(p);
  }
}
