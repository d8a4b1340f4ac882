/**
 * The upload page as an object: the fields `files` and `imageflag` it updates
 * in place, and the File plugin it was handed, modelled by the state of the
 * managed folder. Every method is proved to leave the page in the state the
 * matching function of module Catalog describes, so the properties proved
 * there hold of the page.
 */
module Upload {
  import opened Strings
  import opened Naming
  import VideoGate
  import Catalog

  class UploadPage {
    var files: seq<Catalog.FileEntry>
    var imageflag: bool
    /** The injected File plugin, seen through the managed folder it exposes. */
    var file: Catalog.Disk

    ghost predicate Valid()
      reads this
    {
      Catalog.Wellformed(file)
    }

    function State(): Catalog.PageState
      reads this
    {
      Catalog.PageState(files, imageflag, file)
    }

    constructor (disk: Catalog.Disk)
      requires Catalog.Wellformed(disk)
      ensures Valid() && files == [] && !imageflag && file == disk
    {
      files := [];
      imageflag := false;
      file := disk;
    }

    method NgOnInit(createOk: bool)
      requires Valid()
      modifies this
      ensures Valid() && State() == Catalog.NgOnInit(old(State()), createOk)
    {
      if file.folderExists {
        LoadFiles();
      } else {
        file := file.(folderExists := createOk, media := []);
      }
    }

    method LoadFiles()
      requires Valid()
      modifies this
      ensures Valid() && State() == Catalog.LoadFiles(old(State()))
    {
      var listing := Catalog.ListDir(file);
      if listing.Some? {
        files := listing.value;
      }
    }

    /** The synchronous part of `copyFileToLocalDir`: compute the copy's arguments and decide whether
        the loader is shown. It changes nothing. */
    method IssueCopy(fullPath: string, now: nat) returns (req: CopyRequest, showLoader: bool)
      ensures req == CopyPlan(file.dataDirectory, fullPath, now)
      ensures showLoader <==> !imageflag
    {
      var myPath := fullPath;
      if IndexOf(fullPath, FileScheme) < 0 {
        myPath := FileScheme + fullPath;
      }
      assert myPath == EnsureFileScheme(fullPath);
      var ext := Last(Split(myPath, '.'));
      assert ext == Ext(myPath);
      var newName := NumberToString(now) + "." + ext;
      var slash := LastIndexOf(myPath, '/');
      var name := myPath[slash + 1..];
      var copyFrom := myPath[..slash + 1];
      assert name == LeafName(myPath) && copyFrom == DirPart(myPath);
      var copyTo := file.dataDirectory + MediaFolderName;
      req := CopyRequest(copyFrom, name, copyTo, newName);
      showLoader := !imageflag;
    }

    /** The callbacks of the copy: on success re-list and drop `imageflag`; on failure only log. */
    method CompleteCopy(req: CopyRequest, ok: bool)
      requires Valid()
      modifies this
      ensures Valid() && State() == Catalog.CompleteCopy(old(State()), req, ok)
    {
      ghost var target := Catalog.CompleteCopy(State(), req, ok);
      if Catalog.CopySucceeds(file, req, ok) {
        file := file.(media := file.media + [req.newName]);
        assert file == target.disk;
        LoadFiles();
        imageflag := false;
      }
    }

    method CopyFileToLocalDir(fullPath: string, now: nat, ok: bool) returns (showLoader: bool)
      requires Valid()
      modifies this
      ensures Valid() && (showLoader <==> !old(imageflag))
      ensures State() == Catalog.CopyFileToLocalDir(old(State()), fullPath, now, ok)
    {
      var req;
      req, showLoader := IssueCopy(fullPath, now);
      CompleteCopy(req, ok);
    }

    method DeleteFile(f: Catalog.FileEntry, ok: bool)
      requires Valid()
      modifies this
      ensures Valid() && State() == Catalog.DeleteFile(old(State()), f, ok)
    {
      ghost var target := Catalog.DeleteFile(State(), f, ok);
      var path := f.nativeURL[..LastIndexOf(f.nativeURL, '/') + 1];
      if Catalog.RemoveSucceeds(file, path, f.name, ok) {
        file := file.(media := Catalog.Remove(file.media, f.name));
        assert file == target.disk;
        LoadFiles();
      }
    }

    /** `selectMultiple`: raise `imageflag`, issue one copy per picked result in array order (none of
        them shows the loader, as the flag is up when each is issued), then let the copies settle in
        that order. Returns whether any of the copies showed the loader. */
    method SelectMultiple(results: seq<string>, stamps: seq<nat>, oks: seq<bool>) returns (loaderShown: bool)
      requires Valid() && |results| == |stamps| == |oks|
      modifies this
      ensures Valid() && !loaderShown
      ensures State() == Catalog.SelectMultiple(old(State()), results, stamps, oks)
    {
      imageflag := true;
      ghost var start := State();
      var reqs: seq<CopyRequest> := [];
      loaderShown := false;
      for i := 0 to |results|
        invariant State() == start && !loaderShown
        invariant reqs == Catalog.Plans(file.dataDirectory, results[..i], stamps[..i])
      {
        var req, shown := IssueCopy(results[i], stamps[i]);
        Catalog.PlansStep(file.dataDirectory, results, stamps, i);
        loaderShown := loaderShown || shown;
        reqs := reqs + [req];
      }
      assert results[..|results|] == results && stamps[..|stamps|] == stamps;
      for i := 0 to |reqs|
        invariant Valid() && State() == Catalog.CompleteAll(start, reqs[..i], oks[..i])
      {
        Catalog.CompleteAllStep(start, reqs, oks, i);
        CompleteCopy(reqs[i], oks[i]);
      }
      assert reqs[..|reqs|] == reqs && oks[..|oks|] == oks;
    }

    /** `pickVideo` once the picked file's metadata `meta` has been read: copy when the size allows,
        and raise the alerts, the type alert last and whatever the decision. */
    method PickVideo(videoUrl: string, meta: VideoGate.Metadata, now: nat, ok: bool)
      returns (alerts: seq<string>, showLoader: bool)
      requires Valid()
      modifies this
      ensures Valid()
      ensures alerts == VideoGate.Decide(meta).alerts
      ensures showLoader <==> meta.size <= VideoGate.MaxFileSize && !old(imageflag)
      ensures State() == Catalog.PickVideo(old(State()), videoUrl, meta, now, ok)
    {
      var path := FileScheme + videoUrl;
      assert path == PickedVideoPaths(videoUrl).path;
      if meta.size > VideoGate.MaxFileSize {
        alerts, showLoader := [VideoGate.TooLargeAlert], false;
      } else {
        showLoader := CopyFileToLocalDir(path, now, ok);
        alerts := [VideoGate.CopiedAlert];
      }
      if meta.mimeType != VideoGate.AllowedMimeType {
        alerts := alerts + [VideoGate.WrongTypeAlert];
      }
      assert alerts == VideoGate.Decide(meta).alerts;
    }
  }
}
