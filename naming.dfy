/**
 * Path and name computations of the upload page: the `file://` normalisation,
 * the extension and the timestamped destination name built by
 * `copyFileToLocalDir`, the split of a path at its last `/`, and the paths the
 * video pick derives from the picked URL.
 */
module Naming {
  import opened Strings

  /** The scheme marker the page makes sure every source path carries. */
  const FileScheme: string := "file://"

  /** The managed folder, directly under the app's private data directory. */
  const MediaFolderName: string := "my_media"

  /** A string that carries the scheme marker also carries a `/`. */
  lemma SchemeHasSlash(p: string)
    requires Contains(p, FileScheme)
    ensures '/' in p
  {
    var i :| 0 <= i <= |p| && OccursAt(p, FileScheme, i);
    assert p[i..i + 7][5] == '/';
    assert p[i + 5] == '/';
  }

  /** The normalisation of `copyFileToLocalDir` and of the picked video's directory:
      prefix `file://` unless the marker already occurs somewhere in the path. */
  function EnsureFileScheme(path: string): (r: string)
    ensures Contains(r, FileScheme)
    ensures Contains(path, FileScheme) ==> r == path
    ensures !Contains(path, FileScheme) ==> r == FileScheme + path
  {
    if IndexOf(path, FileScheme) < 0 then
      assert OccursAt(FileScheme + path, FileScheme, 0) by {
        assert (FileScheme + path)[..7] == FileScheme;
      }
      FileScheme + path
    else
      path
  }

  /** Normalising an already normalised path changes nothing. */
  lemma EnsureFileSchemeIdempotent(path: string)
    ensures EnsureFileScheme(EnsureFileScheme(path)) == EnsureFileScheme(path)
  {
  }

  /** `myPath.split('.').pop()`: the text after the last `.`, or the whole path when it has no `.`. */
  function Ext(path: string): (ext: string)
    ensures '.' !in ext
  {
    Last(Split(path, '.'))
  }

  /** The extension is exactly the text after the last `.`. */
  lemma ExtAfterLastDot(path: string)
    ensures Ext(path) == path[LastIndexOf(path, '.') + 1..]
  {
    var i := LastIndexOf(path, '.');
    if i < 0 {
      assert path[i + 1..] == path;
    }
  }

  /** A path with no `.` is its own extension. */
  lemma ExtWithoutDot(path: string)
    requires '.' !in path
    ensures Ext(path) == path
  {
    LastIndexOfUnique(path, '.', -1);
  }

  /** `${d}.${ext}`: the destination name for timestamp `d`. */
  function NewName(d: nat, ext: string): string {
    NumberToString(d) + "." + ext
  }

  /** The destination name splits at its `.` into the timestamp's digits, which read back as
      the timestamp, and the extension, which is also the destination name's own extension. */
  lemma NewNameRoundTrip(d: nat, ext: string)
    requires '.' !in ext
    ensures Split(NewName(d, ext), '.') == [NumberToString(d), ext]
    ensures DecimalValue(Split(NewName(d, ext), '.')[0]) == d
    ensures Ext(NewName(d, ext)) == ext
  {
    var digits := NumberToString(d);
    assert '.' !in digits;
    assert Join([digits, ext], '.') == NewName(d, ext) by {
      assert [digits, ext][..1] == [digits];
    }
    SplitJoin([digits, ext], '.');
    DecimalRoundTrip(d);
  }

  /** The destination name holds exactly one `.` more than the extension. */
  lemma NewNameDots(d: nat, ext: string)
    ensures Count(NewName(d, ext), '.') == Count(ext, '.') + 1
  {
    var digits := NumberToString(d);
    assert '.' !in digits;
    CountAbsent(digits, '.');
    CountConcat(digits, ".", '.');
    CountConcat(digits + ".", ext, '.');
  }

  /** `p.substr(p.lastIndexOf('/') + 1)`: the leaf name after the last `/`. */
  function LeafName(p: string): (name: string)
    ensures '/' !in name
  {
    p[LastIndexOf(p, '/') + 1..]
  }

  /** `p.substr(0, p.lastIndexOf('/') + 1)`: the directory part, up to and including the last `/`. */
  function DirPart(p: string): (dir: string)
    ensures dir == [] || dir[|dir| - 1] == '/'
  {
    p[..LastIndexOf(p, '/') + 1]
  }

  /** The split at the last `/` loses nothing: directory and leaf rebuild the path, and the
      directory is empty exactly when the path has no `/`. */
  lemma SplitAtLastSlash(p: string)
    ensures DirPart(p) + LeafName(p) == p
    ensures DirPart(p) == [] <==> '/' !in p
  {
    var i := LastIndexOf(p, '/');
    assert DirPart(p) + LeafName(p) == p[..i + 1] + p[i + 1..];
    assert p[..i + 1] + p[i + 1..] == p;
    if '/' in p {
      var k :| 0 <= k < |p| && p[k] == '/';
      assert i >= k;
    }
  }

  /** The arguments of the `copyFile` call issued by `copyFileToLocalDir`. */
  datatype CopyRequest = CopyRequest(copyFrom: string, name: string, copyTo: string, newName: string)

  /** The destination directory of every copy. */
  function CopyTo(dataDirectory: string): string {
    dataDirectory + MediaFolderName
  }

  /** What `copyFileToLocalDir(fullPath)` asks the filesystem to do when `Date.now()` is `d`. */
  function CopyPlan(dataDirectory: string, fullPath: string, d: nat): CopyRequest {
    var myPath := EnsureFileScheme(fullPath);
    CopyRequest(DirPart(myPath), LeafName(myPath), CopyTo(dataDirectory), NewName(d, Ext(myPath)))
  }

  /** The copy reads the normalised source path split at its last `/` (the directory part is never
      empty, as the scheme marker holds a `/`) and writes into the managed folder under
      `<d>.<ext>`, a name whose extension is the source's extension. */
  lemma CopyPlanFacts(dataDirectory: string, fullPath: string, d: nat)
    ensures var req := CopyPlan(dataDirectory, fullPath, d);
            var myPath := EnsureFileScheme(fullPath);
            && req.copyFrom + req.name == myPath
            && '/' !in req.name
            && |req.copyFrom| > 0 && req.copyFrom[|req.copyFrom| - 1] == '/'
            && req.copyTo == dataDirectory + "my_media"
            && req.newName == NumberToString(d) + "." + Ext(myPath)
            && Ext(req.newName) == Ext(myPath)
            && Count(req.newName, '.') == 1
  {
    var myPath := EnsureFileScheme(fullPath);
    SchemeHasSlash(myPath);
    SplitAtLastSlash(myPath);
    var ext := Ext(myPath);
    NewNameRoundTrip(d, ext);
    NewNameDots(d, ext);
    CountAbsent(ext, '.');
  }

  /** A source path whose last `.` sits in a directory name, such as `/a.b/c`, yields an extension
      spanning a `/`, so the destination name is not a plain file name. */
  lemma ExtMaySpanDirectories(dataDirectory: string, d: nat)
    ensures Ext(EnsureFileScheme("/a.b/c")) == "b/c"
    ensures '/' in CopyPlan(dataDirectory, "/a.b/c", d).newName
  {
    MissingCharExcludes("/a.b/c", FileScheme, 0);
    var myPath := FileScheme + "/a.b/c";
    LastIndexOfUnique(myPath, '.', 9);
    assert myPath[10..] == "b/c";
    var name := CopyPlan(dataDirectory, "/a.b/c", d).newName;
    assert name == NumberToString(d) + "." + "b/c";
    assert name[|name| - 2] == '/';
  }

  /** The paths `pickVideo` derives from the URL the library returns: the path handed to
      `copyFileToLocalDir` and the leaf name and directory used to read the file's metadata. */
  datatype VideoSource = VideoSource(path: string, filename: string, dirpath: string)

  function PickedVideoPaths(videoUrl: string): VideoSource {
    VideoSource(FileScheme + videoUrl, LeafName(videoUrl), EnsureFileScheme(DirPart(videoUrl)))
  }

  /** Prefixing the scheme marker prefixes the directory part and keeps the leaf name. */
  lemma SchemePrefixSplit(url: string)
    ensures DirPart(FileScheme + url) == FileScheme + DirPart(url)
    ensures LeafName(FileScheme + url) == LeafName(url)
  {
    var path := FileScheme + url;
    var k := LastIndexOf(url, '/');
    LastIndexOfConcat(FileScheme, url, '/');
    LastIndexOfUnique(FileScheme, '/', 6);
    if k >= 0 {
      assert path[..7 + k + 1] == FileScheme + url[..k + 1];
      assert path[7 + k + 1..] == url[k + 1..];
    } else {
      assert path[..7] == FileScheme + url[..0];
      assert path[7..] == url[0..];
    }
  }

  /** When the picked URL carries no scheme marker, the file whose metadata is read is the file that
      is copied: the copy path splits into the same directory and leaf name, and the copy's own
      normalisation leaves it alone. */
  lemma PickedVideoPathsAgree(videoUrl: string)
    requires !Contains(videoUrl, FileScheme)
    ensures var v := PickedVideoPaths(videoUrl);
            && EnsureFileScheme(v.path) == v.path
            && DirPart(v.path) == v.dirpath
            && LeafName(v.path) == v.filename
  {
    var path := FileScheme + videoUrl;
    assert OccursAt(path, FileScheme, 0) by {
      assert path[..7] == FileScheme;
    }
    SchemePrefixSplit(videoUrl);
    var dir := DirPart(videoUrl);
    if Contains(dir, FileScheme) {
      PrefixContains(videoUrl, |dir|, FileScheme);
    }
  }

  /** When the directory of the picked URL already carries the scheme marker, the metadata is read
      from that directory as given, but the copy reads from it with a second `file://` in front:
      the two no longer name the same file. */
  lemma PickedVideoPathsDisagree(dataDirectory: string, videoUrl: string, d: nat)
    requires Contains(DirPart(videoUrl), FileScheme)
    ensures var v := PickedVideoPaths(videoUrl);
            var req := CopyPlan(dataDirectory, v.path, d);
            && v.dirpath == DirPart(videoUrl)
            && req.copyFrom == FileScheme + v.dirpath
            && req.copyFrom != v.dirpath
            && req.name == v.filename
  {
    var path := FileScheme + videoUrl;
    assert OccursAt(path, FileScheme, 0) by {
      assert path[..7] == FileScheme;
    }
    SchemePrefixSplit(videoUrl);
    assert |FileScheme + DirPart(videoUrl)| > |DirPart(videoUrl)|;
  }

  /** `file:///a/b.mp4` is such a URL: its metadata is read from `file:///a/`. */
  lemma DoubleSchemeExample()
    ensures Contains(DirPart("file:///a/b.mp4"), FileScheme)
    ensures PickedVideoPaths("file:///a/b.mp4").dirpath == "file:///a/"
  {
    var url := "file:///a/b.mp4";
    LastIndexOfUnique(url, '/', 9);
    assert DirPart(url) == "file:///a/";
    assert OccursAt(DirPart(url), FileScheme, 0);
  }
}
