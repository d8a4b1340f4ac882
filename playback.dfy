/**
 * `openFile`: route a catalog entry to the video player or the photo viewer by
 * case-sensitive substring tests on its name.
 */
module Playback {
  import opened Strings
  import Catalog

  /** What `openFile` hands on, and to which viewer. */
  datatype Action = PlayVideo(url: string) | ShowPhoto(url: string) | NoAction

  function OpenFile(f: Catalog.FileEntry): (a: Action)
    ensures a.PlayVideo? <==> Contains(f.name, ".MOV") || Contains(f.name, ".mp4")
    ensures a.ShowPhoto? <==> !a.PlayVideo? && (Contains(f.name, ".jpg") || Contains(f.name, ".jpeg"))
    ensures !a.NoAction? ==> a.url == f.nativeURL
  {
    if IndexOf(f.name, ".MOV") > -1 || IndexOf(f.name, ".mp4") > -1 then PlayVideo(f.nativeURL)
    else if IndexOf(f.name, ".jpg") > -1 || IndexOf(f.name, ".jpeg") > -1 then ShowPhoto(f.nativeURL)
    else NoAction
  }

  /** A name that names none of the four markers is not opened. */
  lemma NoMarkerNoAction(f: Catalog.FileEntry)
    requires !Contains(f.name, ".MOV") && !Contains(f.name, ".mp4")
    requires !Contains(f.name, ".jpg") && !Contains(f.name, ".jpeg")
    ensures OpenFile(f) == NoAction
  {
  }

  /** `clip.mp4` plays, `photo.jpeg` is shown, `doc.pdf` and the lower-case `clip.mov` do nothing,
      and a name holding both markers, `a.mp4.jpg`, plays: the test is not a suffix test. */
  lemma DispatchExamples(url: string)
    ensures OpenFile(Catalog.FileEntry("clip.mp4", url)) == PlayVideo(url)
    ensures OpenFile(Catalog.FileEntry("IMG_1.MOV", url)) == PlayVideo(url)
    ensures OpenFile(Catalog.FileEntry("photo.jpeg", url)) == ShowPhoto(url)
    ensures OpenFile(Catalog.FileEntry("doc.pdf", url)) == NoAction
    ensures OpenFile(Catalog.FileEntry("clip.mov", url)) == NoAction
    ensures OpenFile(Catalog.FileEntry("a.mp4.jpg", url)) == PlayVideo(url)
  {
    assert OccursAt("clip.mp4", ".mp4", 4);
    assert OccursAt("IMG_1.MOV", ".MOV", 5);
    assert OccursAt("photo.jpeg", ".jpeg", 5);
    assert OccursAt("a.mp4.jpg", ".mp4", 1);
    MissingCharExcludes("photo.jpeg", ".MOV", 1);
    MissingCharExcludes("photo.jpeg", ".mp4", 3);
    MissingCharExcludes("doc.pdf", ".MOV", 1);
    MissingCharExcludes("doc.pdf", ".mp4", 3);
    MissingCharExcludes("doc.pdf", ".jpg", 1);
    MissingCharExcludes("doc.pdf", ".jpeg", 1);
    MissingCharExcludes("clip.mov", ".MOV", 1);
    MissingCharExcludes("clip.mov", ".mp4", 3);
    MissingCharExcludes("clip.mov", ".jpg", 1);
    MissingCharExcludes("clip.mov", ".jpeg", 1);
  }
}
