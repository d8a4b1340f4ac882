# Upload page of Ionic-UploadApp, modelled in Dafny

The upload page (`src/app/upload/upload.page.ts`) keeps a local media folder,
`my_media` under the app's private data directory. The page copies picked and
captured files into it under timestamped names, lists the folder in `files`,
opens an entry with the video player or the photo viewer, and deletes entries.
This project models the part of the page that can be stated exactly:

- **Path and name computations** (`naming.dfy`, built on the JavaScript string
  operations in `strings.dfy`). This covers the `file://` normalisation, the
  extension taken by `split('.').pop()`, the destination name `${Date.now()}.${ext}`,
  and the split of a path at its last `/` into directory and leaf name. It also
  covers the paths `pickVideo` derives from the URL the library returns.
- **The video gate of `pickVideo`** (`video_gate.dfy`). The size alone decides
  whether the file is copied. A MIME type other than `video/mp4` only adds an alert.
- **`openFile` dispatch** (`playback.dfy`). It uses case-sensitive substring tests,
  and the video markers are tested first.
- **The catalog state machine** (`catalog.dfy`). Each operation is a function from
  the page state to the new state:
  - `loadFiles`, `copyFileToLocalDir`, `deleteFile`, `selectMultiple`, `ngOnInit`
    and the copy branch of `pickVideo`;
  - the page state is the fields `files` and `imageflag`, plus the state of the
    managed folder as the File plugin exposes it (`Disk`).

  The plugin's calls are modelled by the folder state. What the code cannot see
  is a parameter:
  - whether the copy, the removal or the folder creation succeeds;
  - `Date.now()`.

  The model assumes that a copy lands only when:
  - the plugin reports success;
  - the folder exists;
  - the destination is a plain file name that is not there yet. The page does
    not show whether `copyFile` overwrites; this model assumes it does not.
- **The page object** (`upload_page.dfy`). A class with the fields `files`,
  `imageflag` and `file`, whose methods update them in place. Each method is
  proved to reach exactly the state the matching `Catalog` function gives, so the
  properties proved there hold of the object.

`selectMultiple` has two phases:
1. It raises `imageflag` and issues one copy per picked result, in array order.
   The flag is up each time, so none of them shows the loader.
2. The copies settle one after another in the same order.

A picker failure is the empty batch.

Three points where a reader might expect otherwise; the model does what the code does:
- a video is held to the shared `MAX_FILE_SIZE` of 5 MiB (line 17), not to a larger video limit;
- a MIME type other than `video/mp4` only raises an alert; the copy is issued anyway;
- `openFile` tests whether the name contains a marker anywhere, not whether it ends with it, and
  only the upper-case `.MOV` counts as a QuickTime video.

## Model

| member | source | states |
|---|---|---|
| Strings.Contains | src/app/upload/upload.page.ts:130 | `includes`: the pattern occurs at some index of the string |
| Strings.IndexOf | src/app/upload/upload.page.ts:197 | `indexOf`: the result is the first index where the pattern occurs, or -1 exactly when it occurs nowhere |
| Strings.LastIndexOf | src/app/upload/upload.page.ts:205-206 | `lastIndexOf`: the result holds the character and no later index does, or it is -1 and the character is absent |
| Strings.LastIndexOfConcat | src/app/upload/upload.page.ts:126 | the last occurrence in `a + b` lies in `b` when `b` has one, otherwise it is the last occurrence in `a` |
| Strings.Split | src/app/upload/upload.page.ts:201 | `split` on one character: at least one part, no part holds the separator, and joining the parts with it gives the input back |
| Strings.SplitJoin | src/app/upload/upload.page.ts:201 | splitting undoes joining when no part holds the separator |
| Strings.NumberToString | src/app/upload/upload.page.ts:203 | `${d}` for a timestamp: non-empty, all decimal digits, no leading zero |
| Strings.DecimalRoundTrip | src/app/upload/upload.page.ts:202-203 | reading the rendered timestamp back gives the timestamp |
| Strings.CountConcat | src/app/upload/upload.page.ts:203 | the number of `.` in a concatenation is the sum of the parts' counts |
| Naming.EnsureFileScheme | src/app/upload/upload.page.ts:195-199 | the result always contains `file://`; a path that already contains it is unchanged, any other path gets the prefix |
| Naming.EnsureFileSchemeIdempotent | src/app/upload/upload.page.ts:195-199 | normalising twice is the same as normalising once |
| Naming.Ext | src/app/upload/upload.page.ts:201 | the extension holds no `.` |
| Naming.ExtAfterLastDot | src/app/upload/upload.page.ts:201 | the extension is exactly the text after the last `.` |
| Naming.ExtWithoutDot | src/app/upload/upload.page.ts:201 | a path with no `.` is its own extension |
| Naming.NewNameRoundTrip | src/app/upload/upload.page.ts:202-203 | the destination name splits at `.` into the timestamp's digits, which read back as the timestamp, and the extension; its own extension is the source's |
| Naming.NewNameDots | src/app/upload/upload.page.ts:203 | the destination name holds exactly one more `.` than the extension |
| Naming.LeafName | src/app/upload/upload.page.ts:205 | the leaf name holds no `/` |
| Naming.DirPart | src/app/upload/upload.page.ts:206 | the directory part is empty or ends with `/` |
| Naming.SplitAtLastSlash | src/app/upload/upload.page.ts:205-206 | directory part plus leaf name is the path; the directory part is empty exactly when the path has no `/` |
| Naming.NewName | src/app/upload/upload.page.ts:203 | `${d}.${ext}`; its properties are in `NewNameRoundTrip` and `NewNameDots` |
| Naming.CopyTo | src/app/upload/upload.page.ts:207 | the copy's target directory `dataDirectory + "my_media"` |
| Naming.CopyPlan | src/app/upload/upload.page.ts:195-207 | the four `copyFile` arguments built from `fullPath` and `Date.now()`; their properties are in `CopyPlanFacts` |
| Naming.CopyPlanFacts | src/app/upload/upload.page.ts:194-207 | the copy's `copyFrom + name` is the normalised path; `name` has no `/`; `copyFrom` is non-empty and ends with `/`; the target is `dataDirectory + "my_media"`; the new name is `<digits>.<ext>` with the source's extension and exactly one `.` when the extension has none |
| Naming.ExtMaySpanDirectories | src/app/upload/upload.page.ts:201-203 | a path whose last `.` is in a directory name (`/a.b/c`) gets the extension `b/c`, so its destination name holds a `/` |
| Naming.PickedVideoPaths | src/app/upload/upload.page.ts:126-130 | the copy path, leaf name and normalised directory `pickVideo` derives from the URL; related by `PickedVideoPathsAgree` and `PickedVideoPathsDisagree` |
| Naming.SchemePrefixSplit | src/app/upload/upload.page.ts:126-129 | prefixing `file://` prefixes the directory part and keeps the leaf name |
| Naming.PickedVideoPathsAgree | src/app/upload/upload.page.ts:126-130 | for a URL without `file://`, the file whose metadata is read (`dirpath`, `filename`) is the file the copy reads (`copyFrom`, `name` of `path`), and the copy leaves `path` unnormalised |
| Naming.PickedVideoPathsDisagree | src/app/upload/upload.page.ts:126-130 | when the URL's directory already contains `file://`, the metadata is read from that directory but the copy reads from it with a second `file://` in front; the leaf names still agree |
| Naming.DoubleSchemeExample | src/app/upload/upload.page.ts:128-130 | `file:///a/b.mp4` is such a URL; its metadata is read from `file:///a/` |
| VideoGate.Decide | src/app/upload/upload.page.ts:140-151 | a copy is issued exactly when `size <= 5*1024*1024`; the first alert is the copy alert or the too-large alert accordingly; the type alert is raised, second, exactly when the type is not `video/mp4` |
| VideoGate.TypeNeverGates | src/app/upload/upload.page.ts:141-151 | two files of the same size get the same copy decision whatever their MIME types |
| VideoGate.QuickTimeExamples | src/app/upload/upload.page.ts:141-151 | a 50 MiB QuickTime file is refused with both alerts; a 2 MiB one is copied, still with the type alert; exactly 5 MiB of `video/mp4` is copied |
| Playback.OpenFile | src/app/upload/upload.page.ts:225-233 | plays the entry's URL exactly when the name contains `.MOV` or `.mp4`; shows it exactly when it does not but contains `.jpg` or `.jpeg`; does nothing otherwise |
| Playback.NoMarkerNoAction | src/app/upload/upload.page.ts:225-233 | a name with none of the four markers is not opened |
| Playback.DispatchExamples | src/app/upload/upload.page.ts:225-233 | `clip.mp4` and `IMG_1.MOV` play, `photo.jpeg` is shown, `doc.pdf` and the lower-case `clip.mov` do nothing, `a.mp4.jpg` plays |
| Catalog.Listing | src/app/upload/upload.page.ts:66-68 | the entries `listDir` reports: one per name in the folder, with the folder URL and the name as `nativeURL`; see `ListingNames` |
| Catalog.ListDir | src/app/upload/upload.page.ts:66-70 | `listDir` gives the listing when the folder exists and fails otherwise |
| Catalog.LoadFiles | src/app/upload/upload.page.ts:65-71 | `files` becomes the listing when `listDir` succeeds and stays as it was when it fails; see `LoadFilesConsistent` and `LoadFilesIdempotent` |
| Catalog.CopySucceeds | src/app/upload/upload.page.ts:212-213 | the assumed condition under which `copyFile` takes its success branch |
| Catalog.RemoveSucceeds | src/app/upload/upload.page.ts:236-237 | the assumed condition under which `removeFile` takes its success branch: success reported, folder present, path is the folder URL, name present |
| Catalog.Remove | src/app/upload/upload.page.ts:237 | the folder after a removal holds every other name and not the removed one, keeps names distinct, and is one shorter when the name was there |
| Catalog.CompleteCopy | src/app/upload/upload.page.ts:212-222 | the copy's callbacks keep the folder well formed: distinct plain names, none while it is absent |
| Catalog.CopyFileToLocalDir | src/app/upload/upload.page.ts:194-222 | a settled copy keeps the folder well formed |
| Catalog.DeleteFile | src/app/upload/upload.page.ts:235-240 | a delete keeps the folder well formed |
| Catalog.Plans | src/app/upload/upload.page.ts:162-164 | one copy is issued per picked result |
| Catalog.PlansStep | src/app/upload/upload.page.ts:162-164 | issuing the next result's copy extends the issued copies by that copy, in array order |
| Catalog.CompleteAll | src/app/upload/upload.page.ts:162-164 | a batch of settled copies keeps the folder well formed |
| Catalog.CompleteAllStep | src/app/upload/upload.page.ts:162-164 | settling the next copy extends the settled prefix of the batch |
| Catalog.SelectMultiple | src/app/upload/upload.page.ts:158-167 | `selectMultiple` keeps the folder well formed |
| Catalog.NgOnInit | src/app/upload/upload.page.ts:51-63 | start-up keeps the folder well formed |
| Catalog.PickVideo | src/app/upload/upload.page.ts:140-151 | the video pick keeps the folder well formed |
| Catalog.ListingNames | src/app/upload/upload.page.ts:65-69 | the listing reports the folder's names in order |
| Catalog.LoadFilesIdempotent | src/app/upload/upload.page.ts:65-71 | re-listing twice with no change in between is the same as re-listing once |
| Catalog.NewNameLeaf | src/app/upload/upload.page.ts:203 | the destination name holds a `/` exactly when the extension does |
| Catalog.CopyOutcome | src/app/upload/upload.page.ts:194-222 | the copy lands exactly when the plugin succeeds, the folder exists, the extension holds no `/` and the new name is new; then the folder gains exactly `<now>.<ext>` at the end, `files` is the fresh listing, one longer, whose last entry has the source's extension, and `imageflag` is false; otherwise the state is unchanged; the folder only grows |
| Catalog.DeleteOutcome | src/app/upload/upload.page.ts:235-240 | a removal that succeeds leaves `files` the fresh listing without the name, one shorter, with every other name kept and `imageflag` untouched; a failed one changes nothing |
| Catalog.DeleteListedEntry | src/app/upload/upload.page.ts:236-237 | every listed entry's `nativeURL` splits back into the managed folder and its own name, so deleting it succeeds whenever the plugin does |
| Catalog.BatchOutcome | src/app/upload/upload.page.ts:158-167 | a batch only appends names, at most one per copy and each the destination of one of them; nothing changes when nothing lands; once something lands `files` is the fresh listing and `imageflag` is false |
| Catalog.CopyPlanName | src/app/upload/upload.page.ts:201-203 | two sources with the same extension copied at the same timestamp get the same destination name, whatever their directories and data directories |
| Catalog.SameMillisecondCollision | src/app/upload/upload.page.ts:162-164 | two picked pictures with the same extension copied in the same millisecond add at most one file |
| Catalog.CollidingPair | src/app/upload/upload.page.ts:212-215 | of two copies with the same destination name, at most one lands |
| Catalog.SettledCopyBound | src/app/upload/upload.page.ts:212-215 | one copy adds at most its own destination name, and none when that name is already there |
| Catalog.InitOutcome | src/app/upload/upload.page.ts:51-63 | on start-up an existing folder is listed; a missing one is created empty (when creation succeeds) and `files` stays empty; `imageflag` stays false |
| Catalog.PickVideoOutcome | src/app/upload/upload.page.ts:140-151 | a video over 5 MiB changes nothing; otherwise the state is that of copying `file://<url>`; the MIME type makes no difference |
| Catalog.LoadFilesConsistent | src/app/upload/upload.page.ts:65-71 | after a re-list `files` is the folder's listing exactly when the folder exists or it already was |
| Catalog.CompleteCopyConsistent | src/app/upload/upload.page.ts:212-222 | after a copy's callbacks `files` is the listing exactly when the copy landed or it already was |
| Catalog.DeleteFileConsistent | src/app/upload/upload.page.ts:235-240 | after a delete `files` is the listing exactly when the removal succeeded or it already was |
| Catalog.CompleteAllConsistent | src/app/upload/upload.page.ts:162-164 | a settling batch keeps `files` equal to the listing |
| Catalog.SelectMultipleConsistent | src/app/upload/upload.page.ts:158-167 | `selectMultiple` keeps `files` equal to the listing |
| Catalog.PickVideoConsistent | src/app/upload/upload.page.ts:140-151 | the video pick keeps `files` equal to the listing |
| Catalog.NgOnInitConsistent | src/app/upload/upload.page.ts:47-63 | start-up from the constructed page makes `files` the listing, whether the folder existed or was created; from a consistent page it stays so |
| Upload.UploadPage.constructor | src/app/upload/upload.page.ts:46-49 | the page starts with no files and `imageflag` false |
| Upload.UploadPage.NgOnInit | src/app/upload/upload.page.ts:51-63 | the page reaches the start-up state of `Catalog.NgOnInit` and keeps the folder well formed |
| Upload.UploadPage.LoadFiles | src/app/upload/upload.page.ts:65-72 | `files` becomes the listing when the folder exists; nothing else changes |
| Upload.UploadPage.IssueCopy | src/app/upload/upload.page.ts:194-211 | computes exactly the copy of `Naming.CopyPlan` and shows the loader exactly when `imageflag` is false; changes nothing |
| Upload.UploadPage.CompleteCopy | src/app/upload/upload.page.ts:212-222 | the callbacks reach the state of `Catalog.CompleteCopy` |
| Upload.UploadPage.CopyFileToLocalDir | src/app/upload/upload.page.ts:194-223 | shows the loader exactly when `imageflag` was false and reaches the state of `Catalog.CopyFileToLocalDir` |
| Upload.UploadPage.DeleteFile | src/app/upload/upload.page.ts:235-240 | reaches the state of `Catalog.DeleteFile` |
| Upload.UploadPage.SelectMultiple | src/app/upload/upload.page.ts:158-167 | no copy of the batch shows the loader, and the page reaches the state of `Catalog.SelectMultiple` |
| Upload.UploadPage.PickVideo | src/app/upload/upload.page.ts:125-152 | raises the alerts of `VideoGate.Decide` in order, shows the loader exactly when the size allows the copy and `imageflag` was false, and reaches the state of `Catalog.PickVideo` |

## Left out

- The native plugins are not modelled: Camera, ImagePicker, MediaCapture, StreamingMedia, PhotoViewer, Media and FileTransfer. The fields `isUploading`, `uploadPercent` and `videoFileUpload` are unused and are left out too. These are foreign calls.
- The File plugin is modelled only by the folder state it exposes. `copyFile` and `removeFile` succeed under the conditions stated above. `listDir` fails exactly when the folder is absent. `checkDir` reports whether the folder exists.
- `selectMedia`, the action sheet, `showLoader`/`hideLoader`, `alert` and `console.log` are UI. The loader appears only as a returned "shown" flag, and alerts only as the returned list in `PickVideo`.
- `captureImage` and `recordVideo` are left out. They only pass the captured file's path to `copyFileToLocalDir`, which is modelled, and the capture itself is a plugin call.
- Promise scheduling is not modelled. Each copy settles before the next operation, and the copies of a batch settle in array order. Interleavings with other operations are not captured.
- `Date.now()` is an input to each copy.
- The failure path of `pickVideo` at lines 136-140 is left out. There, `retrievedFile` stays undefined and is then dereferenced, which is a runtime fault. The model starts from the metadata the read returns.
- `hideLoader` may dismiss a loader that was never created. This is plugin lifecycle and is left out.
- The listing order of the real filesystem is abstracted to the order in which names were added.
- Catalog.CompleteCopy, Catalog.CopyFileToLocalDir, Catalog.DeleteFile, Catalog.CompleteAll, Catalog.SelectMultiple, Catalog.NgOnInit, Catalog.PickVideo: their own contracts state only that the folder stays well formed. What each does is stated by the matching outcome lemma (CopyOutcome, DeleteOutcome, BatchOutcome, InitOutcome, PickVideoOutcome).
- Upload.UploadPage.PickVideo, VideoGate.Decide: the loader field has no initial value (line 28), and `showLoader` sets it only after an `await` (line 243). So `hideLoader` at line 146 throws while no loader object exists yet, for example on the first upload after the page opens. The copy has already been issued and the page state is as modelled, but the throw skips `alert('aaa')` (line 147) and the type alert (lines 149-151). The alerts these members promise are those of a run where a loader object exists.
- Catalog.CopyOutcome, Catalog.SettledCopyBound, Catalog.CollidingPair, Catalog.SameMillisecondCollision: these rest on the assumption that `copyFile` refuses to overwrite an existing name. If it overwrites instead, a second copy under the same name replaces the first file's content and takes the success branch: it re-lists and clears `imageflag`, where the model leaves the state unchanged. The folder still gains at most one name, so the bound of `SameMillisecondCollision` holds either way.
- Catalog.CopySucceeds: the copy's source directory and name are never checked, so a copy from a path that does not exist, such as the doubled `file://file:///a/` of `Naming.PickedVideoPathsDisagree`, lands whenever the plugin reports success.
