# Image collection notes and note storage, modelled in Dafny

This project models two parts of a notes application. Both parts are written as
pure functions over immutable data, and their properties are proved.

**The image-collection note** (`ImageCollection.tsx`) holds an ordered list of
images. Each image has an id, a storage path and a name. It may also have a
display URL, which is resolved at runtime and never saved. The model covers:

- loading the list from the note's content, including the two legacy shapes
  (bare path strings, and records with a `url` but no `storagePath`);
- the fallbacks for empty, unparseable and non-array content;
- cleaning file names out of paths and URLs (`extractFilename`);
- resolving display URLs through the storage adapter;
- saving the list back without display URLs;
- rename, remove (with the viewer selection recomputed by id), drag reorder
  (`arrayMove`), and batch upload (failed files skipped, default name without
  its extension);
- the viewer's wrap-around next and previous.

**The storage adapter** (`storage.ts`, `StorageServiceImpl`) supports two hosts.
On the desktop shell, every call except `getImageUrl` goes to the main process
over IPC; `getImageUrl` builds the `media://` URL itself. On mobile, every call
goes to the device filesystem. The model covers:

- the `media://` URL scheme;
- the `notes/<id>.json` and `<uuid>.png` naming conventions;
- the `.json` and `.png` suffix filters;
- the error contract: `saveNote`, `deleteNote` and `deleteImage` answer
  `false`, `loadNotes` and `getAllImages` answer `[]`, `getImageUrl` answers
  `""`, and `saveImage` rethrows;
- `arrayBufferToBase64`: Latin-1 characters, then base64 as in section 4 of
  RFC 4648.

Files:

- `wrappers.dfy`: `Option`, and `Result`, whose `Threw` stands for a rejected promise.
- `text.dfy`: the JavaScript string idioms the code uses. These are
  `replace` with a string pattern, `substring(lastIndexOf(..) + 1)`,
  `split(..)[0]`, and the extension regex `/\.[^/.]+$/`.
- `base64.dfy`: the encoder, and the decoder the device applies when it stores
  base64 data, with the round trip proved between them.
- `storage.dfy`: the adapter. The filesystem is a map from paths to entries
  together with an `available` flag, and the host is a `Platform` parameter.
- `image_collection.dfy`: the component's list logic.

Modelling choices:

- The device filesystem is a `map<string, Entry>`. An entry is either a note
  file, already parsed (`Parsed(note)` or `Unparseable`), or an image file
  holding bytes.
- The device decodes base64 data when it writes it, so `saveImage` stores the
  bytes themselves.
- When `available` is false, every filesystem call fails.
- The device's calls are `Storage.WriteFile`, `Storage.WriteBase64`,
  `Storage.ReadFile`, `Storage.DeleteFile` and `Storage.Stat`. They define this
  abstract device rather than model code of the repository: a call succeeds
  exactly when the device is available and the path is writable (for a write)
  or present (for a read, a delete or a stat).
- The root directory and `notes` always exist, and a write into any other
  directory fails.
- The order in which a directory read reports names is a parameter
  (`listing`). Lemmas relate it to the directory's contents with `IsListing`.
  A read of the root reports its files and the `notes` directory
  (`RootEntries`), and no file can be written under the name `notes`.
- Answers from the desktop main process are parameters of type `Result`.
- Fresh UUIDs and ids are parameters too.
- The viewer selection is `Closed` (`null`), `Open(i)`, or `NotANumber`.
  `NotANumber` is the `NaN` that `% images.length` yields on an empty list.

Two behaviours of the code that a reader might not expect, modelled as written:

- A `media://` path is returned with only the scheme removed, and any `?` query
  is kept (`src/components/ImageCollection.tsx:213-215`).
- A drop onto the dragged image's own position saves nothing
  (`src/components/ImageCollection.tsx:256`).

## Model

| member | source | states |
|---|---|---|
| Text.RemoveFirst | src/services/storage.ts:41 | `replace` with a string pattern removes only the first occurrence: wherever the pattern first occurs, exactly that occurrence is cut out, and a string without the pattern is unchanged. |
| Text.AfterLast | src/services/storage.ts:188-190 | The result is the suffix after the last `c`, and it contains no `c`. Without a `c`, the whole string is kept. |
| Text.BeforeFirst | src/services/storage.ts:191-193 | The result is the prefix before the first `c`, and it contains no `c`. |
| Text.BaseName | src/services/storage.ts:187-193 | The cleaned name contains neither `/` nor `?` and is no longer than the input. |
| Text.BaseNamePlain | src/services/storage.ts:187-193 | A name with neither `/` nor `?` is left as it is. |
| Text.BaseNameIdempotent | src/services/storage.ts:187-193 | Cleaning a cleaned name changes nothing. |
| Text.BaseNameOfPath | src/services/storage.ts:187-193 | `dir/name` cleans to `name`. |
| Text.BaseNameOfUrl | src/services/storage.ts:187-193 | `dir/name?query` cleans to `name`, for a query without `/`. |
| Text.StripExtension | src/components/ImageCollection.tsx:291 | Dropping the extension cuts a prefix exactly where `/\.[^/.]+$/` matches. When nothing matches, no position matches. |
| Text.ExtensionPinned | src/components/ImageCollection.tsx:291 | If the pattern matches at `k`, the result is `s[..k]`. |
| Text.UniqueExtension | src/components/ImageCollection.tsx:291 | The pattern matches at most one position. |
| Text.StripExtensionDropsOne | src/components/ImageCollection.tsx:291 | `"a.png"` gives `"a"` and `"x.tar.gz"` gives `"x.tar"`. |
| Text.StripExtensionKeeps | src/components/ImageCollection.tsx:291 | A dot in a directory name (`"notes.d/readme"`) and a trailing dot (`"a."`) leave the name unchanged. |
| Base64.Value | src/services/storage.ts:275 | A character has a 6-bit value exactly when it is in the base64 alphabet, and that value maps back to the character. |
| Base64.Encode | src/services/storage.ts:275 | `n` bytes encode to `4 * ceil(n / 3)` characters. |
| Base64.EncodeAlphabet | src/services/storage.ts:275 | Encoded text has whole groups of four alphabet characters. Only the last one or two characters may be `=`, and a `=` in the next-to-last place is followed by another. |
| Base64.Decode | src/services/storage.ts:52-56 | Decoding accepts only whole groups of four and yields at most three bytes per group. |
| Base64.DecodeEncode | src/services/storage.ts:268-276 | Decoding the encoding of any bytes gives the bytes back. |
| Base64.Latin1 | src/services/storage.ts:272-274 | `String.fromCharCode` gives one character per byte, with the byte's value. |
| Base64.Btoa | src/services/storage.ts:275 | `btoa` succeeds exactly when every character is below 256. Its output then decodes to the character codes. |
| Base64.ArrayBufferToBase64 | src/services/storage.ts:268-276 | The result has length `4 * ceil(n / 3)`, has the base64 shape, and decodes back to the input bytes. |
| Base64.TestVectors | src/services/storage.ts:268-276 | All seven test vectors of section 10 of RFC 4648, from `""` to `"foobar"`. |
| Storage.NotePathShape | src/services/storage.ts:94 | `notes/<id>.json` is in the notes directory exactly when the id has no `/`, and it is never a root name. |
| Storage.ImageNameShape | src/services/storage.ts:48 | `<uuid>.png` ends in `.png` and is a root name exactly when the UUID has no `/`. |
| Storage.SaveImage | src/services/storage.ts:27-70 | On the desktop, the bridge's URL loses its `media://` prefix and failures pass through. On mobile, the call succeeds exactly when the write can happen. It then stores the bytes at `<uuid>.png` and returns that name. A failure rethrows and changes nothing. |
| Storage.SaveImageOnDevice | src/services/storage.ts:45-69 | The mobile write-then-stat: it succeeds exactly when the device is available and the name is writable, and a UUID's name always is. |
| Storage.SaveNote | src/services/storage.ts:72-104 | On mobile it never throws. It answers `true` exactly when the device is available and the id has no `/`, and then the note is stored at `notes/<id>.json`. On `false`, storage is unchanged. |
| Storage.DeleteNote | src/services/storage.ts:106-122 | On mobile it answers whether `notes/<id>.json` existed, and removes exactly that file. |
| Storage.CollectNotes | src/services/storage.ts:147-170 | The loop fails exactly when a `.json` entry cannot be read. Otherwise it yields exactly the notes of the listed `.json` files that parse, each once for every listed file that holds it. |
| Storage.LoadNotes | src/services/storage.ts:124-175 | On mobile it never throws, and an unavailable device gives `[]`. Given a true listing of the notes directory, the loaded notes are exactly those stored in `.json` files there, each once for every file that holds it. |
| Storage.PngNames | src/services/storage.ts:219-221 | The filter keeps exactly the listed names that end in `.png`, each as often as it is listed. |
| Storage.PngNamesDistinct | src/services/storage.ts:219-221 | A listing that names each entry once gives each `.png` name once. |
| Storage.GetAllImages | src/services/storage.ts:206-226 | On mobile it never throws, and an unavailable device gives `[]`. Given a true listing of the root, which includes the `notes` directory, the result is exactly the root files whose names end in `.png`, each named once. |
| Storage.DeleteTarget | src/services/storage.ts:177-193 | The desktop removes the `media://` prefix. Mobile cleans the name so that it contains neither `/` nor `?`. |
| Storage.DeleteImage | src/services/storage.ts:177-204 | On mobile it answers whether the cleaned name existed, removes exactly that file, and never throws. |
| Storage.GetImageUrl | src/services/storage.ts:228-266 | The desktop answers `media://` followed by the name. Mobile answers `""` unless the image file can be read, and otherwise a data URL whose payload decodes to the stored bytes. |
| Storage.ElectronUrlRoundTrip | src/services/storage.ts:229-231 | Removing `media://` from the URL handed out for a name gives the name back, both in `saveImage` and in `deleteImage`. |
| Storage.SavedImageIsListed | src/services/storage.ts:44-69 | An image saved on mobile is listed by `getAllImages` afterwards, for any true listing of the root, including the `notes` directory. |
| Storage.SavedImageUrl | src/services/storage.ts:236-242 | An image saved on mobile resolves to the data URL of exactly its bytes. |
| Storage.SaveThenDeleteImage | src/services/storage.ts:185-199 | Deleting an image just saved on mobile answers `true` and restores storage, when the fresh name was not taken before. |
| Storage.SavedNoteIsLoaded | src/services/storage.ts:148-164 | A note saved on mobile is among the notes loaded afterwards. |
| Storage.DeletedNoteIsGone | src/services/storage.ts:112-117 | After a successful delete, the note's file no longer loads. |
| Storage.SaveThenDeleteNote | src/services/storage.ts:93-117 | Deleting a note just saved on mobile answers `true` and restores storage, when the note had no file before. |
| ImageCollection.ExtractFilename | src/components/ImageCollection.tsx:210-223 | A `media://` input loses exactly its scheme. Any other input yields a name with neither `/` nor `?`. |
| ImageCollection.ExtractFilenameOfMediaUrl | src/components/ImageCollection.tsx:213-215 | After `media://`, the rest is returned unprocessed. |
| ImageCollection.ExtractFilenameMediaExample | src/components/ImageCollection.tsx:213-215 | `"media://abc.png"` gives `"abc.png"`. |
| ImageCollection.ExtractFilenameUrlExample | src/components/ImageCollection.tsx:216-222 | `"https://host/img/abc.png?v=2"` gives `"abc.png"`. |
| ImageCollection.ExtractFilenameOfServedUrl | src/components/ImageCollection.tsx:213-215 | A URL the desktop hands out is recovered as the stored name. |
| ImageCollection.ExtractFilenameIdempotent | src/components/ImageCollection.tsx:216-222 | Outside `media://`, extracting again from an extracted name changes nothing. |
| ImageCollection.NormalizeEntry | src/components/ImageCollection.tsx:168-190 | A bare string becomes a fresh id, the extracted file name and "Untitled Image". A record with a `url` and no `storagePath` keeps its id and name, takes its path from the URL and loses its display URL. Any other record passes through. `null` throws. |
| ImageCollection.NormalizeCurrent | src/components/ImageCollection.tsx:181-189 | A record that already has a storage path loads as exactly the image it describes, whatever `url` it still carries. |
| ImageCollection.NormalizeLegacy | src/components/ImageCollection.tsx:169-188 | A legacy entry always migrates, without a display URL. Its file name is the rest after `media://`, or else holds neither `/` nor `?`. |
| ImageCollection.NormalizeReload | src/components/ImageCollection.tsx:168-190 | Migration is stable: saving a loaded entry and loading it again gives the same image without its display URL, and a migrated legacy entry comes back exactly. |
| ImageCollection.NormalizeAll | src/components/ImageCollection.tsx:168-190 | The map throws exactly when some element is `null`. Otherwise each element is migrated in place, with length and order preserved. |
| ImageCollection.Load | src/components/ImageCollection.tsx:161-208 | Empty, unparseable and non-array content, and an array holding `null`, all load as `[]` and never fail. Otherwise the list has the content's length and order, and each element is migrated. |
| ImageCollection.SaveToNote | src/components/ImageCollection.tsx:241-251 | The saved list has the same length and order, and each entry holds exactly the id, storage path and name. |
| ImageCollection.Reparse | src/components/ImageCollection.tsx:249 | The saved text parses back to an array of the same length, each element an object with exactly the three saved fields. |
| ImageCollection.PersistReload | src/components/ImageCollection.tsx:241-249 | Saving, then loading, gives back every image with its id, path and name, in order, with the display URL left to resolve. |
| ImageCollection.SaveShown | src/components/ImageCollection.tsx:241-249 | What a handler saves for the list it shows loads back as that list, without display URLs. |
| ImageCollection.ResolveUrls | src/components/ImageCollection.tsx:225-238 | Length, ids, paths and names are preserved. Images with a usable URL are untouched, and every other image gets the adapter's URL for its path. |
| ImageCollection.ResolveUrlsIdempotent | src/components/ImageCollection.tsx:229-231 | Resolving twice against the same storage is resolving once. |
| ImageCollection.ResolveUrlsSavesSame | src/components/ImageCollection.tsx:243-247 | Resolution never changes what is saved. |
| ImageCollection.ResolveUrlsOnElectron | src/components/ImageCollection.tsx:228-231 | On the desktop, every image ends up with a usable URL. |
| ImageCollection.FindIndex | src/components/ImageCollection.tsx:258-259 | `findIndex` gives the first position holding the id, and `None` exactly when no image has it. |
| ImageCollection.Rename | src/components/ImageCollection.tsx:335-337 | Length, order, ids, paths and URLs are unchanged, and exactly the images with the id get the new name. |
| ImageCollection.RenameAbsent | src/components/ImageCollection.tsx:335-337 | Renaming an absent id returns the identical list. |
| ImageCollection.RenameTwice | src/components/ImageCollection.tsx:335-337 | Of two renames of the same id, the last one wins. |
| ImageCollection.RenameBack | src/components/ImageCollection.tsx:335-337 | Renaming back to the old name restores the list, when the images sharing the id share one name. |
| ImageCollection.HandleRename | src/components/ImageCollection.tsx:334-340 | Only the names of the images with the id change, with length, order and selection kept. What is saved loads back as the renamed list. |
| ImageCollection.Remove | src/components/ImageCollection.tsx:317 | Exactly the images with a different id are kept, and no image with the id remains. |
| ImageCollection.RemoveAppend | src/components/ImageCollection.tsx:317 | Removal works on each part of a list separately, so relative order is kept. |
| ImageCollection.RemoveAbsent | src/components/ImageCollection.tsx:317 | Removing an absent id returns the identical list. |
| ImageCollection.RemoveKeepsOthers | src/components/ImageCollection.tsx:317 | Every image with a different id survives removal. |
| ImageCollection.SelectionAfterRemove | src/components/ImageCollection.tsx:321-331 | The viewer stays open exactly when the old index held an image whose id was not removed. It then points at an image with that id. |
| ImageCollection.RemoveImage | src/components/ImageCollection.tsx:316-332 | No image with the id remains and every other image does. The viewer stays open exactly when the image it showed was not removed, and then still shows an image with that id. What is saved loads back as the remaining list. |
| ImageCollection.ArrayMove | src/components/ImageCollection.tsx:260 | The result has the same length, is a permutation of the input, and holds the moved element at the target index. |
| ImageCollection.ArrayMoveAt | src/components/ImageCollection.tsx:260 | Elements between the two positions shift by one, and the others stay where they are. |
| ImageCollection.ArrayMoveBack | src/components/ImageCollection.tsx:260 | Moving back restores the original list. |
| ImageCollection.HandleDragEnd | src/components/ImageCollection.tsx:253-267 | A drop onto nothing or onto the dragged image changes and saves nothing. Otherwise the list is exactly `arrayMove` from the dragged image's index to the target's, a permutation with the dragged image at the target's position, and what is saved loads back as that list. |
| ImageCollection.UploadOne | src/components/ImageCollection.tsx:281-301 | Each file yields at most one image. |
| ImageCollection.UploadOneOutcome | src/components/ImageCollection.tsx:281-301 | A file yields an image exactly when it was read and saved. The image has the fresh id, the stored name, the file name without its extension and the stored file's URL. A failed file leaves storage unchanged. |
| ImageCollection.SequentiallyAppend | src/components/ImageCollection.tsx:279-302 | Handling `a + b` is handling `a`, then `b` against the storage `a` left. |
| ImageCollection.UploadAll | src/components/ImageCollection.tsx:279-302 | The loop handles the picked files in order, each against storage as the previous ones left it. A batch never yields more images than files, and an empty batch leaves storage as it was. |
| ImageCollection.SequentiallyBound | src/components/ImageCollection.tsx:279-302 | A loop whose step yields at most one image per file yields at most one image per file over the whole batch. |
| ImageCollection.UploadAllAppend | src/components/ImageCollection.tsx:279-302 | The images of a batch come in the order the files were picked. |
| ImageCollection.UploadFailedFile | src/components/ImageCollection.tsx:299-301 | A failed file contributes nothing. |
| ImageCollection.HandleFileChange | src/components/ImageCollection.tsx:273-314 | The old list stays a prefix, and at most one image per file is appended. The list is saved exactly when it grew, and what is saved loads back as the new list. A batch with no successes changes and saves nothing. |
| ImageCollection.GoToNext | src/components/ImageCollection.tsx:342-347 | Next stays in `[0, n)`, steps forward, and wraps after the last image. A closed viewer stays closed, and an empty list yields `NaN`. |
| ImageCollection.GoToPrev | src/components/ImageCollection.tsx:349-354 | Previous stays in `[0, n)`, steps back, and wraps before the first image. A closed viewer stays closed, and an empty list yields `NaN`. |
| ImageCollection.NextPrevInverse | src/components/ImageCollection.tsx:342-354 | Next and previous undo each other. |

## Left out

- Platform detection (`window.electronAPI`, `Capacitor.getPlatform`) is replaced by a `Platform` parameter.
- The desktop main process is not part of this model. Its answers are parameters, and its rejections pass through unchanged, because the desktop branches have no `try`.
- Concurrency is not modelled. This covers `Promise.all`, the `setTimeout` before saving a reorder, and async interleaving such as a handler that reads a stale `images`. Every handler is one sequential step.
- ResolveUrls has no note identity. The code sets the resolved list unconditionally, even when it arrives after the user switched notes (`src/components/ImageCollection.tsx:225-238`). That race is not modelled.
- Logging (`console`), and the `window.alert` that `getImageUrl` shows after a failed read, are not modelled. They do not affect any result.
- `crypto.randomUUID` and the ids of new images are parameters.
- `JSON.parse` and `JSON.stringify` are not modelled as text. Content is an already-parsed datatype, and `Reparse` stands for stringifying the saved list and parsing it again.
- Content elements that are numbers, booleans or nested arrays are not modelled. Neither are records with an id or a name that is not a string, or records with no id.
- In content records, an absent or empty `url`/`storagePath` is modelled as `""`. The migration tests these fields only for truthiness, but an absent `storagePath` of a record that is not migrated also reaches `getImageUrl`. On the desktop that gives `media://undefined`, and the model gives `media://`.
- Record fields other than id, storage path, name and display URL are not modelled. This includes the `url` that a migrated legacy record keeps. Nothing reads them afterwards, and saving drops them.
- When the note is `undefined`, the load effect keeps the current list. `Load` models only the case of a defined note.
- `src/types.ts` is not part of this model. The `Note` datatype lists the fields a note carries, and the adapter reads only `id`.
- On mobile, `loadNotes` pushes whatever JSON value a file parses to. The model distinguishes only a note from text that fails to parse.
- Storage.LoadNotes: states which notes are loaded and how often, not their order. The order is the listing's, by the definition of `CollectNotes`.
- Storage.GetAllImages: states which names are returned and that each comes once, not their order. The order is the listing's, by the definition of `PngNames`.
- Storage.GetImageUrl: on mobile, reading a note file as an image yields `""` in the model. The code yields a data URL of the note's text. Note files are stored parsed, not as bytes.
- Storage.SavedImageIsListed and Storage.SaveThenDeleteImage assume the UUID is in UUID form, meaning hexadecimal digits and dashes.
- The modelled device has no failure other than being unavailable or being given a path it cannot write or does not hold. A per-call I/O error, and a `stat` that fails right after a successful write, are not modelled. Claims that a failing call leaves storage unchanged (Storage.SaveImage, Storage.SaveNote, ImageCollection.UploadOneOutcome) hold of this device. A real write that succeeds before a later step fails leaves its file behind. `SaveImageOnDevice` keeps the written file in its stat-failure branch, as the code does, but no modelled input reaches that branch.
- Directories are implicit: the root and `notes` always exist. The `mkdir` of `notes` is therefore not modelled, and its failures are ignored in the code anyway.
- ImageCollection.HandleDragEnd requires both ids to be in the list. The drag library reports only ids of the sortable images it was given. Its `arrayMove` behaviour for index `-1` is not modelled.
- `file.arrayBuffer()` failures are modelled as a `Result` on the picked file. The input element's reset is not modelled.
- Rendering, the sortable image markup, drag sensors, keyboard and swipe navigation, opening the viewer by click, the confirmation modal and the app shell are not modelled. They contain no list logic.
