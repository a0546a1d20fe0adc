/** The storage adapter (`StorageServiceImpl`): note and image persistence over
    either the desktop shell's IPC bridge or the mobile filesystem.

    The mobile filesystem is an abstract map from paths to entries. Its root and
    its `notes` directory always exist; any other parent directory does not, so a
    write below it fails. The desktop bridge lives in another process: what it
    answers is a parameter of each operation, and its failure is a rejected
    promise, which the adapter lets through to its caller. */
module Storage {
  import opened Wrappers
  import opened Text
  import Base64

  /** The host the adapter detects: the desktop shell when its IPC bridge is
      present, otherwise the platform the mobile runtime reports. */
  datatype Platform = Electron | Web | Ios | Android

  /** The URL scheme under which the desktop shell serves stored images. */
  const MediaScheme: string := "media://"
  /** The directory notes are stored in, a child of the root. */
  const NotesDir: string := "notes"
  const NotesPrefix: string := "notes/"
  const NoteExtension: string := ".json"
  const ImageExtension: string := ".png"
  const DataUrlPrefix: string := "data:image/png;base64,"

  datatype NoteKind = TextNote | ChecklistNote | ImageNote

  /** A note record as the application persists it; the adapter reads only `id`. */
  datatype Note = Note(id: string, kind: NoteKind, title: string, content: string, createdAt: int, updatedAt: int)

  /** The text of a note file, already parsed: a note, or text that fails to parse. */
  datatype NoteJson = Parsed(note: Note) | Unparseable

  /** A stored file: UTF-8 text holding a note, or binary image data. */
  datatype Entry = TextFile(json: NoteJson) | BinaryFile(bytes: seq<Base64.uint8>)

  /** The app's data directory; `available` is false when the device rejects
      every filesystem call (storage unmounted, permission revoked). */
  datatype Fs = Fs(files: map<string, Entry>, available: bool)

  /** What an operation resolves or rejects with, and the filesystem after it. */
  datatype Call<T> = Call(result: Result<T>, fs: Fs)

  /** A file name directly inside a directory. */
  predicate IsPlainName(name: string) {
    name != "" && '/' !in name
  }

  predicate InNotesDir(path: string) {
    StartsWith(path, NotesPrefix) && IsPlainName(path[|NotesPrefix|..])
  }

  /** A path a file can be written at: its parent directory exists, and it is
      not the notes directory itself. */
  predicate Writable(path: string) {
    (IsPlainName(path) && path != NotesDir) || InNotesDir(path)
  }

  /** Where a note is stored: `notes/<id>.json`. */
  function NotePath(id: string): string {
    NotesPrefix + id + NoteExtension
  }

  /** The text of a version-4 UUID: lower-case hexadecimal digits and dashes. */
  predicate IsUuidText(u: string) {
    forall i :: 0 <= i < |u| ==> u[i] in "0123456789abcdef-"
  }

  /** The file name an image gets: `<uuid>.png`. */
  function ImageName(uuid: string): string {
    uuid + ImageExtension
  }

  // ---- The mobile filesystem calls ----

  function WriteFile(fs: Fs, path: string, e: Entry): (r: Result<Fs>)
    ensures r.Ok? <==> fs.available && Writable(path)
    ensures r.Ok? ==> r.value == fs.(files := fs.files[path := e])
  {
    if fs.available && Writable(path) then Ok(fs.(files := fs.files[path := e])) else Threw
  }

  /** Writing base64 data without an encoding stores the bytes it stands for. */
  function WriteBase64(fs: Fs, path: string, data: string): Result<Fs> {
    match Base64.Decode(data)
    case None => Threw
    case Some(bytes) => WriteFile(fs, path, BinaryFile(bytes))
  }

  function ReadFile(fs: Fs, path: string): (r: Result<Entry>)
    ensures r.Ok? <==> fs.available && path in fs.files
  {
    if fs.available && path in fs.files then Ok(fs.files[path]) else Threw
  }

  function DeleteFile(fs: Fs, path: string): (r: Result<Fs>)
    ensures r.Ok? <==> fs.available && path in fs.files
    ensures r.Ok? ==> r.value == fs.(files := fs.files - {path})
  {
    if fs.available && path in fs.files then Ok(fs.(files := fs.files - {path})) else Threw
  }

  predicate Stat(fs: Fs, path: string) {
    fs.available && path in fs.files
  }

  /** The names of the files in the root directory. */
  function RootNames(fs: Fs): set<string> {
    set path | path in fs.files && IsPlainName(path)
  }

  /** What a read of the root directory reports: its files and the notes
      directory, which always exists. */
  function RootEntries(fs: Fs): set<string> {
    RootNames(fs) + {NotesDir}
  }

  /** The names of the files in the notes directory. */
  function NoteNames(fs: Fs): set<string> {
    set path | path in fs.files && InNotesDir(path) :: path[|NotesPrefix|..]
  }

  /** No element occurs twice. */
  predicate Distinct<T(==)>(s: seq<T>) {
    forall i, j :: 0 <= i < j < |s| ==> s[i] != s[j]
  }

  /** `listing` is what a directory read reports for `names`: each name once,
      in an order the platform chooses. */
  predicate IsListing(listing: seq<string>, names: set<string>) {
    && (forall n :: n in names ==> n in listing)
    && (forall i :: 0 <= i < |listing| ==> listing[i] in names)
    && Distinct(listing)
  }

  lemma {:induction false} NotePathShape(id: string)
    ensures StartsWith(NotePath(id), NotesPrefix)
    ensures NotePath(id)[|NotesPrefix|..] == id + NoteExtension
    ensures InNotesDir(NotePath(id)) <==> '/' !in id
    ensures !IsPlainName(NotePath(id))
  {
    var p := NotePath(id);
    assert p[..|NotesPrefix|] == NotesPrefix;
    assert p[|NotesPrefix|..] == id + NoteExtension;
    assert p[5] == '/';
    assert '/' !in NoteExtension;
  }

  lemma {:induction false} ImageNameShape(uuid: string)
    ensures EndsWith(ImageName(uuid), ImageExtension)
    ensures IsPlainName(ImageName(uuid)) <==> '/' !in uuid
    ensures ImageName(uuid) != NotesDir
    ensures IsUuidText(uuid) ==> '/' !in uuid && '?' !in uuid
  {
    var name := ImageName(uuid);
    assert name[|name| - |ImageExtension|..] == ImageExtension;
    assert '/' !in ImageExtension;
  }

  // ---- StorageService ----

  /** `saveImage`. On the desktop the bridge answers with a `media://` URL and the
      first `media://` is removed from it. On mobile the bytes are written, as
      base64, to `<uuid>.png` in the root directory and that name is returned;
      any filesystem failure is rethrown. */
  function SaveImage(p: Platform, fs: Fs, bytes: seq<Base64.uint8>, uuid: string, ipc: Result<string>): (r: Call<string>)
    ensures r.result.Threw? ==> r.fs == fs
    ensures p == Electron ==> r.fs == fs && (r.result.Ok? <==> ipc.Ok?)
    ensures p == Electron && ipc.Ok? && StartsWith(ipc.value, MediaScheme) ==>
      r.result.value == ipc.value[|MediaScheme|..]
    ensures p != Electron ==> (r.result.Ok? <==> fs.available && Writable(ImageName(uuid)))
    ensures p != Electron && IsUuidText(uuid) ==> (r.result.Ok? <==> fs.available)
    ensures p != Electron && r.result.Ok? ==>
      && r.result.value == ImageName(uuid)
      && r.fs == fs.(files := fs.files[ImageName(uuid) := BinaryFile(bytes)])
  {
    if p == Electron then
      match ipc
      case Ok(url) => Call(Ok(RemoveFirst(url, MediaScheme)), fs)
      case Threw => Call(Threw, fs)
    else SaveImageOnDevice(fs, bytes, uuid)
  }

  /** The mobile half of `saveImage`: write, then check the file is there. */
  function SaveImageOnDevice(fs: Fs, bytes: seq<Base64.uint8>, uuid: string): (r: Call<string>)
    ensures r.result.Threw? ==> r.fs == fs
    ensures r.result.Ok? <==> fs.available && Writable(ImageName(uuid))
    ensures IsUuidText(uuid) ==> Writable(ImageName(uuid))
    ensures r.result.Ok? ==>
      && r.result.value == ImageName(uuid)
      && r.fs == fs.(files := fs.files[ImageName(uuid) := BinaryFile(bytes)])
  {
    var data := Base64.ArrayBufferToBase64(bytes);
    var fileName := ImageName(uuid);
    ImageNameShape(uuid);
    assert WriteBase64(fs, fileName, data) == WriteFile(fs, fileName, BinaryFile(bytes));
    match WriteBase64(fs, fileName, data)
    case Threw => Call(Threw, fs)
    case Ok(written) =>
      if Stat(written, fileName) then Call(Ok(fileName), written) else Call(Threw, written)
  }

  /** `saveNote`. On mobile the note goes to `notes/<id>.json`; a failure is
      reported as `false`, never thrown. */
  function SaveNote(p: Platform, fs: Fs, note: Note, ipc: Result<bool>): (r: Call<bool>)
    ensures p == Electron ==> r.result == ipc && r.fs == fs
    ensures p != Electron ==> r.result.Ok?
    ensures p != Electron ==> (r.result.value <==> fs.available && '/' !in note.id)
    ensures p != Electron && r.result.value ==>
      r.fs == fs.(files := fs.files[NotePath(note.id) := TextFile(Parsed(note))])
    ensures p != Electron && !r.result.value ==> r.fs == fs
  {
    if p == Electron then Call(ipc, fs)
    else
      NotePathShape(note.id);
      match WriteFile(fs, NotePath(note.id), TextFile(Parsed(note)))
      case Ok(written) => Call(Ok(true), written)
      case Threw => Call(Ok(false), fs)
  }

  /** `deleteNote`. On mobile a missing file or a failing device yields `false`. */
  function DeleteNote(p: Platform, fs: Fs, id: string, ipc: Result<bool>): (r: Call<bool>)
    ensures p == Electron ==> r.result == ipc && r.fs == fs
    ensures p != Electron ==> r.result == Ok(fs.available && NotePath(id) in fs.files)
    ensures p != Electron && r.result.value ==> r.fs == fs.(files := fs.files - {NotePath(id)})
    ensures p != Electron && !r.result.value ==> r.fs == fs
  {
    if p == Electron then Call(ipc, fs)
    else
      match DeleteFile(fs, NotePath(id))
      case Ok(after) => Call(Ok(true), after)
      case Threw => Call(Ok(false), fs)
  }

  /** The file `notes/<name>` holds a note that parses to `n`. */
  predicate LoadsAs(fs: Fs, name: string, n: Note) {
    && EndsWith(name, NoteExtension)
    && NotesPrefix + name in fs.files
    && fs.files[NotesPrefix + name] == TextFile(Parsed(n))
  }

  /** A `.json` name in the listing whose file cannot be read. */
  predicate Unreadable(fs: Fs, name: string) {
    EndsWith(name, NoteExtension) && !(fs.available && NotesPrefix + name in fs.files)
  }

  /** How many entries of `listing` name a file holding a note that parses to `n`. */
  function LoadingCount(fs: Fs, listing: seq<string>, n: Note): nat
    decreases |listing|
  {
    if |listing| == 0 then 0
    else (if LoadsAs(fs, listing[0], n) then 1 else 0) + LoadingCount(fs, listing[1..], n)
  }

  /** The loop of `loadNotes`: read every `.json` entry, keep the notes that parse
      and skip the rest; a read that fails aborts the whole loop. Each listed
      file contributes its note exactly once. */
  function CollectNotes(fs: Fs, listing: seq<string>): (r: Result<seq<Note>>)
    ensures r.Threw? <==> exists k :: 0 <= k < |listing| && Unreadable(fs, listing[k])
    ensures r.Ok? ==> |r.value| <= |listing|
    ensures r.Ok? ==> forall n :: n in r.value <==> exists k :: 0 <= k < |listing| && LoadsAs(fs, listing[k], n)
    ensures r.Ok? ==> forall n :: multiset(r.value)[n] == LoadingCount(fs, listing, n)
    decreases |listing|
  {
    if |listing| == 0 then Ok([])
    else
      var name, rest := listing[0], CollectNotes(fs, listing[1..]);
      assert forall k :: 1 <= k < |listing| ==> listing[k] == listing[1..][k - 1];
      if !EndsWith(name, NoteExtension) then rest
      else match ReadFile(fs, NotesPrefix + name)
        case Threw => Threw
        case Ok(TextFile(Parsed(n))) =>
          if rest.Ok? then Ok([n] + rest.value) else Threw
        case Ok(_) => rest
  }

  /** `loadNotes`. On mobile: every note file of the notes directory that parses,
      in the order `listing` (the directory read) reports them; a file that fails
      to parse is skipped, and a failing device yields `[]`. */
  function LoadNotes(p: Platform, fs: Fs, listing: seq<string>, ipc: Result<seq<Note>>): (r: Result<seq<Note>>)
    ensures p == Electron ==> r == ipc
    ensures p != Electron ==> r.Ok?
    ensures p != Electron && !fs.available ==> r.value == []
    ensures p != Electron && fs.available && IsListing(listing, NoteNames(fs)) ==>
      forall n :: n in r.value <==> exists name :: name in NoteNames(fs) && LoadsAs(fs, name, n)
    ensures p != Electron && fs.available && IsListing(listing, NoteNames(fs)) ==>
      forall n :: multiset(r.value)[n] == LoadingCount(fs, listing, n)
  {
    if p == Electron then ipc
    else if !fs.available then Ok([])
    else
      var collected := CollectNotes(fs, listing);
      ListedNotesReadable(fs, listing);
      match collected
      case Ok(notes) => Ok(notes)
      case Threw => Ok([])
  }

  /** A listing of the notes directory names only files that can be read. */
  lemma ListedNotesReadable(fs: Fs, listing: seq<string>)
    ensures fs.available && IsListing(listing, NoteNames(fs)) ==>
      forall k :: 0 <= k < |listing| ==> !Unreadable(fs, listing[k])
  {
    forall k | 0 <= k < |listing| && fs.available && IsListing(listing, NoteNames(fs))
      ensures !Unreadable(fs, listing[k])
    {
      var name := listing[k];
      assert name in NoteNames(fs);
      var path :| path in fs.files && InNotesDir(path) && path[|NotesPrefix|..] == name;
      assert path == path[..|NotesPrefix|] + path[|NotesPrefix|..];
    }
  }

  /** The names in `listing` that end in `.png`, in order, each as often as it
      is listed. */
  function PngNames(listing: seq<string>): (r: seq<string>)
    ensures forall x :: x in r <==> x in listing && EndsWith(x, ImageExtension)
    ensures forall x :: multiset(r)[x] == if EndsWith(x, ImageExtension) then multiset(listing)[x] else 0
    ensures |r| <= |listing|
  {
    if |listing| == 0 then []
    else
      assert listing == [listing[0]] + listing[1..];
      if EndsWith(listing[0], ImageExtension) then [listing[0]] + PngNames(listing[1..])
      else PngNames(listing[1..])
  }

  /** Filtering a listing that names each entry once names each `.png` once. */
  lemma {:induction false} PngNamesDistinct(listing: seq<string>)
    requires Distinct(listing)
    ensures Distinct(PngNames(listing))
    decreases |listing|
  {
    if |listing| > 0 {
      var rest := listing[1..];
      assert Distinct(rest) by {
        forall i, j | 0 <= i < j < |rest| ensures rest[i] != rest[j] {
          assert rest[i] == listing[i + 1] && rest[j] == listing[j + 1];
        }
      }
      PngNamesDistinct(rest);
      assert listing[0] !in rest by {
        forall j | 0 <= j < |rest| ensures rest[j] != listing[0] {
          assert rest[j] == listing[j + 1];
        }
      }
    }
  }

  /** `getAllImages`. On mobile: the `.png` names of the root directory, in the
      order `listing` (the directory read) reports them; a failing device yields `[]`. */
  function GetAllImages(p: Platform, fs: Fs, listing: seq<string>, ipc: Result<seq<string>>): (r: Result<seq<string>>)
    ensures p == Electron ==> r == ipc
    ensures p != Electron ==> r.Ok?
    ensures p != Electron && !fs.available ==> r.value == []
    ensures p != Electron && fs.available && IsListing(listing, RootEntries(fs)) ==>
      forall x :: x in r.value <==> x in fs.files && IsPlainName(x) && EndsWith(x, ImageExtension)
    ensures p != Electron && fs.available && IsListing(listing, RootEntries(fs)) ==> Distinct(r.value)
  {
    if p == Electron then ipc
    else if !fs.available then Ok([])
    else
      NotesDirIsNoImage();
      if Distinct(listing) then
        PngNamesDistinct(listing);
        Ok(PngNames(listing))
      else Ok(PngNames(listing))
  }

  /** The filter drops the notes directory from a root listing. */
  lemma NotesDirIsNoImage()
    ensures !EndsWith(NotesDir, ImageExtension)
  {
    assert NotesDir[1..] == "otes";
  }

  /** The name `deleteImage` acts on: the desktop drops the first `media://`; mobile
      keeps the text after the last `/`, cut at the first `?`. */
  function DeleteTarget(p: Platform, fileName: string): (r: string)
    ensures p == Electron && StartsWith(fileName, MediaScheme) ==> r == fileName[|MediaScheme|..]
    ensures p != Electron ==> '/' !in r && '?' !in r
  {
    if p == Electron then RemoveFirst(fileName, MediaScheme) else BaseName(fileName)
  }

  /** `deleteImage`. On mobile a missing file yields `false`, not an exception. */
  function DeleteImage(p: Platform, fs: Fs, fileName: string, ipc: Result<bool>): (r: Call<bool>)
    ensures p == Electron ==> r.result == ipc && r.fs == fs
    ensures p != Electron ==> r.result == Ok(fs.available && DeleteTarget(p, fileName) in fs.files)
    ensures p != Electron && r.result.value ==> r.fs == fs.(files := fs.files - {DeleteTarget(p, fileName)})
    ensures p != Electron && !r.result.value ==> r.fs == fs
  {
    if p == Electron then Call(ipc, fs)
    else
      match DeleteFile(fs, DeleteTarget(p, fileName))
      case Ok(after) => Call(Ok(true), after)
      case Threw => Call(Ok(false), fs)
  }

  /** `getImageUrl`. The desktop serves the file under `media://`; mobile reads the
      file and embeds its bytes in a base64 data URL, or answers `""` when the
      read fails. */
  function GetImageUrl(p: Platform, fs: Fs, fileName: string): (r: string)
    ensures p == Electron ==> StartsWith(r, MediaScheme) && r[|MediaScheme|..] == fileName
    ensures p != Electron ==>
      (r != "" <==> fs.available && fileName in fs.files && fs.files[fileName].BinaryFile?)
    ensures p != Electron && r != "" ==>
      StartsWith(r, DataUrlPrefix) && Base64.Decode(r[|DataUrlPrefix|..]) == Some(fs.files[fileName].bytes)
  {
    if p == Electron then MediaScheme + fileName
    else
      match ReadFile(fs, fileName)
      case Ok(BinaryFile(bytes)) =>
        Base64.DecodeEncode(bytes);
        DataUrlPrefix + Base64.Encode(bytes)
      case _ => ""
  }

  // ---- Consistency of the conventions ----

  /** The desktop URL scheme round-trips: stripping the URL handed out for a name,
      as `saveImage` and `deleteImage` do, gives the name back. */
  lemma ElectronUrlRoundTrip(fs: Fs, name: string)
    ensures RemoveFirst(GetImageUrl(Electron, fs, name), MediaScheme) == name
    ensures SaveImage(Electron, fs, [], "", Ok(GetImageUrl(Electron, fs, name))).result == Ok(name)
    ensures DeleteTarget(Electron, GetImageUrl(Electron, fs, name)) == name
  {
  }

  /** An image saved on mobile is listed by `getAllImages` afterwards. */
  lemma SavedImageIsListed(p: Platform, fs: Fs, bytes: seq<Base64.uint8>, uuid: string, ipc: Result<string>,
                           listing: seq<string>, reply: Result<seq<string>>)
    requires p != Electron
    requires IsUuidText(uuid) && SaveImage(p, fs, bytes, uuid, ipc).result.Ok?
    requires IsListing(listing, RootEntries(SaveImage(p, fs, bytes, uuid, ipc).fs))
    ensures SaveImage(p, fs, bytes, uuid, ipc).result.value
      in GetAllImages(p, SaveImage(p, fs, bytes, uuid, ipc).fs, listing, reply).value
  {
    ImageNameShape(uuid);
  }

  /** An image saved on mobile resolves to a data URL carrying exactly its bytes. */
  lemma SavedImageUrl(p: Platform, fs: Fs, bytes: seq<Base64.uint8>, uuid: string, ipc: Result<string>)
    requires p != Electron
    requires SaveImage(p, fs, bytes, uuid, ipc).result.Ok?
    ensures GetImageUrl(p, SaveImage(p, fs, bytes, uuid, ipc).fs, ImageName(uuid))
      == DataUrlPrefix + Base64.ArrayBufferToBase64(bytes)
  {
    var r := SaveImage(p, fs, bytes, uuid, ipc);
    assert r.fs.files[ImageName(uuid)] == BinaryFile(bytes);
    assert Base64.ArrayBufferToBase64(bytes) == Base64.Encode(bytes);
  }

  /** Deleting an image just saved on mobile succeeds and restores the directory,
      when the fresh name was not taken. */
  lemma SaveThenDeleteImage(p: Platform, fs: Fs, bytes: seq<Base64.uint8>, uuid: string, ipc: Result<string>, reply: Result<bool>)
    requires p != Electron
    requires SaveImage(p, fs, bytes, uuid, ipc).result.Ok?
    requires IsUuidText(uuid) && ImageName(uuid) !in fs.files
    ensures DeleteImage(p, SaveImage(p, fs, bytes, uuid, ipc).fs, ImageName(uuid), reply).result == Ok(true)
    ensures DeleteImage(p, SaveImage(p, fs, bytes, uuid, ipc).fs, ImageName(uuid), reply).fs == fs
  {
    var name := ImageName(uuid);
    ImageNameClean(uuid);
    var after := SaveImage(p, fs, bytes, uuid, ipc).fs;
    assert after.files == fs.files[name := BinaryFile(bytes)];
    assert DeleteTarget(p, name) == name;
    assert after.files - {name} == fs.files;
  }

  /** The mobile cleaning of `deleteImage` leaves a UUID's image name as it is. */
  lemma ImageNameClean(uuid: string)
    requires IsUuidText(uuid)
    ensures BaseName(ImageName(uuid)) == ImageName(uuid)
  {
    var name := ImageName(uuid);
    assert ImageExtension == ['.', 'p', 'n', 'g'];
    assert '/' !in name && '?' !in name by {
      forall i | 0 <= i < |name| ensures name[i] != '/' && name[i] != '?' {
        if i < |uuid| { assert name[i] == uuid[i]; } else { assert name[i] == ImageExtension[i - |uuid|]; }
      }
    }
    BaseNamePlain(name);
  }

  /** A note saved on mobile is among the notes loaded afterwards. */
  lemma SavedNoteIsLoaded(p: Platform, fs: Fs, note: Note, ipc: Result<bool>,
                          listing: seq<string>, reply: Result<seq<Note>>)
    requires p != Electron
    requires SaveNote(p, fs, note, ipc).result == Ok(true)
    requires IsListing(listing, NoteNames(SaveNote(p, fs, note, ipc).fs))
    ensures note in LoadNotes(p, SaveNote(p, fs, note, ipc).fs, listing, reply).value
  {
    var after := SaveNote(p, fs, note, ipc).fs;
    var name := note.id + NoteExtension;
    NotePathShape(note.id);
    assert NotesPrefix + name == NotePath(note.id);
    assert EndsWith(name, NoteExtension);
    assert name in NoteNames(after);
    assert LoadsAs(after, name, note);
  }

  /** A note deleted on mobile is no longer loaded from its file. */
  lemma DeletedNoteIsGone(p: Platform, fs: Fs, id: string, ipc: Result<bool>, n: Note)
    requires p != Electron
    ensures DeleteNote(p, fs, id, ipc).result.value ==> !LoadsAs(DeleteNote(p, fs, id, ipc).fs, id + NoteExtension, n)
  {
    NotePathShape(id);
    assert NotesPrefix + (id + NoteExtension) == NotePath(id);
  }

  /** Deleting a note just saved on mobile answers `true` and restores storage,
      when the note had no file before. */
  lemma SaveThenDeleteNote(p: Platform, fs: Fs, note: Note, ipc: Result<bool>, reply: Result<bool>)
    requires p != Electron
    requires SaveNote(p, fs, note, ipc).result == Ok(true)
    requires NotePath(note.id) !in fs.files
    ensures DeleteNote(p, SaveNote(p, fs, note, ipc).fs, note.id, reply).result == Ok(true)
    ensures DeleteNote(p, SaveNote(p, fs, note, ipc).fs, note.id, reply).fs == fs
  {
    var after := SaveNote(p, fs, note, ipc).fs;
    assert after.files - {NotePath(note.id)} == fs.files;
  }
}
