/** The image-collection note: an ordered list of images, loaded from the note's
    content (including older content shapes), resolved to displayable URLs,
    edited (rename, remove, reorder, upload) and saved back into the note, plus
    the full-screen viewer's selected index.

    Every handler is a pure function from the component's state to the new state
    and to the content it saves, if it saves. Fresh ids, the files the user
    picked and the storage adapter's answers are parameters. */
module ImageCollection {
  import opened Wrappers
  import opened Text
  import Base64
  import Storage

  /** The name a legacy bare-path entry gets. */
  const UntitledName: string := "Untitled Image"

  /** An image of the collection. `storagePath` is the file name in storage;
      `displayUrl` is the runtime URL the image is shown from, never saved. */
  datatype ImageItem = ImageItem(id: string, storagePath: string, name: string, displayUrl: Option<string>)

  /** The part of an image that is saved into the note. */
  datatype StoredItem = StoredItem(id: string, storagePath: string, name: string)

  /** An element of the parsed content array. `Bare` is the oldest shape (a path
      or URL string); `Record` is an object whose string fields, when absent or
      empty, are `""`; `Null` is a JSON `null`. */
  datatype RawEntry =
    | Bare(path: string)
    | Record(id: string, storagePath: string, name: string, url: string, displayUrl: Option<string>)
    | Null

  /** A note's content: empty, text that fails to parse, parsed JSON that is not
      an array, or an array. */
  datatype Content = NoContent | Unparseable | NotAnArray | Entries(entries: seq<RawEntry>)

  /** The viewer's selected index: closed (`null`), open at an index, or `NaN`,
      which arithmetic modulo an empty list's length produces. */
  datatype Selection = Closed | Open(index: nat) | NotANumber

  datatype State = State(images: seq<ImageItem>, selection: Selection)

  /** A handler's outcome: the new state and the content it saves into the note. */
  datatype Update = Update(state: State, saved: Option<seq<StoredItem>>)

  /** A URL is only used when it is a non-empty string. */
  predicate Resolved(item: ImageItem) {
    item.displayUrl.Some? && item.displayUrl.value != ""
  }

  function Durable(item: ImageItem): StoredItem {
    StoredItem(item.id, item.storagePath, item.name)
  }

  // ---- Loading ----

  /** `extractFilename`: a `media://` URL loses its scheme and nothing else; any
      other path or URL keeps the text after its last `/`, cut at the first `?`. */
  function ExtractFilename(pathOrUrl: string): (r: string)
    ensures StartsWith(pathOrUrl, Storage.MediaScheme) ==> r == pathOrUrl[|Storage.MediaScheme|..]
    ensures !StartsWith(pathOrUrl, Storage.MediaScheme) ==> '/' !in r && '?' !in r && |r| <= |pathOrUrl|
  {
    if StartsWith(pathOrUrl, Storage.MediaScheme) then RemoveFirst(pathOrUrl, Storage.MediaScheme)
    else BaseName(pathOrUrl)
  }

  /** A `media://` URL loses exactly its scheme: no `/` or `?` processing follows. */
  lemma ExtractFilenameOfMediaUrl(rest: string)
    ensures ExtractFilename(Storage.MediaScheme + rest) == rest
  {
    assert (Storage.MediaScheme + rest)[..|Storage.MediaScheme|] == Storage.MediaScheme;
  }

  lemma ExtractFilenameMediaExample()
    ensures ExtractFilename("media://abc.png") == "abc.png"
  {
    ExtractFilenameOfMediaUrl("abc.png");
  }

  /** Any other URL keeps its last path segment without the query. */
  lemma ExtractFilenameUrlExample()
    ensures ExtractFilename("https://host/img/abc.png?v=2") == "abc.png"
  {
    var url := "https://host/img/abc.png?v=2";
    assert url[0] != Storage.MediaScheme[0];
    assert url == "https://host/img" + "/" + "abc.png" + "?" + "v=2";
    BaseNameOfUrl("https://host/img", "abc.png", "v=2");
  }

  /** The URLs the desktop shell hands out are recovered as the file name. */
  lemma ExtractFilenameOfServedUrl(fs: Storage.Fs, name: string)
    ensures ExtractFilename(Storage.GetImageUrl(Storage.Electron, fs, name)) == name
  {
  }

  /** Extracting again from an extracted name changes nothing, unless the name
      came from a `media://` URL. */
  lemma ExtractFilenameIdempotent(s: string)
    requires !StartsWith(s, Storage.MediaScheme)
    ensures ExtractFilename(ExtractFilename(s)) == ExtractFilename(s)
  {
    var r := ExtractFilename(s);
    assert r == BaseName(s);
    SlashFreeNotMedia(r);
    BaseNamePlain(r);
  }

  lemma SlashFreeNotMedia(r: string)
    requires '/' !in r
    ensures !StartsWith(r, Storage.MediaScheme)
  {
    assert Storage.MediaScheme == "media:" + "//";
    if |r| >= |Storage.MediaScheme| {
      assert r[..|Storage.MediaScheme|][6] == r[6];
    }
  }

  /** One element of the content array, migrated to the current shape; a `null`
      element makes the whole load throw. */
  function NormalizeEntry(e: RawEntry, freshId: string): (r: Result<ImageItem>)
    ensures r.Threw? <==> e.Null?
    ensures e.Bare? ==> r.value == ImageItem(freshId, ExtractFilename(e.path), UntitledName, None)
    ensures e.Record? && e.url != "" && e.storagePath == "" ==>
      r.value == ImageItem(e.id, ExtractFilename(e.url), e.name, None)
    ensures e.Record? && (e.url == "" || e.storagePath != "") ==>
      r.value == ImageItem(e.id, e.storagePath, e.name, e.displayUrl)
  {
    match e
    case Bare(path) => Ok(ImageItem(freshId, ExtractFilename(path), UntitledName, None))
    case Record(id, storagePath, name, url, displayUrl) =>
      if url != "" && storagePath == "" then Ok(ImageItem(id, ExtractFilename(url), name, None))
      else Ok(ImageItem(id, storagePath, name, displayUrl))
    case Null => Threw
  }

  /** An entry in one of the two legacy shapes, which loading migrates. */
  predicate IsLegacy(e: RawEntry) {
    e.Bare? || (e.Record? && e.url != "" && e.storagePath == "")
  }

  /** The path or URL a legacy entry's file name is extracted from. */
  function LegacySource(e: RawEntry): string
    requires IsLegacy(e)
  {
    if e.Bare? then e.path else e.url
  }

  /** A record already in the current shape loads as the image it describes,
      whatever legacy `url` it still carries. */
  lemma NormalizeCurrent(item: ImageItem, url: string, freshId: string)
    requires item.storagePath != ""
    ensures NormalizeEntry(Record(item.id, item.storagePath, item.name, url, item.displayUrl), freshId) == Ok(item)
  {
  }

  /** A migrated legacy entry gets a cleaned file name: a `media://` URL loses
      exactly its scheme, any other path or URL keeps neither `/` nor `?`. Its
      display URL is left to resolve. */
  lemma NormalizeLegacy(e: RawEntry, freshId: string)
    requires IsLegacy(e)
    ensures NormalizeEntry(e, freshId).Ok? && NormalizeEntry(e, freshId).value.displayUrl.None?
    ensures StartsWith(LegacySource(e), Storage.MediaScheme) ==>
      NormalizeEntry(e, freshId).value.storagePath == LegacySource(e)[|Storage.MediaScheme|..]
    ensures !StartsWith(LegacySource(e), Storage.MediaScheme) ==>
      '/' !in NormalizeEntry(e, freshId).value.storagePath && '?' !in NormalizeEntry(e, freshId).value.storagePath
  {
  }

  /** Migration is stable: saving a loaded entry and loading it again gives the
      same image, without its display URL; a migrated legacy entry had none, so
      it comes back exactly. */
  lemma NormalizeReload(e: RawEntry, freshId: string, nextId: string)
    requires !e.Null?
    ensures NormalizeEntry(StoredRecord(Durable(NormalizeEntry(e, freshId).value)), nextId)
      == Ok(NormalizeEntry(e, freshId).value.(displayUrl := None))
    ensures IsLegacy(e) ==>
      NormalizeEntry(StoredRecord(Durable(NormalizeEntry(e, freshId).value)), nextId) == NormalizeEntry(e, freshId)
  {
  }

  function NormalizeAll(entries: seq<RawEntry>, freshIds: seq<string>): (r: Result<seq<ImageItem>>)
    requires |freshIds| == |entries|
    ensures r.Threw? <==> exists i :: 0 <= i < |entries| && entries[i].Null?
    ensures r.Ok? ==> |r.value| == |entries|
    ensures r.Ok? ==> forall i :: 0 <= i < |entries| ==> NormalizeEntry(entries[i], freshIds[i]) == Ok(r.value[i])
  {
    if |entries| == 0 then Ok([])
    else
      var rest := NormalizeAll(entries[1..], freshIds[1..]);
      assert forall i :: 1 <= i < |entries| ==> entries[i] == entries[1..][i - 1] && freshIds[i] == freshIds[1..][i - 1];
      match NormalizeEntry(entries[0], freshIds[0])
      case Threw => Threw
      case Ok(item) =>
        if rest.Ok? then Ok([item] + rest.value) else Threw
  }

  /** The load effect: the content's entries, migrated in order; every other
      content (and any failure while migrating) loads as the empty list. Bare
      entries take their ids from `freshIds`, index for index. */
  function Load(c: Content, freshIds: seq<string>): (r: seq<ImageItem>)
    requires c.Entries? ==> |freshIds| == |c.entries|
    ensures !c.Entries? ==> r == []
    ensures c.Entries? && (exists i :: 0 <= i < |c.entries| && c.entries[i].Null?) ==> r == []
    ensures c.Entries? && (forall i :: 0 <= i < |c.entries| ==> !c.entries[i].Null?) ==>
      && |r| == |c.entries|
      && forall i :: 0 <= i < |r| ==> NormalizeEntry(c.entries[i], freshIds[i]) == Ok(r[i])
  {
    match c
    case Entries(entries) =>
      (match NormalizeAll(entries, freshIds)
       case Ok(items) => items
       case Threw => [])
    case _ => []
  }

  // ---- Saving ----

  /** `saveToNote`'s payload: every image without its display URL, in order. */
  function SaveToNote(items: seq<ImageItem>): (r: seq<StoredItem>)
    ensures |r| == |items|
    ensures forall i :: 0 <= i < |items| ==>
      r[i].id == items[i].id && r[i].storagePath == items[i].storagePath && r[i].name == items[i].name
  {
    if |items| == 0 then [] else [Durable(items[0])] + SaveToNote(items[1..])
  }

  /** A saved entry as the next load parses it: an object with exactly the three
      saved fields. */
  function StoredRecord(s: StoredItem): RawEntry {
    Record(s.id, s.storagePath, s.name, "", None)
  }

  /** The saved payload as the next load parses it back. */
  function Reparse(stored: seq<StoredItem>): (c: Content)
    ensures c.Entries? && |c.entries| == |stored|
    ensures forall i :: 0 <= i < |stored| ==> c.entries[i] == StoredRecord(stored[i])
  {
    Entries(seq(|stored|, i requires 0 <= i < |stored| => StoredRecord(stored[i])))
  }

  /** What the next load makes of a saved payload. A payload holds no bare
      entries, so the ids drawn for them are never used; the saved ids stand in. */
  function Reload(stored: seq<StoredItem>): seq<ImageItem> {
    Load(Reparse(stored), seq(|stored|, i requires 0 <= i < |stored| => stored[i].id))
  }

  /** The content an update saves loads back as the images it shows, each
      without its display URL. */
  predicate SavedAsShown(u: Update) {
    u.saved.Some? ==>
      && |Reload(u.saved.value)| == |u.state.images|
      && forall i :: 0 <= i < |u.state.images| ==> Reload(u.saved.value)[i] == u.state.images[i].(displayUrl := None)
  }

  /** Saving a list and showing it are consistent. */
  lemma SaveShown(st: State)
    ensures SavedAsShown(Update(st, Some(SaveToNote(st.images))))
  {
    var stored := SaveToNote(st.images);
    PersistReload(st.images, seq(|stored|, i requires 0 <= i < |stored| => stored[i].id));
  }

  /** Saving and loading again gives back every image, with the same id, file and
      name, in the same order; only the display URLs are left to resolve. */
  lemma {:induction false} PersistReload(items: seq<ImageItem>, freshIds: seq<string>)
    requires |freshIds| == |items|
    ensures |Load(Reparse(SaveToNote(items)), freshIds)| == |items|
    ensures forall i :: 0 <= i < |items| ==>
      Load(Reparse(SaveToNote(items)), freshIds)[i] == items[i].(displayUrl := None)
  {
    var c := Reparse(SaveToNote(items));
    assert forall i :: 0 <= i < |c.entries| ==> !c.entries[i].Null?;
  }

  // ---- Resolving display URLs ----

  /** `resolveImageUrls`: images that already have a usable URL are kept; every
      other image gets the URL the storage adapter gives for its file. */
  function ResolveUrls(items: seq<ImageItem>, p: Storage.Platform, fs: Storage.Fs): (r: seq<ImageItem>)
    ensures |r| == |items|
    ensures forall i :: 0 <= i < |items| ==> Durable(r[i]) == Durable(items[i]) && r[i].displayUrl.Some?
    ensures forall i :: 0 <= i < |items| && Resolved(items[i]) ==> r[i] == items[i]
    ensures forall i :: 0 <= i < |items| && !Resolved(items[i]) ==>
      r[i].displayUrl == Some(Storage.GetImageUrl(p, fs, items[i].storagePath))
  {
    if |items| == 0 then []
    else
      var item := items[0];
      var first := if Resolved(item) then item
        else item.(displayUrl := Some(Storage.GetImageUrl(p, fs, item.storagePath)));
      [first] + ResolveUrls(items[1..], p, fs)
  }

  /** Resolving twice against the same storage is resolving once. */
  lemma {:induction false} ResolveUrlsIdempotent(items: seq<ImageItem>, p: Storage.Platform, fs: Storage.Fs)
    ensures ResolveUrls(ResolveUrls(items, p, fs), p, fs) == ResolveUrls(items, p, fs)
  {
    var once := ResolveUrls(items, p, fs);
    var twice := ResolveUrls(once, p, fs);
    forall i | 0 <= i < |items|
      ensures twice[i] == once[i]
    {
      if !Resolved(once[i]) {
        assert !Resolved(items[i]);
      }
    }
  }

  /** Resolution never changes what is saved. */
  lemma {:induction false} ResolveUrlsSavesSame(items: seq<ImageItem>, p: Storage.Platform, fs: Storage.Fs)
    ensures SaveToNote(ResolveUrls(items, p, fs)) == SaveToNote(items)
  {
  }

  /** On the desktop every image ends up with a usable URL. */
  lemma {:induction false} ResolveUrlsOnElectron(items: seq<ImageItem>, fs: Storage.Fs)
    ensures forall i :: 0 <= i < |items| ==> Resolved(ResolveUrls(items, Storage.Electron, fs)[i])
  {
  }

  // ---- Looking up by id ----

  predicate HasId(items: seq<ImageItem>, id: string) {
    exists i :: 0 <= i < |items| && items[i].id == id
  }

  /** `findIndex` by id: the first position holding `id`, if any. */
  function FindIndex(items: seq<ImageItem>, id: string): (r: Option<nat>)
    ensures r.Some? ==> r.value < |items| && items[r.value].id == id
    ensures r.Some? ==> forall j :: 0 <= j < r.value ==> items[j].id != id
    ensures r.None? <==> !HasId(items, id)
  {
    if |items| == 0 then None
    else if items[0].id == id then Some(0)
    else
      var rest := FindIndex(items[1..], id);
      assert forall j :: 1 <= j < |items| ==> items[j] == items[1..][j - 1];
      match rest
      case None => None
      case Some(k) => Some(k + 1)
  }

  // ---- Rename ----

  /** Every image with id `id` gets `name`; nothing else changes. */
  function Rename(items: seq<ImageItem>, id: string, name: string): (r: seq<ImageItem>)
    ensures |r| == |items|
    ensures forall i :: 0 <= i < |items| ==>
      && r[i].id == items[i].id && r[i].storagePath == items[i].storagePath
      && r[i].displayUrl == items[i].displayUrl
      && r[i].name == (if items[i].id == id then name else items[i].name)
  {
    if |items| == 0 then []
    else
      var first := if items[0].id == id then items[0].(name := name) else items[0];
      [first] + Rename(items[1..], id, name)
  }

  /** Renaming an id that is not there returns the identical list. */
  lemma {:induction false} RenameAbsent(items: seq<ImageItem>, id: string, name: string)
    requires !HasId(items, id)
    ensures Rename(items, id, name) == items
  {
    var r := Rename(items, id, name);
    forall i | 0 <= i < |items| ensures r[i] == items[i] {
      assert items[i].id != id;
    }
  }

  /** The last rename wins, and renaming back restores the list when every image
      with that id had the same name. */
  lemma {:induction false} RenameTwice(items: seq<ImageItem>, id: string, first: string, second: string)
    ensures Rename(Rename(items, id, first), id, second) == Rename(items, id, second)
  {
  }

  lemma {:induction false} RenameBack(items: seq<ImageItem>, i: nat, name: string)
    requires i < |items|
    requires forall j :: 0 <= j < |items| && items[j].id == items[i].id ==> items[j].name == items[i].name
    ensures Rename(Rename(items, items[i].id, name), items[i].id, items[i].name) == items
  {
    var r := Rename(Rename(items, items[i].id, name), items[i].id, items[i].name);
    forall j | 0 <= j < |items| ensures r[j] == items[j] { }
  }

  /** `handleRename`: rename and save. Only the names of the images with the id
      change, and what is saved loads back as the renamed list. */
  function HandleRename(st: State, id: string, name: string): (r: Update)
    ensures r.state == st.(images := Rename(st.images, id, name))
    ensures r.saved == Some(SaveToNote(r.state.images))
    ensures r.state.selection == st.selection && |r.state.images| == |st.images|
    ensures forall i :: 0 <= i < |st.images| ==>
      r.state.images[i] == if st.images[i].id == id then st.images[i].(name := name) else st.images[i]
    ensures SavedAsShown(r)
  {
    var renamed := Rename(st.images, id, name);
    SaveShown(st.(images := renamed));
    Update(st.(images := renamed), Some(SaveToNote(renamed)))
  }

  // ---- Remove ----

  /** `filter` on a different id. */
  function Remove(items: seq<ImageItem>, id: string): (r: seq<ImageItem>)
    ensures |r| <= |items|
    ensures forall x :: x in r <==> x in items && x.id != id
    ensures !HasId(r, id)
  {
    if |items| == 0 then []
    else if items[0].id == id then Remove(items[1..], id)
    else [items[0]] + Remove(items[1..], id)
  }

  /** Removal keeps the relative order: it acts on each part of a list separately. */
  lemma {:induction false} RemoveAppend(a: seq<ImageItem>, b: seq<ImageItem>, id: string)
    ensures Remove(a + b, id) == Remove(a, id) + Remove(b, id)
    decreases |a|
  {
    if |a| == 0 {
      assert a + b == b;
    } else {
      assert (a + b)[1..] == a[1..] + b;
      RemoveAppend(a[1..], b, id);
    }
  }

  /** Removing an id that is not there returns the identical list. */
  lemma {:induction false} RemoveAbsent(items: seq<ImageItem>, id: string)
    requires !HasId(items, id)
    ensures Remove(items, id) == items
    decreases |items|
  {
    if |items| > 0 {
      assert items[0].id != id;
      assert !HasId(items[1..], id) by {
        forall j | 0 <= j < |items[1..]| ensures items[1..][j].id != id {
          assert items[1..][j] == items[j + 1];
        }
      }
      RemoveAbsent(items[1..], id);
      assert items == [items[0]] + items[1..];
    }
  }

  /** Every image whose id differs survives removal. */
  lemma {:induction false} RemoveKeepsOthers(items: seq<ImageItem>, id: string, i: nat)
    requires i < |items| && items[i].id != id
    ensures HasId(Remove(items, id), items[i].id)
  {
    var x := items[i];
    assert x in Remove(items, id);
    var k :| 0 <= k < |Remove(items, id)| && Remove(items, id)[k] == x;
  }

  /** The viewer's selection after removing `id`: closed when the selected image
      was removed or nothing valid was selected; otherwise the new position of
      the selected image's id. */
  function SelectionAfterRemove(images: seq<ImageItem>, sel: Selection, id: string): (r: Selection)
    ensures sel.Closed? ==> r.Closed?
    ensures !r.NotANumber?
    ensures r.Open? <==> sel.Open? && sel.index < |images| && images[sel.index].id != id
    ensures r.Open? ==> r.index < |Remove(images, id)|
    ensures r.Open? ==> Remove(images, id)[r.index].id == images[sel.index].id
  {
    match sel
    case Closed => Closed
    case NotANumber => Closed
    case Open(i) =>
      if i >= |images| then Closed
      else if images[i].id == id then Closed
      else
        RemoveKeepsOthers(images, id, i);
        match FindIndex(Remove(images, id), images[i].id)
        case None => Closed
        case Some(j) => Open(j)
  }

  /** `removeImage`: drop every image with the id, save, and fix the selection.
      No image with the id remains, every other one does, the viewer keeps
      showing the image it showed unless that one was removed, and what is
      saved loads back as the remaining list. */
  function RemoveImage(st: State, id: string): (r: Update)
    ensures r.state.images == Remove(st.images, id)
    ensures r.saved == Some(SaveToNote(r.state.images))
    ensures r.state.selection == SelectionAfterRemove(st.images, st.selection, id)
    ensures !HasId(r.state.images, id)
    ensures forall x :: x in r.state.images <==> x in st.images && x.id != id
    ensures r.state.selection.Open? <==>
      st.selection.Open? && st.selection.index < |st.images| && st.images[st.selection.index].id != id
    ensures r.state.selection.Open? ==>
      && r.state.selection.index < |r.state.images|
      && r.state.images[r.state.selection.index].id == st.images[st.selection.index].id
    ensures SavedAsShown(r)
  {
    var remaining := Remove(st.images, id);
    var selection := SelectionAfterRemove(st.images, st.selection, id);
    SaveShown(State(remaining, selection));
    Update(State(remaining, selection), Some(SaveToNote(remaining)))
  }

  // ---- Reorder ----

  /** `arrayMove`: take the element at `from` out, then insert it at `to`. */
  function ArrayMove<T>(s: seq<T>, from: nat, to: nat): (r: seq<T>)
    requires from < |s| && to < |s|
    ensures |r| == |s| && r[to] == s[from]
    ensures multiset(r) == multiset(s)
  {
    var rest := s[..from] + s[from + 1..];
    MovePermutes(s, from, to);
    rest[..to] + [s[from]] + rest[to..]
  }

  lemma MovePermutes<T>(s: seq<T>, from: nat, to: nat)
    requires from < |s| && to <= |s| - 1
    ensures multiset((s[..from] + s[from + 1..])[..to] + [s[from]] + (s[..from] + s[from + 1..])[to..]) == multiset(s)
  {
    var x, rest := s[from], s[..from] + s[from + 1..];
    var r := rest[..to] + [x] + rest[to..];
    assert s == s[..from] + [x] + s[from + 1..];
    assert multiset(s) == multiset(s[..from]) + multiset([x]) + multiset(s[from + 1..]);
    assert multiset(rest) == multiset(s[..from]) + multiset(s[from + 1..]);
    assert rest == rest[..to] + rest[to..];
    assert multiset(rest) == multiset(rest[..to]) + multiset(rest[to..]);
    assert multiset(r) == multiset(rest[..to]) + multiset([x]) + multiset(rest[to..]);
    assert multiset(r) == multiset(rest) + multiset([x]);
    assert multiset(s) == multiset(rest) + multiset([x]);
  }

  /** Where every element goes: the moved one to `to`, the ones between the two
      positions shift by one towards `from`, the rest stay. */
  lemma ArrayMoveAt<T>(s: seq<T>, from: nat, to: nat, i: nat)
    requires from < |s| && to < |s| && i < |s|
    ensures ArrayMove(s, from, to)[i] ==
      if i == to then s[from]
      else if from < to && from <= i < to then s[i + 1]
      else if to < from && to < i <= from then s[i - 1]
      else s[i]
  {
  }

  /** Moving back restores the original order. */
  lemma ArrayMoveBack<T>(s: seq<T>, from: nat, to: nat)
    requires from < |s| && to < |s|
    ensures ArrayMove(ArrayMove(s, from, to), to, from) == s
  {
    var m := ArrayMove(s, from, to);
    var rest := s[..from] + s[from + 1..];
    assert m[..to] + m[to + 1..] == rest;
    assert rest[..from] + [s[from]] + rest[from..] == s;
  }

  /** `handleDragEnd`. Dropping onto nothing or onto the dragged image itself
      changes nothing and saves nothing; otherwise the dragged image moves to
      the position of the one it was dropped on, and the list is saved. */
  function HandleDragEnd(st: State, active: string, over: Option<string>): (r: Update)
    requires HasId(st.images, active)
    requires over.Some? ==> HasId(st.images, over.value)
    ensures r.state.selection == st.selection
    ensures over.None? || over.value == active ==> r == Update(st, None)
    ensures over.Some? && over.value != active ==>
      && |r.state.images| == |st.images|
      && multiset(r.state.images) == multiset(st.images)
      && r.state.images[FindIndex(st.images, over.value).value] == st.images[FindIndex(st.images, active).value]
      && r.saved == Some(SaveToNote(r.state.images))
    ensures over.Some? && over.value != active ==>
      r.state.images == ArrayMove(st.images, FindIndex(st.images, active).value, FindIndex(st.images, over.value).value)
    ensures SavedAsShown(r)
  {
    if over.Some? && active != over.value then
      var from := FindIndex(st.images, active).value;
      var to := FindIndex(st.images, over.value).value;
      var moved := ArrayMove(st.images, from, to);
      SaveShown(st.(images := moved));
      Update(st.(images := moved), Some(SaveToNote(moved)))
    else Update(st, None)
  }

  // ---- Upload ----

  /** A file the user picked, with everything the upload does with it that comes
      from outside: the bytes read from it (or a read failure), the UUID the
      storage adapter draws, the desktop bridge's answer, and the fresh id. */
  datatype PickedFile = PickedFile(
    name: string, bytes: Result<seq<Base64.uint8>>, uuid: string, ipcReply: Result<string>, freshId: string)

  /** The images an upload produced, and storage after it. */
  datatype Batch = Batch(items: seq<ImageItem>, fs: Storage.Fs)

  /** One file of `handleFileChange`: read it, save it, resolve its URL and name
      it after the file without its extension; any failure skips the file. */
  function UploadOne(p: Storage.Platform, fs: Storage.Fs, f: PickedFile): (r: Batch)
    ensures |r.items| <= 1
  {
    match f.bytes
    case Threw => Batch([], fs)
    case Ok(bytes) =>
      var saved := Storage.SaveImage(p, fs, bytes, f.uuid, f.ipcReply);
      match saved.result
      case Threw => Batch([], fs)
      case Ok(storagePath) =>
        var url := Storage.GetImageUrl(p, saved.fs, storagePath);
        Batch([ImageItem(f.freshId, storagePath, StripExtension(f.name), Some(url))], saved.fs)
  }

  /** A file yields an image exactly when it was read and saved; the image has
      the fresh id, the stored name, the file name without its extension and the
      URL of the stored file. A file that fails leaves storage as it was. */
  lemma UploadOneOutcome(p: Storage.Platform, fs: Storage.Fs, f: PickedFile)
    ensures |UploadOne(p, fs, f).items| == 1 <==>
      f.bytes.Ok? && Storage.SaveImage(p, fs, f.bytes.value, f.uuid, f.ipcReply).result.Ok?
    ensures |UploadOne(p, fs, f).items| == 0 ==> UploadOne(p, fs, f).fs == fs
    ensures |UploadOne(p, fs, f).items| == 1 ==>
      var saved := Storage.SaveImage(p, fs, f.bytes.value, f.uuid, f.ipcReply);
      && UploadOne(p, fs, f).fs == saved.fs
      && UploadOne(p, fs, f).items[0] == ImageItem(f.freshId, saved.result.value, StripExtension(f.name),
                                                   Some(Storage.GetImageUrl(p, saved.fs, saved.result.value)))
  {
  }

  /** Files handled one after another, each against storage as the previous
      ones left it, collecting the images they produce. */
  function Sequentially(step: (Storage.Fs, PickedFile) -> Batch, fs: Storage.Fs, files: seq<PickedFile>): Batch
    decreases |files|
  {
    if |files| == 0 then Batch([], fs)
    else
      var first := step(fs, files[0]);
      var rest := Sequentially(step, first.fs, files[1..]);
      Batch(first.items + rest.items, rest.fs)
  }

  /** Handling `a + b` is handling `a`, then `b` against the storage `a` left. */
  lemma {:induction false} SequentiallyAppend(step: (Storage.Fs, PickedFile) -> Batch, fs: Storage.Fs,
                                              a: seq<PickedFile>, b: seq<PickedFile>)
    ensures Sequentially(step, fs, a + b).items ==
      Sequentially(step, fs, a).items + Sequentially(step, Sequentially(step, fs, a).fs, b).items
    ensures Sequentially(step, fs, a + b).fs == Sequentially(step, Sequentially(step, fs, a).fs, b).fs
    decreases |a|
  {
    if |a| == 0 {
      assert a + b == b;
    } else {
      assert (a + b)[0] == a[0] && (a + b)[1..] == a[1..] + b;
      SequentiallyAppend(step, step(fs, a[0]).fs, a[1..], b);
    }
  }

  /** A step that yields at most one image per file yields at most one image
      per file over a whole batch. */
  lemma {:induction false} SequentiallyBound(step: (Storage.Fs, PickedFile) -> Batch, fs: Storage.Fs, files: seq<PickedFile>)
    requires forall s, f :: |step(s, f).items| <= 1
    ensures |Sequentially(step, fs, files).items| <= |files|
    decreases |files|
  {
    if |files| > 0 {
      SequentiallyBound(step, step(fs, files[0]).fs, files[1..]);
    }
  }

  /** The loop of `handleFileChange`: every picked file, in order, each against
      storage as the previous ones left it. No file yields more than one image,
      and no files leave storage as it was. */
  function UploadAll(p: Storage.Platform, fs: Storage.Fs, files: seq<PickedFile>): (r: Batch)
    ensures |r.items| <= |files|
    ensures |files| == 0 ==> r == Batch([], fs)
  {
    var step := (s: Storage.Fs, f: PickedFile) => UploadOne(p, s, f);
    SequentiallyBound(step, fs, files);
    Sequentially(step, fs, files)
  }

  /** The images of `a + b` are those of `a` followed by those of `b`, in the
      order the files were picked. */
  lemma UploadAllAppend(p: Storage.Platform, fs: Storage.Fs, a: seq<PickedFile>, b: seq<PickedFile>)
    ensures UploadAll(p, fs, a + b).items ==
      UploadAll(p, fs, a).items + UploadAll(p, UploadAll(p, fs, a).fs, b).items
    ensures UploadAll(p, fs, a + b).fs == UploadAll(p, UploadAll(p, fs, a).fs, b).fs
  {
    SequentiallyAppend((s: Storage.Fs, f: PickedFile) => UploadOne(p, s, f), fs, a, b);
  }

  /** A file that fails contributes no image and leaves storage as it was. */
  lemma {:induction false} UploadFailedFile(p: Storage.Platform, fs: Storage.Fs, f: PickedFile, rest: seq<PickedFile>)
    requires f.bytes.Threw? || Storage.SaveImage(p, fs, f.bytes.value, f.uuid, f.ipcReply).result.Threw?
    ensures UploadAll(p, fs, [f] + rest) == UploadAll(p, fs, rest)
  {
    UploadOneOutcome(p, fs, f);
    assert ([f] + rest)[0] == f && ([f] + rest)[1..] == rest;
  }

  /** `handleFileChange`: the images of the files that were saved are appended
      after the existing ones, in the order the files were picked, and the list
      is saved; when no file was saved nothing changes and nothing is saved.
      The old list stays a prefix, at most one image is added per file, and
      what is saved loads back as the new list. */
  function HandleFileChange(st: State, p: Storage.Platform, fs: Storage.Fs, files: seq<PickedFile>): (r: (Update, Storage.Fs))
    ensures r.0.state.selection == st.selection
    ensures r.1 == UploadAll(p, fs, files).fs
    ensures r.0.state.images == st.images + UploadAll(p, fs, files).items
    ensures |UploadAll(p, fs, files).items| == 0 ==> r.0 == Update(st, None)
    ensures |UploadAll(p, fs, files).items| > 0 ==> r.0.saved == Some(SaveToNote(r.0.state.images))
    ensures |st.images| <= |r.0.state.images| <= |st.images| + |files|
    ensures r.0.state.images[..|st.images|] == st.images
    ensures r.0.saved.Some? <==> |r.0.state.images| > |st.images|
    ensures SavedAsShown(r.0)
  {
    var batch := UploadAll(p, fs, files);
    if |batch.items| > 0 then
      var updated := st.images + batch.items;
      assert updated[..|st.images|] == st.images;
      SaveShown(st.(images := updated));
      (Update(st.(images := updated), Some(SaveToNote(updated))), batch.fs)
    else
      assert st.images + batch.items == st.images;
      (Update(st, None), batch.fs)
  }

  // ---- Viewer navigation ----

  /** `goToNext`: one step forward, wrapping after the last image. */
  function GoToNext(sel: Selection, count: nat): (r: Selection)
    ensures sel.Closed? ==> r.Closed?
    ensures sel.Open? && count > 0 ==> r.Open? && r.index < count
    ensures sel.Open? && count > 0 && sel.index + 1 < count ==> r == Open(sel.index + 1)
    ensures sel.Open? && count > 0 && sel.index + 1 == count ==> r == Open(0)
    ensures (sel.Open? && count == 0) || sel.NotANumber? ==> r.NotANumber?
  {
    match sel
    case Closed => Closed
    case NotANumber => NotANumber
    case Open(i) => if count == 0 then NotANumber else Open((i + 1) % count)
  }

  /** `goToPrev`: one step back, wrapping before the first image. */
  function GoToPrev(sel: Selection, count: nat): (r: Selection)
    ensures sel.Closed? ==> r.Closed?
    ensures sel.Open? && count > 0 ==> r.Open? && r.index < count
    ensures sel.Open? && 0 < sel.index <= count ==> r == Open(sel.index - 1)
    ensures sel.Open? && count > 0 && sel.index == 0 ==> r == Open(count - 1)
    ensures (sel.Open? && count == 0) || sel.NotANumber? ==> r.NotANumber?
  {
    match sel
    case Closed => Closed
    case NotANumber => NotANumber
    case Open(i) =>
      if count == 0 then NotANumber
      else
        if i == 0 then
          ModSmall(count - 1, count);
          Open((i - 1 + count) % count)
        else if i <= count then
          ModSmall(i - 1, count);
          Open((i - 1 + count) % count)
        else Open((i - 1 + count) % count)
  }

  lemma ModSmall(x: int, n: int)
    requires 0 <= x < n
    ensures x % n == x && (x + n) % n == x
  {
  }

  /** Next and previous undo each other on a valid selection. */
  lemma NextPrevInverse(i: nat, count: nat)
    requires i < count
    ensures GoToPrev(GoToNext(Open(i), count), count) == Open(i)
    ensures GoToNext(GoToPrev(Open(i), count), count) == Open(i)
  {
  }
}
