/**
 * The item records of the Drive metadata cache (`_cache.items` in
 * lib/google_drive.js) and the store that holds them.
 */
module Drive {
  import opened Wrappers

  /** A Drive file id. It is also the key the item is stored under. */
  type Id = string

  /** The MIME type Drive gives to folders. */
  const FolderMimeType: string := "application/vnd.google-apps.folder"

  /** The `type` tag the cache adds to every stored record. */
  datatype Kind = Folder | File

  /** One entry of a file's `parents` list. */
  datatype ParentRef = ParentRef(id: Id, isRoot: bool)

  /**
   * The fields of a Drive file resource that the mount reads. `fileSize`
   * is the decimal value of Drive's size string; the dates are kept as the
   * strings Drive sends.
   */
  datatype DriveFile = DriveFile(
    title: string,
    mimeType: string,
    fileSize: Option<nat>,
    downloadUrl: Option<string>,
    modifiedDate: Option<string>,
    lastViewedByMeDate: Option<string>,
    parents: seq<ParentRef>)

  /** A stored record: a file resource together with its `type` tag. */
  datatype Item = Item(
    kind: Kind,
    title: string,
    mimeType: string,
    fileSize: Option<nat>,
    downloadUrl: Option<string>,
    modifiedDate: Option<string>,
    lastViewedByMeDate: Option<string>,
    parents: seq<ParentRef>)

  /** The file resource a stored record was made from. */
  function Untag(it: Item): DriveFile {
    DriveFile(it.title, it.mimeType, it.fileSize, it.downloadUrl,
              it.modifiedDate, it.lastViewedByMeDate, it.parents)
  }

  /**
   * Tags a file resource before it is stored: a folder exactly when its
   * MIME type is the folder type, a file otherwise. Nothing else changes.
   */
  function Tag(f: DriveFile): (it: Item)
    ensures it.kind == Folder <==> f.mimeType == FolderMimeType
    ensures it.kind == File <==> f.mimeType != FolderMimeType
    ensures Untag(it) == f
  {
    var kind := if f.mimeType == FolderMimeType then Folder else File;
    Item(kind, f.title, f.mimeType, f.fileSize, f.downloadUrl,
         f.modifiedDate, f.lastViewedByMeDate, f.parents)
  }

  /** JavaScript truthiness of an optional string: present and not empty. */
  predicate Truthy(s: Option<string>) {
    s.Some? && s.value != ""
  }

  predicate Distinct<T(==)>(s: seq<T>) {
    forall i, j :: 0 <= i < j < |s| ==> s[i] != s[j]
  }

  /** `a` occurs in `s` somewhere before an occurrence of `b`. */
  ghost predicate Precedes<T>(s: seq<T>, a: T, b: T) {
    exists i, j :: 0 <= i < j < |s| && s[i] == a && s[j] == b
  }

  lemma PrecedesCons<T>(x: T, t: seq<T>, a: T, b: T)
    ensures Precedes([x] + t, a, b) <==> (x == a && b in t) || Precedes(t, a, b)
  {
    var s := [x] + t;
    if Precedes(s, a, b) {
      var i, j :| 0 <= i < j < |s| && s[i] == a && s[j] == b;
      assert t[j - 1] == b;
      if i > 0 {
        assert t[i - 1] == a;
      }
    }
    if x == a && b in t {
      var j :| 0 <= j < |t| && t[j] == b;
      assert s[0] == a && s[j + 1] == b;
    }
    if Precedes(t, a, b) {
      var i, j :| 0 <= i < j < |t| && t[i] == a && t[j] == b;
      assert s[i + 1] == a && s[j + 1] == b;
    }
  }

  /**
   * The item store. `items` maps ids to records; `order` is the order in
   * which a JavaScript object enumerates its keys: insertion order, where
   * assigning an existing key keeps its place and deleting removes it.
   */
  datatype Store = Store(order: seq<Id>, items: map<Id, Item>)

  /** `order` lists every stored id exactly once. */
  ghost predicate Valid(s: Store) {
    && Distinct(s.order)
    && forall k {:trigger k in s.order} :: k in s.order <==> k in s.items
  }

  const EmptyStore: Store := Store([], map[])

  function Lookup(s: Store, k: Id): Option<Item> {
    if k in s.items then Some(s.items[k]) else None
  }
}
