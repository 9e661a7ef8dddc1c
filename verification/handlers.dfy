/**
 * The FUSE handlers of lib/google_drive_fs.js: `_getattr`, `_readdir`,
 * `_open` and `_read`, each a translation from a lookup in the path index
 * to a POSIX return code and a reply.
 */
module Handlers {
  import opened Wrappers
  import opened Drive
  import opened Indexer
  import opened Namespace

  const EPERM := 1
  const ENOENT := 2
  const EBUSY := 16
  const EINVAL := 22

  /** The size getattr reports for every folder. */
  const DirSize := 4096
  /** Octal 040555: a directory readable and searchable by all. */
  const DirMode := 0x4000 + 0x16D
  /** Octal 0100444: a regular file readable by all. */
  const FileMode := 0x8000 + 0x124

  const TwoTo31: int := 0x8000_0000
  const TwoTo32: int := 0x1_0000_0000

  /**
   * JavaScript `n | 0` for a non-negative integer: the signed 32-bit value
   * congruent to `n` modulo 2^32.
   */
  function ToInt32(n: nat): (r: int)
    ensures -TwoTo31 <= r < TwoTo31
    ensures (r - n) % TwoTo32 == 0
    ensures n < TwoTo31 ==> r == n
  {
    var m := n % TwoTo32;
    if m >= TwoTo31 then m - TwoTo32 else m
  }

  /** The `type` of the object the index hands out for a node; the root is a folder. */
  function KindAt(ix: Index, n: Node): Kind
    requires n.Entry? ==> n.id in ix.items
  {
    if n == Root then Folder else ix.items[n.id].kind
  }

  datatype Stat = Stat(size: int, mode: int, atime: Option<string>, mtime: Option<string>)

  /** The POSIX code getattr answers with, and the stat record when it is 0. */
  datatype Attr = Attr(code: int, stat: Option<Stat>)

  /** A date field that is set only when the record carries a non-empty value. */
  function DateOf(d: Option<string>): (r: Option<string>)
    ensures r.Some? <==> Truthy(d)
    ensures r.Some? ==> r == d
  {
    if Truthy(d) then d else None
  }

  /**
   * `_getattr`: ENOENT for a path the index does not hold; otherwise a
   * folder has size 4096 and mode 040555, a file its size cut to 32 bits and
   * mode 0100444, and the access and modification times are the record's
   * last-viewed and modified dates, set only when the record has them.
   */
  function Getattr(ix: Index, path: string): (r: Attr)
    requires WellFormed(ix)
    ensures r.code == 0 || r.code == -ENOENT
    ensures r.code == -ENOENT <==> path !in ix.paths
    ensures r.code == 0 <==> r.stat.Some?
    ensures r.stat.Some? && KindAt(ix, ix.paths[path]) == Folder ==>
              r.stat.value.size == DirSize && r.stat.value.mode == DirMode
    ensures r.stat.Some? && KindAt(ix, ix.paths[path]) == File ==>
              var it := ix.items[ix.paths[path].id];
              r.stat.value.size == ToInt32(SizeOf(it)) && r.stat.value.mode == FileMode
    ensures r.stat.Some? && ix.paths[path] == Root ==> r.stat.value.atime.None? && r.stat.value.mtime.None?
    ensures r.stat.Some? && ix.paths[path].Entry? ==>
              var it := ix.items[ix.paths[path].id];
              r.stat.value.atime == DateOf(it.lastViewedByMeDate) &&
              r.stat.value.mtime == DateOf(it.modifiedDate)
  {
    match GetItemByPath(ix, path)
    case None => Attr(-ENOENT, None)
    case Some(n) =>
      var atime := if n.Entry? then DateOf(ix.items[n.id].lastViewedByMeDate) else None;
      var mtime := if n.Entry? then DateOf(ix.items[n.id].modifiedDate) else None;
      match KindAt(ix, n)
      case Folder => Attr(0, Some(Stat(DirSize, DirMode, atime, mtime)))
      case File => Attr(0, Some(Stat(ToInt32(SizeOf(ix.items[n.id])), FileMode, atime, mtime)))
  }

  /** The POSIX code readdir answers with, and the names when it is 0. */
  datatype Listing = Listing(code: int, names: Option<seq<string>>)

  /** The titles of `ids`, in order. */
  function Titles(items: map<Id, Item>, ids: seq<Id>): (r: seq<string>)
    requires forall i :: 0 <= i < |ids| ==> ids[i] in items
    ensures |r| == |ids|
    ensures forall i :: 0 <= i < |ids| ==> r[i] == items[ids[i]].title
  {
    seq(|ids|, i requires 0 <= i < |ids| => items[ids[i]].title)
  }

  /**
   * `_readdir`: ENOENT for a path the index does not hold, EINVAL for a
   * file; a folder lists ".", ".." and then the title of each child, in
   * the order of its child list.
   */
  function Readdir(ix: Index, path: string): (r: Listing)
    requires WellFormed(ix)
    ensures r.code == 0 || r.code == -ENOENT || r.code == -EINVAL
    ensures r.code == -ENOENT <==> path !in ix.paths
    ensures r.code == -EINVAL <==> path in ix.paths && KindAt(ix, ix.paths[path]) == File
    ensures r.code == 0 <==> r.names.Some?
    ensures r.names.Some? ==>
              var kids := ix.children[ix.paths[path]];
              && |r.names.value| == |kids| + 2
              && r.names.value[..2] == [".", ".."]
              && forall i :: 0 <= i < |kids| ==> r.names.value[i + 2] == ix.items[kids[i]].title
  {
    match GetItemByPath(ix, path)
    case None => Listing(-ENOENT, None)
    case Some(n) =>
      if KindAt(ix, n) != Folder then Listing(-EINVAL, None)
      else Listing(0, Some([".", ".."] + Titles(ix.items, ix.children[n])))
  }

  /**
   * `_open`: succeeds exactly when getattr would, whatever the flags; no
   * file handle is handed out.
   */
  function Open(ix: Index, path: string, flags: int): (r: int)
    requires WellFormed(ix)
    ensures r == 0 || r == -ENOENT
    ensures r == 0 <==> Getattr(ix, path).code == 0
  {
    if GetItemByPath(ix, path).None? then -ENOENT else 0
  }

  /** What the content fetch reports to `_read`: an error, or a byte count. */
  datatype FetchReply = ReadFailed | ReadCount(count: int)

  /** A node `_read` will fetch from: a file with a download URL. */
  predicate Readable(ix: Index, n: Node)
    requires n.Entry? ==> n.id in ix.items
  {
    n.Entry? && ix.items[n.id].kind == File && Truthy(ix.items[n.id].downloadUrl)
  }

  /**
   * `_read`: ENOENT for a path the index does not hold, EPERM for a folder
   * or a file without a download URL; otherwise the fetch is asked, and its
   * failure becomes EBUSY while its byte count is returned as is. The fetch
   * is asked only for a readable file.
   */
  function Read(ix: Index, path: string, offset: int, len: int, fetch: (Id, int, int) -> FetchReply): (r: int)
    requires WellFormed(ix)
    ensures path !in ix.paths ==> r == -ENOENT
    ensures path in ix.paths && !Readable(ix, ix.paths[path]) ==> r == -EPERM
    ensures path in ix.paths && Readable(ix, ix.paths[path]) ==>
              var reply := fetch(ix.paths[path].id, offset, len);
              (reply.ReadFailed? ==> r == -EBUSY) && (reply.ReadCount? ==> r == reply.count)
  {
    match GetItemByPath(ix, path)
    case None => -ENOENT
    case Some(n) =>
      if !Readable(ix, n) then -EPERM
      else
        match fetch(n.id, offset, len)
        case ReadFailed => -EBUSY
        case ReadCount(count) => count
  }

  // ----- the handlers over a rebuilt store ----------------------------------

  /** `x` is attached under node `n` by one of its own parent entries. */
  ghost predicate ChildOf(items: map<Id, Item>, x: Id, n: Node) {
    x in items &&
    match n
    case Root => RootAttached(items[x])
    case Entry(f) => LinksTo(items[x], f)
  }

  /**
   * Over a rebuilt store, getattr succeeds exactly on "/" and on the paths
   * of chains of parent entries that reach the root.
   */
  lemma GetattrFindsNamespace(s: Store, path: string)
    requires Valid(s) && Build(s).Success?
    ensures Getattr(Build(s).value, path).code == 0 <==>
              path == "/" || exists c :: IsChain(s.items, c) && ItemPath(s.items, c) == path
  {
    IndexPaths(s);
    var ix := Build(s).value;
    if path in ix.paths && path != "/" {
      var c :| IsChain(s.items, c) && c[0] == ix.paths[path].id && ItemPath(s.items, c) == path;
    }
  }

  /**
   * Over a rebuilt store, reading a folder lists, after "." and "..", the
   * titles of its child list, and that list holds each item attached to
   * the folder by one of its parent entries exactly once, and nothing else.
   */
  lemma ReaddirListsChildren(s: Store, path: string)
    requires Valid(s) && Build(s).Success?
    requires path in Build(s).value.paths && KindAt(Build(s).value, Build(s).value.paths[path]) == Folder
    ensures forall x :: ChildOf(s.items, x, Build(s).value.paths[path]) ==>
              x in Build(s).value.children[Build(s).value.paths[path]]
    ensures Readdir(Build(s).value, path).names.Some?
    ensures Distinct(Build(s).value.children[Build(s).value.paths[path]])
    ensures forall x :: x in Build(s).value.children[Build(s).value.paths[path]] ==>
              ChildOf(s.items, x, Build(s).value.paths[path])
    ensures var ix := Build(s).value;
            var kids := ix.children[ix.paths[path]];
            var names := Readdir(ix, path).names.value;
            && |names| == |kids| + 2
            && (forall i :: 0 <= i < |kids| ==> names[i + 2] == s.items[kids[i]].title)
  {
    var ix := Build(s).value;
    var n := ix.paths[path];
    assert n in ix.children;
    AttachedExactly(s, n);
  }

  /** The child list of a folder node of a rebuilt store holds exactly its children, each once. */
  lemma AttachedExactly(s: Store, n: Node)
    requires Valid(s) && Build(s).Success?
    requires n in Build(s).value.children
    ensures Distinct(Build(s).value.children[n])
    ensures forall x :: ChildOf(s.items, x, n) ==> x in Build(s).value.children[n]
    ensures forall x :: x in Build(s).value.children[n] ==> ChildOf(s.items, x, n)
  {
    if n == Root {
      RootChildren(s);
    } else {
      assert n in Containers(s.items) by { BuildShape(s); }
      FolderChildren(s, n.id);
    }
  }
}
