/**
 * The namespace indexer: `_buildIndexes` of lib/google_drive.js, which
 * rebuilds, from the flat multi-parent item store, the path index, the
 * `childItems` list of the root and of every folder, and `totalSize`.
 */
module Indexer {
  import opened Wrappers
  import opened Drive

  /** A node of the namespace: the synthetic root folder, or a stored item. */
  datatype Node = Root | Entry(id: Id)

  /** `child` was pushed onto the `childItems` list of `parent`. */
  datatype Link = Link(parent: Node, child: Id)

  /**
   * What one resolution of parent paths yields: the parent paths found,
   * and the child links it made, both in the order the source makes them.
   */
  datatype Trace = Trace(paths: seq<string>, links: seq<Link>)

  /**
   * Why an index rebuild stops. In the source both are exceptions that end
   * `_buildIndexes` before the new index is installed: a found parent that
   * is not a folder has no `childItems` to search, and a parent chain that
   * comes back to an item already being resolved recurses without end.
   */
  datatype IndexError =
    | ParentNotFolder(child: Id, parent: Id)
    | ParentCycle(id: Id)

  /** Some parent entry of `it` carries the root flag. */
  ghost predicate RootAttached(it: Item) {
    exists p :: p in it.parents && p.isRoot
  }

  /** Some parent entry of `it` without the root flag names `pid`. */
  ghost predicate LinksTo(it: Item, pid: Id) {
    exists p :: p in it.parents && !p.isRoot && p.id == pid
  }

  /** A link the parent lists of the store justify. */
  ghost predicate Genuine(items: map<Id, Item>, l: Link) {
    && l.child in items
    && match l.parent
       case Root => RootAttached(items[l.child])
       case Entry(pid) => pid in items && items[pid].kind == Folder && LinksTo(items[l.child], pid)
  }

  ghost predicate AllGenuine(items: map<Id, Item>, links: seq<Link>) {
    forall i :: 0 <= i < |links| ==> Genuine(items, links[i])
  }

  /** Appends `"/" + title` to every path. */
  function Under(paths: seq<string>, title: string): (r: seq<string>)
    ensures |r| == |paths|
    ensures forall i :: 0 <= i < |paths| ==> r[i] == paths[i] + "/" + title
  {
    seq(|paths|, i requires 0 <= i < |paths| => paths[i] + "/" + title)
  }

  /**
   * `getParentPaths(item)` for the item stored under `id`, where `stack`
   * holds the items whose resolution is in progress. An item with no
   * parents has no parent paths.
   */
  function ParentPaths(items: map<Id, Item>, id: Id, stack: set<Id>): (r: Result<Trace, IndexError>)
    requires id in items
    ensures r.Success? ==> AllGenuine(items, r.value.links)
    decreases items.Keys - stack, 0
  {
    if id in stack then Failure(ParentCycle(id))
    else if |items[id].parents| == 0 then Success(Trace([], []))
    else EntryPaths(items, id, 0, stack + {id})
  }

  /** The `forEach` over the parent entries of `id`, from entry `j` on. */
  function EntryPaths(items: map<Id, Item>, id: Id, j: nat, inner: set<Id>): (r: Result<Trace, IndexError>)
    requires id in items && j <= |items[id].parents|
    ensures r.Success? ==> AllGenuine(items, r.value.links)
    decreases items.Keys - inner, |items[id].parents| - j + 2
  {
    if j == |items[id].parents| then Success(Trace([], []))
    else
      match Contribution(items, id, j, inner)
      case Failure(e) => Failure(e)
      case Success(h) =>
        match EntryPaths(items, id, j + 1, inner)
        case Failure(e) => Failure(e)
        case Success(t) => Success(Trace(h.paths + t.paths, h.links + t.links))
  }

  /**
   * What parent entry `j` of `id` contributes. A root entry gives the empty
   * parent path and attaches the item to the root; an entry naming a stored
   * folder attaches the item to it and extends each of that folder's own
   * parent paths by its title; an entry naming an id that is not stored
   * gives nothing.
   */
  function Contribution(items: map<Id, Item>, id: Id, j: nat, inner: set<Id>): (r: Result<Trace, IndexError>)
    requires id in items && j < |items[id].parents|
    ensures r.Success? ==> AllGenuine(items, r.value.links)
    decreases items.Keys - inner, 1
  {
    var p := items[id].parents[j];
    assert p in items[id].parents;
    if p.isRoot then Success(Trace([""], [Link(Root, id)]))
    else if p.id !in items then Success(Trace([], []))
    else if items[p.id].kind != Folder then Failure(ParentNotFolder(id, p.id))
    else
      match ParentPaths(items, p.id, inner)
      case Failure(e) => Failure(e)
      case Success(t) =>
        Success(Trace(Under(t.paths, items[p.id].title), [Link(Entry(p.id), id)] + t.links))
  }

  /** The path index with every parent path of `id` turned into a path of `id`. */
  function Place(paths: map<string, Node>, parentPaths: seq<string>, title: string, id: Id): (r: map<string, Node>)
    ensures r.Keys == paths.Keys + set p | p in parentPaths :: p + "/" + title
    ensures forall pp :: pp in parentPaths ==> r[pp + "/" + title] == Entry(id)
    ensures forall k {:trigger paths[k]} :: k in paths && (forall pp :: pp in parentPaths ==> k != pp + "/" + title) ==> r[k] == paths[k]
  {
    var under := Under(parentPaths, title);
    assert forall k :: k in under <==> exists pp :: pp in parentPaths && k == pp + "/" + title by {
      forall k ensures k in under ==> exists pp :: pp in parentPaths && k == pp + "/" + title {
        if k in under {
          var i :| 0 <= i < |under| && under[i] == k;
          assert parentPaths[i] in parentPaths;
        }
      }
      forall pp | pp in parentPaths ensures pp + "/" + title in under {
        var i :| 0 <= i < |parentPaths| && parentPaths[i] == pp;
        assert under[i] == pp + "/" + title;
      }
    }
    paths + map k | k in under :: Entry(id)
  }

  /** The path index and the child links after the main loop has visited `keys`. */
  datatype Walked = Walked(paths: map<string, Node>, links: seq<Link>)

  /** The main loop of `_buildIndexes` over the stored ids, in enumeration order. */
  function Walk(items: map<Id, Item>, keys: seq<Id>): (r: Result<Walked, IndexError>)
    requires forall k :: k in keys ==> k in items
    ensures r.Success? ==> AllGenuine(items, r.value.links)
    ensures r.Success? ==> "/" in r.value.paths
    ensures r.Success? ==> forall p :: p in r.value.paths && r.value.paths[p].Entry? ==> r.value.paths[p].id in items
    decreases |keys|
  {
    if keys == [] then Success(Walked(map["/" := Root], []))
    else
      match Walk(items, keys[..|keys| - 1])
      case Failure(e) => Failure(e)
      case Success(w) =>
        var id := keys[|keys| - 1];
        match ParentPaths(items, id, {})
        case Failure(e) => Failure(e)
        case Success(t) =>
          Success(Walked(Place(w.paths, t.paths, items[id].title, id), w.links + t.links))
  }

  /** The folders that get an empty `childItems` list before the walk: the root and every stored folder. */
  function Containers(items: map<Id, Item>): (r: map<Node, seq<Id>>)
    ensures Root in r
    ensures forall n :: n in r ==> r[n] == []
    ensures forall id :: Entry(id) in r <==> id in items && items[id].kind == Folder
  {
    var folders := set id | id in items && items[id].kind == Folder :: Entry(id);
    map n | n in folders + {Root} :: []
  }

  /** The position of the first occurrence of `l` in `links`, or `|links|` when there is none. */
  function FirstPush(links: seq<Link>, l: Link): (k: nat)
    ensures k <= |links|
    ensures k < |links| <==> l in links
    ensures k < |links| ==> links[k] == l
    ensures forall i :: 0 <= i < k ==> links[i] != l
    decreases |links|
  {
    if links == [] then 0
    else if links[0] == l then 0
    else 1 + FirstPush(links[1..], l)
  }

  /** Appending a link leaves first positions of the links already there unchanged. */
  lemma FirstPushSnoc(links: seq<Link>, l: Link, m: Link)
    ensures m in links ==> FirstPush(links + [l], m) == FirstPush(links, m)
    ensures m !in links && m == l ==> FirstPush(links + [l], m) == |links|
  {
    var k := FirstPush(links + [l], m);
    if m in links {
      var k0 := FirstPush(links, m);
      assert (links + [l])[k0] == m;
    } else if m == l {
      assert (links + [l])[|links|] == m;
      assert forall i :: 0 <= i < |links| ==> (links + [l])[i] == links[i];
    }
  }

  /**
   * Replays the pushes onto `childItems` lists in order; an item already on
   * a list is not pushed again, so the items added to a list follow the
   * order of their first pushes.
   */
  function Attach(children: map<Node, seq<Id>>, links: seq<Link>): (r: map<Node, seq<Id>>)
    requires forall i :: 0 <= i < |links| ==> links[i].parent in children
    ensures r.Keys == children.Keys
    ensures forall n :: n in children ==> children[n] <= r[n]
    ensures forall n :: n in children && Distinct(children[n]) ==> Distinct(r[n])
    ensures forall n, x :: n in children ==> (x in r[n] <==> x in children[n] || Link(n, x) in links)
    decreases |links|
  {
    if links == [] then children
    else
      var l := links[|links| - 1];
      var front := links[..|links| - 1];
      var before := Attach(children, front);
      assert forall n, x :: Link(n, x) in links <==> Link(n, x) in front || Link(n, x) == l;
      if l.child in before[l.parent] then before
      else before[l.parent := before[l.parent] + [l.child]]
  }

  /**
   * The items a replay adds to a list were pushed onto it, and they stand
   * in the order of their first pushes.
   */
  lemma {:induction false} AttachFollowsFirstPushes(children: map<Node, seq<Id>>, links: seq<Link>)
    requires forall i :: 0 <= i < |links| ==> links[i].parent in children
    ensures forall n, i :: n in children && |children[n]| <= i < |Attach(children, links)[n]| ==>
              Link(n, Attach(children, links)[n][i]) in links
    ensures forall n, i, j :: n in children && |children[n]| <= i < j < |Attach(children, links)[n]| ==>
              FirstPush(links, Link(n, Attach(children, links)[n][i])) < FirstPush(links, Link(n, Attach(children, links)[n][j]))
    decreases |links|
  {
    if links != [] {
      var l := links[|links| - 1];
      var front := links[..|links| - 1];
      var before := Attach(children, front);
      AttachFollowsFirstPushes(children, front);
      LastSplit(links);
      assert Attach(children, links) ==
        if l.child in before[l.parent] then before else before[l.parent := before[l.parent] + [l.child]];
      AttachStepKeepsOrder(children, front, l, before);
    }
  }

  lemma LastSplit<T>(s: seq<T>)
    requires s != []
    ensures s == s[..|s| - 1] + [s[|s| - 1]]
  {
  }

  /** One more push keeps the added items of every list in first-push order. */
  lemma AttachStepKeepsOrder(children: map<Node, seq<Id>>, front: seq<Link>, l: Link, before: map<Node, seq<Id>>)
    requires l.parent in children && before.Keys == children.Keys
    requires forall n :: n in children ==> children[n] <= before[n]
    requires forall n, x :: n in children ==> (x in before[n] <==> x in children[n] || Link(n, x) in front)
    requires forall n, i :: n in children && |children[n]| <= i < |before[n]| ==> Link(n, before[n][i]) in front
    requires forall n, i, j :: n in children && |children[n]| <= i < j < |before[n]| ==>
               FirstPush(front, Link(n, before[n][i])) < FirstPush(front, Link(n, before[n][j]))
    ensures var r := if l.child in before[l.parent] then before
                     else before[l.parent := before[l.parent] + [l.child]];
            && (forall n, i :: n in children && |children[n]| <= i < |r[n]| ==> Link(n, r[n][i]) in front + [l])
            && (forall n, i, j :: n in children && |children[n]| <= i < j < |r[n]| ==>
                  FirstPush(front + [l], Link(n, r[n][i])) < FirstPush(front + [l], Link(n, r[n][j])))
  {
    var links := front + [l];
    forall m | m in front ensures FirstPush(links, m) == FirstPush(front, m) {
      FirstPushSnoc(front, l, m);
    }
    if l.child !in before[l.parent] {
      FirstPushSnoc(front, l, l);
      var n := l.parent;
      var r := before[n := before[n] + [l.child]];
      forall i, j | |children[n]| <= i < j < |r[n]|
        ensures FirstPush(links, Link(n, r[n][i])) < FirstPush(links, Link(n, r[n][j]))
      {
        if j == |before[n]| {
          assert Link(n, before[n][i]) in front;
          assert FirstPush(front, Link(n, before[n][i])) < |front|;
        }
      }
    }
  }

  /** The size an item adds to `totalSize`: its `fileSize` when it has one. */
  function SizeOf(it: Item): (n: nat)
    ensures it.fileSize.None? ==> n == 0
    ensures it.fileSize.Some? ==> n == it.fileSize.value
  {
    match it.fileSize
    case Some(n) => n
    case None => 0
  }

  /** `totalSize` summed over `keys` in order. */
  function TotalSize(items: map<Id, Item>, keys: seq<Id>): (total: nat)
    requires forall k :: k in keys ==> k in items
    ensures forall i {:trigger SizeOf(items[keys[i]])} :: 0 <= i < |keys| ==> SizeOf(items[keys[i]]) <= total
    ensures total == 0 <==> forall i {:trigger SizeOf(items[keys[i]])} :: 0 <= i < |keys| ==> SizeOf(items[keys[i]]) == 0
    decreases |keys|
  {
    if keys == [] then 0
    else TotalSize(items, keys[..|keys| - 1]) + SizeOf(items[keys[|keys| - 1]])
  }

  /** The rebuilt index: path index, the store it refers to, child lists and total size. */
  datatype Index = Index(
    paths: map<string, Node>,
    items: map<Id, Item>,
    children: map<Node, seq<Id>>,
    totalSize: nat)

  /** Every node an index hands out, and every child it lists, is a stored item; every folder has a child list. */
  ghost predicate WellFormed(ix: Index) {
    && (forall p :: p in ix.paths && ix.paths[p].Entry? ==> ix.paths[p].id in ix.items)
    && Root in ix.children
    && (forall id :: id in ix.items && ix.items[id].kind == Folder ==> Entry(id) in ix.children)
    && (forall n, i :: n in ix.children && 0 <= i < |ix.children[n]| ==> ix.children[n][i] in ix.items)
  }

  /**
   * `_buildIndexes`: the whole index, or the error that stops the rebuild.
   * A built index maps "/", lists no child twice, and refers to the store.
   */
  function Build(s: Store): (r: Result<Index, IndexError>)
    requires Valid(s)
    ensures r.Success? ==> WellFormed(r.value) && r.value.items == s.items
    ensures r.Success? ==> "/" in r.value.paths
    ensures r.Success? ==> forall n :: n in r.value.children ==> Distinct(r.value.children[n])
    ensures r.Success? ==> r.value.totalSize == TotalSize(s.items, s.order)
  {
    match Walk(s.items, s.order)
    case Failure(e) => Failure(e)
    case Success(w) =>
      var init := Containers(s.items);
      GenuineLinksHaveLists(s.items, w.links);
      var ix := Index(w.paths, s.items, Attach(init, w.links), TotalSize(s.items, s.order));
      AssembledWellFormed(s.items, w, ix.totalSize);
      Success(ix)
  }

  lemma AssembledWellFormed(items: map<Id, Item>, w: Walked, total: nat)
    requires AllGenuine(items, w.links)
    requires forall p :: p in w.paths && w.paths[p].Entry? ==> w.paths[p].id in items
    requires forall i :: 0 <= i < |w.links| ==> w.links[i].parent in Containers(items)
    ensures WellFormed(Index(w.paths, items, Attach(Containers(items), w.links), total))
  {
    ChildrenAreStored(items, w.links);
  }

  lemma GenuineLinksHaveLists(items: map<Id, Item>, links: seq<Link>)
    requires AllGenuine(items, links)
    ensures forall i :: 0 <= i < |links| ==> links[i].parent in Containers(items)
  {
    forall i | 0 <= i < |links| ensures links[i].parent in Containers(items) {
      assert Genuine(items, links[i]);
    }
  }

  lemma ChildrenAreStored(items: map<Id, Item>, links: seq<Link>)
    requires AllGenuine(items, links)
    requires forall i :: 0 <= i < |links| ==> links[i].parent in Containers(items)
    ensures var children := Attach(Containers(items), links);
            forall n, i :: n in children && 0 <= i < |children[n]| ==> children[n][i] in items
  {
    var init := Containers(items);
    var children := Attach(init, links);
    forall n, i | n in children && 0 <= i < |children[n]| ensures children[n][i] in items {
      var x := children[n][i];
      assert x in children[n];
      assert x !in init[n];
      var k :| 0 <= k < |links| && links[k] == Link(n, x);
      assert Genuine(items, links[k]);
    }
  }

  /** `getItemByPath`: the node the index maps `path` to, if any. */
  function GetItemByPath(ix: Index, path: string): (r: Option<Node>)
    ensures r.Some? <==> path in ix.paths
    ensures r.Some? ==> r.value == ix.paths[path]
  {
    if path in ix.paths then Some(ix.paths[path]) else None
  }
}
