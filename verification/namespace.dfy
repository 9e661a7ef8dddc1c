/**
 * What a rebuilt index contains, stated against the parent lists of the
 * store rather than against the traversal that computes it: every path is
 * the path of some chain of parent entries that ends at the root, every
 * such chain gives a path, child lists hold exactly the items that name
 * the folder as a parent, and a rebuild fails exactly on a file parent or
 * a parent cycle.
 */
module Namespace {
  import opened Wrappers
  import opened Drive
  import opened Indexer

  /** A sequence of stored items, each naming the next as a parent. */
  ghost predicate IsAscent(items: map<Id, Item>, c: seq<Id>) {
    && |c| >= 1
    && (forall i :: 0 <= i < |c| ==> c[i] in items)
    && (forall i :: 0 <= i < |c| - 1 ==> LinksTo(items[c[i]], c[i + 1]))
  }

  /** An ascent from `c[0]` whose last item sits directly under the root. */
  ghost predicate IsChain(items: map<Id, Item>, c: seq<Id>) {
    IsAscent(items, c) && RootAttached(items[c[|c| - 1]])
  }

  /** The path of the folder chain `c` places `c[0]` under. */
  ghost function ParentPath(items: map<Id, Item>, c: seq<Id>): string
    requires |c| >= 1 && forall i :: 0 <= i < |c| ==> c[i] in items
    decreases |c|
  {
    if |c| == 1 then "" else ParentPath(items, c[1..]) + "/" + items[c[1]].title
  }

  /** The path at which the chain `c` places `c[0]`. */
  ghost function ItemPath(items: map<Id, Item>, c: seq<Id>): string
    requires |c| >= 1 && forall i :: 0 <= i < |c| ==> c[i] in items
  {
    ParentPath(items, c) + "/" + items[c[0]].title
  }

  // ----- the traversal of one item ------------------------------------------

  /** A successful pass over the parent entries from `j` on includes what each of them contributes. */
  lemma {:induction false} EntryPathsCover(items: map<Id, Item>, id: Id, j: nat, inner: set<Id>, w: nat)
    requires id in items && j <= w < |items[id].parents|
    requires EntryPaths(items, id, j, inner).Success?
    ensures Contribution(items, id, w, inner).Success?
    ensures forall x :: x in Contribution(items, id, w, inner).value.paths ==> x in EntryPaths(items, id, j, inner).value.paths
    ensures forall l :: l in Contribution(items, id, w, inner).value.links ==> l in EntryPaths(items, id, j, inner).value.links
    decreases w - j
  {
    if j < w {
      EntryPathsCover(items, id, j + 1, inner, w);
    }
  }

  /** Every parent path found for `id` is the parent path of a chain from `id`. */
  lemma {:induction false} PathsSound(items: map<Id, Item>, id: Id, stack: set<Id>, pp: string)
    requires id in items
    requires ParentPaths(items, id, stack).Success?
    requires pp in ParentPaths(items, id, stack).value.paths
    ensures exists c :: IsChain(items, c) && c[0] == id && ParentPath(items, c) == pp
    decreases items.Keys - stack, 0
  {
    if |items[id].parents| > 0 {
      EntryPathsSound(items, id, 0, stack + {id}, pp);
    }
  }

  lemma {:induction false} EntryPathsSound(items: map<Id, Item>, id: Id, j: nat, inner: set<Id>, pp: string)
    requires id in items && j <= |items[id].parents|
    requires EntryPaths(items, id, j, inner).Success?
    requires pp in EntryPaths(items, id, j, inner).value.paths
    ensures exists c :: IsChain(items, c) && c[0] == id && ParentPath(items, c) == pp
    decreases items.Keys - inner, |items[id].parents| - j + 2
  {
    if j < |items[id].parents| {
      if pp in Contribution(items, id, j, inner).value.paths {
        ContributionSound(items, id, j, inner, pp);
      } else {
        EntryPathsSound(items, id, j + 1, inner, pp);
      }
    }
  }

  lemma {:induction false} ContributionSound(items: map<Id, Item>, id: Id, j: nat, inner: set<Id>, pp: string)
    requires id in items && j < |items[id].parents|
    requires Contribution(items, id, j, inner).Success?
    requires pp in Contribution(items, id, j, inner).value.paths
    ensures exists c :: IsChain(items, c) && c[0] == id && ParentPath(items, c) == pp
    decreases items.Keys - inner, 1
  {
    var p := items[id].parents[j];
    assert p in items[id].parents;
    if p.isRoot {
      var c := [id];
      assert IsChain(items, c);
      assert ParentPath(items, c) == pp;
    } else if p.id in items {
      var t := ParentPaths(items, p.id, inner).value;
      var under := Under(t.paths, items[p.id].title);
      var i :| 0 <= i < |under| && under[i] == pp;
      PathsSound(items, p.id, inner, t.paths[i]);
      var c' :| IsChain(items, c') && c'[0] == p.id && ParentPath(items, c') == t.paths[i];
      var c := [id] + c';
      assert c[1..] == c';
      assert LinksTo(items[c[0]], c[1]);
      assert IsChain(items, c);
      assert ParentPath(items, c) == pp;
    }
  }

  /** The parent entry of `c[0]` that the chain `c` goes through next. */
  lemma ChainStep(items: map<Id, Item>, c: seq<Id>) returns (w: nat)
    requires IsChain(items, c)
    ensures w < |items[c[0]].parents|
    ensures |c| == 1 ==> items[c[0]].parents[w].isRoot
    ensures |c| > 1 ==> !items[c[0]].parents[w].isRoot && items[c[0]].parents[w].id == c[1]
  {
    var ps := items[c[0]].parents;
    if |c| == 1 {
      var p :| p in ps && p.isRoot;
      var k :| 0 <= k < |ps| && ps[k] == p;
      w := k;
    } else {
      assert LinksTo(items[c[0]], c[1]);
      var p :| p in ps && !p.isRoot && p.id == c[1];
      var k :| 0 <= k < |ps| && ps[k] == p;
      w := k;
    }
  }

  /** Every chain from `id` gives one of the parent paths found for `id`. */
  lemma {:induction false} PathsComplete(items: map<Id, Item>, c: seq<Id>, stack: set<Id>)
    requires IsChain(items, c)
    requires ParentPaths(items, c[0], stack).Success?
    ensures ParentPath(items, c) in ParentPaths(items, c[0], stack).value.paths
    decreases |c|
  {
    var id := c[0];
    var w := ChainStep(items, c);
    var inner := stack + {id};
    EntryPathsCover(items, id, 0, inner, w);
    var h := Contribution(items, id, w, inner).value;
    if |c| == 1 {
      assert "" in h.paths;
    } else {
      var pid := c[1];
      var t := ParentPaths(items, pid, inner).value;
      assert IsChain(items, c[1..]);
      PathsComplete(items, c[1..], inner);
      var k :| 0 <= k < |t.paths| && t.paths[k] == ParentPath(items, c[1..]);
      assert h.paths[k] == ParentPath(items, c);
    }
  }

  /**
   * A successful resolution of `id` never meets an item of `stack` on any
   * ascent from `id`, and no ascent comes back to `id`.
   */
  lemma {:induction false} AscentAvoidsStack(items: map<Id, Item>, c: seq<Id>, stack: set<Id>)
    requires IsAscent(items, c)
    requires ParentPaths(items, c[0], stack).Success?
    ensures forall i :: 0 <= i < |c| ==> c[i] !in stack
    ensures forall i :: 1 <= i < |c| ==> c[i] != c[0]
    decreases |c|
  {
    if |c| > 1 {
      var id := c[0];
      var ps := items[id].parents;
      assert LinksTo(items[id], c[1]);
      var p :| p in ps && !p.isRoot && p.id == c[1];
      var w :| 0 <= w < |ps| && ps[w] == p;
      EntryPathsCover(items, id, 0, stack + {id}, w);
      assert IsAscent(items, c[1..]);
      AscentAvoidsStack(items, c[1..], stack + {id});
      assert forall i :: 1 <= i < |c| ==> c[i] == c[1..][i - 1];
    }
  }

  /** The links that resolving `id` makes include every parent entry of `id` itself. */
  lemma LinksComplete(items: map<Id, Item>, id: Id, stack: set<Id>)
    requires id in items
    requires ParentPaths(items, id, stack).Success?
    ensures RootAttached(items[id]) ==> Link(Root, id) in ParentPaths(items, id, stack).value.links
    ensures forall pid :: pid in items && LinksTo(items[id], pid) ==> Link(Entry(pid), id) in ParentPaths(items, id, stack).value.links
  {
    var ps := items[id].parents;
    if RootAttached(items[id]) {
      var p :| p in ps && p.isRoot;
      var w :| 0 <= w < |ps| && ps[w] == p;
      EntryPathsCover(items, id, 0, stack + {id}, w);
    }
    forall pid | pid in items && LinksTo(items[id], pid)
      ensures Link(Entry(pid), id) in ParentPaths(items, id, stack).value.links
    {
      var p :| p in ps && !p.isRoot && p.id == pid;
      var w :| 0 <= w < |ps| && ps[w] == p;
      EntryPathsCover(items, id, 0, stack + {id}, w);
      assert Link(Entry(pid), id) in Contribution(items, id, w, stack + {id}).value.links;
    }
  }

  // ----- the walk over all items --------------------------------------------

  /** `id` reaches `path` through one of its parent paths. */
  ghost predicate PlacedBy(items: map<Id, Item>, id: Id, path: string) {
    && id in items
    && ParentPaths(items, id, {}).Success?
    && exists pp :: pp in ParentPaths(items, id, {}).value.paths && path == pp + "/" + items[id].title
  }

  /** A successful walk resolved every key, kept its links and placed its paths. */
  lemma {:induction false} WalkVisits(items: map<Id, Item>, keys: seq<Id>, k: Id)
    requires forall x :: x in keys ==> x in items
    requires Walk(items, keys).Success?
    requires k in keys
    ensures ParentPaths(items, k, {}).Success?
    ensures forall l :: l in ParentPaths(items, k, {}).value.links ==> l in Walk(items, keys).value.links
    ensures forall pp :: pp in ParentPaths(items, k, {}).value.paths ==> pp + "/" + items[k].title in Walk(items, keys).value.paths
    decreases |keys|
  {
    var front := keys[..|keys| - 1];
    if k in front {
      WalkVisits(items, front, k);
    }
  }

  /** Every entry of a walked path index is "/" for the root, or a path some item reaches. */
  lemma {:induction false} WalkSound(items: map<Id, Item>, keys: seq<Id>)
    requires forall x :: x in keys ==> x in items
    requires Walk(items, keys).Success?
    ensures forall p :: p in Walk(items, keys).value.paths ==>
              var n := Walk(items, keys).value.paths[p];
              (n == Root && p == "/") || (n.Entry? && PlacedBy(items, n.id, p))
    decreases |keys|
  {
    if keys != [] {
      WalkSound(items, keys[..|keys| - 1]);
    }
  }

  /**
   * Of the keys that place a path, the one enumerated last owns it: each
   * later assignment to the path index overwrites the earlier ones.
   */
  lemma {:induction false} LastPlacerWins(items: map<Id, Item>, keys: seq<Id>, a: nat, p: string)
    requires forall x :: x in keys ==> x in items
    requires Walk(items, keys).Success?
    requires a < |keys| && PlacedBy(items, keys[a], p)
    requires forall b :: a < b < |keys| ==> !PlacedBy(items, keys[b], p)
    ensures p in Walk(items, keys).value.paths && Walk(items, keys).value.paths[p] == Entry(keys[a])
    decreases |keys|
  {
    var front := keys[..|keys| - 1];
    var last := keys[|keys| - 1];
    if a < |keys| - 1 {
      assert front[a] == keys[a];
      assert forall b :: a < b < |front| ==> front[b] == keys[b];
      LastPlacerWins(items, front, a, p);
      assert !PlacedBy(items, last, p);
    } else {
      var pp :| pp in ParentPaths(items, last, {}).value.paths && p == pp + "/" + items[last].title;
    }
  }

  /** The walk over `keys` succeeds when resolving each of them does. */
  lemma {:induction false} WalkSucceeds(items: map<Id, Item>, keys: seq<Id>)
    requires forall x :: x in keys ==> x in items
    requires forall x :: x in keys ==> ParentPaths(items, x, {}).Success?
    ensures Walk(items, keys).Success?
    decreases |keys|
  {
    if keys != [] {
      WalkSucceeds(items, keys[..|keys| - 1]);
    }
  }

  // ----- the whole index ----------------------------------------------------

  /**
   * The path index of a rebuilt store: "/" is the only path of the root,
   * every item entry is a path of the item along some chain to the root,
   * and the path of every chain is in the index.
   */
  lemma IndexPaths(s: Store)
    requires Valid(s) && Build(s).Success?
    ensures "/" in Build(s).value.paths
    ensures forall p :: p in Build(s).value.paths && Build(s).value.paths[p] == Root ==> p == "/"
    ensures forall p :: p in Build(s).value.paths && Build(s).value.paths[p].Entry? ==>
              exists c :: IsChain(s.items, c) && c[0] == Build(s).value.paths[p].id && ItemPath(s.items, c) == p
    ensures forall c :: IsChain(s.items, c) ==> ItemPath(s.items, c) in Build(s).value.paths
  {
    var ix := Build(s).value;
    WalkSound(s.items, s.order);
    forall p | p in ix.paths && ix.paths[p].Entry?
      ensures exists c :: IsChain(s.items, c) && c[0] == ix.paths[p].id && ItemPath(s.items, c) == p
    {
      var id := ix.paths[p].id;
      assert PlacedBy(s.items, id, p);
      var pp :| pp in ParentPaths(s.items, id, {}).value.paths && p == pp + "/" + s.items[id].title;
      PathsSound(s.items, id, {}, pp);
      var c :| IsChain(s.items, c) && c[0] == id && ParentPath(s.items, c) == pp;
      assert ItemPath(s.items, c) == p;
    }
    forall c | IsChain(s.items, c) ensures ItemPath(s.items, c) in ix.paths {
      WalkVisits(s.items, s.order, c[0]);
      PathsComplete(s.items, c, {});
    }
  }

  /** An item that no chain of parent entries connects to the root has no path. */
  lemma UnreachableHasNoPath(s: Store, id: Id)
    requires Valid(s) && Build(s).Success?
    requires forall c :: IsChain(s.items, c) ==> c[0] != id
    ensures forall path :: path in Build(s).value.paths ==> Build(s).value.paths[path] != Entry(id)
  {
    IndexPaths(s);
  }

  /** An item without a root entry whose parents are all missing from the store has no path. */
  lemma OrphanHasNoPath(s: Store, id: Id)
    requires Valid(s) && Build(s).Success?
    requires id in s.items
    requires forall p :: p in s.items[id].parents ==> !p.isRoot && p.id !in s.items
    ensures forall path :: path in Build(s).value.paths ==> Build(s).value.paths[path] != Entry(id)
  {
    forall c | IsChain(s.items, c) ensures c[0] != id {
      assert |c| > 1 ==> LinksTo(s.items[c[0]], c[1]);
    }
    UnreachableHasNoPath(s, id);
  }

  /** Only a one-item chain through an item titled "" has the path "/". */
  lemma ItemPathOfRoot(items: map<Id, Item>, c: seq<Id>)
    requires |c| >= 1 && forall i :: 0 <= i < |c| ==> c[i] in items
    requires ItemPath(items, c) == "/"
    ensures |c| == 1 && items[c[0]].title == ""
  {
  }

  /**
   * "/" maps to the root folder unless an item directly under the root has
   * an empty title: its path is "/" too and it overwrites the root entry.
   */
  lemma SlashIsRoot(s: Store)
    requires Valid(s) && Build(s).Success?
    requires forall id :: id in s.items && RootAttached(s.items[id]) ==> s.items[id].title != ""
    ensures Build(s).value.paths["/"] == Root
  {
    IndexPaths(s);
    var ix := Build(s).value;
    if ix.paths["/"] != Root {
      var c :| IsChain(s.items, c) && c[0] == ix.paths["/"].id && ItemPath(s.items, c) == "/";
      ItemPathOfRoot(s.items, c);
    }
  }

  /** A child is on a rebuilt list exactly when some link of the walk pushed it there. */
  lemma ListedIffLinked(s: Store, n: Node, x: Id)
    requires Valid(s) && Build(s).Success?
    requires n in Containers(s.items)
    ensures x in Build(s).value.children[n] <==> Link(n, x) in Walk(s.items, s.order).value.links
  {
    var links := Walk(s.items, s.order).value.links;
    var init := Containers(s.items);
    BuildShape(s);
    assert x !in init[n];
    assert x in Attach(init, links)[n] <==> x in init[n] || Link(n, x) in links;
  }

  /** A successful rebuild is assembled from the walk over the store's keys. */
  lemma BuildShape(s: Store)
    requires Valid(s) && Build(s).Success?
    ensures Walk(s.items, s.order).Success?
    ensures forall i :: 0 <= i < |Walk(s.items, s.order).value.links| ==>
              Walk(s.items, s.order).value.links[i].parent in Containers(s.items)
    ensures Build(s).value.children == Attach(Containers(s.items), Walk(s.items, s.order).value.links)
    ensures Build(s).value.paths == Walk(s.items, s.order).value.paths
  {
    GenuineLinksHaveLists(s.items, Walk(s.items, s.order).value.links);
  }

  /** The links of a walk are exactly the genuine links of the stored items. */
  lemma LinkedIffGenuine(s: Store, n: Node, x: Id)
    requires Valid(s) && Walk(s.items, s.order).Success?
    ensures Link(n, x) in Walk(s.items, s.order).value.links ==> Genuine(s.items, Link(n, x))
    ensures Genuine(s.items, Link(n, x)) ==> Link(n, x) in Walk(s.items, s.order).value.links
  {
    var w := Walk(s.items, s.order).value;
    if Link(n, x) in w.links {
      var k :| 0 <= k < |w.links| && w.links[k] == Link(n, x);
      assert Genuine(s.items, w.links[k]);
    }
    if x in s.items {
      WalkVisits(s.items, s.order, x);
      LinksComplete(s.items, x, {});
    }
  }

  /** The root of a rebuilt store lists exactly the items with a root parent entry, each once. */
  lemma RootChildren(s: Store)
    requires Valid(s) && Build(s).Success?
    ensures forall x :: x in Build(s).value.children[Root] <==> x in s.items && RootAttached(s.items[x])
    ensures Distinct(Build(s).value.children[Root])
  {
    forall x ensures x in Build(s).value.children[Root] <==> x in s.items && RootAttached(s.items[x]) {
      ListedIffLinked(s, Root, x);
      LinkedIffGenuine(s, Root, x);
    }
  }

  /** A folder of a rebuilt store lists exactly the items with a parent entry naming it, each once. */
  lemma FolderChildren(s: Store, f: Id)
    requires Valid(s) && Build(s).Success?
    requires f in s.items && s.items[f].kind == Folder
    ensures forall x :: x in Build(s).value.children[Entry(f)] <==> x in s.items && LinksTo(s.items[x], f)
    ensures Distinct(Build(s).value.children[Entry(f)])
  {
    forall x ensures x in Build(s).value.children[Entry(f)] <==> x in s.items && LinksTo(s.items[x], f) {
      ListedIffLinked(s, Entry(f), x);
      LinkedIffGenuine(s, Entry(f), x);
    }
  }

  /**
   * A rebuilt child list stands in the order in which the walk first pushed
   * each of its items, which is the order readdir lists them in.
   */
  lemma ChildrenInPushOrder(s: Store, n: Node)
    requires Valid(s) && Build(s).Success?
    requires n in Build(s).value.children
    ensures Walk(s.items, s.order).Success? && forall i, j :: 0 <= i < j < |Build(s).value.children[n]| ==>
              FirstPush(Walk(s.items, s.order).value.links, Link(n, Build(s).value.children[n][i])) <
              FirstPush(Walk(s.items, s.order).value.links, Link(n, Build(s).value.children[n][j]))
  {
    BuildShape(s);
    AttachFollowsFirstPushes(Containers(s.items), Walk(s.items, s.order).value.links);
  }

  // ----- when a rebuild fails -----------------------------------------------

  /** Every parent entry naming a stored item names a folder. */
  ghost predicate FolderParents(items: map<Id, Item>) {
    forall a, p :: a in items && p in items[a].parents && !p.isRoot && p.id in items ==> items[p.id].kind == Folder
  }

  /** `rank` decreases along every parent entry naming a stored item: the parent graph is acyclic. */
  ghost predicate Ranked(items: map<Id, Item>, rank: map<Id, nat>) {
    && (forall a :: a in items ==> a in rank)
    && forall a, p :: a in items && p in items[a].parents && !p.isRoot && p.id in items && p.id in rank && a in rank ==>
         rank[p.id] < rank[a]
  }

  /** A rebuild succeeds only if no item names a stored file as its parent. */
  lemma BuildNeedsFolderParents(s: Store)
    requires Valid(s) && Build(s).Success?
    ensures FolderParents(s.items)
  {
    forall a, p | a in s.items && p in s.items[a].parents && !p.isRoot && p.id in s.items
      ensures s.items[p.id].kind == Folder
    {
      WalkVisits(s.items, s.order, a);
      ResolvedParentIsFolder(s.items, a, p);
    }
  }

  lemma ResolvedParentIsFolder(items: map<Id, Item>, a: Id, p: ParentRef)
    requires a in items && ParentPaths(items, a, {}).Success?
    requires p in items[a].parents && !p.isRoot && p.id in items
    ensures items[p.id].kind == Folder
  {
    var ps := items[a].parents;
    var w :| 0 <= w < |ps| && ps[w] == p;
    var none: set<Id> := {};
    EntryPathsCover(items, a, 0, none + {a}, w);
  }

  /** A rebuild succeeds only if no ascent of parent entries comes back to where it started. */
  lemma BuildNeedsNoCycle(s: Store, c: seq<Id>)
    requires Valid(s) && Build(s).Success?
    requires IsAscent(s.items, c) && |c| >= 2
    ensures c[|c| - 1] != c[0]
  {
    WalkVisits(s.items, s.order, c[0]);
    AscentAvoidsStack(s.items, c, {});
  }

  lemma {:induction false} RankedPathsSucceed(items: map<Id, Item>, rank: map<Id, nat>, id: Id, stack: set<Id>)
    requires Ranked(items, rank) && FolderParents(items)
    requires id in items
    requires forall x :: x in stack ==> x in rank && rank[x] > rank[id]
    ensures ParentPaths(items, id, stack).Success?
    decreases items.Keys - stack, 0
  {
    if |items[id].parents| > 0 {
      RankedEntriesSucceed(items, rank, id, 0, stack + {id});
    }
  }

  lemma {:induction false} RankedEntriesSucceed(items: map<Id, Item>, rank: map<Id, nat>, id: Id, j: nat, inner: set<Id>)
    requires Ranked(items, rank) && FolderParents(items)
    requires id in items && j <= |items[id].parents|
    requires forall x :: x in inner ==> x in rank && rank[x] >= rank[id]
    ensures EntryPaths(items, id, j, inner).Success?
    decreases items.Keys - inner, |items[id].parents| - j + 2
  {
    if j < |items[id].parents| {
      RankedContributionSucceeds(items, rank, id, j, inner);
      RankedEntriesSucceed(items, rank, id, j + 1, inner);
    }
  }

  lemma {:induction false} RankedContributionSucceeds(items: map<Id, Item>, rank: map<Id, nat>, id: Id, j: nat, inner: set<Id>)
    requires Ranked(items, rank) && FolderParents(items)
    requires id in items && j < |items[id].parents|
    requires forall x :: x in inner ==> x in rank && rank[x] >= rank[id]
    ensures Contribution(items, id, j, inner).Success?
    decreases items.Keys - inner, 1
  {
    var p := items[id].parents[j];
    assert p in items[id].parents;
    if !p.isRoot && p.id in items {
      assert rank[p.id] < rank[id];
      RankedPathsSucceed(items, rank, p.id, inner);
    }
  }

  /** A store whose parent graph is acyclic and whose parents are folders always rebuilds. */
  lemma AcyclicBuildSucceeds(s: Store, rank: map<Id, nat>)
    requires Valid(s) && Ranked(s.items, rank) && FolderParents(s.items)
    ensures Build(s).Success?
  {
    forall x | x in s.order ensures ParentPaths(s.items, x, {}).Success? {
      RankedPathsSucceed(s.items, rank, x, {});
    }
    WalkSucceeds(s.items, s.order);
  }

  // ----- total size ---------------------------------------------------------

  /** Taking one key out of the sum takes out exactly its size. */
  lemma {:induction false} TotalSizeWithout(items: map<Id, Item>, keys: seq<Id>, i: nat)
    requires forall k :: k in keys ==> k in items
    requires i < |keys|
    ensures TotalSize(items, keys) == TotalSize(items, keys[..i] + keys[i + 1..]) + SizeOf(items[keys[i]])
    decreases |keys|
  {
    var n := |keys| - 1;
    var rest := keys[..i] + keys[i + 1..];
    if i == n {
      assert rest == keys[..n];
    } else {
      var front := keys[..n];
      assert front[..i] + front[i + 1..] == rest[..|rest| - 1];
      assert rest[|rest| - 1] == keys[n];
      TotalSizeWithout(items, front, i);
    }
  }

  /** Removing entry `i` from a duplicate-free sequence removes exactly that element. */
  lemma RemoveAt(b: seq<Id>, i: nat)
    requires Distinct(b) && i < |b|
    ensures Distinct(b[..i] + b[i + 1..])
    ensures forall k :: k in b[..i] + b[i + 1..] <==> k in b && k != b[i]
  {
    var b' := b[..i] + b[i + 1..];
    forall p | 0 <= p < |b'| ensures b'[p] == b[if p < i then p else p + 1] {}
    forall k ensures k in b' <==> k in b && k != b[i] {
      if k in b && k != b[i] {
        var m :| 0 <= m < |b| && b[m] == k;
        if m < i { assert b'[m] == k; } else { assert b'[m - 1] == k; }
      }
    }
  }

  /** A sequence without the last element of `a` holds the other elements. */
  lemma DropLast(a: seq<Id>)
    requires Distinct(a) && |a| > 0
    ensures Distinct(a[..|a| - 1])
    ensures forall k :: k in a[..|a| - 1] <==> k in a && k != a[|a| - 1]
  {
    RemoveAt(a, |a| - 1);
    assert a[..|a| - 1] + a[|a|..] == a[..|a| - 1];
  }

  /**
   * `totalSize` depends on the stored items only, not on the order in
   * which they are enumerated.
   */
  lemma {:induction false} TotalSizeIgnoresOrder(items: map<Id, Item>, a: seq<Id>, b: seq<Id>)
    requires Distinct(a) && Distinct(b)
    requires forall k :: k in a <==> k in b
    requires forall k :: k in a ==> k in items
    ensures TotalSize(items, a) == TotalSize(items, b)
    decreases |a|
  {
    if a != [] {
      var n := |a| - 1;
      var x := a[n];
      assert x in b;
      var i :| 0 <= i < |b| && b[i] == x;
      TotalSizeWithout(items, b, i);
      RemoveAt(b, i);
      DropLast(a);
      forall k ensures k in a[..n] <==> k in b[..i] + b[i + 1..] {
        assert k in a[..n] <==> k in a && k != x;
        assert k in b[..i] + b[i + 1..] <==> k in b && k != x;
      }
      TotalSizeIgnoresOrder(items, a[..n], b[..i] + b[i + 1..]);
    }
  }
}
