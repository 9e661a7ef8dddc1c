/**
 * Folding a batch of Drive changes into the item store: the `forEach` over
 * the gathered changes in `_loadChanges` of lib/google_drive.js.
 */
module Changes {
  import opened Wrappers
  import opened Drive

  /**
   * One entry of a change list: the deletion of a file, or its new file
   * resource (a change that is not a deletion always carries one).
   */
  datatype Change = Removed(fileId: Id) | Modified(fileId: Id, file: DriveFile)

  /** `order` without `id`; the other keys keep their relative order. */
  function Without(order: seq<Id>, id: Id): (r: seq<Id>)
    ensures forall k :: k in r <==> k in order && k != id
    ensures Distinct(order) ==> Distinct(r)
    decreases |order|
  {
    if order == [] then []
    else
      var rest := Without(order[1..], id);
      if order[0] == id then rest
      else
        assert Distinct(order) ==> order[0] !in order[1..];
        [order[0]] + rest
  }

  /** Removing `id` keeps every other pair of keys in the order they had. */
  lemma {:induction false} WithoutKeepsOrder(order: seq<Id>, id: Id, a: Id, b: Id)
    ensures Precedes(Without(order, id), a, b) <==> a != id && b != id && Precedes(order, a, b)
    decreases |order|
  {
    if order != [] {
      var t := order[1..];
      assert order == [order[0]] + t;
      WithoutKeepsOrder(t, id, a, b);
      PrecedesCons(order[0], t, a, b);
      if order[0] != id {
        PrecedesCons(order[0], Without(t, id), a, b);
      }
      if Precedes(order, a, b) && a != id && b != id && order[0] == a && b in t {
        assert b in Without(t, id);
      }
    }
  }

  /** What a stored entry becomes once `last`, the last change naming it, is applied. */
  function Effect(prior: Option<Item>, last: Option<Change>): Option<Item> {
    match last
    case None => prior
    case Some(Removed(_)) => None
    case Some(Modified(_, f)) => Some(Tag(f))
  }

  /** Applies one change: a deletion removes the key, anything else stores the tagged file under it. */
  function ApplyChange(s: Store, c: Change): (r: Store)
    requires Valid(s)
    ensures Valid(r)
    ensures Lookup(r, c.fileId) == Effect(Lookup(s, c.fileId), Some(c))
    ensures forall k :: k != c.fileId ==> Lookup(r, k) == Lookup(s, k)
    ensures c.Removed? ==> r.order == Without(s.order, c.fileId)
    ensures c.Modified? && c.fileId in s.items ==> r.order == s.order
    ensures c.Modified? && c.fileId !in s.items ==> r.order == s.order + [c.fileId]
  {
    match c
    case Removed(id) => Store(Without(s.order, id), s.items - {id})
    case Modified(id, f) =>
      if id in s.items then Store(s.order, s.items[id := Tag(f)])
      else
        assert id !in s.order;
        Store(s.order + [id], s.items[id := Tag(f)])
  }

  /** The last change of `cs` that names `id`, if any. */
  function LastChangeFor(cs: seq<Change>, id: Id): (r: Option<Change>)
    ensures r.None? <==> forall i :: 0 <= i < |cs| ==> cs[i].fileId != id
    ensures r.Some? ==> exists i :: 0 <= i < |cs| && cs[i] == r.value && cs[i].fileId == id
                                   && forall j :: i < j < |cs| ==> cs[j].fileId != id
    decreases |cs|
  {
    if cs == [] then None
    else if cs[|cs| - 1].fileId == id then Some(cs[|cs| - 1])
    else LastChangeFor(cs[..|cs| - 1], id)
  }

  /**
   * Applies a batch in order. Each id ends up as the last change naming it
   * leaves it; ids no change names keep their entry.
   */
  function ApplyChanges(s: Store, cs: seq<Change>): (r: Store)
    requires Valid(s)
    ensures Valid(r)
    ensures forall k :: Lookup(r, k) == Effect(Lookup(s, k), LastChangeFor(cs, k))
    decreases |cs|
  {
    if cs == [] then s
    else ApplyChange(ApplyChanges(s, cs[..|cs| - 1]), cs[|cs| - 1])
  }

  /** Applying two batches one after the other is applying their concatenation. */
  lemma {:induction false} ApplyChangesSplit(s: Store, a: seq<Change>, b: seq<Change>)
    requires Valid(s)
    ensures ApplyChanges(s, a + b) == ApplyChanges(ApplyChanges(s, a), b)
    decreases |b|
  {
    if b == [] {
      assert a + b == a;
    } else {
      var n := |b| - 1;
      assert (a + b)[..|a + b| - 1] == a + b[..n];
      assert (a + b)[|a + b| - 1] == b[n];
      ApplyChangesSplit(s, a, b[..n]);
    }
  }

  /**
   * Applying the same batch a second time leaves every entry as it is:
   * re-reading a change the cursor still includes does no harm.
   */
  lemma ReapplyKeepsItems(s: Store, cs: seq<Change>)
    requires Valid(s)
    ensures ApplyChanges(ApplyChanges(s, cs), cs).items == ApplyChanges(s, cs).items
  {
    var once := ApplyChanges(s, cs);
    var twice := ApplyChanges(once, cs);
    forall k
      ensures Lookup(twice, k) == Lookup(once, k)
    {
      match LastChangeFor(cs, k)
      case None =>
      case Some(c) =>
    }
    assert twice.items.Keys == once.items.Keys by {
      forall k ensures k in twice.items <==> k in once.items {
        assert Lookup(twice, k) == Lookup(once, k);
      }
    }
    forall k | k in once.items ensures twice.items[k] == once.items[k] {
      assert Lookup(twice, k) == Lookup(once, k);
    }
  }
}
