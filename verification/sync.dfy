/**
 * One synchronization run: `_loadChanges` of lib/google_drive.js. The
 * replies of the paginated change list are given as a sequence, one per
 * request in the order the requests are made.
 */
module Sync {
  import opened Wrappers
  import opened Drive
  import opened Changes
  import opened Indexer

  /**
   * A change cursor as the JavaScript code holds it: the number the cache
   * starts with, or the value a change-list reply carries (Drive sends
   * this int64 field as a decimal string). Equality of two cursors is the
   * source's `===`: a number is never strictly equal to a string.
   */
  datatype ChangeId = Number(n: int) | Text(digits: string)

  /** The persisted cache: the change cursor and the item store. */
  datatype Cache = Cache(largestChangeId: ChangeId, store: Store)

  /** The cache before anything has been loaded. */
  const InitialCache: Cache := Cache(Number(1), EmptyStore)

  /** The reply to one page request: a failed request, or a page of changes. */
  datatype PageReply =
    | PageFailed
    | Page(items: seq<Change>, largestChangeId: ChangeId, nextPageToken: Option<string>)

  /** Why a run ends without applying anything. */
  datatype Halt =
    | UpToDate      // a page reported the stored cursor
    | PageError     // a page request failed
    | AwaitingPage  // the next page has not been answered

  /** The outcome of paging: every gathered change and the final cursor, or a halt. */
  datatype Gathered = Complete(changes: seq<Change>, largestChangeId: ChangeId) | Halted(why: Halt)

  /** The changes of the pages among `replies`, in order. */
  function Batch(replies: seq<PageReply>): seq<Change>
    decreases |replies|
  {
    if replies == [] then []
    else (if replies[0].Page? then replies[0].items else []) + Batch(replies[1..])
  }

  /**
   * `getPageOfChanges`: reads replies until a page without a next-page
   * token, accumulating changes after `acc`. A page whose cursor equals the
   * stored one stops the run with nothing applied.
   */
  function Gather(cursor: ChangeId, replies: seq<PageReply>, acc: seq<Change>): (g: Gathered)
    ensures g.Complete? ==> g.largestChangeId != cursor
    decreases |replies|
  {
    if replies == [] then Halted(AwaitingPage)
    else
      match replies[0]
      case PageFailed => Halted(PageError)
      case Page(cs, largest, token) =>
        if largest == cursor then Halted(UpToDate)
        else if Truthy(token) then Gather(cursor, replies[1..], acc + cs)
        else Complete(acc + cs, largest)
  }

  /** What the run did to the index. */
  datatype SyncStatus =
    | NotApplied(why: Halt)
    | Indexed(index: Index)
    | IndexFailed(error: IndexError)

  datatype SyncResult = SyncResult(cache: Cache, status: SyncStatus)

  /**
   * `_loadChanges`: when paging completes, the cursor becomes the last
   * page's, the gathered batch is applied to the store and the index is
   * rebuilt; otherwise the cache is left as it was.
   */
  function LoadChanges(c: Cache, replies: seq<PageReply>): (r: SyncResult)
    requires Valid(c.store)
    ensures Valid(r.cache.store)
    ensures r.status.NotApplied? ==> r.cache == c
    ensures !r.status.NotApplied? ==> r.cache.largestChangeId != c.largestChangeId
    ensures r.status.Indexed? ==> r.status.index.items == r.cache.store.items
    ensures !r.status.NotApplied? ==> (r.status.Indexed? <==> Build(r.cache.store).Success?)
    ensures r.status.Indexed? ==> r.status.index == Build(r.cache.store).value
    ensures r.status.IndexFailed? ==> Build(r.cache.store) == Failure(r.status.error)
    ensures replies != [] && replies[0].Page? && replies[0].largestChangeId == c.largestChangeId ==>
              r == SyncResult(c, NotApplied(UpToDate))
  {
    match Gather(c.largestChangeId, replies, [])
    case Halted(why) => SyncResult(c, NotApplied(why))
    case Complete(cs, largest) =>
      var store := ApplyChanges(c.store, cs);
      var cache := Cache(largest, store);
      match Build(store)
      case Success(ix) => SyncResult(cache, Indexed(ix))
      case Failure(e) => SyncResult(cache, IndexFailed(e))
  }

  /**
   * Page `k` ends the run: every page up to it was answered with a cursor
   * other than the stored one, every page before it has a next-page token,
   * and it has none.
   */
  ghost predicate FinalPageAt(cursor: ChangeId, replies: seq<PageReply>, k: int) {
    && 0 <= k < |replies|
    && (forall i :: 0 <= i <= k ==> replies[i].Page? && replies[i].largestChangeId != cursor)
    && (forall i :: 0 <= i < k ==> replies[i].Page? && Truthy(replies[i].nextPageToken))
    && replies[k].Page? && !Truthy(replies[k].nextPageToken)
  }

  lemma {:induction false} GatherFinal(cursor: ChangeId, replies: seq<PageReply>, acc: seq<Change>)
    ensures Gather(cursor, replies, acc).Complete? <==> exists k :: FinalPageAt(cursor, replies, k)
    ensures forall k :: FinalPageAt(cursor, replies, k) ==>
              Gather(cursor, replies, acc) == Complete(acc + Batch(replies[..k + 1]), replies[k].largestChangeId)
    decreases |replies|, 1
  {
    if replies != [] && replies[0].Page? && replies[0].largestChangeId != cursor {
      if Truthy(replies[0].nextPageToken) {
        GatherFinalNext(cursor, replies, acc);
      } else {
        assert FinalPageAt(cursor, replies, 0);
        assert replies[..1][1..] == [];
        forall k | FinalPageAt(cursor, replies, k) ensures k == 0 {}
      }
    } else {
      forall k | 0 <= k < |replies| ensures !FinalPageAt(cursor, replies, k) {
        assert 0 <= k;
      }
    }
  }

  /** A page with a next-page token: paging ends where it ends on the remaining replies. */
  lemma {:induction false} GatherFinalNext(cursor: ChangeId, replies: seq<PageReply>, acc: seq<Change>)
    requires replies != [] && replies[0].Page? && replies[0].largestChangeId != cursor
    requires Truthy(replies[0].nextPageToken)
    ensures Gather(cursor, replies, acc).Complete? <==> exists k :: FinalPageAt(cursor, replies, k)
    ensures forall k :: FinalPageAt(cursor, replies, k) ==>
              Gather(cursor, replies, acc) == Complete(acc + Batch(replies[..k + 1]), replies[k].largestChangeId)
    decreases |replies|, 0
  {
    var cs := replies[0].items;
    var rest := replies[1..];
    GatherFinal(cursor, rest, acc + cs);
    forall k | FinalPageAt(cursor, replies, k)
      ensures k >= 1 && FinalPageAt(cursor, rest, k - 1)
              && acc + Batch(replies[..k + 1]) == (acc + cs) + Batch(rest[..k])
    {
      assert replies[..k + 1][1..] == rest[..k];
    }
    if Gather(cursor, rest, acc + cs).Complete? {
      var k :| FinalPageAt(cursor, rest, k);
      assert FinalPageAt(cursor, replies, k + 1);
    }
  }

  /**
   * Paging reaches reply `k`: every page before it was answered with a
   * cursor other than the stored one and a next-page token.
   */
  ghost predicate ReachedAt(cursor: ChangeId, replies: seq<PageReply>, k: int) {
    && 0 <= k < |replies|
    && forall i :: 0 <= i < k ==>
         replies[i].Page? && replies[i].largestChangeId != cursor && Truthy(replies[i].nextPageToken)
  }

  /** Past a page that asks for more, paging reaches the later replies exactly as the rest does. */
  lemma ReachedShift(cursor: ChangeId, replies: seq<PageReply>, k: int)
    requires replies != [] && replies[0].Page? && replies[0].largestChangeId != cursor
    requires Truthy(replies[0].nextPageToken)
    requires 1 <= k
    ensures ReachedAt(cursor, replies, k) <==> ReachedAt(cursor, replies[1..], k - 1)
  {
    if ReachedAt(cursor, replies[1..], k - 1) {
      forall i | 0 <= i < k
        ensures replies[i].Page? && replies[i].largestChangeId != cursor && Truthy(replies[i].nextPageToken)
      {
        if i > 0 {
          assert replies[i] == replies[1..][i - 1];
        }
      }
    }
  }

  /**
   * Paging halts on an error exactly when the first reply it reaches that
   * is not a page asking for more is a failed request; it halts as up to
   * date exactly when that reply is a page carrying the stored cursor; and
   * it waits exactly when every reply is a page asking for more.
   */
  lemma {:induction false} GatherHalts(cursor: ChangeId, replies: seq<PageReply>, acc: seq<Change>)
    ensures Gather(cursor, replies, acc) == Halted(PageError) <==>
              exists k :: ReachedAt(cursor, replies, k) && replies[k].PageFailed?
    ensures Gather(cursor, replies, acc) == Halted(UpToDate) <==>
              exists k :: ReachedAt(cursor, replies, k) && replies[k].Page? && replies[k].largestChangeId == cursor
    ensures Gather(cursor, replies, acc) == Halted(AwaitingPage) <==>
              forall i :: 0 <= i < |replies| ==>
                replies[i].Page? && replies[i].largestChangeId != cursor && Truthy(replies[i].nextPageToken)
    decreases |replies|
  {
    if replies == [] {
    } else if replies[0].PageFailed? || replies[0].largestChangeId == cursor || !Truthy(replies[0].nextPageToken) {
      assert ReachedAt(cursor, replies, 0);
      forall k | ReachedAt(cursor, replies, k) ensures k == 0 {}
    } else {
      var rest := replies[1..];
      GatherHalts(cursor, rest, acc + replies[0].items);
      forall k | 1 <= k && ReachedAt(cursor, replies, k) ensures ReachedAt(cursor, rest, k - 1) {
        ReachedShift(cursor, replies, k);
      }
      forall k | ReachedAt(cursor, rest, k) ensures ReachedAt(cursor, replies, k + 1) {
        ReachedShift(cursor, replies, k + 1);
      }
      forall i | 0 <= i < |rest| ensures rest[i] == replies[i + 1] {}
      if forall i :: 0 <= i < |rest| ==>
           rest[i].Page? && rest[i].largestChangeId != cursor && Truthy(rest[i].nextPageToken) {
        forall i | 0 <= i < |replies|
          ensures replies[i].Page? && replies[i].largestChangeId != cursor && Truthy(replies[i].nextPageToken)
        {
          if i > 0 {
            assert replies[i] == rest[i - 1];
          }
        }
      }
    }
  }

  /**
   * A run changes the cache exactly when some page ends it; the cursor then
   * becomes that page's and the store receives the changes of every page
   * up to it, in order. The cursor is never moved part-way.
   */
  lemma SyncCommitsAtFinalPage(c: Cache, replies: seq<PageReply>)
    requires Valid(c.store)
    ensures !LoadChanges(c, replies).status.NotApplied? <==> exists k :: FinalPageAt(c.largestChangeId, replies, k)
    ensures forall k :: FinalPageAt(c.largestChangeId, replies, k) ==>
              LoadChanges(c, replies).cache ==
                Cache(replies[k].largestChangeId, ApplyChanges(c.store, Batch(replies[..k + 1])))
  {
    GatherFinal(c.largestChangeId, replies, []);
    forall k | FinalPageAt(c.largestChangeId, replies, k)
      ensures LoadChanges(c, replies).cache ==
                Cache(replies[k].largestChangeId, ApplyChanges(c.store, Batch(replies[..k + 1])))
    {
      assert [] + Batch(replies[..k + 1]) == Batch(replies[..k + 1]);
    }
  }

  /** Paging never reports "up to date" when no page carries the stored cursor. */
  lemma {:induction false} GatherNeverUpToDate(cursor: ChangeId, replies: seq<PageReply>, acc: seq<Change>)
    requires forall i :: 0 <= i < |replies| && replies[i].Page? ==> replies[i].largestChangeId != cursor
    ensures Gather(cursor, replies, acc) != Halted(UpToDate)
    decreases |replies|
  {
    if replies != [] && replies[0].Page? && Truthy(replies[0].nextPageToken) {
      GatherNeverUpToDate(cursor, replies[1..], acc + replies[0].items);
    }
  }

  /**
   * The first run from the initial cache compares the number 1 with the
   * string cursors Drive sends, so it never finds the store up to date.
   */
  lemma FirstRunNeverUpToDate(replies: seq<PageReply>)
    requires forall i :: 0 <= i < |replies| && replies[i].Page? ==> replies[i].largestChangeId.Text?
    ensures LoadChanges(InitialCache, replies).status != NotApplied(UpToDate)
  {
    GatherNeverUpToDate(InitialCache.largestChangeId, replies, []);
  }

  /**
   * Why a run leaves the cache as it was: a failed request reached by
   * paging is reported as an error, a reached page carrying the stored
   * cursor as up to date, and replies that all ask for more as waiting.
   */
  lemma SyncHalts(c: Cache, replies: seq<PageReply>)
    requires Valid(c.store)
    ensures LoadChanges(c, replies).status == NotApplied(PageError) <==>
              exists k :: ReachedAt(c.largestChangeId, replies, k) && replies[k].PageFailed?
    ensures LoadChanges(c, replies).status == NotApplied(UpToDate) <==>
              exists k :: ReachedAt(c.largestChangeId, replies, k) && replies[k].Page? &&
                replies[k].largestChangeId == c.largestChangeId
    ensures LoadChanges(c, replies).status == NotApplied(AwaitingPage) <==>
              forall i :: 0 <= i < |replies| ==>
                replies[i].Page? && replies[i].largestChangeId != c.largestChangeId && Truthy(replies[i].nextPageToken)
  {
    GatherHalts(c.largestChangeId, replies, []);
  }
}
