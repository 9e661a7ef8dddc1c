/**
 * The ranged content fetch of lib/google_drive.js (`getFileBytesByRange`):
 * the decision taken on each HTTP reply, and the chain of requests that a
 * stale download URL causes.
 */
module Fetch {
  import opened Wrappers

  const StatusPartialContent := 206
  const StatusForbidden := 403

  /** What the authenticated request returns: a transport error, or a status and body. */
  datatype HttpReply = TransportError | HttpReply(statusCode: int, body: seq<bv8>)

  datatype FetchError =
    | Transport          // the request itself failed
    | HttpStatus(code: int)
    | RefreshFailed      // the metadata request for a fresh download URL failed

  /** The step taken on one reply. */
  datatype Decision =
    | RefreshAndRetry
    | Fail(error: FetchError)
    | Deliver(body: seq<bv8>)

  /**
   * A forbidden reply refreshes the download URL and retries unless
   * `dontRetry` is set; any other reply but partial content is an error;
   * partial content hands back the body.
   */
  function Decide(reply: HttpReply, dontRetry: bool): (d: Decision)
    ensures d.RefreshAndRetry? <==> reply.HttpReply? && reply.statusCode == StatusForbidden && !dontRetry
    ensures d.Deliver? <==> reply.HttpReply? && reply.statusCode == StatusPartialContent
    ensures d.Deliver? ==> d.body == reply.body
    ensures reply.TransportError? ==> d == Fail(Transport)
    ensures d.Fail? && reply.HttpReply? ==> d.error == HttpStatus(reply.statusCode)
  {
    match reply
    case TransportError => Fail(Transport)
    case HttpReply(status, body) =>
      if status == StatusForbidden && !dontRetry then RefreshAndRetry
      else if status != StatusPartialContent then Fail(HttpStatus(status))
      else Deliver(body)
  }

  /**
   * One request of a fetch: the reply to the ranged request, and what the
   * metadata request for a fresh download URL returns should the reply
   * call for one (None when that request fails).
   */
  datatype Round = Round(reply: HttpReply, refresh: Option<string>)

  /** A fetch has an answer, or is still waiting on a request not among the given rounds. */
  datatype Fetched = Done(result: Result<seq<bv8>, FetchError>) | Waiting

  /** The `dontRetry` argument of request `i` of a chain. */
  function FlagAt(i: nat, dontRetry: bool, retryFlag: bool): bool {
    if i == 0 then dontRetry else retryFlag
  }

  /** Request `i` called for a refresh and got a fresh download URL, so the chain goes on. */
  ghost predicate Retried(rounds: seq<Round>, dontRetry: bool, retryFlag: bool, i: nat)
    requires i < |rounds|
  {
    Decide(rounds[i].reply, FlagAt(i, dontRetry, retryFlag)).RefreshAndRetry? && rounds[i].refresh.Some?
  }

  /** The chain ends at request `k`: every request before it was retried, and it is not. */
  ghost predicate StopsAt(rounds: seq<Round>, dontRetry: bool, retryFlag: bool, k: nat) {
    && k < |rounds|
    && (forall i :: 0 <= i < k ==> Retried(rounds, dontRetry, retryFlag, i))
    && !Retried(rounds, dontRetry, retryFlag, k)
  }

  /**
   * The answer of the request a chain ends at: the body of partial
   * content, the error of the reply, or the failed refresh.
   */
  ghost function Settle(round: Round, dontRetry: bool): Result<seq<bv8>, FetchError> {
    match Decide(round.reply, dontRetry)
    case Deliver(body) => Success(body)
    case Fail(e) => Failure(e)
    case RefreshAndRetry => Failure(RefreshFailed)
  }

  /**
   * The chain of requests of one fetch, where a retry is issued with
   * `retryFlag` as its `dontRetry` argument. It waits while every request
   * so far was retried, and otherwise answers as the request it ends at.
   */
  function Run(rounds: seq<Round>, dontRetry: bool, retryFlag: bool): (f: Fetched)
    ensures f == Waiting <==> forall i :: 0 <= i < |rounds| ==> Retried(rounds, dontRetry, retryFlag, i)
    ensures f.Done? ==> exists k: nat :: StopsAt(rounds, dontRetry, retryFlag, k) && f.result == Settle(rounds[k], FlagAt(k, dontRetry, retryFlag))
    decreases |rounds|
  {
    if rounds == [] then Waiting
    else
      match Decide(rounds[0].reply, dontRetry)
      case Deliver(body) =>
        assert StopsAt(rounds, dontRetry, retryFlag, 0);
        Done(Success(body))
      case Fail(e) =>
        assert StopsAt(rounds, dontRetry, retryFlag, 0);
        Done(Failure(e))
      case RefreshAndRetry =>
        if rounds[0].refresh.None? then
          assert StopsAt(rounds, dontRetry, retryFlag, 0);
          Done(Failure(RefreshFailed))
        else
          RunShift(rounds, dontRetry, retryFlag);
          Run(rounds[1..], retryFlag, retryFlag)
  }

  /** After a retried first request, the chain continues as the chain of the remaining requests. */
  lemma RunShift(rounds: seq<Round>, dontRetry: bool, retryFlag: bool)
    requires rounds != [] && Retried(rounds, dontRetry, retryFlag, 0)
    ensures forall i :: 0 <= i < |rounds| - 1 ==>
              (Retried(rounds[1..], retryFlag, retryFlag, i) <==> Retried(rounds, dontRetry, retryFlag, i + 1))
    ensures forall k: nat :: StopsAt(rounds[1..], retryFlag, retryFlag, k) ==>
              StopsAt(rounds, dontRetry, retryFlag, k + 1) && FlagAt(k + 1, dontRetry, retryFlag) == FlagAt(k, retryFlag, retryFlag)
    ensures (forall i :: 0 <= i < |rounds| - 1 ==> Retried(rounds[1..], retryFlag, retryFlag, i)) <==>
            (forall i :: 0 <= i < |rounds| ==> Retried(rounds, dontRetry, retryFlag, i))
  {
    forall i | 0 <= i < |rounds| - 1
      ensures Retried(rounds[1..], retryFlag, retryFlag, i) <==> Retried(rounds, dontRetry, retryFlag, i + 1)
    {
      assert rounds[1..][i] == rounds[i + 1];
    }
    forall k: nat | StopsAt(rounds[1..], retryFlag, retryFlag, k)
      ensures StopsAt(rounds, dontRetry, retryFlag, k + 1)
    {
      forall i | 0 <= i < k + 1 ensures Retried(rounds, dontRetry, retryFlag, i) {
        if i > 0 {
          assert Retried(rounds[1..], retryFlag, retryFlag, i - 1);
        }
      }
    }
    if forall i :: 0 <= i < |rounds| - 1 ==> Retried(rounds[1..], retryFlag, retryFlag, i) {
      forall i | 0 <= i < |rounds| ensures Retried(rounds, dontRetry, retryFlag, i) {
        if i > 0 {
          assert Retried(rounds[1..], retryFlag, retryFlag, i - 1);
        }
      }
    }
  }

  /** The fetch as written: the retry passes `false` for `dontRetry`. */
  function FetchAsWritten(rounds: seq<Round>, dontRetry: bool): (f: Fetched)
    ensures f == Waiting <==> forall i :: 0 <= i < |rounds| ==> Retried(rounds, dontRetry, false, i)
  {
    Run(rounds, dontRetry, false)
  }

  /** The fetch as intended: the retry is issued with `dontRetry` set. */
  function FetchRetryOnce(rounds: seq<Round>, dontRetry: bool): (f: Fetched)
    ensures f == Waiting ==> |rounds| <= 1
  {
    assert |rounds| >= 2 ==> !Retried(rounds, dontRetry, true, 1);
    Run(rounds, dontRetry, true)
  }

  /** `n` rounds that each answer forbidden and then hand out a fresh URL. */
  function ForbiddenRounds(n: nat, url: string): (rs: seq<Round>)
    ensures |rs| == n
    ensures forall i :: 0 <= i < n ==> rs[i] == Round(HttpReply(StatusForbidden, []), Some(url))
  {
    seq(n, i => Round(HttpReply(StatusForbidden, []), Some(url)))
  }

  /**
   * As written, a server that keeps answering forbidden keeps the fetch
   * going: after any number of such replies it is still waiting on another
   * request.
   */
  lemma {:induction false} AsWrittenRetriesForever(n: nat, url: string)
    ensures FetchAsWritten(ForbiddenRounds(n, url), false) == Waiting
    decreases n
  {
    if n > 0 {
      AsWrittenRetriesForever(n - 1, url);
      assert ForbiddenRounds(n, url)[1..] == ForbiddenRounds(n - 1, url);
    }
  }

  /**
   * With the retry flag passed on, every fetch is answered after at most
   * two requests: by the first, or, when that one was refused and
   * refreshed, by the second.
   */
  lemma RetryOnceSettles(rounds: seq<Round>, dontRetry: bool)
    requires |rounds| >= 2
    ensures FetchRetryOnce(rounds, dontRetry) ==
              Done(if Retried(rounds, dontRetry, true, 0) then Settle(rounds[1], true) else Settle(rounds[0], dontRetry))
    ensures FetchRetryOnce(rounds, dontRetry) == FetchRetryOnce(rounds[..2], dontRetry)
  {
    var first := rounds[..2];
    assert first[0] == rounds[0];
    assert first[1..] == [rounds[1]];
    assert rounds[1..][0] == rounds[1];
    assert Run(rounds[1..], true, true) == Run([rounds[1]], true, true);
  }

  /**
   * With the retry flag passed on, a download URL that is still refused
   * after its refresh is reported as the forbidden status.
   */
  lemma RetryOnceReportsForbidden(rounds: seq<Round>)
    requires |rounds| >= 2
    requires rounds[0].reply.HttpReply? && rounds[0].reply.statusCode == StatusForbidden && rounds[0].refresh.Some?
    requires rounds[1].reply.HttpReply? && rounds[1].reply.statusCode == StatusForbidden
    ensures FetchRetryOnce(rounds, false) == Done(Failure(HttpStatus(StatusForbidden)))
  {
    var rest := rounds[1..];
    assert rest[0] == rounds[1];
    assert Decide(rounds[0].reply, false) == RefreshAndRetry;
    assert Run(rounds, false, true) == Run(rest, true, true);
    assert Decide(rest[0].reply, true) == Fail(HttpStatus(StatusForbidden));
  }
}
