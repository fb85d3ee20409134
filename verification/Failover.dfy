// DoH resolver failover within a time budget. Transfers are foreign calls: each
// resolver position comes with what would happen there and how long it would take.
module Failover {

  const TICKS_PER_MS := 1_000_000

  datatype Result =
    | Success | InvalidInput | CurlError | BadRequest | PayloadTooLarge | UnsupportedMediaType | TooManyRequests
    | InternalServerError | NotImplemented | BadGateway | GatewayTimeout | UnknownHttpError

  /** `handle` is false when no easy handle could be created; no time passes then. */
  datatype Attempt = Attempt(handle: bool, transfer: Transfer, duration: nat)

  datatype Transfer = Failed | Responded(httpCode: int)

  predicate IsRetryable(r: Result) {
    r.CurlError? || r.InternalServerError? || r.BadGateway? || r.GatewayTimeout? || r.TooManyRequests?
  }

  function HttpCodeToResult(code: int): (r: Result)
    ensures r == Success <==> code == 200
    ensures IsRetryable(r) <==> code == 429 || code == 500 || code == 502 || code == 504
    ensures (r == BadRequest <==> code == 400) && (r == PayloadTooLarge <==> code == 413)
    ensures (r == UnsupportedMediaType <==> code == 415) && (r == NotImplemented <==> code == 501)
    ensures r == UnknownHttpError <==> code !in {200, 400, 413, 415, 429, 500, 501, 502, 504}
    ensures r != InvalidInput && r != CurlError
  {
    match code
    case 200 => Success
    case 400 => BadRequest
    case 413 => PayloadTooLarge
    case 415 => UnsupportedMediaType
    case 429 => TooManyRequests
    case 500 => InternalServerError
    case 501 => NotImplemented
    case 502 => BadGateway
    case 504 => GatewayTimeout
    case _ => UnknownHttpError
  }

  function ResultOf(t: Transfer): Result {
    match t
    case Failed => CurlError
    case Responded(code) => HttpCodeToResult(code)
  }

  /** One transfer that was made: at which resolver position, when, and how it ended. */
  datatype Try = Try(position: nat, start: nat, end: nat, result: Result)

  datatype Outcome = Outcome(result: Result, end: nat, tries: seq<Try>)

  /** The loop from position `i` on, `clock` ticks after the start. */
  function Resume(plan: seq<Attempt>, i: nat, clock: nat, last: Result, tries: seq<Try>, budget: nat): Outcome
    requires i <= |plan|
    decreases |plan| - i
  {
    if i == |plan| || budget as int - clock / TICKS_PER_MS <= 0 then Outcome(last, clock, tries)
    else if !plan[i].handle then Resume(plan, i + 1, clock, last, tries, budget)
    else
      var r, end := ResultOf(plan[i].transfer), clock + plan[i].duration;
      var tries' := tries + [Try(i, clock, end, r)];
      if r == Success || !IsRetryable(r) then Outcome(r, end, tries')
      else Resume(plan, i + 1, end, r, tries', budget)
  }

  function Run(plan: seq<Attempt>, budget: nat): Outcome {
    Resume(plan, 0, 0, CurlError, [], budget)
  }

  /**
   * A transfer lasts at most as long as the timeout it was given: the whole seconds that were left
   * of the budget when it started, and at least one.
   */
  predicate KeepsTimeout(t: Try, budget: nat) {
    var left := budget - t.start / TICKS_PER_MS;
    t.end - t.start <= (if left >= 2000 then left / 1000 else 1) * 1_000_000_000
  }

  predicate KeepsTimeouts(tries: seq<Try>, budget: nat) {
    forall k :: 0 <= k < |tries| ==> KeepsTimeout(tries[k], budget)
  }

  /** What a log of transfers looks like part of the way through. */
  predicate Orderly(plan: seq<Attempt>, tries: seq<Try>, i: nat, clock: nat, budget: nat) {
    && (forall k :: 0 <= k < |tries| ==> tries[k].position < i <= |plan|)
    && (forall j, k :: 0 <= j < k < |tries| ==> tries[j].position < tries[k].position && tries[j].end <= tries[k].start)
    && (forall k :: 0 <= k < |tries| ==>
          var a := plan[tries[k].position];
          && a.handle && tries[k].result == ResultOf(a.transfer)
          && tries[k].end == tries[k].start + a.duration && tries[k].start / TICKS_PER_MS < budget)
    && (if |tries| == 0 then clock == 0 else tries[|tries| - 1].end == clock)
  }

  predicate AllRetryable(tries: seq<Try>) {
    forall k :: 0 <= k < |tries| ==> IsRetryable(tries[k].result)
  }

  lemma OrderlyStep(plan: seq<Attempt>, tries: seq<Try>, i: nat, clock: nat, budget: nat)
    requires Orderly(plan, tries, i, clock, budget) && i < |plan| && plan[i].handle
    requires clock / TICKS_PER_MS < budget
    ensures var t := Try(i, clock, clock + plan[i].duration, ResultOf(plan[i].transfer));
            Orderly(plan, tries + [t], i + 1, t.end, budget)
  {
    hide ResultOf;
  }

  lemma OrderlyLater(plan: seq<Attempt>, tries: seq<Try>, i: nat, j: nat, clock: nat, budget: nat)
    requires Orderly(plan, tries, i, clock, budget) && i <= j <= |plan|
    ensures Orderly(plan, tries, j, clock, budget)
  {
  }

  /** The shape of every run, whatever the resolvers do. */
  lemma {:induction false} ResumeIsOrderly(plan: seq<Attempt>, i: nat, clock: nat, last: Result, tries: seq<Try>, budget: nat)
    requires i <= |plan| && Orderly(plan, tries, i, clock, budget) && AllRetryable(tries)
    requires last == if |tries| == 0 then CurlError else tries[|tries| - 1].result
    ensures var o := Resume(plan, i, clock, last, tries, budget);
            && Orderly(plan, o.tries, |plan|, o.end, budget)
            && |o.tries| >= |tries|
            && (|o.tries| > 0 ==> AllRetryable(o.tries[..|o.tries| - 1]))
            && o.result == (if |o.tries| == 0 then CurlError else o.tries[|o.tries| - 1].result)
    decreases |plan| - i
  {
    hide ResultOf, IsRetryable, Orderly;
    if i == |plan| || budget as int - clock / TICKS_PER_MS <= 0 {
      OrderlyLater(plan, tries, i, |plan|, clock, budget);
    } else if !plan[i].handle {
      OrderlyLater(plan, tries, i, i + 1, clock, budget);
      ResumeIsOrderly(plan, i + 1, clock, last, tries, budget);
    } else {
      OrderlyStep(plan, tries, i, clock, budget);
      var r, end := ResultOf(plan[i].transfer), clock + plan[i].duration;
      var tries' := tries + [Try(i, clock, end, r)];
      assert tries'[..|tries'| - 1] == tries;
      OrderlyLater(plan, tries', i + 1, |plan|, end, budget);
      if r != Success && IsRetryable(r) {
        ResumeIsOrderly(plan, i + 1, end, r, tries', budget);
      }
    }
  }

  /** A transfer after which the next resolver is tried: it failed, or the server was overloaded or broken. */
  predicate FailsOver(t: Transfer) {
    t.Failed? || t.httpCode == 429 || t.httpCode == 500 || t.httpCode == 502 || t.httpCode == 504
  }

  lemma FailsOverExactly(t: Transfer)
    ensures IsRetryable(ResultOf(t)) <==> FailsOver(t)
    ensures ResultOf(t) == CurlError <==> t.Failed?
  {
  }

  predicate Tried(tries: seq<Try>, position: nat) {
    exists k :: 0 <= k < |tries| && tries[k].position == position
  }

  /** A run that ends in a retryable failure has no resolver left to try, or no time. */
  lemma {:induction false} NothingGivenUp(plan: seq<Attempt>, i: nat, clock: nat, last: Result, tries: seq<Try>, budget: nat)
    requires i <= |plan| && forall j :: 0 <= j < i && plan[j].handle ==> Tried(tries, j)
    ensures var o := Resume(plan, i, clock, last, tries, budget);
            IsRetryable(o.result) ==>
              (forall j :: 0 <= j < |plan| && plan[j].handle ==> Tried(o.tries, j)) || o.end / TICKS_PER_MS >= budget
    decreases |plan| - i
  {
    hide ResultOf;
    if i < |plan| && clock / TICKS_PER_MS < budget {
      if !plan[i].handle {
        NothingGivenUp(plan, i + 1, clock, last, tries, budget);
      } else {
        var r, end := ResultOf(plan[i].transfer), clock + plan[i].duration;
        var tries' := tries + [Try(i, clock, end, r)];
        forall j | 0 <= j < i + 1 && plan[j].handle ensures Tried(tries', j) {
          if j < i {
            var k :| 0 <= k < |tries| && tries[k].position == j;
            assert tries'[k].position == j;
          } else {
            assert tries'[|tries|].position == j;
          }
        }
        if r != Success && IsRetryable(r) {
          NothingGivenUp(plan, i + 1, end, r, tries', budget);
        }
      }
    }
  }

  /**
   * Each resolver position is tried at most once, in order and one after the other; only
   * retryable failures are followed by another try; success is reported exactly when the
   * last transfer made succeeded; a retryable failure is reported only when every resolver
   * with a handle was tried or the budget was used up.
   */
  lemma RunShape(plan: seq<Attempt>, budget: nat)
    ensures var o := Run(plan, budget);
            && (forall k :: 0 <= k < |o.tries| ==> o.tries[k].position < |plan|)
            && (forall j, k :: 0 <= j < k < |o.tries| ==> o.tries[j].position < o.tries[k].position)
            && (forall k :: 0 <= k < |o.tries| - 1 ==> FailsOver(plan[o.tries[k].position].transfer))
            && (forall k :: 0 <= k < |o.tries| ==> plan[o.tries[k].position].handle && o.tries[k].start / TICKS_PER_MS < budget)
            && (|o.tries| > 0 ==> o.result == ResultOf(plan[o.tries[|o.tries| - 1].position].transfer))
            && (o.result == Success <==>
                  |o.tries| > 0 && plan[o.tries[|o.tries| - 1].position].transfer == Responded(200))
            && (|o.tries| == 0 ==> o.result == CurlError && o.end == 0)
            && (|o.tries| == 0 || FailsOver(plan[o.tries[|o.tries| - 1].position].transfer) ==>
                  (forall j :: 0 <= j < |plan| && plan[j].handle ==> Tried(o.tries, j)) || o.end / TICKS_PER_MS >= budget)
  {
    hide ResultOf, IsRetryable;
    assert IsRetryable(CurlError) by { CurlErrorIsRetryable(); }
    forall t: Transfer ensures IsRetryable(ResultOf(t)) <==> FailsOver(t) {
      FailsOverExactly(t);
    }
    ResumeIsOrderly(plan, 0, 0, CurlError, [], budget);
    NothingGivenUp(plan, 0, 0, CurlError, [], budget);
    var o := Run(plan, budget);
    forall k | 0 <= k < |o.tries| - 1 ensures FailsOver(plan[o.tries[k].position].transfer) {
      assert o.tries[..|o.tries| - 1][k] == o.tries[k];
    }
    if |o.tries| > 0 {
      SuccessExactly(plan[o.tries[|o.tries| - 1].position].transfer);
    }
  }

  lemma CurlErrorIsRetryable()
    ensures IsRetryable(CurlError)
  {
  }

  lemma SuccessExactly(t: Transfer)
    ensures ResultOf(t) == Success <==> t == Responded(200)
  {
  }

  lemma TryEndsInTime(t: Try, budget: nat)
    requires t.start <= t.end && t.start / TICKS_PER_MS < budget
    requires KeepsTimeout(t, budget)
    ensures t.end < (budget + 1000) * TICKS_PER_MS
  {
    var ms := t.start / TICKS_PER_MS;
    var remaining := budget - ms;
    assert t.start < (ms + 1) * TICKS_PER_MS;
    if remaining >= 2000 {
      assert remaining / 1000 * 1000 <= remaining;
    }
  }

  /** If transfers keep their timeouts, the whole run takes less than the budget plus one second. */
  lemma RunEndsInTime(plan: seq<Attempt>, budget: nat)
    requires KeepsTimeouts(Run(plan, budget).tries, budget)
    ensures Run(plan, budget).end < (budget + 1000) * TICKS_PER_MS
    ensures Run(plan, budget).end / TICKS_PER_MS <= budget + 999
  {
    ResumeIsOrderly(plan, 0, 0, CurlError, [], budget);
    var o := Run(plan, budget);
    if |o.tries| > 0 {
      TryEndsInTime(o.tries[|o.tries| - 1], budget);
    }
  }

  lemma RunBegins(plan: seq<Attempt>, budget: nat)
    ensures Run(plan, budget) == Resume(plan, 0, 0, CurlError, [], budget)
  {
  }

  lemma SuccessIsReal(plan: seq<Attempt>, budget: nat)
    ensures Run(plan, budget).result == Success ==> exists k :: 0 <= k < |plan| && plan[k].handle && plan[k].transfer == Responded(200)
  {
    RunShape(plan, budget);
    ResumeIsOrderly(plan, 0, 0, CurlError, [], budget);
    var o := Run(plan, budget);
    if o.result == Success {
      assert plan[o.tries[|o.tries| - 1].position].transfer == Responded(200);
    }
  }

  /** `hasData` is false for a null or empty query, `multi` without a multi handle; `plan` lists the resolvers as shuffled. */
  method Resolve(hasData: bool, multi: bool, plan: seq<Attempt>, budget: nat) returns (result: Result, end: nat, ghost tries: seq<Try>)
    ensures Outcome(result, end, tries) ==
            if !hasData then Outcome(InvalidInput, 0, [])
            else if !multi then Outcome(CurlError, 0, [])
            else Run(plan, budget)
    ensures result == Success ==> exists k :: 0 <= k < |plan| && plan[k].handle && plan[k].transfer == Responded(200)
  {
    hide IsRetryable, ResultOf, Run;
    SuccessIsReal(plan, budget);
    RunBegins(plan, budget);
    if !hasData {
      return InvalidInput, 0, [];
    }
    result, end, tries := CurlError, 0, [];
    if !multi {
      return;
    }
    for i := 0 to |plan|
      invariant Run(plan, budget) == Resume(plan, i, end, result, tries, budget)
    {
      var elapsed := end / TICKS_PER_MS;
      var remaining := budget - elapsed;
      if remaining <= 0 {
        break;
      }
      if !plan[i].handle {
        continue;
      }
      ghost var start := end;
      end := end + plan[i].duration;
      result := ResultOf(plan[i].transfer);
      tries := tries + [Try(i, start, end, result)];
      if result == Success {
        return;
      }
      if !IsRetryable(result) {
        return;
      }
    }
  }
}
