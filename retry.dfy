/**
 The bounded retry policy of bmm_spi_write and bmm_spi_read: a do/while loop
 that repeats one SPI transfer until it answers STATUS_OK or until 100
 attempts have been made.

 A phase whose first attempt takes log position `start` sees the answer
 `StatusAt(resp, start + i)` on attempt `i` (counting from 0), because every attempt
 adds exactly one call to the log.
 */
module Retry {
  import opened Platform

  /** The cap `loop_count < 100` of both loops. */
  const MaxAttempts: nat := 100

  /** The answer to attempt `i` (counting from 0) of a phase whose first attempt is at log position `start`. */
  function Answer(resp: seq<Status>, start: nat, i: nat): Status
  {
    StatusAt(resp, start + i)
  }

  /** The attempt that occupies log position `p` sees the script's answer there. */
  lemma AnswerAtPosition(resp: seq<Status>, start: nat, i: nat, p: nat)
    requires p == start + i
    ensures Answer(resp, start, i) == StatusAt(resp, p)
  {
  }

  /** Number of attempts the loop makes once `k` attempts have failed. */
  function AttemptsFrom(resp: seq<Status>, start: nat, k: nat): (n: nat)
    requires k < MaxAttempts
    ensures k < n <= MaxAttempts
    decreases MaxAttempts - k
  {
    if Answer(resp, start, k) == Ok || k + 1 == MaxAttempts then k + 1
    else AttemptsFrom(resp, start, k + 1)
  }

  /** Number of attempts one retry phase makes: at least one, at most the cap. */
  function Attempts(resp: seq<Status>, start: nat): (n: nat)
    ensures 1 <= n <= MaxAttempts
  {
    AttemptsFrom(resp, start, 0)
  }

  /** The status the loop variable holds when the phase ends. */
  function LastStatus(resp: seq<Status>, start: nat): Status
  {
    Answer(resp, start, Attempts(resp, start) - 1)
  }

  /** A failed attempt that is not the 100th is followed by another one. */
  lemma AttemptsFromStep(resp: seq<Status>, start: nat, k: nat)
    requires k + 1 < MaxAttempts
    requires Answer(resp, start, k) != Ok
    ensures AttemptsFrom(resp, start, k) == AttemptsFrom(resp, start, k + 1)
  {
  }

  lemma {:induction false} AttemptsFromStopsAt(resp: seq<Status>, start: nat, k: nat, j: nat)
    requires k <= j < MaxAttempts
    requires Answer(resp, start, j) == Ok || j + 1 == MaxAttempts
    requires forall i :: k <= i < j ==> Answer(resp, start, i) != Ok
    ensures AttemptsFrom(resp, start, k) == j + 1
    decreases j - k
  {
    if k < j {
      AttemptsFromStopsAt(resp, start, k + 1, j);
    }
  }

  lemma {:induction false} AttemptsFromFailedBefore(resp: seq<Status>, start: nat, k: nat)
    requires k < MaxAttempts
    ensures forall i :: k <= i < AttemptsFrom(resp, start, k) - 1 ==> Answer(resp, start, i) != Ok
    ensures AttemptsFrom(resp, start, k) < MaxAttempts ==> Answer(resp, start, AttemptsFrom(resp, start, k) - 1) == Ok
    decreases MaxAttempts - k
  {
    if Answer(resp, start, k) != Ok && k + 1 < MaxAttempts {
      AttemptsFromFailedBefore(resp, start, k + 1);
    }
  }

  /** Every attempt before the last one failed, and a phase that stops short
      of the cap stops on a STATUS_OK. */
  lemma AttemptsMeaning(resp: seq<Status>, start: nat)
    ensures forall i :: 0 <= i < Attempts(resp, start) - 1 ==> Answer(resp, start, i) != Ok
    ensures Attempts(resp, start) < MaxAttempts ==> LastStatus(resp, start) == Ok
  {
    AttemptsFromFailedBefore(resp, start, 0);
  }

  /** If attempt k (k < 100) is the first to answer STATUS_OK, the phase makes exactly k + 1 attempts. */
  lemma StopsAtFirstOk(resp: seq<Status>, start: nat, k: nat)
    requires k < MaxAttempts
    requires Answer(resp, start, k) == Ok
    requires forall i :: 0 <= i < k ==> Answer(resp, start, i) != Ok
    ensures Attempts(resp, start) == k + 1
    ensures LastStatus(resp, start) == Ok
  {
    AttemptsFromStopsAt(resp, start, 0, k);
  }

  /** If no attempt answers STATUS_OK, the phase makes exactly 100 attempts and ends failed. */
  lemma AllAttemptsFail(resp: seq<Status>, start: nat)
    requires forall i :: 0 <= i < MaxAttempts ==> Answer(resp, start, i) != Ok
    ensures Attempts(resp, start) == MaxAttempts
    ensures LastStatus(resp, start) != Ok
  {
    AttemptsFromStopsAt(resp, start, 0, MaxAttempts - 1);
  }

  /** A phase ends on STATUS_OK exactly when one of its first 100 possible attempts would answer STATUS_OK. */
  lemma SucceedsIffSomeAttemptOk(resp: seq<Status>, start: nat)
    ensures LastStatus(resp, start) == Ok <==> exists i :: 0 <= i < MaxAttempts && Answer(resp, start, i) == Ok
  {
    var n := Attempts(resp, start);
    AttemptsMeaning(resp, start);
    if LastStatus(resp, start) == Ok {
      assert Answer(resp, start, (n - 1)) == Ok;
    } else {
      assert n == MaxAttempts;
      forall i | 0 <= i < MaxAttempts
        ensures Answer(resp, start, i) != Ok
      {
        if i == n - 1 {
          assert Answer(resp, start, i) == LastStatus(resp, start);
        }
      }
    }
  }
}
