/**
 The rate-limit fault: requests are counted in one-second windows, each opened
 by the first request that finds the previous window over. Times are in
 nanoseconds.
 */
module RateLimit {
  import opened Basics
  import opened Options

  const SECOND: int := 1_000_000_000

  datatype Window = Window(start: int, count: nat)

  function Observe(w: Option<Window>, now: int): Window {
    if w.None? || now - w.value.start >= SECOND then Window(now, 1) else w.value.(count := w.value.count + 1)
  }

  /** The window after these requests, in order of arrival. */
  function After(times: seq<int>): (w: Option<Window>)
    ensures w.None? <==> times == []
  {
    if times == [] then None else Some(Observe(After(times[..|times| - 1]), times[|times| - 1]))
  }

  /** Whether the last of these requests is let through under a limit of `n` per second. */
  predicate Passes(times: seq<int>, n: nat)
    requires times != []
  {
    After(times).value.count <= n
  }

  // Windows, whatever the clock does

  /** How many of these requests fell in the window that opened at `start`. */
  function InWindow(times: seq<int>, start: int): nat {
    if times == [] then 0
    else InWindow(times[..|times| - 1], start) + if After(times).value.start == start then 1 else 0
  }

  lemma {:induction false} NoLaterWindow(times: seq<int>, start: int)
    requires times == [] || After(times).value.start < start
    ensures InWindow(times, start) == 0
  {
    if times != [] {
      NoLaterWindow(times[..|times| - 1], start);
    }
  }

  lemma {:induction false} CountIsTally(times: seq<int>)
    requires times != []
    ensures var w := After(times).value; w.count == InWindow(times, w.start) && w.count >= 1
  {
    var before := times[..|times| - 1];
    var w := After(times).value;
    if before == [] || After(before).value.start != w.start {
      NoLaterWindow(before, w.start);
    } else {
      CountIsTally(before);
    }
  }

  /** A request passes exactly when it is among the first `n` of its window. */
  lemma FirstOfWindowPass(times: seq<int>, n: nat)
    requires times != []
    ensures Passes(times, n) <==> InWindow(times, After(times).value.start) <= n
  {
    CountIsTally(times);
  }

  /** Any two windows opened at least a second apart. */
  lemma {:induction false} WindowsApart(times: seq<int>, m: nat)
    requires 1 <= m <= |times|
    ensures var s, t := After(times[..m]).value.start, After(times).value.start;
            t == s || t >= s + SECOND
  {
    if m < |times| {
      var before := times[..|times| - 1];
      assert before[..m] == times[..m];
      WindowsApart(before, m);
    } else {
      assert times[..m] == times;
    }
  }

  /**
   The window of the last request: it opened at request `k`, all requests since
   came within its second, and the window before, if any, was over by then.
   */
  lemma {:induction false} WindowOf(times: seq<int>) returns (k: nat)
    requires times != []
    ensures k < |times| && After(times) == Some(Window(times[k], |times| - k))
    ensures forall j | k < j < |times| :: times[j] - times[k] < SECOND
    ensures k > 0 ==> times[k] - After(times[..k]).value.start >= SECOND
  {
    var n := |times| - 1;
    var before := times[..n];
    k := n;
    if before != [] && times[n] - After(before).value.start < SECOND {
      k := WindowOf(before);
      assert before[..k] == times[..k];
    }
  }

  // Any second of a clock that does not run backwards

  predicate NonDecreasing(times: seq<int>) {
    forall i, j | 0 <= i < j < |times| :: times[i] <= times[j]
  }

  /** How many requests pass in the second that starts at `t`. */
  function Admitted(times: seq<int>, n: nat, t: int): nat {
    if times == [] then 0
    else
      var now := times[|times| - 1];
      Admitted(times[..|times| - 1], n, t) + if t <= now < t + SECOND && Passes(times, n) then 1 else 0
  }

  /** How far the current window lets the count for the second from `t` have gone. */
  ghost function Bound(w: Option<Window>, n: nat, t: int): int {
    if w.None? || w.value.start <= t - SECOND then 0
    else if w.value.start < t then Min(w.value.count, n) - 1
    else if w.value.start < t + SECOND then n - 1 + Min(w.value.count, n)
    else 2 * n - 1
  }

  lemma {:induction false} StartNotAfterLast(times: seq<int>)
    requires times != [] && NonDecreasing(times)
    ensures After(times).value.start <= times[|times| - 1] < After(times).value.start + SECOND
    ensures After(times).value.count >= 1
  {
    var before := times[..|times| - 1];
    if before != [] {
      StartNotAfterLast(before);
    }
  }

  lemma {:induction false} AdmittedWithinBound(times: seq<int>, n: nat, t: int)
    requires n > 0 && NonDecreasing(times)
    ensures Admitted(times, n, t) <= Bound(After(times), n, t)
  {
    if times != [] {
      var before := times[..|times| - 1];
      AdmittedWithinBound(before, n, t);
      StartNotAfterLast(times);
      if before != [] {
        StartNotAfterLast(before);
      }
    }
  }

  /** No half-open second lets more than 2n - 1 requests through. */
  lemma AtMostTwiceTheLimit(times: seq<int>, n: nat, t: int)
    requires n > 0 && NonDecreasing(times)
    ensures Admitted(times, n, t) <= 2 * n - 1
  {
    AdmittedWithinBound(times, n, t);
  }

  // And for every limit some second does let 2n - 1 through

  function Repeat(k: nat, time: int): seq<int> {
    seq(k, _ => time)
  }

  lemma {:induction false} EndOfFirstWindow(n: nat, k: nat)
    requires k < n
    ensures After([0] + Repeat(k, SECOND - 1)) == Some(Window(0, k + 1))
    ensures Admitted([0] + Repeat(k, SECOND - 1), n, SECOND - 1) == k
  {
    var times := [0] + Repeat(k, SECOND - 1);
    if k == 0 {
      assert times == [0] && [0][..0] == [];
      assert After([]).None?;
    } else {
      EndOfFirstWindow(n, k - 1);
      assert times[..k] == [0] + Repeat(k - 1, SECOND - 1);
    }
  }

  lemma {:induction false} StartOfSecondWindow(n: nat, k: nat)
    requires 0 < n && k <= n
    ensures var times := [0] + Repeat(n - 1, SECOND - 1) + Repeat(k, SECOND);
            && After(times) == Some(if k == 0 then Window(0, n) else Window(SECOND, k))
            && Admitted(times, n, SECOND - 1) == n - 1 + k
  {
    var first := [0] + Repeat(n - 1, SECOND - 1);
    var times := first + Repeat(k, SECOND);
    if k == 0 {
      EndOfFirstWindow(n, n - 1);
      assert times == first;
    } else {
      StartOfSecondWindow(n, k - 1);
      assert times[..|times| - 1] == first + Repeat(k - 1, SECOND);
    }
  }

  lemma BoundIsReached(n: nat)
    requires n > 0
    ensures exists times, t :: NonDecreasing(times) && Admitted(times, n, t) == 2 * n - 1
  {
    var times := [0] + Repeat(n - 1, SECOND - 1) + Repeat(n, SECOND);
    StartOfSecondWindow(n, n);
    assert NonDecreasing(times) && Admitted(times, n, SECOND - 1) == 2 * n - 1;
  }

  /** The documented limit of n in every trailing second holds for every clock exactly when n is 1. */
  lemma DocumentedLimitIffOne(n: nat)
    requires n > 0
    ensures (forall times, t | NonDecreasing(times) :: Admitted(times, n, t) <= n) <==> n == 1
  {
    if n == 1 {
      forall times, t | NonDecreasing(times) ensures Admitted(times, n, t) <= n {
        AtMostTwiceTheLimit(times, n, t);
      }
    } else {
      BoundIsReached(n);
    }
  }

  // And for every limit in the seconds that start with a window

  lemma {:induction false} NoneBefore(times: seq<int>, n: nat, t: int)
    requires forall i | 0 <= i < |times| :: times[i] < t
    ensures Admitted(times, n, t) == 0
  {
    if times != [] {
      NoneBefore(times[..|times| - 1], n, t);
    }
  }

  lemma {:induction false} OpenWindowWithinLimit(times: seq<int>, n: nat)
    requires times != [] && NonDecreasing(times)
    ensures var w := After(times).value; Admitted(times, n, w.start) <= Min(w.count, n)
  {
    var before := times[..|times| - 1];
    var t := After(times).value.start;
    if before != [] {
      StartNotAfterLast(before);
      if After(before).value.start == t {
        OpenWindowWithinLimit(before, n);
      } else {
        NoneBefore(before, n, t);
      }
    }
  }

  /** A second that starts where some window opened lets at most n requests through. */
  lemma {:induction false} LimitHoldsFromWindowStart(times: seq<int>, n: nat, m: nat)
    requires 1 <= m <= |times| && NonDecreasing(times)
    ensures Admitted(times, n, After(times[..m]).value.start) <= n
  {
    var t := After(times[..m]).value.start;
    WindowsApart(times, m);
    if After(times).value.start == t {
      OpenWindowWithinLimit(times, n);
    } else {
      assert m < |times| by {
        assert times[..|times|] == times;
      }
      var before := times[..|times| - 1];
      assert before[..m] == times[..m];
      StartNotAfterLast(times);
      LimitHoldsFromWindowStart(before, n, m);
    }
  }
}
