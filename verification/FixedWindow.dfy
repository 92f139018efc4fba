/**
 * Counting by fixed windows: if windows begin at least a width apart and each holds at most so many
 * events, any span of time holds at most so many times the windows it can touch.
 */
module FixedWindow {
  import opened Sets

  datatype Event = Event(at: int, window: nat)

  ghost predicate Apart(starts: seq<int>, width: int) {
    forall i :: 0 <= i < |starts| - 1 ==> starts[i] + width <= starts[i + 1]
  }

  /** The event happened after its window began and before the next one did. */
  predicate Placed(starts: seq<int>, e: Event) {
    e.window < |starts| && starts[e.window] <= e.at && (e.window + 1 < |starts| ==> e.at <= starts[e.window + 1])
  }

  function InWindow(events: seq<Event>, k: nat): set<nat> {
    set i: nat | i < |events| && events[i].window == k
  }

  function InWindows(events: seq<Event>, from: nat, to: nat): set<nat> {
    set i: nat | i < |events| && from <= events[i].window < to
  }

  function InSpan(events: seq<Event>, from: int, to: int): set<nat> {
    set i: nat | i < |events| && from <= events[i].at < to
  }

  /** Events placed in windows that are apart, at most `most` in each. */
  ghost predicate Limited(starts: seq<int>, events: seq<Event>, width: int, most: nat) {
    && Apart(starts, width)
    && (forall e <- events :: Placed(starts, e))
    && (forall k :: |InWindow(events, k)| <= most)
  }

  function CeilDiv(a: nat, b: nat): nat
    requires b > 0
  {
    (a + b - 1) / b
  }

  lemma {:induction false} StartsApart(starts: seq<int>, width: nat, i: nat, j: nat)
    requires Apart(starts, width) && i <= j < |starts|
    ensures starts[i] + (j - i) * width <= starts[j]
    decreases j
  {
    if i < j {
      StartsApart(starts, width, i, j - 1);
      assert (j - i) * width == (j - 1 - i) * width + width;
    }
  }

  lemma {:induction false} WindowsHold(events: seq<Event>, most: nat, lo: nat, hi: nat)
    requires lo <= hi && forall k :: |InWindow(events, k)| <= most
    ensures |InWindows(events, lo, hi)| <= most * (hi - lo)
    decreases hi
  {
    if lo == hi {
      assert InWindows(events, lo, hi) == {};
    } else {
      WindowsHold(events, most, lo, hi - 1);
      var last, rest := InWindow(events, hi - 1), InWindows(events, lo, hi - 1);
      assert InWindows(events, lo, hi) == rest + last;
      DisjointSize(rest, last);
      assert most * (hi - lo) == most * (hi - 1 - lo) + most;
    }
  }

  /** The first and the last window a span of time touches. */
  lemma WindowsTouched(starts: seq<int>, width: nat, e: Event, f: Event, span: nat)
    requires width > 0 && Apart(starts, width) && Placed(starts, e) && Placed(starts, f)
    requires e.window <= f.window && f.at < e.at + span
    ensures f.window - e.window <= CeilDiv(span, width)
  {
    if e.window < f.window {
      StartsApart(starts, width, e.window + 1, f.window);
      var between := f.window - e.window - 1;
      assert between * width < span;
      CeilAbove(between, span, width);
    }
  }

  lemma CeilAbove(n: nat, a: nat, b: nat)
    requires b > 0 && n * b < a
    ensures n + 1 <= CeilDiv(a, b)
  {
    var x := a + b - 1;
    assert x == (x / b) * b + x % b && x % b < b;
    assert (x / b + 1) * b == (x / b) * b + b;
    assert (n + 1) * b == n * b + b;
    Cancel(n + 1, x / b + 1, b);
  }

  lemma Cancel(p: nat, q: nat, b: nat)
    requires b > 0 && p * b < q * b
    ensures p < q
  {
  }

  lemma Times(a: nat, b: nat, c: nat)
    requires b <= c
    ensures a * b <= a * c
  {
  }

  /** Within any span of time at most `most` times (its length in widths, rounded up, and one more). */
  lemma SpanHolds(starts: seq<int>, events: seq<Event>, width: nat, most: nat, from: int, span: nat)
    requires width > 0 && Limited(starts, events, width, most)
    ensures |InSpan(events, from, from + span)| <= most * (CeilDiv(span, width) + 1)
  {
    var all := InSpan(events, from, from + span);
    if all != {} {
      var lo, hi := FirstAndLast(events, all);
      var e, f := events[lo], events[hi];
      assert e in events && f in events;
      if f.at < e.at { StartsApart(starts, width, e.window, f.window); }
      WindowsTouched(starts, width, e, f, span);
      assert all <= InWindows(events, e.window, f.window + 1);
      assert forall k :: |InWindow(events, k)| <= most;
      hide *;
      WindowsHold(events, most, e.window, f.window + 1);
      SubsetSize(all, InWindows(events, e.window, f.window + 1));
      Times(most, f.window + 1 - e.window, CeilDiv(span, width) + 1);
    }
  }

  lemma {:induction false} FirstAndLast(events: seq<Event>, among: set<nat>) returns (lo: nat, hi: nat)
    requires among != {} && forall i <- among :: i < |events|
    ensures lo in among && hi in among
    ensures forall i <- among :: events[lo].window <= events[i].window <= events[hi].window
  {
    var x :| x in among;
    var rest := among - {x};
    if rest == {} {
      lo, hi := x, x;
    } else {
      lo, hi := FirstAndLast(events, rest);
      if events[x].window < events[lo].window { lo := x; }
      if events[x].window > events[hi].window { hi := x; }
    }
    assert among == rest + {x};
  }

  lemma OneMore(events: seq<Event>, e: Event)
    ensures forall k :: InWindow(events + [e], k) == InWindow(events, k) + if e.window == k then {|events|} else {}
    ensures forall k :: |InWindow(events + [e], k)| == |InWindow(events, k)| + if e.window == k then 1 else 0
  {
    forall k ensures InWindow(events + [e], k) == InWindow(events, k) + if e.window == k then {|events|} else {} {
      var a, b := InWindow(events, k), InWindow(events + [e], k);
      assert forall i :: i in b <==> i in a || (i == |events| && e.window == k);
    }
    forall k ensures |InWindow(events + [e], k)| == |InWindow(events, k)| + if e.window == k then 1 else 0 {
      DisjointSize(InWindow(events, k), if e.window == k then {|events|} else {});
    }
  }

  /** A new window begins; it holds nothing yet. */
  lemma WindowBegins(starts: seq<int>, events: seq<Event>, width: nat, most: nat, now: int)
    requires Limited(starts, events, width, most) && (forall e <- events :: e.at <= now)
    requires starts != [] ==> starts[|starts| - 1] + width <= now
    ensures Limited(starts + [now], events, width, most) && InWindow(events, |starts|) == {}
  {
    assert forall e <- events :: Placed(starts + [now], e);
    assert forall i: nat :: i < |events| ==> events[i] in events;
  }
}
