/** Which toasts the notification area shows, and in what order.

    The toast store is read-only here. Toasts are identified by their index
    in the store, so a displayed list is a sequence of store indices; two
    different indices may still hold equal toasts, and the backfill's
    "already shown" test compares toasts by value. */
module Toasts {
  import Arith

  datatype ToastKind = Error | Info | Warning | Loading

  /** A toast widget. `start_time` is an instant; only its order matters,
      so it is a number. `color` is the widget's RGB colour, and `others`
      stands for whatever further fields the widget carries: the "already
      shown" test compares whole widgets, so they take part in equality. */
  datatype Toast = Toast(kind: ToastKind, startTime: nat, message: string, color: (nat, nat, nat), others: nat)

  function Min(a: nat, b: nat): nat
  {
    if a <= b then a else b
  }

  predicate Distinct(s: seq<nat>)
  {
    forall i, j :: 0 <= i < j < |s| ==> s[i] != s[j]
  }

  /** Every index in `s` is a toast of the store that is (or is not) Loading. */
  predicate AllOfKind(store: seq<Toast>, s: seq<nat>, loading: bool)
  {
    forall x: nat :: x in s ==> x < |store| && (store[x].kind == Loading) == loading
  }

  predicate Increasing(s: seq<nat>)
  {
    forall i, j :: 0 <= i < j < |s| ==> s[i] < s[j]
  }

  /** The indices among the first `n` toasts whose kind is (or is not)
      Loading, in store order: the `filter(..).collect()` of the source. */
  function IndicesWhere(store: seq<Toast>, n: nat, loading: bool): (r: seq<nat>)
    requires n <= |store|
    ensures Increasing(r)
    ensures forall x: nat :: x in r <==> x < n && (store[x].kind == Loading) == loading
  {
    if n == 0 then []
    else
      var prev := IndicesWhere(store, n - 1, loading);
      if (store[n - 1].kind == Loading) == loading then
        assert forall x: nat :: x in prev + [n - 1] <==> x in prev || x == n - 1;
        assert forall i :: 0 <= i < |prev| ==> prev[i] in prev;
        assert forall i :: 0 <= i < |prev| ==> prev[i] < n - 1;
        prev + [n - 1]
      else prev
  }

  /** The Loading toasts, in store order. */
  function LoadingIndices(store: seq<Toast>): (r: seq<nat>)
    ensures Increasing(r) && Distinct(r) && AllOfKind(store, r, true)
    ensures forall x: nat :: x < |store| && store[x].kind == Loading ==> x in r
  {
    IndicesWhere(store, |store|, true)
  }

  /** The Error, Info and Warning toasts, in store order. */
  function RegularIndices(store: seq<Toast>): (r: seq<nat>)
    ensures Increasing(r) && Distinct(r) && AllOfKind(store, r, false)
    ensures forall x: nat :: x < |store| && store[x].kind != Loading ==> x in r
  {
    IndicesWhere(store, |store|, false)
  }

  // Sorting by start time

  function StartOf(store: seq<Toast>, i: nat): nat
  {
    if i < |store| then store[i].startTime else 0
  }

  /** `a` comes no later than `b` in a stable sort by start time of a list
      that is in store order: earlier start first, ties by store position. */
  predicate Before(store: seq<Toast>, a: nat, b: nat)
  {
    StartOf(store, a) < StartOf(store, b) || (StartOf(store, a) == StartOf(store, b) && a <= b)
  }

  predicate SortedByStart(store: seq<Toast>, s: seq<nat>)
  {
    forall i, j :: 0 <= i < j < |s| ==> Before(store, s[i], s[j])
  }

  function Insert(store: seq<Toast>, x: nat, s: seq<nat>): (r: seq<nat>)
    ensures |r| == |s| + 1
    ensures multiset(r) == multiset(s) + multiset{x}
  {
    if s == [] then [x]
    else if Before(store, x, s[0]) then [x] + s
    else
      assert s == [s[0]] + s[1..];
      [s[0]] + Insert(store, x, s[1..])
  }

  lemma {:induction false} InsertSorted(store: seq<Toast>, x: nat, s: seq<nat>)
    requires SortedByStart(store, s)
    ensures SortedByStart(store, Insert(store, x, s))
  {
    if s != [] && !Before(store, x, s[0]) {
      var tail := Insert(store, x, s[1..]);
      InsertSorted(store, x, s[1..]);
      forall j | 0 <= j < |tail|
        ensures Before(store, s[0], tail[j])
      {
        assert tail[j] in multiset(tail);
        if tail[j] != x {
          assert tail[j] in multiset(s[1..]);
          var k :| 0 <= k < |s[1..]| && s[1..][k] == tail[j];
          assert s[k + 1] == tail[j];
        }
      }
    }
  }

  lemma {:induction false} InsertDistinct(store: seq<Toast>, x: nat, s: seq<nat>)
    requires Distinct(s) && x !in s
    ensures Distinct(Insert(store, x, s))
  {
    if s != [] && !Before(store, x, s[0]) {
      var tail := Insert(store, x, s[1..]);
      assert forall k :: 0 <= k < |s| - 1 ==> s[1..][k] == s[k + 1];
      InsertDistinct(store, x, s[1..]);
      assert s[0] !in multiset(tail);
    }
  }

  /** `sort_by(|a, b| a.start_time.cmp(&b.start_time))`, a stable sort, of a
      list in store order. */
  function SortByStart(store: seq<Toast>, xs: seq<nat>): (r: seq<nat>)
    ensures |r| == |xs|
    ensures multiset(r) == multiset(xs)
  {
    if xs == [] then []
    else
      assert xs == [xs[0]] + xs[1..];
      Insert(store, xs[0], SortByStart(store, xs[1..]))
  }

  lemma {:induction false} SortByStartSorted(store: seq<Toast>, xs: seq<nat>)
    ensures SortedByStart(store, SortByStart(store, xs))
  {
    if xs != [] {
      SortByStartSorted(store, xs[1..]);
      InsertSorted(store, xs[0], SortByStart(store, xs[1..]));
    }
  }

  lemma {:induction false} SortByStartDistinct(store: seq<Toast>, xs: seq<nat>)
    requires Distinct(xs)
    ensures Distinct(SortByStart(store, xs))
  {
    if xs != [] {
      var rest := SortByStart(store, xs[1..]);
      SortByStartDistinct(store, xs[1..]);
      assert forall k :: 0 <= k < |xs| - 1 ==> xs[1..][k] == xs[k + 1];
      assert xs[0] !in multiset(rest);
      InsertDistinct(store, xs[0], rest);
    }
  }

  /** Everything about a sorted copy that the display needs: the same
      members, sorted, and still without repetitions. */
  lemma SortFacts(store: seq<Toast>, xs: seq<nat>, loading: bool)
    requires Distinct(xs) && AllOfKind(store, xs, loading)
    ensures var r := SortByStart(store, xs);
            && SortedByStart(store, r) && Distinct(r) && AllOfKind(store, r, loading)
            && forall x :: x in r <==> x in xs
  {
    SortByStartSorted(store, xs);
    SortByStartDistinct(store, xs);
    SortKeepsMembers(store, xs);
  }

  lemma SortKeepsMembers(store: seq<Toast>, xs: seq<nat>)
    ensures forall x :: x in SortByStart(store, xs) <==> x in xs
  {
    var r := SortByStart(store, xs);
    forall x
      ensures x in r <==> x in xs
    {
      assert x in r <==> x in multiset(r);
      assert x in xs <==> x in multiset(xs);
    }
  }

  // Reversal and the pushing loops

  function Reverse(s: seq<nat>): (r: seq<nat>)
    ensures |r| == |s|
  {
    seq(|s|, i requires 0 <= i < |s| => s[|s| - 1 - i])
  }

  lemma ReverseFacts(s: seq<nat>)
    ensures forall x :: x in Reverse(s) <==> x in s
    ensures Distinct(s) ==> Distinct(Reverse(s))
  {
    var r := Reverse(s);
    forall x
      ensures x in r <==> x in s
    {
      if x in r {
        var i :| 0 <= i < |r| && r[i] == x;
        assert s[|s| - 1 - i] == x;
      }
      if x in s {
        var i :| 0 <= i < |s| && s[i] == x;
        assert r[|s| - 1 - i] == x;
      }
    }
  }

  lemma DistinctConcat(a: seq<nat>, b: seq<nat>)
    requires Distinct(a) && Distinct(b)
    requires forall x :: x in a ==> x !in b
    ensures Distinct(a + b)
  {
    forall i, j | 0 <= i < j < |a + b|
      ensures (a + b)[i] != (a + b)[j]
    {
      if i < |a| && j >= |a| {
        assert (a + b)[i] in a && (a + b)[j] == b[j - |a|];
      }
    }
  }

  /** The loop that pops from `stack` and pushes onto `acc` while `acc` has
      fewer than `max` entries. */
  function Fill(acc: seq<nat>, stack: seq<nat>, max: nat): (r: seq<nat>)
    ensures |acc| <= max ==> |r| <= max
    ensures |acc| <= |r| && r[..|acc|] == acc
    decreases |stack|
  {
    if |acc| >= max || stack == [] then acc
    else Fill(acc + [stack[|stack| - 1]], stack[..|stack| - 1], max)
  }

  /** Taking from the reversed stack starts with the stack's last element. */
  lemma ReverseTakeLast(stack: seq<nat>, m: nat)
    requires 1 <= m <= |stack|
    ensures Reverse(stack)[..m] == [stack[|stack| - 1]] + Reverse(stack[..|stack| - 1])[..m - 1]
  {
    var rest := Reverse(stack[..|stack| - 1]);
    assert Reverse(stack) == [stack[|stack| - 1]] + rest;
    assert ([stack[|stack| - 1]] + rest)[..m] == [stack[|stack| - 1]] + rest[..m - 1];
  }

  /** The popped toasts are pushed newest-first: `Fill` appends the end of
      the stack, reversed, for as many slots as are free. */
  lemma {:induction false} FillTakesNewest(acc: seq<nat>, stack: seq<nat>, max: nat)
    requires |acc| <= max
    ensures Fill(acc, stack, max) == acc + Reverse(stack)[..Min(|stack|, max - |acc|)]
    decreases |stack|
  {
    var m := Min(|stack|, max - |acc|);
    if m == 0 {
      assert acc + Reverse(stack)[..m] == acc;
    } else {
      var n := |stack|;
      var t := stack[n - 1];
      var top := stack[..n - 1];
      var rest := Reverse(top)[..m - 1];
      FillTakesNewest(acc + [t], top, max);
      assert Fill(acc + [t], top, max) == acc + [t] + rest;
      ReverseTakeLast(stack, m);
      assert acc + [t] + rest == acc + ([t] + rest);
    }
  }

  /** Rust's `Vec::contains` on `&ToastWidget`: equality of the toasts
      themselves, not of their positions in the store. */
  predicate ContainsToast(store: seq<Toast>, acc: seq<nat>, t: nat)
  {
    exists j :: 0 <= j < |acc| && acc[j] < |store| && t < |store| && store[acc[j]] == store[t]
  }

  /** The backfill loop: pop, and push unless an equal toast is shown. */
  function Backfill(store: seq<Toast>, acc: seq<nat>, stack: seq<nat>, max: nat): (r: seq<nat>)
    ensures |acc| <= max ==> |r| <= max
    ensures |acc| <= |r| && r[..|acc|] == acc
    decreases |stack|
  {
    if |acc| >= max || stack == [] then acc
    else
      var t := stack[|stack| - 1];
      var acc' := if ContainsToast(store, acc, t) then acc else acc + [t];
      Backfill(store, acc', stack[..|stack| - 1], max)
  }

  /** The backfill never repeats an index, only adds toasts of the stack,
      and with a free slot and a candidate it adds at least one toast. */
  lemma {:induction false} BackfillSafe(store: seq<Toast>, acc: seq<nat>, stack: seq<nat>, max: nat)
    requires Distinct(acc)
    requires forall x: nat :: x in stack ==> x < |store|
    ensures var r := Backfill(store, acc, stack, max);
            && Distinct(r)
            && (forall x: nat :: x in r ==> x in acc || x in stack)
            && (acc == [] && stack != [] && max >= 1 ==> r != [])
    decreases |stack|
  {
    if |acc| < max && stack != [] {
      var n := |stack|;
      var t := stack[n - 1];
      var top := stack[..n - 1];
      assert t in stack;
      assert forall x: nat :: x in top ==> x in stack;
      if ContainsToast(store, acc, t) {
        BackfillSafe(store, acc, top, max);
      } else {
        assert t !in acc;
        assert Distinct(acc + [t]);
        BackfillSafe(store, acc + [t], top, max);
      }
    }
  }

  /** The position nearest the end of `stack` whose toast is not shown in
      `acc`, or -1 when every toast of the stack is shown. */
  function LastUnshown(store: seq<Toast>, acc: seq<nat>, stack: seq<nat>): (p: int)
    ensures -1 <= p < |stack|
    ensures p >= 0 ==> !ContainsToast(store, acc, stack[p])
    ensures forall q :: p < q < |stack| ==> ContainsToast(store, acc, stack[q])
  {
    if stack == [] then -1
    else if !ContainsToast(store, acc, stack[|stack| - 1]) then |stack| - 1
    else LastUnshown(store, acc, stack[..|stack| - 1])
  }

  /** With a single free slot the backfill adds the toast nearest the end
      of the stack whose value is not shown yet, or nothing if there is none. */
  lemma {:induction false} BackfillOneSlot(store: seq<Toast>, acc: seq<nat>, stack: seq<nat>, max: nat)
    requires |acc| + 1 == max
    ensures var p := LastUnshown(store, acc, stack);
            Backfill(store, acc, stack, max) == if p < 0 then acc else acc + [stack[p]]
    decreases |stack|
  {
    if stack != [] && ContainsToast(store, acc, stack[|stack| - 1]) {
      BackfillOneSlot(store, acc, stack[..|stack| - 1], max);
    }
  }

  /** A backfill whose every candidate is already shown adds nothing. */
  lemma {:induction false} BackfillAllShown(store: seq<Toast>, acc: seq<nat>, stack: seq<nat>, max: nat)
    requires forall x: nat :: x in stack ==> x in acc && x < |store|
    ensures Backfill(store, acc, stack, max) == acc
    decreases |stack|
  {
    if |acc| < max && stack != [] {
      var n := |stack|;
      var t := stack[n - 1];
      assert t in stack;
      var j :| 0 <= j < |acc| && acc[j] == t;
      assert ContainsToast(store, acc, t);
      var top := stack[..n - 1];
      forall x: nat | x in top
        ensures x in acc && x < |store|
      {
        var i :| 0 <= i < |top| && top[i] == x;
        assert stack[i] == x;
      }
      BackfillAllShown(store, acc, top, max);
    }
  }

  // The composition

  /** The Loading toasts placed first: when there are more than `max - 1` of
      them, the `max - 1` earliest-started ones in reverse order; otherwise
      all of them in store order. */
  function LoadingHead(store: seq<Toast>, max: nat): (head: seq<nat>)
    requires max >= 1
    ensures |head| <= max - 1
  {
    var loading := LoadingIndices(store);
    if |loading| > max - 1 then Reverse(SortByStart(store, loading)[..max - 1]) else loading
  }

  /** The displayed toasts, as store indices, top to bottom. */
  function DisplayedToasts(store: seq<Toast>, max: nat): (shown: seq<nat>)
    requires max >= 1
    ensures |shown| <= max
  {
    var loading := LoadingIndices(store);
    if |loading| > 0 then
      var withRegular := Fill(LoadingHead(store, max), SortByStart(store, RegularIndices(store)), max);
      if |withRegular| < max then Backfill(store, withRegular, SortByStart(store, loading), max)
      else withRegular
    else
      var n := |store|;
      var k := Min(max, n);
      seq(k, i requires 0 <= i < k => n - k + i)
  }

  /** The composition loop of the toast renderer. */
  method ComposeToasts(store: seq<Toast>, max: nat) returns (shown: seq<nat>)
    requires max >= 1
    ensures shown == DisplayedToasts(store, max)
  {
    var loading := LoadingIndices(store);
    if |loading| > 0 {
      var head;
      if |loading| > max - 1 {
        var sorted := SortByStart(store, loading);
        head := Reverse(sorted[..max - 1]);
      } else {
        head := loading;
      }
      shown := head;
      var allRegular := SortByStart(store, RegularIndices(store));
      var regular := allRegular;
      while |shown| < max
        invariant Fill(shown, regular, max) == Fill(head, allRegular, max)
        decreases |regular|
      {
        if regular == [] {
          break;
        }
        shown := shown + [regular[|regular| - 1]];
        regular := regular[..|regular| - 1];
      }
      if |shown| < max {
        var withRegular := shown;
        var allLoading := SortByStart(store, loading);
        var stack := allLoading;
        while |shown| < max
          invariant Backfill(store, shown, stack, max) == Backfill(store, withRegular, allLoading, max)
          decreases |stack|
        {
          if stack == [] {
            break;
          }
          var toast := stack[|stack| - 1];
          stack := stack[..|stack| - 1];
          if !ContainsToast(store, shown, toast) {
            shown := shown + [toast];
          }
        }
      }
    } else {
      var n := |store|;
      var k := Min(max, n);
      shown := seq(k, i requires 0 <= i < k => n - k + i);
    }
  }

  // What the composition guarantees

  /** The first `k` of a list, reversed, keep its kind and its lack of
      repetitions. */
  lemma ReversedPrefixFacts(store: seq<Toast>, s: seq<nat>, k: nat, loading: bool)
    requires k <= |s| && Distinct(s) && AllOfKind(store, s, loading)
    ensures var r := Reverse(s[..k]);
            |r| == k && Distinct(r) && AllOfKind(store, r, loading)
  {
    var r := Reverse(s[..k]);
    assert forall i :: 0 <= i < k ==> r[i] == s[k - 1 - i] && s[k - 1 - i] in s;
  }

  lemma HeadFacts(store: seq<Toast>, max: nat)
    requires max >= 1
    ensures var head := LoadingHead(store, max);
            && Distinct(head) && AllOfKind(store, head, true)
            && (|LoadingIndices(store)| > max - 1 ==> |head| == max - 1)
  {
    if |LoadingIndices(store)| > max - 1 {
      ManyLoadingHeadFacts(store, max);
    }
  }

  lemma ManyLoadingHeadFacts(store: seq<Toast>, max: nat)
    requires max >= 1 && |LoadingIndices(store)| > max - 1
    ensures var head := LoadingHead(store, max);
            |head| == max - 1 && Distinct(head) && AllOfKind(store, head, true)
  {
    var loading := LoadingIndices(store);
    var sorted := SortByStart(store, loading);
    SortFacts(store, loading, true);
    ReversedPrefixFacts(store, sorted, max - 1, true);
  }

  /** The regular part of the list before any backfill: the head, then the
      newest regular toasts, newest first. */
  lemma WithRegularFacts(store: seq<Toast>, max: nat)
    requires max >= 1
    ensures var head := LoadingHead(store, max);
            var regular := SortByStart(store, RegularIndices(store));
            var w := Fill(head, regular, max);
            && w == head + Reverse(regular)[..Min(|regular|, max - |head|)]
            && Distinct(w)
            && forall x: nat :: x in w ==> x < |store|
  {
    var head := LoadingHead(store, max);
    var regular := SortByStart(store, RegularIndices(store));
    HeadFacts(store, max);
    SortFacts(store, RegularIndices(store), false);
    FillTakesNewest(head, regular, max);
    var newest := Reverse(regular)[..Min(|regular|, max - |head|)];
    ReverseFacts(regular);
    assert forall x :: x in newest ==> x in Reverse(regular);
    DistinctConcat(head, newest);
  }

  /** The list never exceeds the capacity, never shows one toast twice,
      only shows toasts of the store, and is empty only for an empty store. */
  lemma DisplayedWellFormed(store: seq<Toast>, max: nat)
    requires max >= 1
    ensures var shown := DisplayedToasts(store, max);
            && |shown| <= max
            && Distinct(shown)
            && (forall x: nat :: x in shown ==> x < |store|)
            && (store != [] ==> shown != [])
  {
    if LoadingIndices(store) != [] {
      WithLoadingWellFormed(store, max);
    } else {
      WithoutLoadingWellFormed(store, max);
    }
  }

  lemma WithLoadingWellFormed(store: seq<Toast>, max: nat)
    requires max >= 1 && LoadingIndices(store) != []
    ensures var shown := DisplayedToasts(store, max);
            && shown != [] && Distinct(shown)
            && forall x: nat :: x in shown ==> x < |store|
  {
    var loading := LoadingIndices(store);
    var w := Fill(LoadingHead(store, max), SortByStart(store, RegularIndices(store)), max);
    WithRegularFacts(store, max);
    if |w| < max {
      var stack := SortByStart(store, loading);
      SortFacts(store, loading, true);
      BackfillSafe(store, w, stack, max);
      var shown := Backfill(store, w, stack, max);
      assert DisplayedToasts(store, max) == shown;
      if w != [] {
        assert shown[..|w|] == w;
      }
    } else {
      assert DisplayedToasts(store, max) == w;
    }
  }

  lemma WithoutLoadingWellFormed(store: seq<Toast>, max: nat)
    requires max >= 1 && LoadingIndices(store) == []
    ensures var shown := DisplayedToasts(store, max);
            && Distinct(shown)
            && (forall x: nat :: x in shown ==> x < |store|)
            && (store != [] ==> shown != [])
  {
  }

  /** Without Loading toasts the list is the newest `max` toasts of the
      store (all of them if there are fewer), in store order. */
  lemma NoLoadingShowsLatest(store: seq<Toast>, max: nat)
    requires max >= 1
    requires forall i :: 0 <= i < |store| ==> store[i].kind != Loading
    ensures var shown := DisplayedToasts(store, max);
            && |shown| == Min(max, |store|)
            && forall i :: 0 <= i < |shown| ==> shown[i] == |store| - |shown| + i
  {
    NoneOfKind(store, |store|, true);
  }

  /** Whatever follows, the list starts with the Loading head. */
  lemma DisplayedStartsWithHead(store: seq<Toast>, max: nat)
    requires max >= 1
    ensures var shown := DisplayedToasts(store, max);
            var head := LoadingHead(store, max);
            |head| <= |shown| && shown[..|head|] == head
  {
    if LoadingIndices(store) != [] {
      var head := LoadingHead(store, max);
      var w := Fill(head, SortByStart(store, RegularIndices(store)), max);
      DisplayedWithLoading(store, max);
      KeepsPrefix(head, w, Backfill(store, w, SortByStart(store, LoadingIndices(store)), max));
    }
  }

  /** With Loading toasts, the list is the regular loop's result, backfilled
      when that left a slot free. */
  lemma DisplayedWithLoading(store: seq<Toast>, max: nat)
    requires max >= 1 && LoadingIndices(store) != []
    ensures var w := Fill(LoadingHead(store, max), SortByStart(store, RegularIndices(store)), max);
            DisplayedToasts(store, max)
            == if |w| < max then Backfill(store, w, SortByStart(store, LoadingIndices(store)), max) else w
  {
  }

  lemma KeepsPrefix(a: seq<nat>, b: seq<nat>, c: seq<nat>)
    requires |a| <= |b| <= |c| && b[..|a|] == a && c[..|b|] == b
    ensures c[..|a|] == a
  {
    assert c[..|a|] == c[..|b|][..|a|];
  }

  /** With at least `max` Loading toasts the head lists the `max - 1`
      earliest-started of them from the latest to the earliest. */
  lemma ManyLoadingHeadLatestFirst(store: seq<Toast>, max: nat)
    requires max >= 1 && |LoadingIndices(store)| > max - 1
    ensures var head := LoadingHead(store, max);
            forall i, j :: 0 <= i < j < |head| ==> Before(store, head[j], head[i])
  {
    SortFacts(store, LoadingIndices(store), true);
  }

  /** ... and no Loading toast left out of the head started before one in it. */
  lemma ManyLoadingHeadEarliest(store: seq<Toast>, max: nat)
    requires max >= 1 && |LoadingIndices(store)| > max - 1
    ensures var head := LoadingHead(store, max);
            forall i, x: nat ::
              (0 <= i < |head| && x < |store| && store[x].kind == Loading && x !in head)
              ==> Before(store, head[i], x)
  {
    var loading := LoadingIndices(store);
    HeadBeforeLeftOut(store, loading, max - 1, LoadingHead(store, max));
  }

  lemma HeadBeforeLeftOut(store: seq<Toast>, loading: seq<nat>, k: nat, head: seq<nat>)
    requires k <= |loading| && head == Reverse(SortByStart(store, loading)[..k])
    requires forall x: nat :: x < |store| && store[x].kind == Loading ==> x in loading
    ensures forall i, x: nat ::
              (0 <= i < |head| && x < |store| && store[x].kind == Loading && x !in head)
              ==> Before(store, head[i], x)
  {
    forall i, x: nat | 0 <= i < |head| && x < |store| && store[x].kind == Loading && x !in head
      ensures Before(store, head[i], x)
    {
      SortedKeptBeforeLeftOut(store, loading, k, i, x);
    }
  }

  lemma SortedKeptBeforeLeftOut(store: seq<Toast>, xs: seq<nat>, k: nat, i: nat, x: nat)
    requires k <= |xs| && i < k && x in xs && x !in Reverse(SortByStart(store, xs)[..k])
    ensures Before(store, Reverse(SortByStart(store, xs)[..k])[i], x)
  {
    SortByStartSorted(store, xs);
    SortKeepsMembers(store, xs);
    KeptBeforeLeftOut(store, SortByStart(store, xs), k, i, x);
  }

  /** Reversing the first `k` of a sorted list: an element left out started
      no earlier than any element kept. */
  lemma KeptBeforeLeftOut(store: seq<Toast>, sorted: seq<nat>, k: nat, i: nat, x: nat)
    requires k <= |sorted| && SortedByStart(store, sorted)
    requires i < k && x in sorted && x !in Reverse(sorted[..k])
    ensures Before(store, Reverse(sorted[..k])[i], x)
  {
    var head := Reverse(sorted[..k]);
    var p :| 0 <= p < |sorted| && sorted[p] == x;
    assert p >= k by {
      assert forall q :: 0 <= q < k ==> sorted[q] == head[k - 1 - q] && head[k - 1 - q] in head;
    }
    assert head[i] == sorted[k - 1 - i];
  }

  /** With at least `max` Loading toasts the first `max - 1` slots hold the
      earliest-started Loading toasts, the latest of them first. */
  lemma ManyLoadingHead(store: seq<Toast>, max: nat)
    requires max >= 1 && |LoadingIndices(store)| > max - 1
    ensures var shown := DisplayedToasts(store, max);
            && |shown| >= max - 1
            && (forall i :: 0 <= i < max - 1 ==> shown[i] < |store| && store[shown[i]].kind == Loading)
            && (forall i, j :: 0 <= i < j < max - 1 ==> Before(store, shown[j], shown[i]))
            && (forall i, x: nat ::
                  (0 <= i < max - 1 && x < |store| && store[x].kind == Loading && x !in shown[..max - 1])
                  ==> Before(store, shown[i], x))
  {
    DisplayedStartsWithHead(store, max);
    HeadFacts(store, max);
    ManyLoadingHeadLatestFirst(store, max);
    ManyLoadingHeadEarliest(store, max);
    var head := LoadingHead(store, max);
    var shown := DisplayedToasts(store, max);
    assert forall i :: 0 <= i < max - 1 ==> shown[i] == head[i] && head[i] in head;
  }

  /** With at least `max` Loading toasts and some regular toast, the last
      slot shows the newest regular toast. */
  lemma ManyLoadingLastSlotRegular(store: seq<Toast>, max: nat)
    requires max >= 1 && |LoadingIndices(store)| > max - 1
    requires exists y :: 0 <= y < |store| && store[y].kind != Loading
    ensures var shown := DisplayedToasts(store, max);
            && |shown| == max
            && shown[max - 1] < |store| && store[shown[max - 1]].kind != Loading
            && forall y: nat :: y < |store| && store[y].kind != Loading ==> Before(store, y, shown[max - 1])
  {
    var regular := RegularIndices(store);
    var sorted := SortByStart(store, regular);
    var head := LoadingHead(store, max);
    var shown := DisplayedToasts(store, max);
    HeadFacts(store, max);
    SortByStartSorted(store, regular);
    SortKeepsMembers(store, regular);
    ManyLoadingWithRegularShape(store, max);
    var last := sorted[|sorted| - 1];
    assert shown == head + [last];
    assert shown[max - 1] == last && last in sorted;
    assert last in regular;
    LastIsLatest(store, sorted);
    forall y: nat | y < |store| && store[y].kind != Loading
      ensures Before(store, y, last)
    {
      assert y in regular;
      assert y in sorted;
    }
  }

  /** The last of a list sorted by start time started no earlier than any
      other of it. */
  lemma LastIsLatest(store: seq<Toast>, sorted: seq<nat>)
    requires sorted != [] && SortedByStart(store, sorted)
    ensures forall y :: y in sorted ==> Before(store, y, sorted[|sorted| - 1])
  {
    forall y | y in sorted
      ensures Before(store, y, sorted[|sorted| - 1])
    {
      var p :| 0 <= p < |sorted| && sorted[p] == y;
    }
  }

  /** With one free slot and a non-empty stack, the pushing loop adds the
      top of the stack and stops. */
  lemma FillOneSlot(acc: seq<nat>, stack: seq<nat>, max: nat)
    requires |acc| + 1 == max && stack != []
    ensures Fill(acc, stack, max) == acc + [stack[|stack| - 1]]
  {
    var n := |stack|;
    assert Fill(acc, stack, max) == Fill(acc + [stack[n - 1]], stack[..n - 1], max);
  }

  /** Once the regular loop has filled every slot, the backfill is skipped. */
  lemma DisplayedWhenFull(store: seq<Toast>, max: nat)
    requires max >= 1 && LoadingIndices(store) != []
    requires |Fill(LoadingHead(store, max), SortByStart(store, RegularIndices(store)), max)| == max
    ensures DisplayedToasts(store, max) == Fill(LoadingHead(store, max), SortByStart(store, RegularIndices(store)), max)
  {
  }

  /** With at least `max` Loading toasts and some regular toast, the regular
      loop fills the one free slot. */
  lemma ManyLoadingWithRegularShape(store: seq<Toast>, max: nat)
    requires max >= 1 && |LoadingIndices(store)| > max - 1
    requires exists y :: 0 <= y < |store| && store[y].kind != Loading
    ensures var sorted := SortByStart(store, RegularIndices(store));
            sorted != [] && DisplayedToasts(store, max) == LoadingHead(store, max) + [sorted[|sorted| - 1]]
  {
    var regular := RegularIndices(store);
    var sorted := SortByStart(store, regular);
    var head := LoadingHead(store, max);
    HeadFacts(store, max);
    var y0 :| 0 <= y0 < |store| && store[y0].kind != Loading;
    assert y0 in regular;
    FillOneSlot(head, sorted, max);
    DisplayedWhenFull(store, max);
  }

  /** A kind that no toast of the first `n` has yields no indices. */
  lemma {:induction false} NoneOfKind(store: seq<Toast>, n: nat, loading: bool)
    requires n <= |store|
    requires forall y :: 0 <= y < n ==> (store[y].kind == Loading) != loading
    ensures IndicesWhere(store, n, loading) == []
    decreases n
  {
    if n > 0 {
      NoneOfKind(store, n - 1, loading);
    }
  }

  /** With at least `max` Loading toasts and no regular toast, only the
      backfill can fill the last slot. */
  lemma ManyLoadingOnlyShape(store: seq<Toast>, max: nat)
    requires max >= 1 && |LoadingIndices(store)| > max - 1
    requires forall y :: 0 <= y < |store| ==> store[y].kind == Loading
    ensures var head := LoadingHead(store, max);
            var sorted := SortByStart(store, LoadingIndices(store));
            var p := LastUnshown(store, head, sorted);
            DisplayedToasts(store, max) == if p < 0 then head else head + [sorted[p]]
  {
    var head := LoadingHead(store, max);
    var sorted := SortByStart(store, LoadingIndices(store));
    var regular := RegularIndices(store);
    HeadFacts(store, max);
    NoneOfKind(store, |store|, false);
    assert Fill(head, SortByStart(store, regular), max) == head;
    BackfillOneSlot(store, head, sorted, max);
  }

  /** The toast a one-slot backfill over the sorted Loading toasts picks
      is the latest-started one not shown by value; when it picks none,
      every Loading toast is shown by value. */
  lemma LatestUnshownLoading(store: seq<Toast>, head: seq<nat>, sorted: seq<nat>)
    requires SortedByStart(store, sorted) && Distinct(sorted)
    requires forall x: nat :: x < |store| && store[x].kind == Loading ==> x in sorted
    ensures var p := LastUnshown(store, head, sorted);
            && (p >= 0 ==>
                  forall x: nat ::
                    (x < |store| && store[x].kind == Loading && x != sorted[p] && Before(store, sorted[p], x))
                    ==> ContainsToast(store, head, x))
            && (p < 0 ==> forall x: nat :: x < |store| && store[x].kind == Loading ==> ContainsToast(store, head, x))
  {
    var p := LastUnshown(store, head, sorted);
    forall x: nat | x < |store| && store[x].kind == Loading && (p >= 0 ==> x != sorted[p] && Before(store, sorted[p], x))
      ensures ContainsToast(store, head, x)
    {
      assert x in sorted;
      var q :| 0 <= q < |sorted| && sorted[q] == x;
      if p >= 0 {
        LaterInSorted(store, sorted, p, q);
      }
    }
  }

  /** In a sorted list, an element that comes after another in the order
      sits after it. */
  lemma LaterInSorted(store: seq<Toast>, sorted: seq<nat>, p: nat, q: nat)
    requires SortedByStart(store, sorted) && p < |sorted| && q < |sorted|
    requires sorted[q] != sorted[p] && Before(store, sorted[p], sorted[q])
    ensures p < q
  {
  }

  /** With at least `max` Loading toasts and no regular toast, the last slot
      shows the latest-started Loading toast not already shown (by value);
      it stays empty only when every Loading toast is already shown. */
  lemma ManyLoadingLastSlotLoading(store: seq<Toast>, max: nat)
    requires max >= 1 && |LoadingIndices(store)| > max - 1
    requires forall y :: 0 <= y < |store| ==> store[y].kind == Loading
    ensures var shown := DisplayedToasts(store, max);
            && (|shown| == max - 1 || |shown| == max)
            && (|shown| == max ==>
                  && shown[max - 1] < |store|
                  && !ContainsToast(store, shown[..max - 1], shown[max - 1])
                  && forall x: nat ::
                       (x < |store| && store[x].kind == Loading && x != shown[max - 1] && Before(store, shown[max - 1], x))
                       ==> ContainsToast(store, shown[..max - 1], x))
            && (|shown| == max - 1 ==>
                  forall x: nat :: x < |store| && store[x].kind == Loading ==> ContainsToast(store, shown, x))
  {
    var loading := LoadingIndices(store);
    var sorted := SortByStart(store, loading);
    var head := LoadingHead(store, max);
    SortFacts(store, loading, true);
    HeadFacts(store, max);
    ManyLoadingOnlyShape(store, max);
    LatestUnshownLoading(store, head, sorted);
    var p := LastUnshown(store, head, sorted);
    if p >= 0 {
      assert sorted[p] in sorted;
      assert (head + [sorted[p]])[..max - 1] == head;
    }
  }

  /** With fewer than `max` Loading toasts the backfill finds them all shown,
      so the list is the Loading toasts and then the newest regular ones. */
  lemma FewLoadingShape(store: seq<Toast>, max: nat)
    requires 0 < |LoadingIndices(store)| < max
    ensures var loading := LoadingIndices(store);
            var sorted := SortByStart(store, RegularIndices(store));
            DisplayedToasts(store, max) == loading + Reverse(sorted)[..Min(|sorted|, max - |loading|)]
  {
    var loading := LoadingIndices(store);
    var sorted := SortByStart(store, RegularIndices(store));
    SortFacts(store, loading, true);
    WithRegularFacts(store, max);
    var w := loading + Reverse(sorted)[..Min(|sorted|, max - |loading|)];
    if |w| < max {
      assert forall x: nat :: x in loading ==> x in w;
      BackfillAllShown(store, w, SortByStart(store, loading), max);
    }
  }

  /** The part a stack of regular toasts contributes, newest first: all
      regular, in descending start order, and never older than a toast of
      the stack it leaves out. */
  lemma NewestFirst(store: seq<Toast>, prefix: seq<nat>, sorted: seq<nat>, k: nat)
    requires SortedByStart(store, sorted) && AllOfKind(store, sorted, false) && k <= |sorted|
    ensures var w := prefix + Reverse(sorted)[..k];
            && (forall i :: |prefix| <= i < |w| ==> w[i] < |store| && store[w[i]].kind != Loading)
            && (forall i, j :: |prefix| <= i < j < |w| ==> Before(store, w[j], w[i]))
            && (forall i, y: nat :: (|prefix| <= i < |w| && y in sorted && y !in w) ==> Before(store, y, w[i]))
  {
    var n := |sorted|;
    var w := prefix + Reverse(sorted)[..k];
    assert forall i :: |prefix| <= i < |w| ==> w[i] == sorted[n - 1 - (i - |prefix|)];
    assert forall j :: 0 <= j < n ==> sorted[j] in sorted;
    assert forall p :: n - k <= p < n ==> sorted[p] == w[|prefix| + (n - 1 - p)] && w[|prefix| + (n - 1 - p)] in w;
    forall i, y: nat | |prefix| <= i < |w| && y in sorted && y !in w
      ensures Before(store, y, w[i])
    {
      var p :| 0 <= p < n && sorted[p] == y;
    }
  }

  /** With fewer than `max` Loading toasts, all of them come first, in
      store order, and the regular toasts fill as many of the remaining
      slots as there are regular toasts. */
  lemma FewLoadingFirst(store: seq<Toast>, max: nat)
    requires 0 < |LoadingIndices(store)| < max
    ensures var loading := LoadingIndices(store);
            var shown := DisplayedToasts(store, max);
            && |shown| == |loading| + Min(|RegularIndices(store)|, max - |loading|)
            && shown[..|loading|] == loading
  {
    FewLoadingShape(store, max);
  }

  /** With fewer than `max` Loading toasts the remaining slots go to the
      newest regular toasts, newest first; a regular toast left out is never
      newer than one shown. */
  lemma FewLoadingRegularNewest(store: seq<Toast>, max: nat)
    requires 0 < |LoadingIndices(store)| < max
    ensures var loading := LoadingIndices(store);
            var shown := DisplayedToasts(store, max);
            && (forall i :: |loading| <= i < |shown| ==> shown[i] < |store| && store[shown[i]].kind != Loading)
            && (forall i, j :: |loading| <= i < j < |shown| ==> Before(store, shown[j], shown[i]))
            && (forall i, y: nat ::
                  (|loading| <= i < |shown| && y < |store| && store[y].kind != Loading && y !in shown)
                  ==> Before(store, y, shown[i]))
  {
    var loading := LoadingIndices(store);
    var regular := RegularIndices(store);
    var sorted := SortByStart(store, regular);
    SortFacts(store, regular, false);
    FewLoadingShape(store, max);
    var w := loading + Reverse(sorted)[..Min(|regular|, max - |loading|)];
    NewestFirst(store, loading, sorted, Min(|regular|, max - |loading|));
    forall y: nat | y < |store| && store[y].kind != Loading
      ensures y in sorted
    {
      assert y in regular;
    }
  }

  /** Some toast of the list is (or is not) a Loading toast. */
  predicate ShowsKind(store: seq<Toast>, shown: seq<nat>, loading: bool)
  {
    exists i :: 0 <= i < |shown| && shown[i] < |store| && (store[shown[i]].kind == Loading) == loading
  }

  lemma MixedManyLoading(store: seq<Toast>, max: nat)
    requires max >= 2 && |LoadingIndices(store)| > max - 1
    requires exists y :: 0 <= y < |store| && store[y].kind != Loading
    ensures ShowsKind(store, DisplayedToasts(store, max), true)
    ensures ShowsKind(store, DisplayedToasts(store, max), false)
  {
    var shown := DisplayedToasts(store, max);
    var head := LoadingHead(store, max);
    DisplayedStartsWithHead(store, max);
    HeadFacts(store, max);
    ManyLoadingLastSlotRegular(store, max);
    assert shown[0] == head[0] && head[0] in head;
    assert shown[0] < |store| && store[shown[0]].kind == Loading;
    assert shown[max - 1] < |store| && store[shown[max - 1]].kind != Loading;
  }

  lemma MixedFewLoading(store: seq<Toast>, max: nat)
    requires 0 < |LoadingIndices(store)| < max
    requires exists y :: 0 <= y < |store| && store[y].kind != Loading
    ensures ShowsKind(store, DisplayedToasts(store, max), true)
    ensures ShowsKind(store, DisplayedToasts(store, max), false)
  {
    var loading := LoadingIndices(store);
    var shown := DisplayedToasts(store, max);
    var y0 :| 0 <= y0 < |store| && store[y0].kind != Loading;
    assert y0 in RegularIndices(store);
    FewLoadingFirst(store, max);
    FewLoadingRegularNewest(store, max);
    assert shown[0] == loading[0] && loading[0] in loading;
    assert shown[0] < |store| && store[shown[0]].kind == Loading;
    assert |loading| < |shown|;
    assert shown[|loading|] < |store| && store[shown[|loading|]].kind != Loading;
  }

  /** With room for two toasts, Loading and regular toasts present, both
      kinds are on screen. */
  lemma MixedShowsBoth(store: seq<Toast>, max: nat)
    requires max >= 2
    requires exists x :: 0 <= x < |store| && store[x].kind == Loading
    requires exists y :: 0 <= y < |store| && store[y].kind != Loading
    ensures ShowsKind(store, DisplayedToasts(store, max), true)
    ensures ShowsKind(store, DisplayedToasts(store, max), false)
  {
    var x0 :| 0 <= x0 < |store| && store[x0].kind == Loading;
    assert x0 in LoadingIndices(store);
    if |LoadingIndices(store)| > max - 1 {
      MixedManyLoading(store, max);
    } else {
      MixedFewLoading(store, max);
    }
  }

  // The spinner in a Loading toast's title

  /** `(elapsed_ms / 100) % frames.len()`: the frame changes every 100 ms. */
  function SpinnerFrame(elapsedMs: nat, frameCount: nat): (frame: nat)
    requires frameCount > 0
    ensures frame < frameCount
  {
    (elapsedMs / 100) % frameCount
  }

  /** Every 100 ms the spinner moves to the next frame, wrapping round after
      the last one, so it returns to the same frame every `frameCount` steps. */
  lemma SpinnerAdvances(elapsedMs: nat, frameCount: nat)
    requires frameCount > 0
    ensures SpinnerFrame(elapsedMs + 100, frameCount) == (SpinnerFrame(elapsedMs, frameCount) + 1) % frameCount
    ensures SpinnerFrame(elapsedMs + 100 * frameCount, frameCount) == SpinnerFrame(elapsedMs, frameCount)
  {
    var q := elapsedMs / 100;
    Arith.ModUnique(elapsedMs + 100, 100, q + 1, elapsedMs % 100);
    Arith.ModUnique(elapsedMs + 100 * frameCount, 100, q + frameCount, elapsedMs % 100);
    var d, m := q / frameCount, q % frameCount;
    if m + 1 < frameCount {
      Arith.ModUnique(q + 1, frameCount, d, m + 1);
    } else {
      Arith.ModUnique(q + 1, frameCount, d + 1, 0);
    }
    Arith.ModUnique(m + 1, frameCount, if m + 1 < frameCount then 0 else 1, if m + 1 < frameCount then m + 1 else 0);
    Arith.ModUnique(q + frameCount, frameCount, d + 1, m);
  }

  function KindName(kind: ToastKind): string
  {
    match kind
    case Error => "Error"
    case Info => "Info"
    case Warning => "Warning"
    case Loading => "Loading"
  }

  /** A toast's title: its kind, after the current spinner frame and a
      space for a Loading toast. Whatever the frame, a title always ends
      with the kind's name. */
  function ToastTitle(kind: ToastKind, frames: seq<string>, elapsedMs: nat): (title: string)
    requires |frames| > 0
    ensures |title| >= |KindName(kind)| && title[|title| - |KindName(kind)|..] == KindName(kind)
    ensures kind != Loading ==> title == KindName(kind)
    ensures kind == Loading ==>
              title == frames[SpinnerFrame(elapsedMs, |frames|)] + " " + KindName(kind)
  {
    match kind
    case Loading => frames[SpinnerFrame(elapsedMs, |frames|)] + " " + "Loading"
    case _ => KindName(kind)
  }

  /** A Loading toast's title animates: 100 ms later it shows the next
      spinner frame, and after one full round of frames it is the same
      title again. */
  lemma LoadingTitleAnimates(frames: seq<string>, elapsedMs: nat)
    requires |frames| > 0
    ensures ToastTitle(Loading, frames, elapsedMs + 100)
            == frames[(SpinnerFrame(elapsedMs, |frames|) + 1) % |frames|] + " Loading"
    ensures ToastTitle(Loading, frames, elapsedMs + 100 * |frames|) == ToastTitle(Loading, frames, elapsedMs)
  {
    SpinnerAdvances(elapsedMs, |frames|);
  }
}
