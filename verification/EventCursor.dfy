/** The client's cursor over the event stream: a timestamp and a bounded window of ids. */
module EventCursor {
  import opened Common

  datatype Event = Event(id: string, timestamp: string)

  datatype Cursor = Cursor(last: Option<string>, seen: seq<string>)

  // ------------------------------------------------------------------------
  // Timestamps compare as strings
  // ------------------------------------------------------------------------

  predicate Before(a: string, b: string) {
    if b == "" then false
    else if a == "" then true
    else a[0] < b[0] || (a[0] == b[0] && Before(a[1..], b[1..]))
  }

  predicate AtMost(a: string, b: string) {
    a == b || Before(a, b)
  }

  /** The strings agree up to a position where one ends first or has the smaller character. */
  ghost predicate DiffersAt(a: string, b: string, i: nat) {
    && i <= |a| && i < |b| && a[..i] == b[..i]
    && (i == |a| || a[i] < b[i])
  }

  /** Strings compare as the language compares them: by the first character that differs, a prefix first. */
  lemma {:induction false} BeforeExactly(a: string, b: string)
    ensures Before(a, b) <==> exists i :: DiffersAt(a, b, i)
    decreases |a|
  {
    forall i: nat | DiffersAt(a, b, i) && i > 0 ensures a != "" && b != "" && a[0] == b[0] {
      assert a[..i][0] == b[..i][0];
    }
    if a != "" && b != "" && a[0] == b[0] {
      BeforeExactly(a[1..], b[1..]);
      assert a == [a[0]] + a[1..] && b == [b[0]] + b[1..];
      if i: nat :| DiffersAt(a[1..], b[1..], i) {
        assert a[..i + 1] == [a[0]] + a[1..][..i] && b[..i + 1] == [b[0]] + b[1..][..i];
        assert DiffersAt(a, b, i + 1);
      }
      if i: nat :| DiffersAt(a, b, i) {
        assert i > 0 && a[1..][..i - 1] == a[..i][1..] && b[1..][..i - 1] == b[..i][1..];
        assert DiffersAt(a[1..], b[1..], i - 1);
      }
    } else if b != "" {
      if a == "" || a[0] < b[0] { assert DiffersAt(a, b, 0); }
    }
  }

  lemma {:induction false} BeforeTransitive(a: string, b: string, c: string)
    requires Before(a, b) && Before(b, c)
    ensures Before(a, c)
    decreases |a|
  {
    if a != "" && a[0] == b[0] && b[0] == c[0] { BeforeTransitive(a[1..], b[1..], c[1..]); }
  }

  lemma {:induction false} BeforeTotal(a: string, b: string)
    ensures Before(a, b) || a == b || Before(b, a)
    ensures !(Before(a, b) && Before(b, a)) && !Before(a, a)
    decreases |a|
  {
    if a != "" && b != "" && a[0] == b[0] {
      BeforeTotal(a[1..], b[1..]);
      assert a == [a[0]] + a[1..] && b == [b[0]] + b[1..];
    }
    if a != "" { BeforeTotal(a[1..], a[1..]); }
  }

  lemma AtMostTransitive(a: string, b: string, c: string)
    requires AtMost(a, b) && AtMost(b, c)
    ensures AtMost(a, c)
    ensures a == c ==> a == b
  {
    if a != b && b != c { BeforeTransitive(a, b, c); }
    BeforeTotal(a, b);
    BeforeTotal(b, c);
    BeforeTotal(a, c);
  }

  // ------------------------------------------------------------------------
  // One event
  // ------------------------------------------------------------------------

  /** s.slice(-n), which for n = 0 keeps the whole of s. */
  function SliceLast<T>(s: seq<T>, n: nat): seq<T> {
    if n == 0 || |s| <= n then s else s[|s| - n..]
  }

  /** A missing and an empty timestamp are both falsy. */
  predicate Set(last: Option<string>) {
    last.Some? && last.value != ""
  }

  /** decideInventoryEvent: whether to apply, and the cursor from then on. */
  function Decide(c: Cursor, e: Event, window: nat): (bool, Cursor) {
    if e.id in c.seen then (false, c)
    else if Set(c.last) && Before(e.timestamp, c.last.value) then (false, c)
    else
      (true, Cursor(if !Set(c.last) || Before(c.last.value, e.timestamp) then Some(e.timestamp) else c.last,
                    SliceLast(c.seen + [e.id], window)))
  }

  // ------------------------------------------------------------------------
  // Runs
  // ------------------------------------------------------------------------

  const START := Cursor(None, [])

  /** The cursor after the events, and the events it applied, in order. */
  function Follow(events: seq<Event>, window: nat): (Cursor, seq<Event>) {
    if events == [] then (START, [])
    else
      var (c, applied) := Follow(events[..|events| - 1], window);
      var e := events[|events| - 1];
      var (apply, c') := Decide(c, e, window);
      (c', if apply then applied + [e] else applied)
  }

  function Ids(events: seq<Event>): seq<string> {
    seq(|events|, i requires 0 <= i < |events| => events[i].id)
  }

  /** Events carry a non-empty timestamp. */
  ghost predicate Stamped(events: seq<Event>) {
    forall i :: 0 <= i < |events| ==> events[i].timestamp != ""
  }

  ghost predicate Sorted(events: seq<Event>) {
    forall i, j :: 0 <= i <= j < |events| ==> AtMost(events[i].timestamp, events[j].timestamp)
  }

  /** Any stretch of the applied events no longer than the window names each id once. */
  ghost predicate DistinctNearby(events: seq<Event>, window: nat) {
    forall i, j :: 0 <= i < j < |events| && j - i <= window ==> events[i].id != events[j].id
  }

  ghost predicate CursorOk(c: Cursor, applied: seq<Event>, window: nat) {
    && Stamped(applied) && Sorted(applied) && DistinctNearby(applied, window)
    && c.seen == SliceLast(Ids(applied), window)
    && (applied == [] ==> c == START)
    && (applied != [] ==> c.last == Some(applied[|applied| - 1].timestamp))
  }

  lemma SliceAppend<T>(s: seq<T>, x: T, window: nat)
    ensures SliceLast(SliceLast(s, window) + [x], window) == SliceLast(s + [x], window)
  {
    if 0 < window < |s| {
      var kept := s[|s| - window..];
      assert (kept + [x])[1..] == kept[1..] + [x] == (s + [x])[|s| + 1 - window..];
    }
  }

  lemma SliceStep(applied: seq<Event>, e: Event, window: nat)
    ensures SliceLast(SliceLast(Ids(applied), window) + [e.id], window) == SliceLast(Ids(applied + [e]), window)
  {
    hide SliceLast;
    assert Ids(applied + [e]) == Ids(applied) + [e.id];
    SliceAppend(Ids(applied), e.id, window);
  }

  lemma InWindow(applied: seq<Event>, i: nat, window: nat)
    requires i < |applied| && |applied| - i <= window
    ensures applied[i].id in SliceLast(Ids(applied), window)
  {
    var ids := Ids(applied);
    assert ids[i] == applied[i].id;
    if |ids| > window { assert ids[|ids| - window..][i - (|ids| - window)] == ids[i]; }
  }

  lemma ApplyKeepsOk(c: Cursor, applied: seq<Event>, e: Event, window: nat)
    requires CursorOk(c, applied, window) && e.timestamp != "" && Decide(c, e, window).0
    ensures CursorOk(Decide(c, e, window).1, applied + [e], window)
  {
    var after := applied + [e];
    SliceStep(applied, e, window);
    if applied != [] {
      var last := applied[|applied| - 1].timestamp;
      BeforeTotal(last, e.timestamp);
      forall i | 0 <= i < |applied| ensures AtMost(applied[i].timestamp, e.timestamp) {
        assert AtMost(applied[i].timestamp, applied[|applied| - 1].timestamp);
        AtMostTransitive(applied[i].timestamp, last, e.timestamp);
      }
    }
    forall i | 0 <= i < |applied| && |applied| - i <= window ensures applied[i].id != e.id {
      InWindow(applied, i, window);
    }
  }

  /** The window always holds the ids of the last events applied, and the timestamp is that of the last one. */
  lemma {:induction false} FollowOk(events: seq<Event>, window: nat)
    requires Stamped(events)
    ensures var (c, applied) := Follow(events, window); CursorOk(c, applied, window)
  {
    if events != [] {
      var front, e := events[..|events| - 1], events[|events| - 1];
      FollowOk(front, window);
      var (c, applied) := Follow(front, window);
      if Decide(c, e, window).0 { ApplyKeepsOk(c, applied, e, window); }
    }
  }

  /** None of the last `window` events applied, or of all of them for a window of zero, has the id. */
  ghost predicate Unseen(applied: seq<Event>, id: string, window: nat) {
    forall i :: 0 <= i < |applied| && (window == 0 || |applied| - i <= window) ==> applied[i].id != id
  }

  /** The event is not before the last one applied. */
  ghost predicate Current(applied: seq<Event>, e: Event) {
    applied == [] || AtMost(applied[|applied| - 1].timestamp, e.timestamp)
  }

  lemma DecidesExactly(c: Cursor, applied: seq<Event>, e: Event, window: nat)
    requires CursorOk(c, applied, window)
    ensures Decide(c, e, window).0 <==> Unseen(applied, e.id, window) && Current(applied, e)
  {
    hide Unseen, SliceLast;
    SeenExactly(applied, e.id, window);
    if applied != [] { BeforeTotal(e.timestamp, applied[|applied| - 1].timestamp); }
  }

  /** Which events are applied, exactly: the next one is, if and only if its id is unseen and it is not before the last one. */
  lemma AppliedExactly(events: seq<Event>, n: nat, window: nat)
    requires Stamped(events) && n < |events|
    ensures var applied, e := Follow(events[..n], window).1, events[n];
      Follow(events[..n + 1], window).1 == if Unseen(applied, e.id, window) && Current(applied, e) then applied + [e] else applied
  {
    hide CursorOk, Unseen, Current, Decide;
    var front, e := events[..n], events[n];
    var (c, applied) := Follow(front, window);
    assert events[..n + 1][..n] == front && events[..n + 1][n] == e;
    FollowOk(front, window);
    DecidesExactly(c, applied, e, window);
  }

  lemma SeenExactly(applied: seq<Event>, id: string, window: nat)
    ensures id in SliceLast(Ids(applied), window) <==> !Unseen(applied, id, window)
  {
    var seen := SliceLast(Ids(applied), window);
    var start := |applied| - |seen|;
    assert start == if window == 0 || |applied| <= window then 0 else |applied| - window;
    forall k | 0 <= k < |seen| ensures seen[k] == applied[start + k].id {
      assert seen[k] == Ids(applied)[start + k];
    }
    hide SliceLast, Ids;
    if id in seen {
      var k :| 0 <= k < |seen| && seen[k] == id;
      assert applied[start + k].id == id;
    }
    forall i | start <= i < |applied| ensures applied[i].id in seen { assert seen[i - start] == applied[i].id; }
  }

  lemma LastIsNew(events: seq<Event>, window: nat)
    requires events != [] && Sorted(events) && Distinct(Ids(events))
    ensures var front, e := events[..|events| - 1], events[|events| - 1];
      && Unseen(front, e.id, window) && Current(front, e)
      && Sorted(front) && Distinct(Ids(front)) && events == front + [e]
  {
    var n := |events| - 1;
    var ids, front := Ids(events), events[..n];
    assert forall i :: 0 <= i <= n ==> ids[i] == events[i].id;
    assert forall i :: 0 <= i < n ==> Ids(front)[i] == ids[i] && ids[i] != ids[n] && front[i] == events[i];
  }

  /** So a stream in order that names no event twice is applied in full, whatever the window. */
  lemma {:induction false} SortedIsAppliedInFull(events: seq<Event>, window: nat)
    requires Stamped(events) && Sorted(events) && Distinct(Ids(events))
    ensures Follow(events, window).1 == events
  {
    if events != [] {
      hide Sorted, Unseen, Current, Ids;
      var n := |events| - 1;
      LastIsNew(events, window);
      SortedIsAppliedInFull(events[..n], window);
      AppliedExactly(events, n, window);
      assert events[..n + 1] == events;
    }
  }

  /** With a window of at least one, its ids are distinct and no more than the window. */
  lemma WindowIsDistinct(events: seq<Event>, window: nat)
    requires Stamped(events) && window >= 1
    ensures var seen := Follow(events, window).0.seen; |seen| <= window && Distinct(seen)
  {
    hide Follow;
    FollowOk(events, window);
    LastIdsDistinct(Follow(events, window).1, window);
  }

  lemma LastIdsDistinct(applied: seq<Event>, window: nat)
    requires DistinctNearby(applied, window) && window >= 1
    ensures var seen := SliceLast(Ids(applied), window); |seen| <= window && Distinct(seen)
  {
    var seen := SliceLast(Ids(applied), window);
    var start := |applied| - |seen|;
    forall i, j | 0 <= i < j < |seen| ensures seen[i] != seen[j] {
      assert seen[i] == applied[start + i].id && seen[j] == applied[start + j].id;
    }
  }

  /** The cursor's timestamp never decreases along a run. */
  lemma TimestampNeverDecreases(events: seq<Event>, n: nat, window: nat)
    requires Stamped(events) && n <= |events|
    ensures var (early, _) := Follow(events[..n], window); var (late, _) := Follow(events, window);
      early.last.Some? ==> late.last.Some? && AtMost(early.last.value, late.last.value)
  {
    FollowOk(events[..n], window);
    FollowOk(events, window);
    AppliedGrows(events, n, window);
    var applied := Follow(events, window).1;
    var before := Follow(events[..n], window).1;
    if before != [] { assert applied[|before| - 1] == before[|before| - 1]; }
  }

  lemma {:induction false} AppliedGrows(events: seq<Event>, n: nat, window: nat)
    requires n <= |events|
    ensures Follow(events[..n], window).1 <= Follow(events, window).1
  {
    if n < |events| {
      assert events[..|events| - 1][..n] == events[..n];
      AppliedGrows(events[..|events| - 1], n, window);
    } else {
      assert events[..n] == events;
    }
  }

  /**
   * An event whose id fixes its timestamp is applied twice only if at least as
   * many other events as the window holds, all different and all with exactly its
   * timestamp, were applied in between. A window of zero never forgets.
   */
  lemma RepeatNeedsBurst(events: seq<Event>, window: nat, i: nat, j: nat)
    requires Stamped(events)
    requires forall a, b :: a in events && b in events && a.id == b.id ==> a == b
    requires var applied := Follow(events, window).1; i < j < |applied| && applied[i].id == applied[j].id
    ensures var applied := Follow(events, window).1;
      && window >= 1 && j - i - 1 >= window
      && (forall k :: i < k < j ==> applied[k].timestamp == applied[i].timestamp)
      && Distinct(Ids(applied[j - window..j]))
      && applied[i].id !in Ids(applied[j - window..j])
  {
    FollowOk(events, window);
    AppliedIsFrom(events, window);
    var applied := Follow(events, window).1;
    forall k | i < k < j ensures applied[k].timestamp == applied[i].timestamp {
      AtMostTransitive(applied[i].timestamp, applied[k].timestamp, applied[j].timestamp);
    }
    if window == 0 { NothingForgotten(events, i, j); }
    LastOnesDiffer(applied, window, j);
  }

  lemma LastOnesDiffer(applied: seq<Event>, window: nat, j: nat)
    requires window <= j < |applied| && DistinctNearby(applied, window)
    ensures Distinct(Ids(applied[j - window..j])) && applied[j].id !in Ids(applied[j - window..j])
  {
    var ids := Ids(applied[j - window..j]);
    assert forall a :: 0 <= a < window ==> ids[a] == applied[j - window + a].id;
  }

  lemma {:induction false} AppliedIsFrom(events: seq<Event>, window: nat)
    ensures forall e :: e in Follow(events, window).1 ==> e in events
  {
    if events != [] {
      AppliedIsFrom(events[..|events| - 1], window);
      assert events == events[..|events| - 1] + [events[|events| - 1]];
    }
  }

  /** slice(-0) keeps every id, so with a window of zero no id is applied twice. */
  lemma {:induction false} NothingForgotten(events: seq<Event>, i: nat, j: nat)
    requires Stamped(events) && i < j < |Follow(events, 0).1|
    ensures Follow(events, 0).1[i].id != Follow(events, 0).1[j].id
  {
    var front, e := events[..|events| - 1], events[|events| - 1];
    FollowOk(front, 0);
    var (c, applied) := Follow(front, 0);
    if j < |applied| {
      NothingForgotten(front, i, j);
    } else {
      assert Ids(applied)[i] in c.seen;
    }
  }

  // ------------------------------------------------------------------------
  // The bound is tight
  // ------------------------------------------------------------------------

  /** `n` different events with one timestamp. */
  function Burst(n: nat): seq<Event> {
    seq(n, i requires 0 <= i < n => Event(Name(i), "t"))
  }

  function Name(n: nat): string {
    if n == 0 then "e" else Name(n - 1) + "e"
  }

  lemma {:induction false} NameLength(n: nat)
    ensures |Name(n)| == n + 1
  {
    if n > 0 { NameLength(n - 1); }
  }

  lemma FreshName(n: nat, seen: seq<string>)
    requires forall id :: id in seen ==> id in Ids(Burst(n))
    ensures Name(n) !in seen
  {
    forall id | id in seen ensures id != Name(n) {
      var k :| 0 <= k < n && Ids(Burst(n))[k] == id;
      NameLength(k);
      NameLength(n);
    }
  }

  lemma {:induction false} BurstApplied(n: nat, window: nat)
    requires window >= 1
    ensures Follow(Burst(n), window).1 == Burst(n)
  {
    if n > 0 {
      var front := Burst(n - 1);
      BurstApplied(n - 1, window);
      FollowOk(front, window);
      assert Burst(n)[..n - 1] == front && Burst(n) == front + [Burst(n)[n - 1]];
      BurstStep(n - 1, window, Follow(front, window).0);
    }
  }

  lemma BurstStep(n: nat, window: nat, c: Cursor)
    requires CursorOk(c, Burst(n), window)
    ensures Decide(c, Event(Name(n), "t"), window).0
  {
    FreshName(n, c.seen);
    BeforeTotal("t", "t");
  }

  /** For every window some event is applied twice after exactly that many others with its timestamp. */
  lemma BoundIsTight(window: nat)
    requires window >= 1
    ensures var events := Burst(window + 1) + [Burst(window + 1)[0]]; Follow(events, window).1 == events
  {
    var burst := Burst(window + 1);
    var events := burst + [burst[0]];
    assert events[..window + 1] == burst;
    BurstApplied(window + 1, window);
    FollowOk(burst, window);
    FirstForgotten(window, Follow(burst, window).0);
  }

  /** Once the window has filled with the others, the first event of the burst is applied again. */
  lemma FirstForgotten(window: nat, c: Cursor)
    requires window >= 1 && CursorOk(c, Burst(window + 1), window)
    ensures Decide(c, Burst(window + 1)[0], window).0
  {
    var burst := Burst(window + 1);
    var ids := Ids(burst);
    assert |ids| == window + 1 && |ids| - window == 1;
    assert SliceLast(ids, window) == ids[1..];
    forall k | 0 <= k < |c.seen| ensures c.seen[k] != burst[0].id {
      assert c.seen[k] == Name(k + 1);
      NameLength(k + 1);
      NameLength(0);
    }
    BeforeTotal("t", "t");
  }
}
