/**
 * Calendar events and the list operations the calendar applies to them:
 * `filter` (overlap with a time range, removal by id) and the stable
 * `sort` by start time.
 */
module Events {
  import opened Wrappers
  import opened JsDate

  /**
   * A stored event. `start` and `end` are the instants the event's ISO
   * strings denote; `userId` is the creator's id or null.
   */
  datatype Event = Event(
    id: string,
    userId: Option<string>,
    title: string,
    location: string,
    details: string,
    inviteGroups: seq<string>,
    start: Time,
    end: Time,
    color: string)

  /** `a` is `b` with some elements left out, the rest in their original order. */
  predicate IsSubsequence<T(==)>(a: seq<T>, b: seq<T>)
  {
    a == [] || (b != [] && ((a[0] == b[0] && IsSubsequence(a[1..], b[1..])) || IsSubsequence(a, b[1..])))
  }

  /** `xs.filter(p)` */
  function Filter<T(==,!new)>(xs: seq<T>, p: T -> bool): (r: seq<T>)
    ensures forall x :: x in r <==> x in xs && p(x)
    ensures IsSubsequence(r, xs)
  {
    if xs == [] then []
    else
      assert xs == [xs[0]] + xs[1..];
      if p(xs[0]) then [xs[0]] + Filter(xs[1..], p) else Filter(xs[1..], p)
  }

  /** Filtering a concatenation filters each part and keeps them in order. */
  lemma {:induction false} FilterConcat<T(!new)>(a: seq<T>, b: seq<T>, p: T -> bool)
    ensures Filter(a + b, p) == Filter(a, p) + Filter(b, p)
  {
    if a != [] {
      assert (a + b)[0] == a[0];
      assert (a + b)[1..] == a[1..] + b;
      FilterConcat(a[1..], b, p);
    } else {
      assert a + b == b;
    }
  }

  /** Filtering keeps every passing element as often as it occurs, and no other. */
  lemma {:induction false} FilterCount<T(!new)>(xs: seq<T>, p: T -> bool)
    ensures forall x :: multiset(Filter(xs, p))[x] == if p(x) then multiset(xs)[x] else 0
  {
    if xs != [] {
      FilterCount(xs[1..], p);
      assert xs == [xs[0]] + xs[1..];
    }
  }

  /** Filtering keeps a list unchanged when every element passes. */
  lemma {:induction false} FilterAll<T(!new)>(xs: seq<T>, p: T -> bool)
    requires forall x :: x in xs ==> p(x)
    ensures Filter(xs, p) == xs
  {
    if xs != [] {
      FilterAll(xs[1..], p);
    }
  }

  /** Filtering by `q` after `p` is filtering by `q` alone, when `q` implies `p`. */
  lemma {:induction false} FilterNarrow<T(!new)>(xs: seq<T>, p: T -> bool, q: T -> bool)
    requires forall x :: q(x) ==> p(x)
    ensures Filter(Filter(xs, p), q) == Filter(xs, q)
  {
    if xs != [] {
      FilterNarrow(xs[1..], p, q);
    }
  }

  predicate SortedByStart(s: seq<Event>)
  {
    forall i, j :: 0 <= i < j < |s| ==> s[i].start <= s[j].start
  }

  /** A subsequence of a list sorted by start is sorted by start. */
  lemma {:induction false} SubsequenceSorted(a: seq<Event>, b: seq<Event>)
    requires IsSubsequence(a, b) && SortedByStart(b)
    ensures SortedByStart(a)
  {
    if a != [] {
      assert b != [];
      if a[0] == b[0] && IsSubsequence(a[1..], b[1..]) {
        SubsequenceSorted(a[1..], b[1..]);
        forall j | 0 < j < |a| ensures a[0].start <= a[j].start {
          SubsequenceMember(a[1..], b[1..], j - 1);
        }
      } else {
        SubsequenceSorted(a, b[1..]);
      }
    }
  }

  /** Every element of a subsequence is an element of the list. */
  lemma {:induction false} SubsequenceMember<T>(a: seq<T>, b: seq<T>, i: int)
    requires IsSubsequence(a, b) && 0 <= i < |a|
    ensures a[i] in b
  {
    if a[0] == b[0] && IsSubsequence(a[1..], b[1..]) {
      if i > 0 {
        SubsequenceMember(a[1..], b[1..], i - 1);
      }
    } else {
      SubsequenceMember(a, b[1..], i);
    }
  }

  /** In a list sorted by start, the head starts no later than any element. */
  lemma SortedHead(s: seq<Event>)
    requires SortedByStart(s) && s != []
    ensures SortedByStart(s[1..])
    ensures forall y :: y in s ==> s[0].start <= y.start
  {
  }

  /** Putting an event in front of a sorted list that starts no earlier than it keeps the list sorted. */
  lemma SortedCons(x: Event, t: seq<Event>)
    requires SortedByStart(t)
    requires forall y :: y in t ==> x.start <= y.start
    ensures SortedByStart([x] + t)
  {
    forall i, j | 0 <= i < j < |t| + 1 ensures ([x] + t)[i].start <= ([x] + t)[j].start {
      assert ([x] + t)[j] == t[j - 1];
      if i > 0 {
        assert ([x] + t)[i] == t[i - 1];
      }
    }
  }

  lemma MultisetCons<T>(s: seq<T>)
    requires s != []
    ensures multiset(s) == multiset{s[0]} + multiset(s[1..])
  {
    assert s == [s[0]] + s[1..];
  }

  /** Inserts `e` before the first event that starts no earlier than it. */
  function InsertByStart(e: Event, s: seq<Event>): (r: seq<Event>)
    requires SortedByStart(s)
    ensures SortedByStart(r)
    ensures multiset(r) == multiset(s) + multiset{e}
    ensures forall x :: x in r ==> x in s || x == e
  {
    if s == [] || e.start <= s[0].start then
      assert forall y :: y in s ==> e.start <= y.start by {
        if s != [] {
          SortedHead(s);
        }
      }
      SortedCons(e, s);
      [e] + s
    else
      SortedHead(s);
      MultisetCons(s);
      var t := InsertByStart(e, s[1..]);
      SortedCons(s[0], t);
      [s[0]] + t
  }

  /**
   * `list.sort((a, b) => a.start - b.start)`: JavaScript's sort is stable,
   * so events with the same start keep their order (insertion sort).
   */
  function SortByStart(xs: seq<Event>): (r: seq<Event>)
    ensures SortedByStart(r)
    ensures multiset(r) == multiset(xs)
    ensures |r| == |xs|
  {
    if xs == [] then []
    else
      assert xs == [xs[0]] + xs[1..];
      InsertByStart(xs[0], SortByStart(xs[1..]))
  }

  function StartsAt(k: Time): Event -> bool
  {
    (e: Event) => e.start == k
  }

  /** Filtering a list with an element in front decides that element, then filters the rest. */
  lemma FilterPrepend<T(!new)>(x: T, xs: seq<T>, p: T -> bool)
    ensures Filter([x] + xs, p) == if p(x) then [x] + Filter(xs, p) else Filter(xs, p)
  {
    assert ([x] + xs)[0] == x && ([x] + xs)[1..] == xs;
  }

  /** Filtering a non-empty list decides its head, then filters its tail. */
  lemma FilterCons<T(!new)>(xs: seq<T>, p: T -> bool)
    requires xs != []
    ensures Filter(xs, p) == if p(xs[0]) then [xs[0]] + Filter(xs[1..], p) else Filter(xs[1..], p)
  {
  }

  /** Inserting by start keeps the order of the events that start at any one instant. */
  lemma {:induction false} InsertStable(e: Event, s: seq<Event>, k: Time)
    requires SortedByStart(s)
    ensures Filter(InsertByStart(e, s), StartsAt(k)) == Filter([e] + s, StartsAt(k))
  {
    if s != [] && e.start > s[0].start {
      var p := StartsAt(k);
      SortedHead(s);
      var t := InsertByStart(e, s[1..]);
      assert InsertByStart(e, s) == [s[0]] + t;
      InsertStable(e, s[1..], k);
      FilterPrepend(s[0], t, p);
      FilterPrepend(e, s[1..], p);
      FilterPrepend(e, s, p);
      FilterCons(s, p);
    }
  }

  /** Sorting is stable: events that start at the same instant keep their relative order. */
  lemma {:induction false} SortStable(xs: seq<Event>, k: Time)
    ensures Filter(SortByStart(xs), StartsAt(k)) == Filter(xs, StartsAt(k))
  {
    if xs != [] {
      SortStable(xs[1..], k);
      InsertStable(xs[0], SortByStart(xs[1..]), k);
      FilterPrepend(xs[0], SortByStart(xs[1..]), StartsAt(k));
      FilterCons(xs, StartsAt(k));
    }
  }

  /** Sorting a list that is already sorted by start leaves it unchanged. */
  lemma {:induction false} SortSorted(xs: seq<Event>)
    requires SortedByStart(xs)
    ensures SortByStart(xs) == xs
  {
    if xs != [] {
      SortSorted(xs[1..]);
      assert xs == [xs[0]] + xs[1..];
    }
  }

  /** An event occupies part of the half-open range [lo, hi). */
  predicate Overlaps(e: Event, lo: Time, hi: Time)
  {
    e.end > lo && e.start < hi
  }

  /** `events.filter((e) => e.end > lo && e.start < hi)` */
  function Overlapping(events: seq<Event>, lo: Time, hi: Time): (r: seq<Event>)
    ensures forall e :: e in r <==> e in events && Overlaps(e, lo, hi)
    ensures forall e :: multiset(r)[e] == if Overlaps(e, lo, hi) then multiset(events)[e] else 0
    ensures IsSubsequence(r, events)
  {
    FilterCount(events, (e: Event) => Overlaps(e, lo, hi));
    Filter(events, (e: Event) => Overlaps(e, lo, hi))
  }

  /** Filtering for a range inside a wider range that was already filtered for loses nothing. */
  lemma OverlappingNarrow(events: seq<Event>, lo: Time, hi: Time, lo': Time, hi': Time)
    requires lo <= lo' && hi' <= hi
    ensures Overlapping(Overlapping(events, lo, hi), lo', hi') == Overlapping(events, lo', hi')
  {
    FilterNarrow(events, (e: Event) => Overlaps(e, lo, hi), (e: Event) => Overlaps(e, lo', hi'));
  }

  /** `events.filter((e) => e.id !== id)` */
  function WithoutId(events: seq<Event>, id: string): (r: seq<Event>)
    ensures forall e :: e in r <==> e in events && e.id != id
    ensures forall e :: multiset(r)[e] == if e.id != id then multiset(events)[e] else 0
    ensures IsSubsequence(r, events)
  {
    FilterCount(events, (e: Event) => e.id != id);
    Filter(events, (e: Event) => e.id != id)
  }

  /** Removing an id that no event has changes nothing. */
  lemma WithoutAbsentId(events: seq<Event>, id: string)
    requires forall e :: e in events ==> e.id != id
    ensures WithoutId(events, id) == events
  {
    FilterAll(events, (e: Event) => e.id != id);
  }

  /** Removing the same id twice is the same as removing it once. */
  lemma WithoutIdTwice(events: seq<Event>, id: string)
    ensures WithoutId(WithoutId(events, id), id) == WithoutId(events, id)
  {
    FilterNarrow(events, (e: Event) => e.id != id, (e: Event) => e.id != id);
  }

  /** Removal keeps a sorted list sorted. */
  lemma WithoutIdSorted(events: seq<Event>, id: string)
    requires SortedByStart(events)
    ensures SortedByStart(WithoutId(events, id))
  {
    SubsequenceSorted(WithoutId(events, id), events);
  }
}
