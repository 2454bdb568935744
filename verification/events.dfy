/** The event manager's split of the events list into today's walk-in
    session and the others, and the date shown for each event. */
module EventSessions {
  import opened Common
  import UploadRoute

  /** An event as the events API returns it; `slug` may be missing. */
  datatype Event = Event(id: string, name: string, date: string, kind: string, slug: Option<string>)

  /** `e.slug === todaySlug`, where `todaySlug` is `walk-in-` followed by
      the date string: a missing slug matches nothing. */
  predicate IsToday(e: Event, dateStr: string) {
    e.slug == Some(WalkInSlug(dateStr))
  }

  /** `events.find(e => e.slug === todaySlug)`. */
  function WalkInEvent(events: seq<Event>, dateStr: string): (found: Option<Event>)
    ensures found.Some? <==> exists i :: 0 <= i < |events| && IsToday(events[i], dateStr)
    ensures found.Some? ==> found.value in events && IsToday(found.value, dateStr)
  {
    if events == [] then None
    else if IsToday(events[0], dateStr) then Some(events[0])
    else
      var rest := WalkInEvent(events[1..], dateStr);
      assert forall i :: 1 <= i < |events| ==> events[i] == events[1..][i - 1];
      rest
  }

  /** `events.filter(e => e.slug !== todaySlug)`. */
  function OtherEvents(events: seq<Event>, dateStr: string): (others: seq<Event>)
    ensures forall e :: e in others <==> e in events && !IsToday(e, dateStr)
    ensures |others| <= |events|
  {
    if events == [] then []
    else
      var rest := OtherEvents(events[1..], dateStr);
      assert forall e :: e in events <==> e == events[0] || e in events[1..];
      if IsToday(events[0], dateStr) then rest else [events[0]] + rest
  }

  /** The events with today's slug, in order: the walk-in and any duplicates
      the page hides. */
  function TodayEvents(events: seq<Event>, dateStr: string): seq<Event> {
    if events == [] then []
    else
      var rest := TodayEvents(events[1..], dateStr);
      if IsToday(events[0], dateStr) then [events[0]] + rest else rest
  }

  /** The walk-in is the first of today's events. */
  lemma {:induction false} WalkInIsFirstOfToday(events: seq<Event>, dateStr: string)
    ensures var today := TodayEvents(events, dateStr);
            WalkInEvent(events, dateStr) == if today == [] then None else Some(today[0])
  {
    if events != [] {
      WalkInIsFirstOfToday(events[1..], dateStr);
    }
  }

  /** The split loses nothing: each event is either in the other list or
      has today's slug, and as many events come out as went in. */
  lemma {:induction false} PartitionCounts(events: seq<Event>, dateStr: string)
    ensures |OtherEvents(events, dateStr)| + |TodayEvents(events, dateStr)| == |events|
  {
    if events != [] {
      PartitionCounts(events[1..], dateStr);
    }
  }

  /** The walk-in never also appears among the other events. */
  lemma WalkInNotListedTwice(events: seq<Event>, dateStr: string)
    requires WalkInEvent(events, dateStr).Some?
    ensures WalkInEvent(events, dateStr).value !in OtherEvents(events, dateStr)
  {
  }

  /** Filtering keeps the original order: the other events are a
      subsequence of the list, the walk-in absent. */
  predicate Subsequence(xs: seq<Event>, ys: seq<Event>)
    decreases |ys|
  {
    if xs == [] then true
    else if ys == [] then false
    else if xs[0] == ys[0] then Subsequence(xs[1..], ys[1..])
    else Subsequence(xs, ys[1..])
  }

  lemma {:induction false} OtherEventsInOrder(events: seq<Event>, dateStr: string)
    ensures Subsequence(OtherEvents(events, dateStr), events)
  {
    if events != [] {
      OtherEventsInOrder(events[1..], dateStr);
      var rest := OtherEvents(events[1..], dateStr);
      if !IsToday(events[0], dateStr) {
        assert ([events[0]] + rest)[1..] == rest;
      } else {
        SubsequenceSkip(rest, events);
      }
    }
  }

  /** Dropping the head of the longer list keeps a subsequence of its tail. */
  lemma {:induction false} SubsequenceSkip(xs: seq<Event>, ys: seq<Event>)
    requires ys != [] && Subsequence(xs, ys[1..])
    requires forall e :: e in xs ==> e in ys[1..]
    requires ys[0] !in xs
    ensures Subsequence(xs, ys)
  {
    if xs != [] {
      assert xs[0] in xs;
    }
  }

  /** `String(evt.date).split('T')[0]`: everything before the first `T`. */
  function DisplayDate(date: string): (shown: string)
    ensures shown <= date
    ensures Lacks(shown, 'T')
    ensures shown == date || date[|shown|] == 'T'
  {
    if date == [] then []
    else if date[0] == 'T' then []
    else
      var rest := DisplayDate(date[1..]);
      assert date == [date[0]] + date[1..];
      [date[0]] + rest
  }

  /** An ISO timestamp is shown as its calendar date. */
  lemma IsoDateShown(day: string, time: string)
    requires Lacks(day, 'T')
    ensures DisplayDate(day + "T" + time) == day
  {
    assert day + "T" + time == day + ("T" + time);
    DisplayDateOfPrefix(day, "T" + time);
  }

  lemma {:induction false} DisplayDateOfPrefix(day: string, rest: string)
    requires Lacks(day, 'T')
    requires rest != [] && rest[0] == 'T'
    ensures DisplayDate(day + rest) == day
    decreases |day|
  {
    if day == [] {
      assert day + rest == rest;
    } else {
      assert (day + rest)[1..] == day[1..] + rest;
      DisplayDateOfPrefix(day[1..], rest);
    }
  }

  /** The walk-in row the upload route creates for the same day carries its
      `walk-in-` key as its id and has no slug, so it is never taken for
      today's walk-in and is always listed with the others. */
  lemma SluglessEventListed(events: seq<Event>, dateStr: string, i: nat)
    requires i < |events|
    requires events[i].id == UploadRoute.WalkInRow(dateStr).id && events[i].slug.None?
    ensures events[i] in OtherEvents(events, dateStr)
    ensures WalkInEvent(events, dateStr) != Some(events[i])
  {
  }
}
