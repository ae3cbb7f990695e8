/**
 * Who is on duty in a channel (helpers.py `get_active_incharges` and `get_next_incharges`).
 *
 * Each timing slot carries a "time" range such as "11 AM - 2 PM". A slot is active when
 * its range parses and contains the current minute; the next slots are the ones with the
 * earliest start strictly after now, or the first slot when nothing starts later today.
 * Every time is combined with the same date, so comparing the datetimes is comparing
 * minutes of the day.
 */
module Duty {
  import opened Wrappers
  import opened TimeOfDay
  import opened Sorting
  import opened Channels

  /** Every slot has a "time" key; `slot["time"]` raises KeyError otherwise. */
  predicate AllTimed(ts: seq<Record>)
  {
    forall i :: 0 <= i < |ts| ==> "time" in ts[i]
  }

  /** How a slot's "time" text is read: `parse_time_range` in the source. */
  type RangeParser = string -> (Option<Minute>, Option<Minute>)

  /** The slot's range parses and its interval contains `now`. */
  predicate ActiveAt(parse: RangeParser, slot: Record, now: Minute)
    requires "time" in slot
  {
    var range := parse(slot["time"]);
    range.0.Some? && range.1.Some? && IsTimeInInterval(range.0.value, range.1.value, now)
  }

  /** The slots active at `now`, in their order. */
  function ActiveSlots(parse: RangeParser, ts: seq<Record>, now: Minute): seq<Record>
    requires AllTimed(ts)
    decreases |ts|
  {
    if ts == [] then []
    else ActiveSlots(parse, ts[..|ts| - 1], now) + (if ActiveAt(parse, ts[|ts| - 1], now) then [ts[|ts| - 1]] else [])
  }

  /** `get_active_incharges`: keeps, in order, each slot whose range parses and holds `now`. */
  method GetActiveIncharges(channel: Channel, now: Minute) returns (active: seq<Record>)
    requires AllTimed(channel.timings)
    ensures active == ActiveSlots(ParseTimeRange, channel.timings, now)
  {
    active := CollectActive(ParseTimeRange, channel.timings, now);
  }

  /** The loop of `get_active_incharges`, with `parse_time_range` passed in as `parse`. */
  method CollectActive(parse: RangeParser, ts: seq<Record>, now: Minute) returns (active: seq<Record>)
    requires AllTimed(ts)
    ensures active == ActiveSlots(parse, ts, now)
  {
    active := [];
    for i := 0 to |ts|
      invariant active == ActiveSlots(parse, ts[..i], now)
    {
      assert ts[..i + 1][..i] == ts[..i];
      var range := parse(ts[i]["time"]);
      if range.0.None? || range.1.None? {
        continue;
      }
      if IsTimeInInterval(range.0.value, range.1.value, now) {
        active := active + [ts[i]];
      }
    }
    assert ts[..|ts|] == ts;
  }

  /** A slot is returned exactly when it is one of the timings and is active at `now`. */
  lemma {:induction false} ActiveSlotsMembers(parse: RangeParser, ts: seq<Record>, now: Minute, x: Record)
    requires AllTimed(ts)
    ensures x in ActiveSlots(parse, ts, now) <==> exists i :: 0 <= i < |ts| && ts[i] == x && ActiveAt(parse, ts[i], now)
    decreases |ts|
  {
    if ts != [] {
      var init := ts[..|ts| - 1];
      var last := ts[|ts| - 1];
      ActiveSlotsMembers(parse, init, now, x);
      assert x in ActiveSlots(parse, ts, now) <==>
        x in ActiveSlots(parse, init, now) || (x == last && ActiveAt(parse, last, now));
      if x in ActiveSlots(parse, init, now) {
        var i :| 0 <= i < |init| && init[i] == x && ActiveAt(parse, init[i], now);
        assert ts[i] == init[i];
      } else if x == last && ActiveAt(parse, last, now) {
        assert ts[|ts| - 1] == x;
      } else {
        forall i | 0 <= i < |ts| && ts[i] == x ensures !ActiveAt(parse, ts[i], now) {
          if i < |init| {
            assert init[i] == ts[i];
          }
        }
      }
    }
  }

  /** No slot is dropped or added when every slot is active, and none is kept when none is. */
  lemma {:induction false} ActiveSlotsExtremes(parse: RangeParser, ts: seq<Record>, now: Minute)
    requires AllTimed(ts)
    ensures (forall i :: 0 <= i < |ts| ==> ActiveAt(parse, ts[i], now)) ==> ActiveSlots(parse, ts, now) == ts
    ensures (forall i :: 0 <= i < |ts| ==> !ActiveAt(parse, ts[i], now)) ==> ActiveSlots(parse, ts, now) == []
    decreases |ts|
  {
    if ts != [] {
      var init := ts[..|ts| - 1];
      var last := ts[|ts| - 1];
      assert forall i :: 0 <= i < |init| ==> init[i] == ts[i];
      ActiveSlotsExtremes(parse, init, now);
      if forall i :: 0 <= i < |ts| ==> ActiveAt(parse, ts[i], now) {
        assert ActiveAt(parse, last, now);
        assert ActiveSlots(parse, init, now) == init;
        assert init + [last] == ts;
      }
      if forall i :: 0 <= i < |ts| ==> !ActiveAt(parse, ts[i], now) {
        assert !ActiveAt(parse, last, now);
        assert ActiveSlots(parse, init, now) == [];
      }
    }
  }

  // ---------------------------------------------------------------------------
  // get_next_incharges

  /** The parsed start of a slot's range, if the start side parses. */
  function StartOf(parse: RangeParser, slot: Record): Option<Minute>
    requires "time" in slot
  {
    parse(slot["time"]).0
  }

  /** (start, slot) for each slot that starts strictly after `now`, in timing order. */
  function Upcoming(parse: RangeParser, ts: seq<Record>, now: Minute): seq<(int, Record)>
    requires AllTimed(ts)
    decreases |ts|
  {
    if ts == [] then []
    else
      var last := ts[|ts| - 1];
      Upcoming(parse, ts[..|ts| - 1], now)
      + (if StartOf(parse, last).Some? && StartOf(parse, last).value > now then [(StartOf(parse, last).value, last)] else [])
  }

  /** `[slot for dt, slot in entries]`. */
  function Payloads(entries: seq<(int, Record)>): (r: seq<Record>)
    ensures |r| == |entries| && forall i :: 0 <= i < |r| ==> r[i] == entries[i].1
  {
    seq(|entries|, i requires 0 <= i < |entries| => entries[i].1)
  }

  /**
   * What `get_next_incharges` promises, without its sort: the upcoming slots that share the
   * earliest upcoming start, in timing order; failing that the first slot; failing that none.
   */
  function NextSlots(parse: RangeParser, ts: seq<Record>, now: Minute): seq<Record>
    requires AllTimed(ts)
  {
    var up := Upcoming(parse, ts, now);
    if up != [] then Payloads(WithKey(up, MinKey(up)))
    else if ts != [] then [ts[0]]
    else []
  }

  /** `get_next_incharges`: collects the upcoming slots, sorts them by start, and keeps those at the first start. */
  method GetNextIncharges(channel: Channel, now: Minute) returns (next: seq<Record>)
    requires AllTimed(channel.timings)
    ensures next == NextSlots(ParseTimeRange, channel.timings, now)
  {
    next := CollectNext(ParseTimeRange, channel.timings, now);
  }

  /** The body of `get_next_incharges`, with `parse_time_range` passed in as `parse`. */
  method CollectNext(parse: RangeParser, ts: seq<Record>, now: Minute) returns (next: seq<Record>)
    requires AllTimed(ts)
    ensures next == NextSlots(parse, ts, now)
  {
    var upcoming: seq<(int, Record)> := [];
    for i := 0 to |ts|
      invariant upcoming == Upcoming(parse, ts[..i], now)
    {
      assert ts[..i + 1][..i] == ts[..i];
      var start := parse(ts[i]["time"]).0;
      if start.None? {
        continue;
      }
      if start.value > now {
        upcoming := upcoming + [(start.value, ts[i])];
      }
    }
    assert ts[..|ts|] == ts;
    if upcoming != [] {
      var unsorted := upcoming;
      upcoming := SortByKey(upcoming);
      var earliest := upcoming[0].0;
      SortByKeyHead(unsorted);
      SortByKeyStable(unsorted, earliest);
      return Payloads(WithKey(upcoming, earliest));
    }
    if ts != [] {
      return [ts[0]];
    }
    return [];
  }

  /** An entry is upcoming exactly when it pairs a timing with its start, and that start is after `now`. */
  lemma {:induction false} UpcomingMembers(parse: RangeParser, ts: seq<Record>, now: Minute, e: (int, Record))
    requires AllTimed(ts)
    ensures e in Upcoming(parse, ts, now) <==>
              exists i :: 0 <= i < |ts| && ts[i] == e.1 && StartOf(parse, ts[i]) == Some(e.0) && e.0 > now
    decreases |ts|
  {
    if ts != [] {
      var init := ts[..|ts| - 1];
      UpcomingMembers(parse, init, now, e);
      if exists i :: 0 <= i < |init| && init[i] == e.1 && StartOf(parse, init[i]) == Some(e.0) && e.0 > now {
        var i :| 0 <= i < |init| && init[i] == e.1 && StartOf(parse, init[i]) == Some(e.0) && e.0 > now;
        assert ts[i] == init[i];
      }
      if exists i :: 0 <= i < |ts| && ts[i] == e.1 && StartOf(parse, ts[i]) == Some(e.0) && e.0 > now {
        var i :| 0 <= i < |ts| && ts[i] == e.1 && StartOf(parse, ts[i]) == Some(e.0) && e.0 > now;
        if i < |init| {
          assert init[i] == ts[i];
        }
      }
    }
  }

  /** Nothing is upcoming exactly when no slot's start parses to a minute after `now`. */
  lemma UpcomingEmpty(parse: RangeParser, ts: seq<Record>, now: Minute)
    requires AllTimed(ts)
    ensures Upcoming(parse, ts, now) == [] <==> forall i :: 0 <= i < |ts| ==> StartOf(parse, ts[i]).None? || StartOf(parse, ts[i]).value <= now
  {
    var up := Upcoming(parse, ts, now);
    if up != [] {
      UpcomingMembers(parse, ts, now, up[0]);
    }
    forall i | 0 <= i < |ts| && StartOf(parse, ts[i]).Some? && StartOf(parse, ts[i]).value > now
      ensures up != []
    {
      UpcomingMembers(parse, ts, now, (StartOf(parse, ts[i]).value, ts[i]));
    }
  }

  lemma {:induction false} WithKeyMembers(s: seq<(int, Record)>, k: int, e: (int, Record))
    ensures e in WithKey(s, k) <==> e in s && e.0 == k
    decreases |s|
  {
    if s != [] {
      WithKeyMembers(s[1..], k, e);
      assert s == [s[0]] + s[1..];
    }
  }

  /** The earliest upcoming start lies after `now`, no upcoming slot starts before it, and some slot starts at it. */
  lemma EarliestUpcoming(parse: RangeParser, ts: seq<Record>, now: Minute)
    requires AllTimed(ts) && Upcoming(parse, ts, now) != []
    ensures MinKey(Upcoming(parse, ts, now)) > now
    ensures forall i :: 0 <= i < |ts| && StartOf(parse, ts[i]).Some? && StartOf(parse, ts[i]).value > now ==>
              MinKey(Upcoming(parse, ts, now)) <= StartOf(parse, ts[i]).value
    ensures exists i :: 0 <= i < |ts| && StartOf(parse, ts[i]) == Some(MinKey(Upcoming(parse, ts, now)))
  {
    var up := Upcoming(parse, ts, now);
    MinKeyIsLeast(up);
    var j :| 0 <= j < |up| && up[j].0 == MinKey(up);
    UpcomingMembers(parse, ts, now, up[j]);
    forall i | 0 <= i < |ts| && StartOf(parse, ts[i]).Some? && StartOf(parse, ts[i]).value > now
      ensures MinKey(up) <= StartOf(parse, ts[i]).value
    {
      var e := (StartOf(parse, ts[i]).value, ts[i]);
      UpcomingMembers(parse, ts, now, e);
      var k :| 0 <= k < |up| && up[k] == e;
    }
  }

  /**
   * When some slot starts after `now`, a slot is returned exactly when it is one of the
   * timings and starts at the earliest such start.
   */
  lemma NextSlotsMembers(parse: RangeParser, ts: seq<Record>, now: Minute, x: Record)
    requires AllTimed(ts) && Upcoming(parse, ts, now) != []
    ensures x in NextSlots(parse, ts, now) <==>
              exists i :: 0 <= i < |ts| && ts[i] == x && StartOf(parse, ts[i]) == Some(MinKey(Upcoming(parse, ts, now)))
  {
    var up := Upcoming(parse, ts, now);
    var m := MinKey(up);
    var chosen := WithKey(up, m);
    EarliestUpcoming(parse, ts, now);
    if x in NextSlots(parse, ts, now) {
      var k :| 0 <= k < |chosen| && chosen[k].1 == x;
      WithKeyMembers(up, m, chosen[k]);
      UpcomingMembers(parse, ts, now, chosen[k]);
    }
    if exists i :: 0 <= i < |ts| && ts[i] == x && StartOf(parse, ts[i]) == Some(m) {
      var i :| 0 <= i < |ts| && ts[i] == x && StartOf(parse, ts[i]) == Some(m);
      UpcomingMembers(parse, ts, now, (m, x));
      WithKeyMembers(up, m, (m, x));
      var k :| 0 <= k < |chosen| && chosen[k] == (m, x);
      assert Payloads(chosen)[k] == x;
    }
  }

  // ---------------------------------------------------------------------------
  // A morning and an afternoon shift

  const Morning: Record := map["time" := "9 AM - 12 PM", "name" := "A", "user_id" := "@a"]
  const Afternoon: Record := map["time" := "12 PM - 3 PM", "name" := "B", "user_id" := "@b"]

  /** When each shift is on duty and when it starts, under any reading of their times that agrees with `parse_time_range` on them. */
  lemma ShiftReadings(parse: RangeParser)
    requires parse("9 AM - 12 PM") == (Some(540), Some(720))
    requires parse("12 PM - 3 PM") == (Some(720), Some(900))
    ensures !ActiveAt(parse, Morning, 780) && ActiveAt(parse, Afternoon, 780)
    ensures !ActiveAt(parse, Morning, 480) && !ActiveAt(parse, Afternoon, 480)
    ensures StartOf(parse, Morning) == Some(540) && StartOf(parse, Afternoon) == Some(720)
  {
    assert Morning["time"] == "9 AM - 12 PM" && Afternoon["time"] == "12 PM - 3 PM";
  }

  /** Who is on duty at 13:00 and at 08:00. */
  lemma ActiveShifts(parse: RangeParser)
    requires parse("9 AM - 12 PM") == (Some(540), Some(720))
    requires parse("12 PM - 3 PM") == (Some(720), Some(900))
    ensures ActiveSlots(parse, [Morning, Afternoon], 780) == [Afternoon]
    ensures ActiveSlots(parse, [Morning, Afternoon], 480) == []
  {
    ShiftReadings(parse);
    var ts := [Morning, Afternoon];
    assert ts[..1] == [Morning] && ts[..1][..0] == [];
    assert ActiveSlots(parse, ts[..1], 780) == [];
    assert ActiveSlots(parse, ts[..1], 480) == [];
  }

  /** Who is next at 08:00 and at 13:00. */
  lemma NextShifts(parse: RangeParser)
    requires parse("9 AM - 12 PM") == (Some(540), Some(720))
    requires parse("12 PM - 3 PM") == (Some(720), Some(900))
    ensures NextSlots(parse, [Morning, Afternoon], 480) == [Morning]
    ensures NextSlots(parse, [Morning, Afternoon], 780) == [Morning]
  {
    ShiftReadings(parse);
    var ts := [Morning, Afternoon];
    assert ts[..1] == [Morning] && ts[..1][..0] == [];
    assert Upcoming(parse, ts[..1], 480) == [(540, Morning)];
    assert Upcoming(parse, ts, 480) == [(540, Morning), (720, Afternoon)];
    var up := Upcoming(parse, ts, 480);
    assert MinKey(up) == 540;
    assert up[1..] == [(720, Afternoon)];
    assert WithKey(up[1..], 540) == [];
    assert WithKey(up, 540) == [(540, Morning)];
    assert Payloads([(540, Morning)]) == [Morning];
    assert Upcoming(parse, ts[..1], 780) == [];
    assert Upcoming(parse, ts, 780) == [];
  }

  /**
   * With shifts 9 AM - 12 PM and 12 PM - 3 PM: at 13:00 only the afternoon shift is on
   * duty; at 08:00 nobody is and the morning shift is next; at 13:00 nothing starts later,
   * so the first slot is offered even though it is over.
   */
  lemma ShiftExample()
    ensures ActiveSlots(ParseTimeRange, [Morning, Afternoon], 780) == [Afternoon]
    ensures ActiveSlots(ParseTimeRange, [Morning, Afternoon], 480) == []
    ensures NextSlots(ParseTimeRange, [Morning, Afternoon], 480) == [Morning]
    ensures NextSlots(ParseTimeRange, [Morning, Afternoon], 780) == [Morning]
  {
    ShiftRanges();
    ActiveShifts(ParseTimeRange);
    NextShifts(ParseTimeRange);
  }
}
