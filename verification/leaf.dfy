/** The lookups run on the event list of one node: `find_most_recent_event`
    and `find_next_event`. Lists are newest first, so "most recent at or
    before the probe" is the first such event and "next after the probe" is
    found by stepping back toward the front of the list. */
module Leaf {
  import opened Cue

  /** `find_most_recent_event`: the first event of `es` at or before `t`
      whose value `vm` accepts. */
  function FindMostRecent(t: int, vm: ValueMatcher, es: seq<Event>): (r: Option<Event>)
    ensures r.Some? ==> r.value in es && Eligible(Probe(t, vm, false), r.value)
    ensures r.None? <==> forall e | e in es :: !Eligible(Probe(t, vm, false), e)
    ensures r.Some? ==> exists i | 0 <= i < |es| ::
              es[i] == r.value && forall j | 0 <= j < i :: !Eligible(Probe(t, vm, false), es[j])
  {
    if |es| == 0 then None
    else if es[0].time <= t && Accepts(vm, es[0].val) then Some(es[0])
    else FindMostRecent(t, vm, es[1..])
  }

  /** On a newest-first list the first accepted event at or before the
      probe is the latest one. */
  lemma {:induction false} FindMostRecentBest(t: int, vm: ValueMatcher, es: seq<Event>)
    requires SortedDesc(es)
    ensures BestIn(Probe(t, vm, false), FindMostRecent(t, vm, es), Elems(es))
  {
    var pr := Probe(t, vm, false);
    if |es| > 0 {
      if Eligible(pr, es[0]) {
        assert FindMostRecent(t, vm, es) == Some(es[0]);
        forall e | e in es && Eligible(pr, e)
          ensures !Beats(pr, e, es[0])
        {
          var k :| 0 <= k < |es| && es[k] == e;
          assert k == 0 || es[k].time <= es[0].time;
        }
      } else {
        assert FindMostRecent(t, vm, es) == FindMostRecent(t, vm, es[1..]);
        assert SortedDesc(es[1..]);
        FindMostRecentBest(t, vm, es[1..]);
        assert Elems(es) == {es[0]} + Elems(es[1..]);
      }
    }
  }

  /** `events.find_index { |e| e <= ge }`: the position of the first event at
      or before `t`. */
  function FirstAtOrBefore(t: int, es: seq<Event>): (r: Option<nat>)
    ensures r.Some? ==> r.value < |es| && es[r.value].time <= t
    ensures r.Some? ==> forall j | 0 <= j < r.value :: t < es[j].time
    ensures r.None? ==> forall j | 0 <= j < |es| :: t < es[j].time
  {
    if |es| == 0 then None
    else if es[0].time <= t then Some(0)
    else match FirstAtOrBefore(t, es[1..])
      case None => None
      case Some(i) => Some(i + 1)
  }

  /** The `while idx > 0` loop: step from position `j` toward the front and
      stop at the first event whose value `vm` accepts. */
  function ScanNewer(vm: ValueMatcher, es: seq<Event>, j: nat): (r: Option<nat>)
    requires j <= |es|
    ensures r.Some? ==> r.value < j && Accepts(vm, es[r.value].val)
    ensures r.Some? ==> forall k | r.value < k < j :: !Accepts(vm, es[k].val)
    ensures r.None? ==> forall k | 0 <= k < j :: !Accepts(vm, es[k].val)
    decreases j
  {
    if j == 0 then None
    else if Accepts(vm, es[j - 1].val) then Some(j - 1)
    else ScanNewer(vm, es, j - 1)
  }

  /** The closing test of `find_next_event`: the oldest event, if it is
      after `t` and accepted. */
  function LastIfAfter(t: int, vm: ValueMatcher, es: seq<Event>): Option<Event>
    requires |es| > 0
  {
    var last := es[|es| - 1];
    if t < last.time && Accepts(vm, last.val) then Some(last) else None
  }

  /** `find_next_event` as written. */
  function FindNext(t: int, vm: ValueMatcher, es: seq<Event>): (r: Option<Event>)
    ensures |es| == 0 ==> r.None?
    ensures r.Some? ==> r.value in es && Eligible(Probe(t, vm, true), r.value)
  {
    if |es| == 0 then None
    else
      var idx := FirstAtOrBefore(t, es);
      var scanned :=
        if idx.Some? && idx.value > 0 then
          if vm.None? then Some(idx.value - 1) else ScanNewer(vm, es, idx.value)
        else None;
      if scanned.Some? then Some(es[scanned.value]) else LastIfAfter(t, vm, es)
  }

  /** Without a value matcher, on a newest-first list, `find_next_event`
      gives the earliest event after the probe, and nothing only when no
      event is after it. */
  lemma FindNextBestWithoutMatcher(t: int, es: seq<Event>)
    requires SortedDesc(es)
    ensures BestIn(Probe(t, None, true), FindNext(t, None, es), Elems(es))
  {
    var pr := Probe(t, None, true);
    var r := FindNext(t, None, es);
    if |es| > 0 {
      var idx := FirstAtOrBefore(t, es);
      AfterProbeIsPrefix(t, es);
      if r.Some? {
        forall e | e in es && Eligible(pr, e)
          ensures !Beats(pr, e, r.value)
        {
          var k :| 0 <= k < |es| && es[k] == e;
        }
      }
    }
  }

  /** On a newest-first list the events after `t` are exactly those in front
      of the first event at or before `t`. */
  lemma AfterProbeIsPrefix(t: int, es: seq<Event>)
    requires SortedDesc(es)
    ensures var idx := FirstAtOrBefore(t, es);
            idx.Some? ==> forall k | idx.value <= k < |es| :: es[k].time <= t
  {
    var idx := FirstAtOrBefore(t, es);
    if idx.Some? {
      forall k | idx.value <= k < |es|
        ensures es[k].time <= t
      {
        assert es[k].time <= es[idx.value].time;
      }
    }
  }

  /** With a value matcher `find_next_event` behaves as follows.
      - When some event is at or before the probe but the newest is not, it
        returns the first accepted event met stepping from just in front of
        the first event at or before the probe toward the front.
      - When every event is after the probe only the oldest event is tried.
      - On a newest-first list whose newest event is at or before the probe
        it returns nothing. */
  lemma FindNextWithMatcher(t: int, f: Value -> bool, es: seq<Event>)
    requires |es| > 0
    ensures var idx := FirstAtOrBefore(t, es);
            var r := FindNext(t, Some(f), es);
            && (idx.Some? && idx.value > 0 && SortedDesc(es) ==>
                  (r.Some? <==> exists k | 0 <= k < idx.value :: f(es[k].val))
                  && (r.Some? ==> exists i | 0 <= i < idx.value ::
                        r.value == es[i] && forall k | i < k < idx.value :: !f(es[k].val)))
            && (idx.None? ==> r == if f(es[|es| - 1].val) then Some(es[|es| - 1]) else None)
            && (SortedDesc(es) && es[0].time <= t ==> r.None?)
  {
    var idx := FirstAtOrBefore(t, es);
    var r := FindNext(t, Some(f), es);
    if idx.Some? && idx.value > 0 && SortedDesc(es) {
      AfterProbeIsPrefix(t, es);
      var s := ScanNewer(Some(f), es, idx.value);
      if s.Some? {
        assert r.value == es[s.value];
      }
    }
  }

  /** A matcher that accepts everything behaves exactly like no matcher. */
  lemma AcceptAllIsNoMatcher(t: int, es: seq<Event>)
    ensures FindNext(t, Some(_ => true), es) == FindNext(t, None, es)
    ensures FindMostRecent(t, Some(_ => true), es) == FindMostRecent(t, None, es)
  {
    if |es| > 0 {
      var idx := FirstAtOrBefore(t, es);
      if idx.Some? && idx.value > 0 {
        assert ScanNewer(Some(_ => true), es, idx.value) == Some(idx.value - 1);
      }
    }
  }

  /** As written, when every event is after the probe and the oldest is
      rejected, a later accepted event is missed: with events at times 5
      and 3 (newest first), probe 1 and a matcher accepting only the value
      of the time-5 event, nothing is returned although that event is after
      the probe and accepted. */
  lemma FindNextMissesAcceptedEvent()
    ensures var es := [Event(5, ["x"], [1]), Event(3, ["x"], [2])];
            var f := (v: Value) => v == [1];
            && SortedDesc(es)
            && Eligible(Probe(1, Some(f), true), es[0])
            && FindNext(1, Some(f), es).None?
  {
    var es := [Event(5, ["x"], [1]), Event(3, ["x"], [2])];
    assert FirstAtOrBefore(1, es).None?;
  }

  /** `find_next_event` as evidently intended: when every event is after the
      probe, step from the oldest toward the front until one is accepted,
      exactly as the other branch steps from the first event at or before
      the probe. */
  function FindNextFixed(t: int, vm: ValueMatcher, es: seq<Event>): (r: Option<Event>)
    ensures r.Some? ==> r.value in es && Eligible(Probe(t, vm, true), r.value)
  {
    if |es| > 0 && FirstAtOrBefore(t, es).None? then
      match ScanNewer(vm, es, |es|)
      case None => None
      case Some(i) => Some(es[i])
    else
      FindNext(t, vm, es)
  }

  /** The correction only changes the all-after-the-probe case with a
      matcher. */
  lemma FindNextFixedAgrees(t: int, vm: ValueMatcher, es: seq<Event>)
    requires vm.None? || FirstAtOrBefore(t, es).Some?
    ensures FindNextFixed(t, vm, es) == FindNext(t, vm, es)
  {
    if |es| > 0 && vm.None? && FirstAtOrBefore(t, es).None? {
      assert ScanNewer(vm, es, |es|) == Some(|es| - 1);
    }
  }

  /** On a newest-first list the corrected lookup gives the earliest
      accepted event after the probe, and nothing only when there is none. */
  lemma FindNextFixedBest(t: int, vm: ValueMatcher, es: seq<Event>)
    requires SortedDesc(es)
    ensures BestIn(Probe(t, vm, true), FindNextFixed(t, vm, es), Elems(es))
  {
    var pr := Probe(t, vm, true);
    var r := FindNextFixed(t, vm, es);
    if |es| > 0 {
      var idx := FirstAtOrBefore(t, es);
      AfterProbeIsPrefix(t, es);
      var bound := if idx.None? then |es| else idx.value;
      assert forall k | 0 <= k < |es| :: (t < es[k].time <==> k < bound);
      var s := ScanNewer(vm, es, bound);
      if idx.Some? && idx.value > 0 && vm.None? {
        assert s == Some(idx.value - 1);
      }
      if idx.Some? && idx.value == 0 {
        assert s.None?;
      }
      assert r == (match s case None => None case Some(i) => Some(es[i]));
      if r.Some? {
        forall e | e in es && Eligible(pr, e)
          ensures !Beats(pr, e, r.value)
        {
          var k :| 0 <= k < |es| && es[k] == e;
          assert k <= s.value;
        }
      } else {
        forall e | e in es
          ensures !Eligible(pr, e)
        {
          var k :| 0 <= k < |es| && es[k] == e;
        }
      }
    }
  }
}
