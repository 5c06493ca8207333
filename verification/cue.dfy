/** Cue events, their logical-time order and the optional value matcher
    shared by every part of the event history. */
module Cue {

  datatype Option<+T> = None | Some(value: T)

  /** A cue's value: the argument list published with it. Only a value
      matcher ever looks inside it. */
  type Value = seq<int>

  /** A published cue. `time` stands for the logical time key (compared as a
      total preorder), `path` for the segments of the cue's path. */
  datatype Event = Event(time: int, path: seq<string>, val: Value)

  /** An optional predicate over values; `None` accepts every value. A matcher
      that would raise is modelled as one that returns false. */
  type ValueMatcher = Option<Value -> bool>

  /** What `safe_matcher_call` answers for a matcher and a value: no
      matcher accepts every value, otherwise the matcher decides (one that
      would raise having been modelled as rejecting). */
  predicate Accepts(vm: ValueMatcher, v: Value): (b: bool)
    ensures vm.None? ==> b
    ensures vm.Some? ==> (b <==> vm.value(v))
  {
    match vm
    case None => true
    case Some(f) => f(v)
  }

  /** Newest first: the order every node keeps its events in. */
  predicate SortedDesc(es: seq<Event>)
  {
    forall i, j | 0 <= i < j < |es| :: es[j].time <= es[i].time
  }

  function Elems(es: seq<Event>): set<Event>
  {
    set e | e in es
  }

  /** The parameters of a lookup: the probe's time, the value matcher and
      whether the next event after the probe is wanted (otherwise the most
      recent one at or before it). */
  datatype Probe = Probe(time: int, vm: ValueMatcher, next: bool)

  /** An event a lookup may return. */
  predicate Eligible(pr: Probe, e: Event)
  {
    && Accepts(pr.vm, e.val)
    && (if pr.next then pr.time < e.time else e.time <= pr.time)
  }

  /** Candidate `a` displaces the current result `b`: a later one for "most
      recent", an earlier one for "next". Ties never displace. */
  predicate Beats(pr: Probe, a: Event, b: Event)
  {
    if pr.next then a.time < b.time else b.time < a.time
  }

  /** `r` is a best answer for the probe among the events of `pool`: absent
      exactly when nothing in the pool is eligible, otherwise an eligible
      member of the pool that no eligible member beats. */
  predicate BestIn(pr: Probe, r: Option<Event>, pool: set<Event>)
  {
    && (r.None? <==> forall e | e in pool :: !Eligible(pr, e))
    && (r.Some? ==>
          && r.value in pool
          && Eligible(pr, r.value)
          && forall e | e in pool && Eligible(pr, e) :: !Beats(pr, e, r.value))
  }

  /** How two branch results are combined: a found result is kept unless the
      other one beats it, and an absent one never displaces a found one. */
  function Merge(pr: Probe, res: Option<Event>, res2: Option<Event>): (r: Option<Event>)
    ensures r == res || r == res2
    ensures r.None? <==> res.None? && res2.None?
    ensures res.Some? && r.Some? ==> !Beats(pr, res.value, r.value)
    ensures res2.Some? && r.Some? ==> !Beats(pr, res2.value, r.value)
    ensures res.Some? && res2.Some? && !Beats(pr, res2.value, res.value) ==> r == res
  {
    match res2
    case None => res
    case Some(e2) =>
      match res
      case None => res2
      case Some(e1) => if Beats(pr, e2, e1) then res2 else res
  }

  /** Merging two best answers gives a best answer for the union of their
      pools. */
  lemma MergeBest(pr: Probe, a: Option<Event>, p: set<Event>, b: Option<Event>, q: set<Event>)
    requires BestIn(pr, a, p) && BestIn(pr, b, q)
    ensures BestIn(pr, Merge(pr, a, b), p + q)
  {
    var r := Merge(pr, a, b);
    if r.Some? {
      forall e | e in p + q && Eligible(pr, e)
        ensures !Beats(pr, e, r.value)
      {
        if e in p {
          assert a.Some? && !Beats(pr, e, a.value);
        } else {
          assert b.Some? && !Beats(pr, e, b.value);
        }
      }
    }
  }
}
