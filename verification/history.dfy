/** `EventHistory` as a sequential state: the trie, the queue of events set
    but not yet inserted, and the pending matchers. `get` and `sync` insert
    the queued events in order before they query. */
module EventHistory {
  import opened Cue
  import opened Trie
  import opened Bubble
  import Query
  import opened Matchers

  datatype History = History(root: Node, unprocessed: seq<Event>, matchers: seq<Pending>)

  /** `EventHistory.new`. */
  const Init := History(Empty, [], [])

  /** Every stored event sits at the node of its own path. */
  ghost predicate Placed(n: Node)
  {
    forall p, e | e in EventsAt(n, p) :: e.path == p
  }

  ghost predicate Inv(h: History)
  {
    Wf(h.root) && Placed(h.root)
  }

  /** The queued events whose path is `q`. */
  ghost function QueuedAt(es: seq<Event>, q: seq<string>): multiset<Event>
  {
    if |es| == 0 then multiset{}
    else (if es[0].path == q then multiset{es[0]} else multiset{}) + QueuedAt(es[1..], q)
  }

  /** The `pop` loop of `get` and `sync`: insert the queued events, oldest
      first. */
  function InsertAll(n: Node, es: seq<Event>): Node
    decreases |es|
  {
    if |es| == 0 then n else InsertAll(InsertEvent(n, es[0]), es[1..])
  }

  function Drain(h: History): (r: History)
    ensures r.unprocessed == [] && r.matchers == h.matchers
  {
    History(InsertAll(h.root, h.unprocessed), [], h.matchers)
  }

  /** `set`: queue the event, then run the matchers on its path and value.
      Also returns the entries whose promises were delivered. */
  function Set(pm: (string, seq<string>) -> bool, h: History, e: Event): (r: (History, seq<Pending>))
    ensures r.0.root == h.root && r.0.unprocessed == h.unprocessed + [e]
    ensures forall m | m in r.0.matchers :: m in h.matchers && !Fires(pm, m, e.path, e.val)
    ensures forall m | m in r.1 :: m in h.matchers && Fires(pm, m, e.path, e.val)
    ensures forall m | m in h.matchers && !Fires(pm, m, e.path, e.val) :: m in r.0.matchers
    ensures forall m | m in h.matchers && Fires(pm, m, e.path, e.val) :: m in r.1
  {
    var o := Match(pm, h.matchers, e.path, e.val);
    (History(h.root, h.unprocessed + [e], o.kept), o.delivered)
  }

  /** A run of `set`s, one per cue of `es`, in order. The cues are queued
      behind the earlier ones, and a matcher that none of them fires stays
      pending. */
  function SetAll(pm: (string, seq<string>) -> bool, h: History, es: seq<Event>): (r: History)
    ensures r.root == h.root && r.unprocessed == h.unprocessed + es
    ensures forall m | m in h.matchers && (forall i | 0 <= i < |es| :: !Fires(pm, m, es[i].path, es[i].val)) ::
              m in r.matchers
    decreases |es|
  {
    if |es| == 0 then h
    else
      assert h.unprocessed + [es[0]] + es[1..] == h.unprocessed + es;
      SetAll(pm, Set(pm, h, es[0]).0, es[1..])
  }

  /** `get` / `get_next`: insert the queued events, then run the query. Any
      answer is eligible for the probe. */
  function Get(sm: (string, string) -> bool, h: History, pr: Probe, pattern: string): (r: (History, Option<Event>))
    ensures r.0 == Drain(h)
    ensures r.1.Some? ==> Eligible(pr, r.1.value)
  {
    var h1 := Drain(h);
    (h1, Query.Get(sm, pr, pattern, h1.root))
  }

  /** The first phase of `sync`: insert the queued events and look for the
      next event after `t`; if there is none, register a matcher for the
      same path and value matcher with the promise `prom`. */
  function SyncCheck(sm: (string, string) -> bool, h: History, t: int, vm: ValueMatcher, pattern: string, prom: nat)
      : (r: (History, Option<Event>))
    ensures r.0.root == Drain(h).root && r.0.unprocessed == []
    ensures r.1.Some? ==> r.0.matchers == h.matchers
    ensures r.1.None? ==> r.0.matchers == Put(h.matchers, pattern, vm, prom)
  {
    var (h1, res) := Get(sm, h, Probe(t, vm, true), pattern);
    if res.Some? then (h1, res)
    else (h1.(matchers := Put(h1.matchers, pattern, vm, prom)), None)
  }

  // ---------------------------------------------------------------------

  lemma InitInv()
    ensures Inv(Init)
  {
    forall p
      ensures EventsAt(Empty, p) == []
    {
      if |p| > 0 {
        assert FindChild(Empty.children, p[0]).None?;
      }
    }
  }

  /** Inserting one event adds exactly that event, at its own path, and
      keeps the trie well-formed. */
  lemma InsertEventInv(n: Node, e: Event)
    requires Wf(n) && Placed(n)
    ensures Wf(InsertEvent(n, e)) && Placed(InsertEvent(n, e))
    ensures forall q :: multiset(EventsAt(InsertEvent(n, e), q))
                          == multiset(EventsAt(n, q)) + (if q == e.path then multiset{e} else multiset{})
  {
    var n' := InsertEvent(n, e);
    InsertWf(n, e.path, e);
    forall q
      ensures multiset(EventsAt(n', q)) == multiset(EventsAt(n, q)) + (if q == e.path then multiset{e} else multiset{})
    {
      if q == e.path {
        InsertTarget(n, e.path, e);
        BubbleUpOnlyMovesFront([e] + EventsAt(n, q));
      } else {
        InsertElsewhere(n, e.path, e, q);
      }
    }
    forall p, x | x in EventsAt(n', p)
      ensures x.path == p
    {
      assert x in multiset(EventsAt(n', p));
    }
  }

  /** Inserting the queue adds exactly the queued events, each at its own
      path, and keeps the trie well-formed. */
  lemma {:induction false} InsertAllInv(n: Node, es: seq<Event>)
    requires Wf(n) && Placed(n)
    ensures Wf(InsertAll(n, es)) && Placed(InsertAll(n, es))
    ensures forall q :: multiset(EventsAt(InsertAll(n, es), q)) == multiset(EventsAt(n, q)) + QueuedAt(es, q)
    decreases |es|
  {
    if |es| > 0 {
      var n1 := InsertEvent(n, es[0]);
      InsertEventInv(n, es[0]);
      InsertAllInv(n1, es[1..]);
    }
  }

  lemma {:induction false} QueuedAtMembers(es: seq<Event>, q: seq<string>, x: Event)
    ensures x in QueuedAt(es, q) <==> x in es && x.path == q
    decreases |es|
  {
    if |es| > 0 {
      QueuedAtMembers(es[1..], q, x);
      assert x in es <==> x == es[0] || x in es[1..];
    }
  }

  /** After the queue is inserted, the events at a path are those stored
      there before and those queued for it. */
  lemma DrainMembers(h: History, q: seq<string>, x: Event)
    requires Inv(h)
    ensures Inv(Drain(h))
    ensures x in EventsAt(Drain(h).root, q) <==> x in EventsAt(h.root, q) || (x in h.unprocessed && x.path == q)
  {
    InsertAllInv(h.root, h.unprocessed);
    QueuedAtMembers(h.unprocessed, q, x);
    assert x in EventsAt(Drain(h).root, q) <==> x in multiset(EventsAt(Drain(h).root, q));
  }

  /** `get` sees every event set so far, stored or queued: its answer has a
      path the pattern selects and is a best one among all such events
      (nothing exactly when none of them is eligible); it also leaves the
      queue empty, the matchers alone and the trie well-formed. */
  lemma GetBest(sm: (string, string) -> bool, h: History, pr: Probe, pattern: string)
    requires Inv(h)
    ensures var r := Get(sm, h, pr, pattern);
            && Inv(r.0) && r.0.unprocessed == [] && r.0.matchers == h.matchers
            && (r.1.Some? ==> && Query.Selected(sm, pattern, r.1.value.path)
                               && Eligible(pr, r.1.value)
                               && (r.1.value in h.unprocessed || r.1.value in EventsAt(h.root, r.1.value.path)))
            && (forall e | e in h.unprocessed && Query.Selected(sm, pattern, e.path) && Eligible(pr, e) ::
                  r.1.Some? && !Beats(pr, e, r.1.value))
            && (forall p, e | e in EventsAt(h.root, p) && Query.Selected(sm, pattern, p) && Eligible(pr, e) ::
                  r.1.Some? && !Beats(pr, e, r.1.value))
            && (r.1.None? <==>
                  && (forall e | e in h.unprocessed && Query.Selected(sm, pattern, e.path) :: !Eligible(pr, e))
                  && (forall p, e | e in EventsAt(h.root, p) && Query.Selected(sm, pattern, p) :: !Eligible(pr, e)))
  {
    var h1 := Drain(h);
    var r := Get(sm, h, pr, pattern);
    InsertAllInv(h.root, h.unprocessed);
    var p := Query.QueryBest(sm, pr, pattern, h1.root);
    if r.1.Some? {
      DrainMembers(h, p, r.1.value);
      assert r.1.value.path == p;
    }
    forall e | e in h.unprocessed && Query.Selected(sm, pattern, e.path)
      ensures e in EventsAt(h1.root, e.path)
    {
      DrainMembers(h, e.path, e);
    }
    forall p, e | e in EventsAt(h.root, p) && Query.Selected(sm, pattern, p)
      ensures e in EventsAt(h1.root, p)
    {
      DrainMembers(h, p, e);
    }
    if r.1.None? {
      forall q, e | Query.Selected(sm, pattern, q) && e in EventsAt(h1.root, q)
        ensures (e in h.unprocessed && Query.Selected(sm, pattern, e.path)) || e in EventsAt(h.root, q)
      {
        DrainMembers(h, q, e);
      }
    }
  }

  /** A cue that is set is seen by the next `get` whose pattern selects its
      path and whose probe it is eligible for. */
  lemma SetThenGet(sm: (string, string) -> bool, pm: (string, seq<string>) -> bool, h: History, e: Event,
                   pr: Probe, pattern: string)
    requires Inv(h) && Query.Selected(sm, pattern, e.path) && Eligible(pr, e)
    ensures var r := Get(sm, Set(pm, h, e).0, pr, pattern).1;
            r.Some? && !Beats(pr, e, r.value)
  {
    var h1 := Set(pm, h, e).0;
    assert e in h1.unprocessed;
    GetBest(sm, h1, pr, pattern);
  }

  /** `sync` registers a matcher exactly when no next event is found, and a
      next event it does return is the `get_next` answer. A matcher it
      registers stays pending through any run of `set`s of cues it does not
      accept, and the first `set` of a cue it accepts delivers it. */
  lemma SyncCheckThenSet(sm: (string, string) -> bool, pm: (string, seq<string>) -> bool, h: History, t: int,
                         vm: ValueMatcher, pattern: string, prom: nat, es: seq<Event>, e: Event)
    requires Inv(h)
    ensures var r := SyncCheck(sm, h, t, vm, pattern, prom);
            var m := Pending(pattern, vm, prom);
            && (r.1.None? <==> |r.0.matchers| == |h.matchers| + 1)
            && (r.1.Some? ==> r.1 == Get(sm, h, Probe(t, vm, true), pattern).1 && t < r.1.value.time)
            && (r.1.None? && (forall i | 0 <= i < |es| :: !Fires(pm, m, es[i].path, es[i].val)) ==>
                  m in SetAll(pm, r.0, es).matchers)
            && (r.1.None? && (forall i | 0 <= i < |es| :: !Fires(pm, m, es[i].path, es[i].val))
                && Fires(pm, m, e.path, e.val) ==>
                  m in Set(pm, SetAll(pm, r.0, es), e).1)
  {
    var r := SyncCheck(sm, h, t, vm, pattern, prom);
    GetBest(sm, h, Probe(t, vm, true), pattern);
    if r.1.None? {
      assert r.0.matchers[|h.matchers|] == Pending(pattern, vm, prom);
    }
  }
}
