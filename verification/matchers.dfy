/** `EventMatchers`: the list of syncs waiting for a cue, each delivered and
    removed by the first `set` whose path and value it accepts. */
module Matchers {
  import opened Cue

  /** One entry of the list: the path given to `put`, its value matcher and
      the promise to deliver, identified by a number. */
  datatype Pending = Pending(pattern: string, vm: ValueMatcher, prom: nat)

  /** `EventMatcher#match`: the path test compiled from the entry's path
      (abstracted as `pm`) and the value matcher both accept. */
  predicate Fires(pm: (string, seq<string>) -> bool, m: Pending, path: seq<string>, val: Value)
  {
    pm(m.pattern, path) && Accepts(m.vm, val)
  }

  /** An entry fires only when its path test accepts the cue's path: without
      a value matcher exactly then, and with one exactly when the value
      matcher accepts the value as well. */
  lemma FiresCases(pm: (string, seq<string>) -> bool, m: Pending, path: seq<string>, val: Value)
    ensures Fires(pm, m, path, val) ==> pm(m.pattern, path)
    ensures m.vm.None? ==> (Fires(pm, m, path, val) <==> pm(m.pattern, path))
    ensures m.vm.Some? ==> (Fires(pm, m, path, val) <==> pm(m.pattern, path) && m.vm.value(val))
  {
  }

  /** `put`: one new entry at the end; the entries already there stay as
      they were. */
  function Put(ms: seq<Pending>, pattern: string, vm: ValueMatcher, prom: nat): (r: seq<Pending>)
    ensures |r| == |ms| + 1 && r[..|ms|] == ms
    ensures r[|ms|] == Pending(pattern, vm, prom)
  {
    ms + [Pending(pattern, vm, prom)]
  }

  /** What `match` leaves behind and what it delivers, in list order. */
  datatype Outcome = Outcome(kept: seq<Pending>, delivered: seq<Pending>)

  /** `match`: `delete_if` over the list, delivering the promise of every
      entry it removes. The kept entries are exactly those that do not fire
      and the delivered ones exactly those that do. */
  function Match(pm: (string, seq<string>) -> bool, ms: seq<Pending>, path: seq<string>, val: Value): (r: Outcome)
    ensures |r.kept| + |r.delivered| == |ms|
    ensures forall m | m in r.kept :: m in ms && !Fires(pm, m, path, val)
    ensures forall m | m in r.delivered :: m in ms && Fires(pm, m, path, val)
    ensures forall m | m in ms && !Fires(pm, m, path, val) :: m in r.kept
    ensures forall m | m in ms && Fires(pm, m, path, val) :: m in r.delivered
  {
    if |ms| == 0 then Outcome([], [])
    else
      var rest := Match(pm, ms[1..], path, val);
      if Fires(pm, ms[0], path, val) then Outcome(rest.kept, [ms[0]] + rest.delivered)
      else Outcome([ms[0]] + rest.kept, rest.delivered)
  }

  /** `match` splits the list: every entry is either kept or delivered,
      exactly once. */
  lemma {:induction false} MatchPartition(pm: (string, seq<string>) -> bool, ms: seq<Pending>, path: seq<string>, val: Value)
    ensures var r := Match(pm, ms, path, val);
            multiset(r.kept) + multiset(r.delivered) == multiset(ms)
    decreases |ms|
  {
    if |ms| > 0 {
      MatchPartition(pm, ms[1..], path, val);
      assert ms == [ms[0]] + ms[1..];
    }
  }

  /** Matching a list made of two parts treats each part on its own: the
      kept entries and the delivered ones both keep their original order. */
  lemma {:induction false} MatchAppend(pm: (string, seq<string>) -> bool, a: seq<Pending>, b: seq<Pending>,
                                       path: seq<string>, val: Value)
    ensures Match(pm, a + b, path, val)
         == Outcome(Match(pm, a, path, val).kept + Match(pm, b, path, val).kept,
                    Match(pm, a, path, val).delivered + Match(pm, b, path, val).delivered)
    decreases |a|
  {
    if |a| == 0 {
      assert a + b == b;
    } else {
      assert (a + b)[0] == a[0] && (a + b)[1..] == a[1..] + b;
      MatchAppend(pm, a[1..], b, path, val);
      var ra, rb := Match(pm, a[1..], path, val), Match(pm, b, path, val);
      if Fires(pm, a[0], path, val) {
        assert [a[0]] + (ra.delivered + rb.delivered) == ([a[0]] + ra.delivered) + rb.delivered;
      } else {
        assert [a[0]] + (ra.kept + rb.kept) == ([a[0]] + ra.kept) + rb.kept;
      }
    }
  }

  /** A single entry is delivered when it fires and kept otherwise. */
  lemma MatchOne(pm: (string, seq<string>) -> bool, m: Pending, path: seq<string>, val: Value)
    ensures Match(pm, [m], path, val)
         == if Fires(pm, m, path, val) then Outcome([], [m]) else Outcome([m], [])
  {
    assert [m][1..] == [];
  }

  /** A list in which nothing fires is left as it is. */
  lemma {:induction false} MatchNoneFires(pm: (string, seq<string>) -> bool, ms: seq<Pending>, path: seq<string>, val: Value)
    requires forall i | 0 <= i < |ms| :: !Fires(pm, ms[i], path, val)
    ensures Match(pm, ms, path, val) == Outcome(ms, [])
    decreases |ms|
  {
    if |ms| > 0 {
      MatchNoneFires(pm, ms[1..], path, val);
      assert ms == [ms[0]] + ms[1..];
    }
  }

  /** Matching the same cue again delivers nothing more. */
  lemma MatchIdempotent(pm: (string, seq<string>) -> bool, ms: seq<Pending>, path: seq<string>, val: Value)
    ensures var r := Match(pm, ms, path, val);
            Match(pm, r.kept, path, val) == Outcome(r.kept, [])
  {
    MatchNoneFires(pm, Match(pm, ms, path, val).kept, path, val);
  }

  /** An entry put at the end is matched after all the older ones: it is
      delivered last if it fires, and kept last otherwise. */
  lemma PutThenMatch(pm: (string, seq<string>) -> bool, ms: seq<Pending>, pattern: string, vm: ValueMatcher,
                     prom: nat, path: seq<string>, val: Value)
    ensures var m := Pending(pattern, vm, prom);
            var r := Match(pm, ms, path, val);
            Match(pm, Put(ms, pattern, vm, prom), path, val)
              == if Fires(pm, m, path, val) then Outcome(r.kept, r.delivered + [m])
                 else Outcome(r.kept + [m], r.delivered)
  {
    var m := Pending(pattern, vm, prom);
    MatchAppend(pm, ms, [m], path, val);
    MatchOne(pm, m, path, val);
  }
}
