/** The recursive query: `get_w_no_mutex` compiles the query path and `__get`
    walks the trie with it, combining the results of its branches. */
module Query {
  import opened Cue
  import opened Trie
  import opened Leaf
  import opened Pattern

  /** The lookup run on the events of a node the query path ends at:
      `find_next_event` (as corrected) or `find_most_recent_event`. */
  function LeafFind(pr: Probe, es: seq<Event>): (r: Option<Event>)
    ensures r.Some? ==> r.value in es && Eligible(pr, r.value)
  {
    if pr.next then FindNextFixed(pr.time, pr.vm, es) else FindMostRecent(pr.time, pr.vm, es)
  }

  /** On a newest-first list the leaf lookup gives a best answer. */
  lemma LeafBest(pr: Probe, es: seq<Event>)
    requires SortedDesc(es)
    ensures BestIn(pr, LeafFind(pr, es), Elems(es))
  {
    if pr.next {
      FindNextFixedBest(pr.time, pr.vm, es);
    } else {
      FindMostRecentBest(pr.time, pr.vm, es);
    }
  }

  // ---------------------------------------------------------------------
  // A final `**`: most_recent_ancestor_event / next_ancestor_event

  /** The ancestor scan over the children of `n` from the `i`-th on: for
      each child, merge its own leaf lookup into the running result, then
      the scan of its subtree started from that result. A found result is
      never replaced by one it beats. */
  function Ancestors(pr: Probe, n: Node, i: nat, res: Option<Event>): (r: Option<Event>)
    requires i <= |n.children|
    ensures res.Some? ==> r.Some? && !Beats(pr, res.value, r.value)
    ensures r.Some? ==> r == res || Eligible(pr, r.value)
    decreases n, |n.children| - i
  {
    if i == |n.children| then res
    else
      var c := n.children[i].node;
      var r1 := Merge(pr, res, LeafFind(pr, c.events));
      var r2 := Merge(pr, r1, Ancestors(pr, c, 0, r1));
      Ancestors(pr, n, i + 1, r2)
  }

  /** The events of the strict descendants of `n` reached through its
      children from the `i`-th on. */
  ghost function Below(n: Node, i: nat): set<Event>
    requires i <= |n.children|
    decreases n, |n.children| - i
  {
    if i == |n.children| then {}
    else
      var c := n.children[i].node;
      Elems(c.events) + Below(c, 0) + Below(n, i + 1)
  }

  /** The ancestor scan gives a best answer among the running result's pool
      and every event strictly below `n`. */
  lemma {:induction false} AncestorsBest(pr: Probe, n: Node, i: nat, res: Option<Event>, R: set<Event>)
    requires i <= |n.children| && Wf(n) && BestIn(pr, res, R)
    ensures BestIn(pr, Ancestors(pr, n, i, res), R + Below(n, i))
    decreases n, |n.children| - i
  {
    if i < |n.children| {
      var c := n.children[i].node;
      var r1 := Merge(pr, res, LeafFind(pr, c.events));
      var r2 := Merge(pr, r1, Ancestors(pr, c, 0, r1));
      LeafBest(pr, c.events);
      MergeBest(pr, res, R, LeafFind(pr, c.events), Elems(c.events));
      var R1 := R + Elems(c.events);
      AncestorsBest(pr, c, 0, r1, R1);
      MergeBest(pr, r1, R1, Ancestors(pr, c, 0, r1), R1 + Below(c, 0));
      assert R1 + (R1 + Below(c, 0)) == R + Elems(c.events) + Below(c, 0);
      AncestorsBest(pr, n, i + 1, r2, R + Elems(c.events) + Below(c, 0));
      assert R + Elems(c.events) + Below(c, 0) + Below(n, i + 1) == R + Below(n, i);
    }
  }

  /** Every event strictly below `n` is stored at some non-empty path. */
  lemma {:induction false} BelowSound(n: Node, i: nat, e: Event) returns (p: seq<string>)
    requires i <= |n.children| && Wf(n) && e in Below(n, i)
    ensures |p| >= 1 && e in EventsAt(n, p)
    decreases n, |n.children| - i
  {
    var c := n.children[i];
    assert Below(n, i) == Elems(c.node.events) + Below(c.node, 0) + Below(n, i + 1);
    if e in Below(n, i + 1) {
      p := BelowSound(n, i + 1, e);
    } else {
      FindChildUnique(n.children, i);
      if e in Elems(c.node.events) {
        p := [c.key];
        assert p[1..] == [];
        assert At(n, p) == At(c.node, []) == Some(c.node);
      } else {
        var q := BelowSound(c.node, 0, e);
        p := [c.key] + q;
        assert p[1..] == q;
        assert At(n, p) == At(c.node, q);
      }
    }
  }

  /** Every event stored at a non-empty path below `n` is strictly below
      `n`. */
  lemma {:induction false} BelowComplete(n: Node, p: seq<string>, e: Event)
    requires |p| >= 1 && e in EventsAt(n, p)
    ensures e in Below(n, 0)
    decreases |p|
  {
    var j := FindChild(n.children, p[0]).value;
    var c := n.children[j].node;
    assert EventsAt(n, p) == EventsAt(c, p[1..]);
    if |p| == 1 {
      assert e in Elems(c.events);
    } else {
      BelowComplete(c, p[1..], e);
    }
    BelowFrom(n, 0, j, e);
  }

  /** What is below the `j`-th child is below `n` from any earlier child. */
  lemma {:induction false} BelowFrom(n: Node, i: nat, j: nat, e: Event)
    requires i <= j < |n.children|
    requires e in Elems(n.children[j].node.events) + Below(n.children[j].node, 0)
    ensures e in Below(n, i)
    decreases j - i
  {
    if i < j {
      BelowFrom(n, i + 1, j, e);
    }
  }

  // ---------------------------------------------------------------------
  // A `**` followed by another segment: matching_ancestors

  /** `matching_ancestors`: the descendants of `n`, at any depth, whose key
      the segment `s` accepts, in pre-order, visiting the children from the
      `i`-th on. */
  function MatchingAncestors(sm: (string, string) -> bool, s: Seg, n: Node, i: nat): (ms: seq<Node>)
    requires i <= |n.children|
    ensures i == |n.children| ==> ms == []
    decreases n, |n.children| - i
  {
    if i == |n.children| then []
    else
      var c := n.children[i];
      (if SegAccepts(sm, s, c.key) then [c.node] else [])
        + MatchingAncestors(sm, s, c.node, 0)
        + MatchingAncestors(sm, s, n, i + 1)
  }

  /** Every node `matching_ancestors` lists is reached from `n` by a
      non-empty path whose last key the segment accepts. */
  lemma {:induction false} MatchingAncestorsSound(sm: (string, string) -> bool, s: Seg, n: Node, i: nat, k: nat)
      returns (q: seq<string>)
    requires i <= |n.children| && Wf(n) && k < |MatchingAncestors(sm, s, n, i)|
    ensures |q| >= 1 && SegAccepts(sm, s, q[|q| - 1])
    ensures At(n, q) == Some(MatchingAncestors(sm, s, n, i)[k])
    decreases n, |n.children| - i
  {
    var c := n.children[i];
    var a := if SegAccepts(sm, s, c.key) then [c.node] else [];
    var b := MatchingAncestors(sm, s, c.node, 0);
    var d := MatchingAncestors(sm, s, n, i + 1);
    var ms := MatchingAncestors(sm, s, n, i);
    assert ms == a + b + d;
    FindChildUnique(n.children, i);
    if k < |a| {
      q := [c.key];
      assert q[1..] == [];
    } else if k < |a| + |b| {
      assert ms[k] == b[k - |a|];
      var q' := MatchingAncestorsSound(sm, s, c.node, 0, k - |a|);
      q := [c.key] + q';
      assert q[1..] == q';
    } else {
      assert ms[k] == d[k - |a| - |b|];
      q := MatchingAncestorsSound(sm, s, n, i + 1, k - |a| - |b|);
    }
  }

  /** Every node reached from `n` by a non-empty path whose last key the
      segment accepts is listed by `matching_ancestors`. */
  lemma {:induction false} MatchingAncestorsComplete(sm: (string, string) -> bool, s: Seg, n: Node, q: seq<string>)
    requires |q| >= 1 && SegAccepts(sm, s, q[|q| - 1]) && At(n, q).Some?
    ensures At(n, q).value in MatchingAncestors(sm, s, n, 0)
    decreases |q|
  {
    var j := FindChild(n.children, q[0]).value;
    var c := n.children[j];
    var m := At(n, q).value;
    assert At(n, q) == At(c.node, q[1..]);
    if |q| == 1 {
      assert m == c.node;
    } else {
      MatchingAncestorsComplete(sm, s, c.node, q[1..]);
    }
    MatchingAncestorsFrom(sm, s, n, 0, j, m);
  }

  /** What the `j`-th child contributes is listed from any earlier child. */
  lemma {:induction false} MatchingAncestorsFrom(sm: (string, string) -> bool, s: Seg, n: Node, i: nat, j: nat, m: Node)
    requires i <= j < |n.children|
    requires var c := n.children[j];
             m in (if SegAccepts(sm, s, c.key) then [c.node] else []) + MatchingAncestors(sm, s, c.node, 0)
    ensures m in MatchingAncestors(sm, s, n, i)
    decreases j - i
  {
    if i < j {
      MatchingAncestorsFrom(sm, s, n, i + 1, j, m);
    }
  }

  /** The nodes `matching_ancestors` lists from a well-formed node are
      well-formed. */
  lemma MatchingAncestorsWf(sm: (string, string) -> bool, s: Seg, n: Node)
    requires Wf(n)
    ensures forall k | 0 <= k < |MatchingAncestors(sm, s, n, 0)| :: Wf(MatchingAncestors(sm, s, n, 0)[k])
  {
    forall k | 0 <= k < |MatchingAncestors(sm, s, n, 0)|
      ensures Wf(MatchingAncestors(sm, s, n, 0)[k])
    {
      var q := MatchingAncestorsSound(sm, s, n, 0, k);
      AtWf(n, q);
    }
  }

  // ---------------------------------------------------------------------
  // __get

  /** `__get` from segment `idx` at node `n`, with the running result `res`
      passed down as `__get` passes it. Before the end of the path a found
      running result is never replaced by one it beats. */
  function Search(sm: (string, string) -> bool, pr: Probe, segs: seq<Seg>, idx: nat, n: Node, res: Option<Event>)
      : (r: Option<Event>)
    requires idx <= |segs|
    ensures idx < |segs| && res.Some? ==> r.Some? && !Beats(pr, res.value, r.value)
    ensures r.Some? ==> r == res || Eligible(pr, r.value)
    decreases |segs| - idx, 2, 0
  {
    if idx == |segs| then LeafFind(pr, n.events)
    else match segs[idx]
      case Lit(name) =>
        (match FindChild(n.children, name)
         case None => res
         case Some(i) => Merge(pr, res, Search(sm, pr, segs, idx + 1, n.children[i].node, res)))
      case Wild(_) => SearchKids(sm, pr, segs, idx, n.children, 0, res)
      case AnyDepth =>
        if idx == |segs| - 1 then Ancestors(pr, n, 0, res)
        else SearchFrom(sm, pr, segs, idx, MatchingAncestors(sm, segs[idx + 1], n, 0), 0, res)
  }

  /** The wildcard branch: every child from the `i`-th on whose key the
      wildcard accepts is searched with the next segment and merged in. */
  function SearchKids(sm: (string, string) -> bool, pr: Probe, segs: seq<Seg>, idx: nat, cs: seq<Child>, i: nat,
                      res: Option<Event>): (r: Option<Event>)
    requires idx < |segs| && i <= |cs|
    ensures res.Some? ==> r.Some? && !Beats(pr, res.value, r.value)
    ensures r.Some? ==> r == res || Eligible(pr, r.value)
    decreases |segs| - idx, 1, |cs| - i
  {
    if i == |cs| then res
    else
      var res' :=
        if SegAccepts(sm, segs[idx], cs[i].key)
        then Merge(pr, res, Search(sm, pr, segs, idx + 1, cs[i].node, res))
        else res;
      SearchKids(sm, pr, segs, idx, cs, i + 1, res')
  }

  /** The non-final `**` branch: every node listed by `matching_ancestors`
      from the `k`-th on is searched with the segment after the next one and
      merged in. */
  function SearchFrom(sm: (string, string) -> bool, pr: Probe, segs: seq<Seg>, idx: nat, ms: seq<Node>, k: nat,
                      res: Option<Event>): (r: Option<Event>)
    requires idx + 2 <= |segs| && k <= |ms|
    ensures res.Some? ==> r.Some? && !Beats(pr, res.value, r.value)
    ensures r.Some? ==> r == res || Eligible(pr, r.value)
    decreases |segs| - idx, 1, |ms| - k
  {
    if k == |ms| then res
    else SearchFrom(sm, pr, segs, idx, ms, k + 1, Merge(pr, res, Search(sm, pr, segs, idx + 2, ms[k], res)))
  }

  // ---------------------------------------------------------------------
  // The events the traversal reaches

  /** The events of the nodes `__get` reaches from segment `idx` at `n`,
      following the same branches. */
  ghost function Cands(sm: (string, string) -> bool, segs: seq<Seg>, idx: nat, n: Node): set<Event>
    requires idx <= |segs|
    decreases |segs| - idx, 2, 0
  {
    if idx == |segs| then Elems(n.events)
    else match segs[idx]
      case Lit(name) =>
        (match FindChild(n.children, name)
         case None => {}
         case Some(i) => Cands(sm, segs, idx + 1, n.children[i].node))
      case Wild(_) => CandsKids(sm, segs, idx, n.children, 0)
      case AnyDepth =>
        if idx == |segs| - 1 then Below(n, 0)
        else CandsFrom(sm, segs, idx, MatchingAncestors(sm, segs[idx + 1], n, 0), 0)
  }

  ghost function CandsKids(sm: (string, string) -> bool, segs: seq<Seg>, idx: nat, cs: seq<Child>, i: nat): set<Event>
    requires idx < |segs| && i <= |cs|
    decreases |segs| - idx, 1, |cs| - i
  {
    if i == |cs| then {}
    else
      (if SegAccepts(sm, segs[idx], cs[i].key) then Cands(sm, segs, idx + 1, cs[i].node) else {})
        + CandsKids(sm, segs, idx, cs, i + 1)
  }

  ghost function CandsFrom(sm: (string, string) -> bool, segs: seq<Seg>, idx: nat, ms: seq<Node>, k: nat): set<Event>
    requires idx + 2 <= |segs| && k <= |ms|
    decreases |segs| - idx, 1, |ms| - k
  {
    if k == |ms| then {} else Cands(sm, segs, idx + 2, ms[k]) + CandsFrom(sm, segs, idx, ms, k + 1)
  }

  /** `__get` gives a best answer among the running result's pool (dropped
      at the end of the path, where the leaf lookup ignores it) and the
      events the traversal reaches. */
  lemma {:induction false} SearchBest(sm: (string, string) -> bool, pr: Probe, segs: seq<Seg>, idx: nat, n: Node,
                                      res: Option<Event>, R: set<Event>)
    requires idx <= |segs| && Wf(n) && BestIn(pr, res, R)
    ensures BestIn(pr, Search(sm, pr, segs, idx, n, res), (if idx == |segs| then {} else R) + Cands(sm, segs, idx, n))
    decreases |segs| - idx, 2, 0
  {
    if idx == |segs| {
      LeafBest(pr, n.events);
      assert {} + Elems(n.events) == Elems(n.events);
    } else {
      match segs[idx]
      case Lit(name) =>
        var found := FindChild(n.children, name);
        if found.None? {
          assert R + {} == R;
        } else {
          var c := n.children[found.value].node;
          SearchBest(sm, pr, segs, idx + 1, c, res, R);
          var P := (if idx + 1 == |segs| then {} else R) + Cands(sm, segs, idx + 1, c);
          MergeBest(pr, res, R, Search(sm, pr, segs, idx + 1, c, res), P);
          assert R + P == R + Cands(sm, segs, idx + 1, c);
        }
      case Wild(_) =>
        SearchKidsBest(sm, pr, segs, idx, n.children, 0, res, R);
      case AnyDepth =>
        if idx == |segs| - 1 {
          AncestorsBest(pr, n, 0, res, R);
        } else {
          var ms := MatchingAncestors(sm, segs[idx + 1], n, 0);
          MatchingAncestorsWf(sm, segs[idx + 1], n);
          SearchFromBest(sm, pr, segs, idx, ms, 0, res, R);
        }
    }
  }

  lemma {:induction false} SearchKidsBest(sm: (string, string) -> bool, pr: Probe, segs: seq<Seg>, idx: nat,
                                          cs: seq<Child>, i: nat, res: Option<Event>, R: set<Event>)
    requires idx < |segs| && i <= |cs| && BestIn(pr, res, R)
    requires forall j | 0 <= j < |cs| :: Wf(cs[j].node)
    ensures BestIn(pr, SearchKids(sm, pr, segs, idx, cs, i, res), R + CandsKids(sm, segs, idx, cs, i))
    decreases |segs| - idx, 1, |cs| - i
  {
    if i == |cs| {
      assert R + {} == R;
    } else {
      var C := if SegAccepts(sm, segs[idx], cs[i].key) then Cands(sm, segs, idx + 1, cs[i].node) else {};
      var res' :=
        if SegAccepts(sm, segs[idx], cs[i].key)
        then Merge(pr, res, Search(sm, pr, segs, idx + 1, cs[i].node, res))
        else res;
      if SegAccepts(sm, segs[idx], cs[i].key) {
        var c := cs[i].node;
        SearchBest(sm, pr, segs, idx + 1, c, res, R);
        var P := (if idx + 1 == |segs| then {} else R) + Cands(sm, segs, idx + 1, c);
        MergeBest(pr, res, R, Search(sm, pr, segs, idx + 1, c, res), P);
        assert R + P == R + C;
      } else {
        assert R + C == R;
      }
      SearchKidsBest(sm, pr, segs, idx, cs, i + 1, res', R + C);
      assert R + C + CandsKids(sm, segs, idx, cs, i + 1) == R + CandsKids(sm, segs, idx, cs, i);
    }
  }

  lemma {:induction false} SearchFromBest(sm: (string, string) -> bool, pr: Probe, segs: seq<Seg>, idx: nat,
                                          ms: seq<Node>, k: nat, res: Option<Event>, R: set<Event>)
    requires idx + 2 <= |segs| && k <= |ms| && BestIn(pr, res, R)
    requires forall j | 0 <= j < |ms| :: Wf(ms[j])
    ensures BestIn(pr, SearchFrom(sm, pr, segs, idx, ms, k, res), R + CandsFrom(sm, segs, idx, ms, k))
    decreases |segs| - idx, 1, |ms| - k
  {
    if k == |ms| {
      assert R + {} == R;
    } else {
      var C := Cands(sm, segs, idx + 2, ms[k]);
      SearchBest(sm, pr, segs, idx + 2, ms[k], res, R);
      var P := (if idx + 2 == |segs| then {} else R) + C;
      var sub := Search(sm, pr, segs, idx + 2, ms[k], res);
      MergeBest(pr, res, R, sub, P);
      assert R + P == R + C;
      SearchFromBest(sm, pr, segs, idx, ms, k + 1, Merge(pr, res, sub), R + C);
      assert R + C + CandsFrom(sm, segs, idx, ms, k + 1) == R + CandsFrom(sm, segs, idx, ms, k);
    }
  }

  // ---------------------------------------------------------------------
  // The reached events are exactly the events at the selected paths

  /** An event of a child's contribution belongs to the wildcard branch's
      events, and conversely each event there comes from some child. */
  lemma {:induction false} CandsKidsHas(sm: (string, string) -> bool, segs: seq<Seg>, idx: nat, cs: seq<Child>,
                                        i: nat, j: nat, e: Event)
    requires idx < |segs| && i <= j < |cs|
    requires SegAccepts(sm, segs[idx], cs[j].key) && e in Cands(sm, segs, idx + 1, cs[j].node)
    ensures e in CandsKids(sm, segs, idx, cs, i)
    decreases j - i
  {
    if i < j {
      CandsKidsHas(sm, segs, idx, cs, i + 1, j, e);
    }
  }

  lemma {:induction false} CandsKidsFrom(sm: (string, string) -> bool, segs: seq<Seg>, idx: nat, cs: seq<Child>,
                                         i: nat, e: Event) returns (j: nat)
    requires idx < |segs| && i <= |cs| && e in CandsKids(sm, segs, idx, cs, i)
    ensures i <= j < |cs| && SegAccepts(sm, segs[idx], cs[j].key) && e in Cands(sm, segs, idx + 1, cs[j].node)
    decreases |cs| - i
  {
    if SegAccepts(sm, segs[idx], cs[i].key) && e in Cands(sm, segs, idx + 1, cs[i].node) {
      j := i;
    } else {
      j := CandsKidsFrom(sm, segs, idx, cs, i + 1, e);
    }
  }

  lemma {:induction false} CandsFromHas(sm: (string, string) -> bool, segs: seq<Seg>, idx: nat, ms: seq<Node>,
                                        k: nat, j: nat, e: Event)
    requires idx + 2 <= |segs| && k <= j < |ms| && e in Cands(sm, segs, idx + 2, ms[j])
    ensures e in CandsFrom(sm, segs, idx, ms, k)
    decreases j - k
  {
    if k < j {
      CandsFromHas(sm, segs, idx, ms, k + 1, j, e);
    }
  }

  lemma {:induction false} CandsFromOf(sm: (string, string) -> bool, segs: seq<Seg>, idx: nat, ms: seq<Node>,
                                       k: nat, e: Event) returns (j: nat)
    requires idx + 2 <= |segs| && k <= |ms| && e in CandsFrom(sm, segs, idx, ms, k)
    ensures k <= j < |ms| && e in Cands(sm, segs, idx + 2, ms[j])
    decreases |ms| - k
  {
    if e in Cands(sm, segs, idx + 2, ms[k]) {
      j := k;
    } else {
      j := CandsFromOf(sm, segs, idx, ms, k + 1, e);
    }
  }

  /** Every event the traversal reaches is stored at a path the segments
      select. */
  lemma {:induction false} CandsSound(sm: (string, string) -> bool, segs: seq<Seg>, idx: nat, n: Node, e: Event)
      returns (p: seq<string>)
    requires idx <= |segs| && Wf(n) && e in Cands(sm, segs, idx, n)
    ensures Matches(sm, segs, idx, p) && e in EventsAt(n, p)
    decreases |segs| - idx
  {
    if idx == |segs| {
      p := [];
    } else {
      match segs[idx]
      case Lit(name) =>
        var i := FindChild(n.children, name).value;
        var r := CandsSound(sm, segs, idx + 1, n.children[i].node, e);
        p := [name] + r;
        assert p[1..] == r;
      case Wild(_) =>
        var j := CandsKidsFrom(sm, segs, idx, n.children, 0, e);
        var c := n.children[j];
        FindChildUnique(n.children, j);
        var r := CandsSound(sm, segs, idx + 1, c.node, e);
        p := [c.key] + r;
        assert p[1..] == r;
      case AnyDepth =>
        if idx == |segs| - 1 {
          p := BelowSound(n, 0, e);
        } else {
          var s := segs[idx + 1];
          var ms := MatchingAncestors(sm, s, n, 0);
          var k := CandsFromOf(sm, segs, idx, ms, 0, e);
          var q := MatchingAncestorsSound(sm, s, n, 0, k);
          AtWf(n, q);
          var r := CandsSound(sm, segs, idx + 2, ms[k], e);
          p := q + r;
          AtConcat(n, q, r);
          var j := |q| - 1;
          assert p[j] == q[j] && p[j + 1..] == r;
        }
    }
  }

  /** Every event stored at a path the segments select is reached by the
      traversal. */
  lemma {:induction false} CandsComplete(sm: (string, string) -> bool, segs: seq<Seg>, idx: nat, n: Node,
                                         p: seq<string>, e: Event)
    requires idx <= |segs| && Matches(sm, segs, idx, p) && e in EventsAt(n, p)
    ensures e in Cands(sm, segs, idx, n)
    decreases |segs| - idx
  {
    if idx < |segs| {
      match segs[idx]
      case Lit(name) =>
        var i := FindChild(n.children, name).value;
        assert EventsAt(n, p) == EventsAt(n.children[i].node, p[1..]);
        CandsComplete(sm, segs, idx + 1, n.children[i].node, p[1..], e);
      case Wild(_) =>
        var i := FindChild(n.children, p[0]).value;
        assert EventsAt(n, p) == EventsAt(n.children[i].node, p[1..]);
        CandsComplete(sm, segs, idx + 1, n.children[i].node, p[1..], e);
        CandsKidsHas(sm, segs, idx, n.children, 0, i, e);
      case AnyDepth =>
        if idx == |segs| - 1 {
          BelowComplete(n, p, e);
        } else {
          var s := segs[idx + 1];
          var j :| 0 <= j < |p| && SegAccepts(sm, s, p[j]) && Matches(sm, segs, idx + 2, p[j + 1..]);
          var q, r := p[..j + 1], p[j + 1..];
          assert p == q + r;
          AtConcat(n, q, r);
          var m := At(n, q).value;
          assert EventsAt(n, p) == EventsAt(m, r);
          MatchingAncestorsComplete(sm, s, n, q);
          CandsComplete(sm, segs, idx + 2, m, r, e);
          var ms := MatchingAncestors(sm, s, n, 0);
          var k :| 0 <= k < |ms| && ms[k] == m;
          CandsFromHas(sm, segs, idx, ms, 0, k, e);
        }
    }
  }

  // ---------------------------------------------------------------------
  // get_w_no_mutex

  /** `get_w_no_mutex`: compile the query path and run `__get` from the root
      with no running result. Any answer is eligible for the probe. */
  function Get(sm: (string, string) -> bool, pr: Probe, pattern: string, root: Node): (r: Option<Event>)
    ensures r.Some? ==> Eligible(pr, r.value)
  {
    Search(sm, pr, Compile(pattern), 0, root, None)
  }

  /** A node path the query pattern selects. */
  ghost predicate Selected(sm: (string, string) -> bool, pattern: string, p: seq<string>)
  {
    Matches(sm, Compile(pattern), 0, p)
  }

  /** On a well-formed trie the query answers with a best event among all
      the events stored at the paths the pattern selects: nothing exactly
      when none of them is eligible, otherwise an eligible one stored at a
      selected path that no eligible one beats (the latest at or before the
      probe, or the earliest after it). */
  lemma QueryBest(sm: (string, string) -> bool, pr: Probe, pattern: string, root: Node)
      returns (p: seq<string>)
    requires Wf(root)
    ensures var r := Get(sm, pr, pattern, root);
            && (r.None? <==> forall q, e | Selected(sm, pattern, q) && e in EventsAt(root, q) :: !Eligible(pr, e))
            && (r.Some? ==> Selected(sm, pattern, p) && r.value in EventsAt(root, p) && Eligible(pr, r.value))
            && (r.Some? ==> forall q, e | Selected(sm, pattern, q) && e in EventsAt(root, q) && Eligible(pr, e) ::
                              !Beats(pr, e, r.value))
  {
    var segs := Compile(pattern);
    var r := Get(sm, pr, pattern, root);
    SearchBest(sm, pr, segs, 0, root, None, {});
    var pool := Cands(sm, segs, 0, root);
    assert BestIn(pr, r, pool);
    forall q, e | Selected(sm, pattern, q) && e in EventsAt(root, q)
      ensures e in pool
    {
      CandsComplete(sm, segs, 0, root, q, e);
    }
    p := [];
    if r.Some? {
      p := CandsSound(sm, segs, 0, root, r.value);
    }
  }
}
