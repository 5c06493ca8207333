/** The path-indexed trie of `EventHistoryNode`s and event insertion. */
module Trie {
  import opened Cue
  import opened Bubble

  /** A node: its children in insertion order (a Ruby Hash iterates in that
      order) and the events whose path ends exactly here, newest first. */
  datatype Node = Node(children: seq<Child>, events: seq<Event>)

  /** One entry of a node's children map. */
  datatype Child = Child(key: string, node: Node)

  /** `EventHistoryNode.new`. */
  const Empty := Node([], [])

  /** Hash lookup `children[k]`: the position of the entry with key `k`. */
  function FindChild(cs: seq<Child>, k: string): (r: Option<nat>)
    ensures r.Some? ==> r.value < |cs| && cs[r.value].key == k
    ensures r.Some? ==> forall j | 0 <= j < r.value :: cs[j].key != k
    ensures r.None? ==> forall j | 0 <= j < |cs| :: cs[j].key != k
  {
    if |cs| == 0 then None
    else if cs[0].key == k then Some(0)
    else match FindChild(cs[1..], k)
      case None => None
      case Some(i) => Some(i + 1)
  }

  /** The node reached from `n` by following the segments of `p`. */
  function At(n: Node, p: seq<string>): Option<Node>
    decreases |p|
  {
    if |p| == 0 then Some(n)
    else match FindChild(n.children, p[0])
      case None => None
      case Some(i) => At(n.children[i].node, p[1..])
  }

  /** The events stored at path `p` below `n` (none when there is no node). */
  function EventsAt(n: Node, p: seq<string>): seq<Event>
  {
    match At(n, p)
    case None => []
    case Some(m) => m.events
  }

  predicate UniqueKeys(cs: seq<Child>)
  {
    forall i, j | 0 <= i < j < |cs| :: cs[i].key != cs[j].key
  }

  /** The invariant every node keeps: keys are distinct (it is a map) and
      events are newest first, all the way down. */
  predicate Wf(n: Node)
    decreases n
  {
    && SortedDesc(n.events)
    && UniqueKeys(n.children)
    && forall i | 0 <= i < |n.children| :: Wf(n.children[i].node)
  }

  /** `__insert_event!` below `n` for the remaining segments `p`: create
      missing children along `p`, then put `e` in front of the events of the
      final node and bubble it into place. Existing children keep their keys
      and positions; a missing child is added at the end, as a Ruby Hash
      orders a new key. */
  function Insert(n: Node, p: seq<string>, e: Event): (r: Node)
    ensures |n.children| <= |r.children| <= |n.children| + 1
    ensures forall j | 0 <= j < |n.children| :: r.children[j].key == n.children[j].key
    ensures |r.children| > |n.children| ==>
              |p| > 0 && FindChild(n.children, p[0]).None? && r.children[|n.children|].key == p[0]
    decreases |p|
  {
    if |p| == 0 then
      n.(events := BubbleUp([e] + n.events))
    else
      match FindChild(n.children, p[0])
      case Some(i) =>
        n.(children := n.children[i := Child(p[0], Insert(n.children[i].node, p[1..], e))])
      case None =>
        n.(children := n.children + [Child(p[0], Insert(Empty, p[1..], e))])
  }

  /** Inserting an event from the root, at the event's own path. */
  function InsertEvent(root: Node, e: Event): Node
  {
    Insert(root, e.path, e)
  }

  /** Lookups only depend on the keys of the children. */
  lemma FindChildSameKeys(cs: seq<Child>, ds: seq<Child>, k: string)
    requires |cs| == |ds|
    requires forall j | 0 <= j < |cs| :: cs[j].key == ds[j].key
    ensures FindChild(cs, k) == FindChild(ds, k)
  {
  }

  /** Appending an entry only matters to a lookup of a key not yet present. */
  lemma {:induction false} FindChildAppend(cs: seq<Child>, c: Child, k: string)
    ensures FindChild(cs + [c], k) ==
              if FindChild(cs, k).None? && c.key == k then Some(|cs|) else FindChild(cs, k)
  {
    if |cs| > 0 && cs[0].key != k {
      assert (cs + [c])[1..] == cs[1..] + [c];
      FindChildAppend(cs[1..], c, k);
    }
  }

  /** In a node with distinct keys, the entry at position `i` is what a
      lookup of its key finds. */
  lemma FindChildUnique(cs: seq<Child>, i: nat)
    requires UniqueKeys(cs) && i < |cs|
    ensures FindChild(cs, cs[i].key) == Some(i)
  {
  }

  /** Insertion at `p`: the node at `p` now holds `e` bubbled into the
      events it held before (none if the node is new). */
  lemma {:induction false} InsertTarget(n: Node, p: seq<string>, e: Event)
    ensures EventsAt(Insert(n, p, e), p) == BubbleUp([e] + EventsAt(n, p))
    decreases |p|
  {
    if |p| > 0 {
      var n' := Insert(n, p, e);
      match FindChild(n.children, p[0])
      case Some(i) =>
        var c := n.children[i].node;
        FindChildSameKeys(n.children, n'.children, p[0]);
        InsertTarget(c, p[1..], e);
      case None =>
        FindChildAppend(n.children, Child(p[0], Insert(Empty, p[1..], e)), p[0]);
        assert FindChild(n'.children, p[0]) == Some(|n.children|);
        InsertTarget(Empty, p[1..], e);
        assert EventsAt(Empty, p[1..]) == [] by {
          if |p[1..]| > 0 {
            assert FindChild(Empty.children, p[1..][0]).None?;
          }
        }
    }
  }

  /** Insertion at `p` leaves the events at every other path unchanged. */
  lemma {:induction false} InsertElsewhere(n: Node, p: seq<string>, e: Event, q: seq<string>)
    requires q != p
    ensures EventsAt(Insert(n, p, e), q) == EventsAt(n, q)
    decreases |p|
  {
    var n' := Insert(n, p, e);
    if |p| == 0 {
      assert |q| > 0;
      assert n'.children == n.children;
    } else if |q| > 0 {
      match FindChild(n.children, p[0])
      case Some(i) =>
        var c := n.children[i].node;
        FindChildSameKeys(n.children, n'.children, q[0]);
        if q[0] == p[0] {
          assert q[1..] != p[1..];
          InsertElsewhere(c, p[1..], e, q[1..]);
        } else {
          var j := FindChild(n.children, q[0]);
          if j.Some? {
            assert j.value != i;
            assert n'.children[j.value] == n.children[j.value];
          }
        }
      case None =>
        if q[0] == p[0] {
          FindChildAppend(n.children, Child(p[0], Insert(Empty, p[1..], e)), p[0]);
          assert FindChild(n'.children, q[0]) == Some(|n.children|);
          assert q[1..] != p[1..];
          InsertElsewhere(Empty, p[1..], e, q[1..]);
          assert EventsAt(Empty, q[1..]) == [] by {
            if |q[1..]| > 0 {
              assert FindChild(Empty.children, q[1..][0]).None?;
            }
          }
        } else {
          FindChildAppend(n.children, Child(p[0], Insert(Empty, p[1..], e)), q[0]);
        }
    }
  }

  /** Insertion keeps every node newest-first and every children map a map. */
  lemma {:induction false} InsertWf(n: Node, p: seq<string>, e: Event)
    requires Wf(n)
    ensures Wf(Insert(n, p, e))
    decreases |p|
  {
    if |p| == 0 {
      assert ([e] + n.events)[1..] == n.events;
      BubbleUpSorts([e] + n.events);
    } else {
      var n' := Insert(n, p, e);
      match FindChild(n.children, p[0])
      case Some(i) =>
        InsertWf(n.children[i].node, p[1..], e);
        assert forall j | 0 <= j < |n.children| && j != i :: n'.children[j] == n.children[j];
      case None =>
        InsertWf(Empty, p[1..], e);
        assert forall j | 0 <= j < |n.children| :: n'.children[j] == n.children[j];
    }
  }

  /** Insertion creates nodes only along the event's path: a path leads to a
      node afterwards exactly when it did before or it is a prefix of `p`. */
  lemma {:induction false} InsertShape(n: Node, p: seq<string>, e: Event, q: seq<string>)
    ensures At(Insert(n, p, e), q).Some? <==> At(n, q).Some? || (|q| <= |p| && q == p[..|q|])
    decreases |p|
  {
    var n' := Insert(n, p, e);
    if |q| > 0 {
      if |p| == 0 {
        assert n'.children == n.children;
      } else {
        match FindChild(n.children, p[0])
        case Some(i) =>
          FindChildSameKeys(n.children, n'.children, q[0]);
          if q[0] == p[0] {
            InsertShape(n.children[i].node, p[1..], e, q[1..]);
            assert (|q[1..]| <= |p[1..]| && q[1..] == p[1..][..|q[1..]|]) <==> (|q| <= |p| && q == p[..|q|]);
          } else {
            var j := FindChild(n.children, q[0]);
            if j.Some? {
              assert n'.children[j.value] == n.children[j.value];
            }
          }
        case None =>
          FindChildAppend(n.children, Child(p[0], Insert(Empty, p[1..], e)), q[0]);
          if q[0] == p[0] {
            InsertShape(Empty, p[1..], e, q[1..]);
            assert (|q[1..]| <= |p[1..]| && q[1..] == p[1..][..|q[1..]|]) <==> (|q| <= |p| && q == p[..|q|]);
            assert At(Empty, q[1..]).Some? ==> |q[1..]| == 0;
          } else {
            assert |q| <= |p| ==> q[0] != p[..|q|][0];
          }
      }
    }
  }

  /** Every node reached from a well-formed node is well-formed. */
  lemma {:induction false} AtWf(n: Node, p: seq<string>)
    requires Wf(n) && At(n, p).Some?
    ensures Wf(At(n, p).value)
    decreases |p|
  {
    if |p| > 0 {
      var i := FindChild(n.children, p[0]).value;
      AtWf(n.children[i].node, p[1..]);
    }
  }

  /** Following `q` and then `r` is following `q + r`. */
  lemma {:induction false} AtConcat(n: Node, q: seq<string>, r: seq<string>)
    ensures At(n, q + r) == match At(n, q) case None => None case Some(m) => At(m, r)
    decreases |q|
  {
    if |q| > 0 {
      assert (q + r)[0] == q[0] && (q + r)[1..] == q[1..] + r;
      match FindChild(n.children, q[0])
      case None =>
      case Some(i) => AtConcat(n.children[i].node, q[1..], r);
    } else {
      assert q + r == r;
    }
  }
}
