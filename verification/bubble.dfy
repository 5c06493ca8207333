/** The adjacent-swap pass that moves a node's newly inserted front event
    into its place in the newest-first list. */
module Bubble {
  import opened Cue

  /** How many leading events of `t` are strictly newer than `x`. */
  function NewerCount(x: Event, t: seq<Event>): (k: nat)
    ensures k <= |t|
    ensures forall j | 0 <= j < k :: x.time < t[j].time
    ensures k < |t| ==> t[k].time <= x.time
    decreases |t|
  {
    if |t| > 0 && x.time < t[0].time then 1 + NewerCount(x, t[1..]) else 0
  }

  /** Where an event `x` belongs when it is put in front of `t`: just
      before the first event of `t` that is not strictly newer than it. */
  function Place(x: Event, t: seq<Event>): seq<Event>
  {
    var k := NewerCount(x, t);
    t[..k] + [x] + t[k..]
  }

  /** Placing behind a strictly newer first event is placing into the rest. */
  lemma PlaceCons(x: Event, t: seq<Event>)
    requires |t| > 0 && x.time < t[0].time
    ensures Place(x, t) == [t[0]] + Place(x, t[1..])
  {
    var k := NewerCount(x, t[1..]);
    assert NewerCount(x, t) == k + 1;
    assert t[..k + 1] == [t[0]] + t[1..][..k];
    assert t[k + 1..] == t[1..][k..];
  }

  /** `bubble_up_sort!`: swap the front event with its right neighbour while
      it is older than that neighbour. The front event ends up where `Place`
      puts it. */
  function BubbleUp(es: seq<Event>): (r: seq<Event>)
    ensures |r| == |es|
    ensures |es| >= 1 ==> r == Place(es[0], es[1..])
    decreases |es|
  {
    if |es| >= 2 && es[0].time < es[1].time then
      PlaceCons(es[0], es[1..]);
      assert ([es[0]] + es[2..])[1..] == es[1..][1..];
      [es[1]] + BubbleUp([es[0]] + es[2..])
    else
      assert |es| >= 1 ==> Place(es[0], es[1..]) == es[1..][..0] + [es[0]] + es[1..][0..];
      es
  }

  /** Placing `x` only moves `x`: it lands at position `k`, after exactly the
      leading events of `t` that are strictly newer than it, and taking it
      out gives back `t`. */
  lemma PlacePosition(x: Event, t: seq<Event>) returns (k: nat)
    ensures k <= |t| && |Place(x, t)| == |t| + 1
    ensures Place(x, t)[k] == x && Place(x, t)[..k] + Place(x, t)[k + 1..] == t
    ensures forall j | 0 <= j < k :: x.time < t[j].time
    ensures k < |t| ==> t[k].time <= x.time
  {
    k := NewerCount(x, t);
    var r := Place(x, t);
    assert r[..k] == t[..k];
    assert r[k + 1..] == t[k..];
    assert t[..k] + t[k..] == t;
  }

  /** Placing permutes: the events are those of `[x] + t`. */
  lemma PlacePermutes(x: Event, t: seq<Event>)
    ensures multiset(Place(x, t)) == multiset([x] + t)
  {
    var k := NewerCount(x, t);
    assert t == t[..k] + t[k..];
  }

  /** Placing into a newest-first list gives a newest-first list. */
  lemma PlaceSorted(x: Event, t: seq<Event>)
    requires SortedDesc(t)
    ensures SortedDesc(Place(x, t))
  {
    var k := NewerCount(x, t);
    var r := Place(x, t);
    assert forall a | 0 <= a < k :: r[a] == t[a];
    assert r[k] == x;
    assert forall a | k < a < |r| :: r[a] == t[a - 1];
    forall i, j | 0 <= i < j < |r|
      ensures r[j].time <= r[i].time
    {
      if j > k && i == k {
        assert t[j - 1].time <= t[k].time;
      }
    }
  }

  /** The pass permutes the list and only moves the front event: taking it
      out of the result gives back the rest of the list in its original
      order. */
  lemma BubbleUpOnlyMovesFront(es: seq<Event>)
    requires |es| >= 1
    ensures multiset(BubbleUp(es)) == multiset(es)
    ensures exists k | 0 <= k < |es| ::
              BubbleUp(es)[k] == es[0] && BubbleUp(es)[..k] + BubbleUp(es)[k + 1..] == es[1..]
  {
    assert es == [es[0]] + es[1..];
    PlacePermutes(es[0], es[1..]);
    var k := PlacePosition(es[0], es[1..]);
  }

  /** If everything after the front event is newest-first, the pass leaves
      the whole list newest-first. */
  lemma BubbleUpSorts(es: seq<Event>)
    requires |es| >= 1 && SortedDesc(es[1..])
    ensures SortedDesc(BubbleUp(es))
  {
    PlaceSorted(es[0], es[1..]);
  }

  /** On a list that is already newest-first the pass changes nothing, and
      a list of at most one event is always left alone. */
  lemma {:induction false} BubbleUpKeepsSorted(es: seq<Event>)
    requires SortedDesc(es)
    ensures BubbleUp(es) == es
  {
    if |es| >= 2 {
      assert es[1].time <= es[0].time;
    }
  }
}
