# Sonic Pi event history, modelled in Dafny

Sonic Pi keeps every cue that a `set` publishes in an event history. The
history is a trie keyed by the segments of the cue's path. Each node holds
its events newest first, ordered by their logical time. A `get` asks for the
most recent cue at or before a probe time, and a `get_next` or `sync` asks
for the next cue after it. Both name a path pattern that may contain `*`
inside a segment and `**` spanning any number of segments, and both may
carry a value matcher. A `sync` that finds nothing registers a pending
matcher, and a later `set` delivers it.

The model covers the following parts of `EventHistory`, written as pure
functions over immutable data:

- the trie and event insertion, including the bubble pass (`trie.dfy`,
  `bubble.dfy`);
- the two leaf lookups (`leaf.dfy`);
- compiling a query path into segment matchers (`pattern.dfy`);
- the recursive query with its `**` helpers (`query.dfy`);
- the pending-matcher list (`matchers.dfy`);
- a sequential version of `set`, `get` and the first phase of `sync`
  (`history.dfy`).

`cue.dfy` holds the shared vocabulary:

- the event;
- the value matcher;
- the probe;
- the rule that combines two branch results;
- `BestIn`, the statement that a result is the best answer among a pool of
  events.

The main results are these:

- **`Query.QueryBest`.** On a well-formed trie, the query returns a best
  event among exactly the events stored at the paths the pattern selects.
  "Best" means the latest at or before the probe, or the earliest after
  it. The query returns nothing exactly when none of those events is
  eligible. The paths a pattern selects are given by `Pattern.Matches`,
  which defines literal, wildcard and `**` segments independently of the
  traversal.
- **`EventHistory.GetBest`.** `get` lifts the same statement to every cue
  `set` so far, both the stored cues and the ones still queued.

Time is an `int`, and two cues may share a time. The value matcher is a
total function, or `None` for "no matcher". Two regular-expression tests are
function parameters, because the regex engine is not part of this model:

- `sm` is the single-segment wildcard test;
- `pm` is the whole-path test of a pending matcher.

## Model

| member | source | states |
|---|---|---|
| Cue.Accepts | app/server/sonicpi/lib/sonicpi/event_history.rb:18-25 | `safe_matcher_call`: no matcher accepts every value; otherwise the matcher's answer decides, a matcher that would raise counting as rejecting |
| Cue.Merge | app/server/sonicpi/lib/sonicpi/event_history.rb:207-219 | combining a running result with a branch result keeps one of the two; it is absent only if both are; neither beats the kept one (greater kept for "most recent", lesser for "next"); a branch result that does not beat a found running result, a tie included, never displaces it |
| Cue.MergeBest | app/server/sonicpi/lib/sonicpi/event_history.rb:205-271 | combining best answers of two pools gives a best answer of their union |
| Bubble.BubbleUp | app/server/sonicpi/lib/sonicpi/event_history.rb:303-316 | the swap pass keeps the length, and on a list x followed by t it yields t[..k] + [x] + t[k..], where k counts the leading events of t strictly newer than x: the front event stops before the first later event that is not strictly newer |
| Bubble.PlacePosition | app/server/sonicpi/lib/sonicpi/event_history.rb:310-315 | the front event lands after exactly the leading events that are strictly newer than it, and removing it gives back the rest of the list unchanged |
| Bubble.PlacePermutes | app/server/sonicpi/lib/sonicpi/event_history.rb:310-315 | placing the event only rearranges the list: the multiset of events is unchanged |
| Bubble.PlaceSorted | app/server/sonicpi/lib/sonicpi/event_history.rb:310-315 | placing an event into a newest-first list gives a newest-first list |
| Bubble.BubbleUpOnlyMovesFront | app/server/sonicpi/lib/sonicpi/event_history.rb:303-316 | the pass is a permutation, and removing the moved front event from the result gives back the rest of the list in its original order |
| Bubble.BubbleUpSorts | app/server/sonicpi/lib/sonicpi/event_history.rb:303-316 | if the list is newest first from index 1 on, the result is newest first |
| Bubble.BubbleUpKeepsSorted | app/server/sonicpi/lib/sonicpi/event_history.rb:303-316 | on a list that is already newest first the pass changes nothing, and in particular lists of size at most 1 are unchanged |
| Trie.FindChild | app/server/sonicpi/lib/sonicpi/event_history.rb:296 | a children lookup finds the first entry with the key, or reports that no entry has it |
| Trie.Insert | app/server/sonicpi/lib/sonicpi/event_history.rb:275-301 | inserting keeps every existing child with its key at its position, and adds at most one child, at the end, keyed by the next path segment and only when no child has that key (a Ruby Hash appends a new key) |
| Trie.InsertTarget | app/server/sonicpi/lib/sonicpi/event_history.rb:275-301 | the node at the event's path afterwards holds the new event bubbled into its previous events, which are none if the node is new |
| Trie.InsertElsewhere | app/server/sonicpi/lib/sonicpi/event_history.rb:275-301 | the events at every other path are unchanged |
| Trie.InsertWf | app/server/sonicpi/lib/sonicpi/event_history.rb:275-301 | insertion keeps every event list newest first and every children map free of duplicate keys |
| Trie.InsertShape | app/server/sonicpi/lib/sonicpi/event_history.rb:294-299 | a path leads to a node after insertion exactly when it did before or it is a prefix of the event's path |
| Trie.AtConcat | app/server/sonicpi/lib/sonicpi/event_history.rb:294-299 | following path q and then path r from the node reached reaches the same node as following q + r |
| Leaf.FindMostRecent | app/server/sonicpi/lib/sonicpi/event_history.rb:383-389 | the result is an accepted event of the list at or before the probe, and it is the first such event, every event in front of it being rejected; nothing is returned exactly when the list has no such event |
| Leaf.FindMostRecentBest | app/server/sonicpi/lib/sonicpi/event_history.rb:383-389 | on a newest-first list the result is the latest accepted event at or before the probe |
| Leaf.FirstAtOrBefore | app/server/sonicpi/lib/sonicpi/event_history.rb:402 | the index found is the first event at or before the probe, and every event in front of it is after the probe |
| Leaf.ScanNewer | app/server/sonicpi/lib/sonicpi/event_history.rb:405-408 | stepping toward the front finds the nearest accepted event before the start position, or reports that none of them is accepted |
| Leaf.FindNext | app/server/sonicpi/lib/sonicpi/event_history.rb:391-418 | an empty list gives nothing, and any event returned is in the list, accepted and strictly after the probe |
| Leaf.FindNextBestWithoutMatcher | app/server/sonicpi/lib/sonicpi/event_history.rb:391-418 | without a value matcher, on a newest-first list, the result is the earliest event after the probe, and nothing is returned only when no event is after it |
| Leaf.AfterProbeIsPrefix | app/server/sonicpi/lib/sonicpi/event_history.rb:402 | on a newest-first list every event from the first one at or before the probe onward is at or before the probe |
| Leaf.FindNextWithMatcher | app/server/sonicpi/lib/sonicpi/event_history.rb:402-416 | with a matcher, on a newest-first list, if the scan starts it returns the first accepted event met stepping toward the front, and something exactly when such an event exists; if every event is after the probe only the oldest is tried; on a newest-first list whose newest event is at or before the probe, nothing is returned |
| Leaf.AcceptAllIsNoMatcher | app/server/sonicpi/lib/sonicpi/event_history.rb:383-418 | a matcher that accepts every value gives the same results as no matcher, for both lookups |
| Leaf.FindNextMissesAcceptedEvent | app/server/sonicpi/lib/sonicpi/event_history.rb:411-416 | counterexample: on the sorted list of times 5 and 3 with probe 1, the time-5 event is eligible but nothing is returned |
| Leaf.FindNextFixed | app/server/sonicpi/lib/sonicpi/event_history.rb:402-416 | corrected lookup; any event returned is in the list, accepted and after the probe |
| Leaf.FindNextFixedAgrees | app/server/sonicpi/lib/sonicpi/event_history.rb:402-409 | the correction agrees with the code as written whenever there is no matcher or some event is at or before the probe |
| Leaf.FindNextFixedBest | app/server/sonicpi/lib/sonicpi/event_history.rb:391-418 | on a newest-first list the corrected lookup returns the earliest accepted event after the probe, and nothing exactly when there is none |
| Pattern.Collapse | app/server/sonicpi/lib/sonicpi/event_history.rb:175 | collapsing never lengthens the path, and a path in which no "/**" directly follows another, in particular one without "/**", is left unchanged |
| Pattern.CollapseNoRepeatedRun | app/server/sonicpi/lib/sonicpi/event_history.rb:175 | after collapsing, no "/**" directly follows another |
| Pattern.CollapseDropsRepeatedRun | app/server/sonicpi/lib/sonicpi/event_history.rb:174-175 | removing a "/**" that directly follows another does not change the collapsed path, so collapsing removes repeated runs and nothing else; with Pattern.Collapse and Pattern.CollapseNoRepeatedRun this determines the result: remove repeated runs one at a time until none is left |
| Pattern.CollapseIdempotent | app/server/sonicpi/lib/sonicpi/event_history.rb:175 | collapsing twice is the same as collapsing once |
| Pattern.CompileDropsRepeatedRun | app/server/sonicpi/lib/sonicpi/event_history.rb:174-185 | for a '/'-prefixed path, removing a "/**" that directly follows another, as from "/a/**/**/b" to "/a/**/b", does not change the compiled segments |
| Pattern.CompileCollapsed | app/server/sonicpi/lib/sonicpi/event_history.rb:175 | compiling an already collapsed path gives the same segments as compiling the original |
| Pattern.SplitAll | app/server/sonicpi/lib/sonicpi/event_history.rb:176 | splitting gives at least one field, and no field contains '/' |
| Pattern.Split | app/server/sonicpi/lib/sonicpi/event_history.rb:176 | no field of `split('/')` contains '/', the last field is non-empty, and joining the fields with '/' gives back the path without its trailing slashes |
| Pattern.SplitAllJoin | app/server/sonicpi/lib/sonicpi/event_history.rb:176 | splitting fields that contain no '/' after joining them with '/' gives back every field, trailing empty ones included |
| Pattern.SplitOfJoin | app/server/sonicpi/lib/sonicpi/event_history.rb:176 | `split('/')` undoes joining with '/' when no field contains '/' and the last field is non-empty, which is the converse of `Pattern.Split`'s join ensures |
| Pattern.Strip | app/server/sonicpi/lib/sonicpi/event_history.rb:177 | a stripped segment neither starts nor ends with whitespace |
| Pattern.StripShape | app/server/sonicpi/lib/sonicpi/event_history.rb:177 | stripping keeps one contiguous piece of the segment and removes only whitespace around it |
| Pattern.StripPlain | app/server/sonicpi/lib/sonicpi/event_history.rb:177 | a segment with no whitespace at either end is left unchanged by stripping |
| Pattern.ClassifyPlain | app/server/sonicpi/lib/sonicpi/event_history.rb:176-185 | a segment without '*' and without whitespace at either end becomes a literal of itself |
| Pattern.Classify | app/server/sonicpi/lib/sonicpi/event_history.rb:176-185 | a segment that strips to "**" is `**`; otherwise one containing '*' is a wildcard built from the raw text, and any other is a literal of the stripped text |
| Pattern.Segments | app/server/sonicpi/lib/sonicpi/event_history.rb:176 | the segments are the classified fields after the first one, one for each |
| Pattern.Compile | app/server/sonicpi/lib/sonicpi/event_history.rb:166-176 | corrected compilation: a '/'-prefixed path compiles as written, and any other path compiles as written for the path with '/' prepended |
| Pattern.CompileAsWritten | app/server/sonicpi/lib/sonicpi/event_history.rb:166-185 | `get_w_no_mutex`'s compilation as written: a path that does not start with '/' compiles to no segments, so the query reads the root |
| Pattern.UnslashedPathSelectsRoot | app/server/sonicpi/lib/sonicpi/event_history.rb:168-172 | counterexample: as written, "a/b" compiles to no segments, which selects the root; corrected, it compiles to literal a, literal b |
| Query.LeafFind | app/server/sonicpi/lib/sonicpi/event_history.rb:191-198 | the lookup at the end of the path returns only an event of the node that is eligible for the probe (corrected leaf lookup and compilation) |
| Query.LeafBest | app/server/sonicpi/lib/sonicpi/event_history.rb:191-198 | the leaf lookup at the end of the path gives a best answer among the node's events (corrected leaf lookup) |
| Query.Ancestors | app/server/sonicpi/lib/sonicpi/event_history.rb:337-381 | the ancestor scan never loses a found running result and never replaces it with one it beats, and any other result it gives is eligible for the probe |
| Query.AncestorsBest | app/server/sonicpi/lib/sonicpi/event_history.rb:337-381 | the ancestor scan gives a best answer among the running result's pool and every event strictly below the node (corrected leaf lookup) |
| Query.BelowSound | app/server/sonicpi/lib/sonicpi/event_history.rb:337-358 | every event the ancestor scan visits is stored at a non-empty path below the node, so a final `**` never reads the node's own events |
| Query.BelowComplete | app/server/sonicpi/lib/sonicpi/event_history.rb:337-358 | every event stored at a non-empty path below the node is visited by the ancestor scan |
| Query.MatchingAncestors | app/server/sonicpi/lib/sonicpi/event_history.rb:322-334 | once the children are exhausted nothing is listed; what is listed is stated by Query.MatchingAncestorsSound and Query.MatchingAncestorsComplete |
| Query.MatchingAncestorsSound | app/server/sonicpi/lib/sonicpi/event_history.rb:322-334 | every node listed is reached by a path of length at least 1 whose last key the next segment accepts |
| Query.MatchingAncestorsComplete | app/server/sonicpi/lib/sonicpi/event_history.rb:322-334 | every node reached by such a path, at any depth of at least 1, is listed |
| Query.MatchingAncestorsWf | app/server/sonicpi/lib/sonicpi/event_history.rb:322-334 | the listed nodes of a well-formed trie are well-formed |
| Query.Search | app/server/sonicpi/lib/sonicpi/event_history.rb:190-272 | before the end of the path, a found running result is never lost or replaced by one it beats; a result other than the running one is eligible for the probe (corrected leaf lookup and compilation) |
| Query.SearchKids | app/server/sonicpi/lib/sonicpi/event_history.rb:205-221 | the wildcard branch never loses a found running result or replaces it with one it beats; a result other than the running one is eligible |
| Query.SearchFrom | app/server/sonicpi/lib/sonicpi/event_history.rb:238-251 | the non-final `**` branch never loses a found running result or replaces it with one it beats; a result other than the running one is eligible |
| Query.SearchBest | app/server/sonicpi/lib/sonicpi/event_history.rb:190-272 | `__get` gives a best answer among the events of the nodes it reaches, together with the running result's pool before the end of the path (corrected leaf lookup) |
| Query.SearchKidsBest | app/server/sonicpi/lib/sonicpi/event_history.rb:205-221 | the wildcard branch gives a best answer among the running pool and the events reached through every accepted child (corrected leaf lookup) |
| Query.SearchFromBest | app/server/sonicpi/lib/sonicpi/event_history.rb:238-251 | the non-final `**` branch gives a best answer among the running pool and the events reached from every listed descendant (corrected leaf lookup) |
| Query.CandsSound | app/server/sonicpi/lib/sonicpi/event_history.rb:190-272 | every event the traversal reaches is stored at a path the segments select |
| Query.CandsComplete | app/server/sonicpi/lib/sonicpi/event_history.rb:190-272 | every event stored at a path the segments select is reached by the traversal |
| Query.Get | app/server/sonicpi/lib/sonicpi/event_history.rb:166-188 | any answer of the query is eligible for the probe; Query.QueryBest states which one it is (corrected leaf lookup and compilation) |
| Query.QueryBest | app/server/sonicpi/lib/sonicpi/event_history.rb:166-188 | on a well-formed trie the query returns nothing exactly when no event at a selected path is eligible; otherwise it returns an eligible event stored at a selected path that no eligible event at a selected path beats (corrected leaf lookup and compilation) |
| Matchers.FiresCases | app/server/sonicpi/lib/sonicpi/event_history.rb:51-53 | `EventMatcher#match`: an entry fires only when its path test accepts the cue's path; without a value matcher exactly then, and with one exactly when the value matcher also accepts the value |
| Matchers.Put | app/server/sonicpi/lib/sonicpi/event_history.rb:62-65 | `put` adds exactly one entry, at the end, and leaves the existing entries as they were |
| Matchers.Match | app/server/sonicpi/lib/sonicpi/event_history.rb:67-76 | the kept entries are exactly the entries of the list that do not fire and the delivered ones exactly those that fire, and the two counts add up to the list's length |
| Matchers.MatchPartition | app/server/sonicpi/lib/sonicpi/event_history.rb:67-76 | every entry is either kept or delivered, exactly once |
| Matchers.MatchAppend | app/server/sonicpi/lib/sonicpi/event_history.rb:67-76 | matching a concatenation matches each part separately, so kept and delivered entries both keep their original order |
| Matchers.MatchOne | app/server/sonicpi/lib/sonicpi/event_history.rb:69-74 | a single entry is delivered if it fires and kept otherwise |
| Matchers.MatchNoneFires | app/server/sonicpi/lib/sonicpi/event_history.rb:67-76 | a list in which no entry fires is left unchanged, and nothing is delivered |
| Matchers.MatchIdempotent | app/server/sonicpi/lib/sonicpi/event_history.rb:67-76 | matching the same cue again delivers nothing more |
| Matchers.PutThenMatch | app/server/sonicpi/lib/sonicpi/event_history.rb:62-76 | an entry just put is matched after all older ones: it is delivered last if it fires and kept last otherwise |
| EventHistory.Set | app/server/sonicpi/lib/sonicpi/event_history.rb:118-123 | `set` queues the cue behind the earlier ones without touching the trie; the matchers that do not fire on the cue are exactly the ones that remain, and the ones that fire are exactly the ones delivered |
| EventHistory.SetAll | app/server/sonicpi/lib/sonicpi/event_history.rb:118-123 | a run of `set`s queues its cues in order behind the earlier ones, and a matcher that none of them fires stays pending |
| EventHistory.SyncCheck | app/server/sonicpi/lib/sonicpi/event_history.rb:129-139 | the first phase of `sync` drains the queue; it leaves the matchers alone when it finds a next event and adds exactly its own matcher when it does not (corrected leaf lookup and compilation) |
| EventHistory.Drain | app/server/sonicpi/lib/sonicpi/event_history.rb:103 | inserting the queued cues empties the queue and leaves the matchers alone; what it adds to the trie is stated by EventHistory.InsertAllInv and EventHistory.DrainMembers |
| EventHistory.Get | app/server/sonicpi/lib/sonicpi/event_history.rb:97-107 | `get` first inserts the queued cues, and any answer is eligible for the probe; EventHistory.GetBest states which one it is (corrected leaf lookup and compilation) |
| EventHistory.InitInv | app/server/sonicpi/lib/sonicpi/event_history.rb:84-92 | a new history is well-formed, and every event is at its own path |
| EventHistory.InsertEventInv | app/server/sonicpi/lib/sonicpi/event_history.rb:275-301 | inserting a cue adds exactly that cue, as a multiset, at its own path, and keeps the trie well-formed |
| EventHistory.InsertAllInv | app/server/sonicpi/lib/sonicpi/event_history.rb:103 | draining the queue adds exactly the queued cues, each at its own path, and keeps the trie well-formed |
| EventHistory.DrainMembers | app/server/sonicpi/lib/sonicpi/event_history.rb:103 | after draining, the events at a path are those stored there before plus those queued for it |
| EventHistory.GetBest | app/server/sonicpi/lib/sonicpi/event_history.rb:97-107 | `get` empties the queue and leaves the matchers alone; its answer has a selected path and is a best one among every cue set so far, stored or queued, at a selected path; it answers nothing exactly when none of those is eligible (corrected leaf lookup and compilation) |
| EventHistory.SetThenGet | app/server/sonicpi/lib/sonicpi/event_history.rb:97-123 | a cue that is set is seen by the next `get` whose pattern selects its path and whose probe it is eligible for |
| EventHistory.SyncCheckThenSet | app/server/sonicpi/lib/sonicpi/event_history.rb:118-139 | `sync` registers a matcher exactly when it finds no next event; an event it finds is the `get_next` answer and lies after the probe; a registered matcher stays pending through any run of `set`s of cues it does not accept, and the first `set` of a cue it accepts delivers it (corrected leaf lookup and compilation) |

## Left out

- Concurrency: `Queue`, the mutexes, `Promise` and the blocking `prom.get` are left out. The model is sequential. A promise is a number carried by its matcher entry, and "delivered" means the entry is in the delivered list.
- The second phase of `sync` is left out: the re-query after the promise is delivered and the "sync error" raise (`event_history.rb:141-148`). It is only meaningful under concurrency.
- `sync_first`, `sync_all` and `wait_for_threads` are left out. They are empty stubs.
- The regex engine is left out. The wildcard segment regex (`event_history.rb:181`, unanchored, built from the raw segment) is the parameter `sm`. `EventMatcher`'s path regex compilation and its match (`event_history.rb:40-53`) are the parameter `pm`.
- `CueEvent` is left out. cueevent.rb is not part of this model. Its time comparison is an `int` key, where ties are allowed. Its path is a sequence of segments and its value is a sequence of integers. `path_segment` and `path_size` become indexing and length of that sequence.
- `safe_matcher_call` is modelled as a total predicate: a matcher that would raise is a matcher that returns false.
- The insertion error raised at `event_history.rb:292` is left out. It cannot happen when the path is a sequence.
- Event retention and pruning are left out. `__insert_event!` only marks them as a TODO (`event_history.rb:279-280`).
- String#strip is modelled with ASCII whitespace plus NUL, at both ends. Ruby's exact treatment of a leading NUL is not modelled.
- The `get` arguments `t, p, i, d, b` become one probe time.
- Whether `sm` and `pm` select the same paths is not modelled: they are independent parameters.
- A pattern whose wildcard segment (`event_history.rb:181`) or matcher path (`event_history.rb:47`) is not a valid Ruby regex raises `RegexpError` in `get`, `get_next` or `sync`. `sm` and `pm` are total, so this error is not modelled: `Query.Get` always answers and `EventHistory.SyncCheck` always registers on a miss.
- `blk.call(matcher) if blk` (`event_history.rb:138`) is left out. Under the lock, `sync` hands the caller's block the value of `put`, which is the internal matcher list. `EventHistory.SyncCheck` returns no such value, because what the block does with it is outside the history.
- Query.MatchingAncestors: its own contract only says that nothing is listed once the children are exhausted. What it lists is stated by Query.MatchingAncestorsSound and Query.MatchingAncestorsComplete, because that statement needs a well-formed trie and paths to the listed nodes.

## How the code reads `**`, `matching_ancestors` and ties

The model follows the code in each case.

- A final `**` reads only strict descendants: `most_recent_ancestor_event` and `next_ancestor_event` never look at the node's own events. So "/a/**" does not see cues at "/a" itself. `Pattern.Matches` asks for at least one segment there, and `Query.BelowSound` states it. A non-final `**` matches zero segments as well: "/a/**/b" selects "/a/b".
- `matching_ancestors` lists the descendants whose own key matches the next segment, then continues with the segment after that one from those nodes. `Query.MatchingAncestorsSound` and `Query.MatchingAncestorsComplete` state this.
- The time key allows ties. A tie never displaces a result already found, because the code compares with strict `<` and `>`. `Cue.Merge` states it.

## Findings

| source | as written | input that shows it | evidently intended | confidence | as-written member | corrected member |
|---|---|---|---|---|---|---|
| app/server/sonicpi/lib/sonicpi/event_history.rb:411-416 | with a value matcher, when every event is after the probe, only the oldest event is tried | events at times 5 and 3 (newest first), probe 1, a matcher accepting only the time-5 event's value: nothing is returned, so `sync` can raise "sync error" although a matching event exists | step from the oldest event toward the front until one is accepted, as the other branch does | medium, not executed | Leaf.FindNextMissesAcceptedEvent | Leaf.FindNextFixedBest |
| app/server/sonicpi/lib/sonicpi/event_history.rb:171 | a path without a leading '/' becomes `"/#{path}"` with the local `path` still nil, so it is "/" and the query reads the root | "a/b" compiles to no segments | prepend '/' to the query path | high, not executed | Pattern.UnslashedPathSelectsRoot | Pattern.Compile |

The query and the façade use the corrected definitions: `Query.LeafFind`
uses `Leaf.FindNextFixed`, and `Query.Get` uses `Pattern.Compile`.
