# Key-moment editor: a Dafny model

This project models the core of a desktop tool for reviewing lecture-video
transcripts. An editor marks **key moments** on a video: labelled, inclusive
ranges of 0-based sentence indices. The model covers:

- **Loader** (`loader.dfy`, from `src/lib/loader.ts`). It holds the records (video
  info, sentences, key moments) and decodes them from their external JSON shapes.
  That includes the timecode parser `parseTimecode`, with JavaScript's `split` and
  `parseInt` written out. Times are integer milliseconds: the source's
  `hh*3600 + mm*60 + ss + ms/1000` seconds is exactly
  `hh*3600000 + mm*60000 + ss*1000 + ms` milliseconds.
- **Sorting** (`sorting.dfy`). This is the stable `Array.prototype.sort` by an
  integer key, which both the loader and the overlap resolver use.
- **Resolver** (`resolver.dfy`). It models `mergeKeyMoments` and
  `preventRangeOverlap`, the overlap resolver the editor runs after every edit.
  The source's loop is the method `PreventRangeOverlap`, proved equal to the
  fold `Resolve`, and the properties are proved about `Resolve`.
- **Reducer** (`store.dfy`). It models the editor state (the selected moment and
  the list of moments), the reducer over the six actions, and the insert
  button's range policy (`InsertKeymoment`). Its invariant is that the moments
  are ordered, pairwise disjoint and inside the video's sentences. The model
  proves that every action meeting the conditions below preserves it, and so
  does any run of such actions:
  - an edited range is non-empty and inside the sentences;
  - an added moment lies in the gap where it is inserted, as the insert button
    guarantees.
- **Timeline** (`timeline.dfy`). This is the `findIndex` lookup from a time to a
  sentence, the time range of the selected moment, the previous/next buttons and
  the pin buttons.
- **Grouping** (`grouping.dfy`). This is the loop in `SentenceList` that cuts the
  transcript into display groups tagged with their key moment.
- **Playback** (`playback.dfy`). This is the controller of key-moment mode: a
  class whose fields are the component's flags and the player position, with one
  method per event handler and button.

Where the source throws a `TypeError`, the model returns a `Failure` or `None`.
That happens when it reads a field of a missing sentence or moment, or when the
resolver empties its stack.

Two behaviours of the resolver are easy to misread, and the model follows the
code in both:

- **Which moment keeps its range.** It is not the moment edited last but the
  moment that starts first (see `Reducer.EditLosesToEarlierMoment`).
- **A moment stretched onto its neighbour.** Take moments [0,1] and [3,4], and
  stretch the first to [0,3]. The two are not folded into [0,4]: the code gives
  [0,3] and [4,4] (see `Reducer.BoundaryEditExample`).

Two parameters select between the code as written and its evident intent, so
that both can be stated:

- `Resolver.TrimPolicy` selects `Unconditional` (as written) or `OverlapOnly`.
- `Timeline.Boundary` selects `Inclusive` (as written) or `Exclusive`.

The three findings below explain why. `Grouping.Rule` plays the same part for
the grouping loop.

## Model

| member | source | states |
|---|---|---|
| Sorting.SortBy | src/lib/loader.ts:60 | the result is sorted by the key, has the same length and is a permutation (same multiset) of the input |
| Sorting.SortByIsStable | src/components/dasboard-item.tsx:164 | stability: for every key, the elements with that key keep their relative order |
| Sorting.SortBySorted | src/components/dasboard-item.tsx:164 | sorting an already sorted sequence leaves it unchanged |
| Loader.GetVideoUrl | src/lib/loader.ts:1-5 | the URL is the base URL, "/", the id and "/video.mp4", in that order |
| Loader.VideoUrlInjective | src/lib/loader.ts:3-5 | distinct ids give distinct URLs |
| Loader.ParseInfoJson | src/lib/loader.ts:31-40 | every field is copied; the duration in seconds is 60 times the minutes |
| Loader.Split | src/lib/loader.ts:72-73 | `split`: at least one part, no part contains the separator, joining the parts gives back the input, and there is one part exactly when the separator is absent |
| Loader.ParseInt | src/lib/loader.ts:74 | `parseInt` without a radix (white space, sign, `0x` prefix, longest digit run, NaN as `None`); what it returns is stated by `ParseIntOfDigits` and `ParseIntOfNoDigits` |
| Loader.ParseIntOfNoDigits | src/lib/loader.ts:74 | a text without a single digit parses to NaN |
| Loader.ParseIntOfDigits | src/lib/loader.ts:74 | `parseInt` of a decimal digit run is the run's value when what follows is neither a digit nor an `x` that would make it a hexadecimal prefix |
| Loader.ParseTimecode | src/lib/loader.ts:70-75 | fewer than three ':'-fields is the thrown error (`ssms.split` on `undefined`); a seconds field without ',' gives NaN |
| Loader.ParseTimecodeOfFields | src/lib/loader.ts:70-75 | for non-empty decimal fields, "hh:mm:ss,ms" decodes to hh*3600000 + mm*60000 + ss*1000 + ms milliseconds |
| Loader.ParseTimecodeExample | src/lib/loader.ts:71 | "00:01:23,456" is 83456 ms (83.456 s) |
| Loader.ParseSentencesJson | src/lib/loader.ts:59-68 | on success there is one sentence per record, and sentence i is the i-th record in SL order, decoded |
| Loader.ParseSentencesJsonDecodes | src/lib/loader.ts:59-68 | sentence i keeps the text of the i-th record in SL order and both of its decoded timecodes |
| Loader.ParseSentencesJsonThrows | src/lib/loader.ts:59-73 | decoding throws exactly when some record has a timecode with fewer than three fields |
| Loader.ParseKeyMomentsJson | src/lib/loader.ts:99-108 | one moment per record, in order: moment i has record i's 1-indexed SL range shifted down by one, its title, concept and key takeaway, and is not reviewed |
| Loader.ParseKeyMomentsKeepsOrder | src/lib/loader.ts:103 | 1-based SL ranges that are ordered, disjoint and within n become 0-based ranges that are ordered, disjoint and within n |
| Resolver.MergeKeyMoments | src/components/dasboard-item.tsx:146-159 | through the lemma `MergeJoins`: the merged moment covers exactly the sentences from the target's start to the source's end (so both, when the target comes first); each text is the target's, ", " and the source's; it is not reviewed |
| Resolver.Resolve | src/components/dasboard-item.tsx:161-181 | the sort by start and the fold from the back; its promises are stated by `ResolveProperties`, `ResolveCovers`, `ResolveWithin`, `ResolveKeepsOrdered` and `ResolveIdempotent` |
| Resolver.PreventRangeOverlap | src/components/dasboard-item.tsx:161-181 | the loop computes `Resolve(ranges, Unconditional)`; on non-empty ranges it throws iff some moment other than the last by start reaches the last one's end; otherwise its result is ordered and loses no covered sentence |
| Resolver.ResolveProperties | src/components/dasboard-item.tsx:161-181 | for either trim: failure iff `Overreaches`; on success the result is ordered and pairwise disjoint, no longer than the input, and empty only for an empty input |
| Resolver.ResolveCovers | src/components/dasboard-item.tsx:166-178 | every sentence a moment covered stays covered; with the overlap-only trim, exactly those sentences are covered |
| Resolver.ResolveWithin | src/components/dasboard-item.tsx:161-181 | moments inside sentences 0..n-1 stay inside them |
| Resolver.StepOrdered | src/components/dasboard-item.tsx:166-178 | one iteration on an ordered stack fails iff `cur` reaches the last end; otherwise the stack stays ordered, with `cur`'s range in front |
| Resolver.StepCovers | src/components/dasboard-item.tsx:166-178 | one iteration loses no covered sentence; with the overlap-only trim it adds none; every start stays at or after `cur`'s |
| Resolver.AbsorbShape | src/components/dasboard-item.tsx:169-173 | the inner `while` keeps `next`'s range, drops a prefix of the stack whose ends are all within `next`, and stops at a moment ending after `next` |
| Resolver.AbsorbJoins | src/components/dasboard-item.tsx:146-159 | the inner `while` appends, after ", ", the title, concept and key takeaway of each swallowed moment in stack order; a `next` that swallows anything is not reviewed, and one that swallows nothing is returned unchanged |
| Resolver.ResolveKeepsOrdered | src/components/dasboard-item.tsx:161-181 | an already ordered, disjoint list is returned unchanged |
| Resolver.ResolveIdempotent | src/components/dasboard-item.tsx:161-181 | resolving twice is resolving once |
| Resolver.ResolveTrimExample | src/components/dasboard-item.tsx:168-175 | [0,3],[3,4] becomes [0,3],[4,4]: a touched neighbour is trimmed, not folded |
| Resolver.ResolveEarlierStartWins | src/components/dasboard-item.tsx:164-175 | [0,2],[1,4] becomes [0,2],[3,4]: the moment that starts first keeps its range |
| Resolver.ResolveCrashExample | src/components/dasboard-item.tsx:169-175 | [0,4],[3,4] empties the stack, and `stack[0].sentenceRange` throws |
| Resolver.ResolveGrowsAcrossGap | src/components/dasboard-item.tsx:175 | as written, [0,5],[3,4],[10,12] gives [0,5],[6,12]: sentence 7, covered before by no moment, is covered afterwards |
| Resolver.ResolveOverlapOnlyKeepsGap | src/components/dasboard-item.tsx:175 | with the overlap-only trim, [10,12] is left where it was |
| Reducer.Reduce | src/components/dasboard-item.tsx:89-145 | only an edit or a merge can throw, and a merge throws exactly when no moment follows its index; a selection sets the cursor to its index; a removal yields exactly `RemoveAt` of the moments and decrements the cursor exactly when it was on the old last moment (so removing the only, selected moment leaves -1); every other action keeps the cursor; an insertion adds one moment, a merge takes one away, a removal of an existing moment takes one away; the moments afterwards are exactly `InsertAt`, `MergeAt` (when a moment follows the index) and `MarkAt` of the old ones for an insertion, a merge and a mark; the invariant is `ReduceKeepsValid` |
| Reducer.InsertAt | src/components/dasboard-item.tsx:106-114 | one moment more: the new one at the index `slice` clamps to (the index inside 0..len, len above it, len+i but at least 0 below 0), the others before and after it in order |
| Reducer.RemoveAt | src/components/dasboard-item.tsx:122 | `filter`: moment i is dropped if it exists and the others keep their order; an index that names no moment removes nothing |
| Reducer.MergeAt | src/components/dasboard-item.tsx:124-134 | one moment fewer: `mergeKeyMoments` of moments i and i+1 at position i, the others in order |
| Reducer.ModifyOutcome | src/components/dasboard-item.tsx:93-105 | an edit throws iff the resolver overreaches on the edited list; otherwise the invariant holds again, the cursor is kept, no covered sentence is lost, and with the overlap-only trim no other is gained |
| Reducer.AddOutcome | src/components/dasboard-item.tsx:106-114 | an insertion into the gap keeps the invariant; the covered sentences are the old ones plus the new moment's |
| Reducer.RemoveOutcome | src/components/dasboard-item.tsx:115-123 | removal keeps the invariant; with a valid cursor (or -1) and an existing moment removed, the cursor stays valid or -1; removing the only moment while it is selected leaves no moment and the cursor at -1 |
| Reducer.MergeOutcome | src/components/dasboard-item.tsx:124-134 | merging i and i+1 keeps the invariant and leaves one moment fewer; the merged moment spans the first start to the second end, joins the titles, concepts and key takeaways with ", " and is not reviewed; the moments before i and after i+1 stay as they were, in order; coverage grows by exactly the gap between the two |
| Reducer.MergeKeepsValid | src/components/dasboard-item.tsx:124-134 | a merge succeeds exactly when a moment follows index i (at any other index, -1 included, `mergeKeyMoments` reads a field of a missing moment), and every merge that succeeds keeps the invariant |
| Reducer.MarkOutcome | src/components/dasboard-item.tsx:135-141 | marking keeps the invariant and the number of moments, changes only the review flag of moment i (to reviewed), and is idempotent |
| Reducer.ReduceKeepsValid | src/components/dasboard-item.tsx:89-145 | every action that fits its state and does not throw keeps the invariant |
| Reducer.RunKeepsValid | src/components/dasboard-item.tsx:89-145 | a run of such actions ends in a state where the moments are sorted and pairwise disjoint |
| Reducer.NextAvailableRange | src/components/dasboard-item.tsx:950-955 | with no moment before the position the range starts at sentence 0, with none after it it ends at the last sentence; `InsertFillsGap` proves it is exactly the gap between the neighbours |
| Reducer.InsertFillsGap | src/components/dasboard-item.tsx:950-955 | the offered range is exactly the sentences strictly between the neighbouring moments (or the video's ends), and none of them is covered |
| Reducer.InsertKeepsValid | src/components/dasboard-item.tsx:948-979 | on a valid state, the insert button (`InsertAction`) dispatches nothing iff no sentence lies between its neighbours; what it dispatches fits and keeps the invariant |
| Reducer.InsertRefusedExample | src/components/dasboard-item.tsx:950-963 | between [0,2] and [3,5] nothing is offered; after them, [6,9] of ten sentences is |
| Reducer.BoundaryEditExample | src/components/dasboard-item.tsx:93-105 | stretching [0,1] to [0,3] next to [3,4] gives [0,3],[4,4], not one moment [0,4] |
| Reducer.EditLosesToEarlierMoment | src/components/dasboard-item.tsx:93-105 | stretching [3,4] back to [1,4] next to [0,2] is undone: the state is unchanged |
| Reducer.MergeStrandsCursor | src/components/dasboard-item.tsx:124-134 | merging the last two moments while the last is selected leaves the cursor one past the end |
| Timeline.SentenceAt | src/components/dasboard-item.tsx:372 | `findIndex`: -1 iff every sentence has ended by t; otherwise the first sentence that has not ended by t |
| Timeline.SentenceAtPlaying | src/components/dasboard-item.tsx:372 | on chronological sentences, the found sentence is the one playing at t, or the next one when t falls in a pause |
| Timeline.TimeRangeOf | src/components/dasboard-item.tsx:307-310 | the time range exists iff both sentence indices exist |
| Timeline.ActiveTimeRange | src/components/dasboard-item.tsx:302-311 | with no moment selected the range is [0, 1000] ms; with one selected it exists iff both of its sentence indices exist, and then it is not empty on chronological sentences |
| Timeline.ActiveRangeSpansMoment | src/components/dasboard-item.tsx:303-312 | with a moment selected on a valid state, the active range exists and a sentence lies inside it iff it belongs to the moment |
| Timeline.PreviousTarget | src/components/dasboard-item.tsx:367-375 | "previous" has no target exactly when the lookup gives -1 or sentence 0; a target is the start of a sentence other than the last |
| Timeline.NextTarget | src/components/dasboard-item.tsx:376-384 | "next" has no target exactly when the lookup gives -1 or the last sentence; a target is the start of a sentence other than the first |
| Timeline.PreviousMovesBack | src/components/dasboard-item.tsx:367-375 | with separated sentences, or the exclusive boundary, "previous" seeks to a time looked up one sentence earlier, and does nothing only at the first sentence or past the end |
| Timeline.NextMovesOn | src/components/dasboard-item.tsx:376-384 | with separated sentences, or the exclusive boundary, "next" seeks to a time looked up one sentence later, and does nothing only at the last sentence or past the end |
| Timeline.NextStallsAtSharedInstant | src/components/dasboard-item.tsx:376-384 | as written, when a sentence ends where the next begins, "next" from that instant seeks to the same instant |
| Timeline.PreviousStallsAtSharedInstant | src/components/dasboard-item.tsx:367-375 | as written, when sentence k ends where sentence k+1 begins, the start of k+1 is looked up as k, so "previous" from there goes to sentence k-1, and from the start of sentence 1 it does nothing |
| Timeline.PreviousStallsExample | src/components/dasboard-item.tsx:367-375 | [0,1000],[1000,2000],[2000,3000] ms: "previous" from 2500 goes to 1000 and from 1000 nowhere, so sentence 0 is never reached; with the exclusive boundary it goes on to 0 |
| Timeline.NextStallsExample | src/components/dasboard-item.tsx:376-384 | [0,1000],[1000,2000] ms: "next" from 1000 stays at 1000 as written; with the exclusive boundary 1000 is already sentence 1 |
| Timeline.PinStart | src/components/dasboard-item.tsx:385-400 | with a moment selected (and only then) the button dispatches an edit of the range alone: its start becomes the sentence found at t, its end stays |
| Timeline.PinEnd | src/components/dasboard-item.tsx:401-416 | with a moment selected (and only then) the button dispatches an edit of the range alone: its start stays, its end becomes the sentence found at t |
| Timeline.PinStartFits | src/components/dasboard-item.tsx:385-400 | on a valid state with a moment selected, pinning the start dispatches an edit, and that edit meets `Fits` (the condition under which `ReduceKeepsValid` guarantees the invariant) iff `findIndex` finds a sentence at t no later than the moment's end |
| Timeline.PinEndFits | src/components/dasboard-item.tsx:401-416 | on a valid state with a moment selected, pinning the end dispatches an edit, and that edit meets `Fits` iff the sentence found at t is no earlier than the moment's start |
| Grouping.Groups | src/components/dasboard-item.tsx:606-636 | the grouping the loop computes (no sentences give no groups); its promises are stated by `GroupsPartition`, `GroupsTagged` and `GroupsAlternate` |
| Grouping.GroupSentences | src/components/dasboard-item.tsx:606-636 | the loop computes `Groups`; the groups hold every sentence once, in order, and none is empty |
| Grouping.GroupsPartition | src/components/dasboard-item.tsx:606-636 | for any moments, flattening the groups gives every sentence with its index, in order; no group is empty |
| Grouping.GroupsTagged | src/components/dasboard-item.tsx:617-631 | on ordered moments inside the sentences, each group is tagged with the moment holding its sentences, or -1; as written this needs every moment to span two sentences or more |
| Grouping.GroupsAlternate | src/components/dasboard-item.tsx:610-634 | neighbouring groups have different tags: a moment, or a stretch outside all moments, is never split over two adjacent groups |
| Grouping.SingleSentenceMomentExample | src/components/dasboard-item.tsx:617-631 | as written, a one-sentence moment [0,0] pulls sentences 1 and 2, which no moment holds, into its group |
| Playback.Controller.constructor | src/components/dasboard-item.tsx:313-316 | the controller starts idle, with both flags clear and the position at 0 |
| Playback.Controller.PlayButton | src/components/dasboard-item.tsx:443-453 | arms key-moment mode; a position outside the active range moves to its start, so it lies inside the range |
| Playback.Controller.OnPlay | src/components/dasboard-item.tsx:329-337 | a play event is scoped iff it was armed, and disarms; otherwise playback is unconstrained |
| Playback.Controller.OnPause | src/components/dasboard-item.tsx:338 | a pause event from any phase makes it idle |
| Playback.Controller.OnTimeUpdate | src/components/dasboard-item.tsx:351-360 | the slider follows the position; a pause is requested iff in key-moment mode at or past the range end, and then the position goes back to the range start, which is before the end |
| Playback.Controller.Restart | src/components/dasboard-item.tsx:462-465 | the position moves to the start of the active range |
| Playback.Controller.SliderSeek | src/components/dasboard-item.tsx:318-323 | the slider and the video move to the value |
| Playback.Controller.Previous | src/components/dasboard-item.tsx:367-375 | the position moves to the previous sentence's start when there is one; with separated sentences it is then looked up one sentence earlier |
| Playback.Controller.Next | src/components/dasboard-item.tsx:376-384 | the position moves to the next sentence's start when there is one; with separated sentences it is then looked up one sentence later |

## Left out

- Fetching the JSON files (`getVideoInfo`, `getSentences`, `getKeyMoments`) is I/O. The model takes the decoded JSON records as values.
- Floating point: times are integer milliseconds, and the video's `currentTime` is an integer. The source sums `hh*3600 + mm*60 + ss + ms/1000` as an IEEE double, so a time such as 83.456 s is not exact there, while the model's 83456 ms is; the rounding of that sum is not modelled.
- Loader.ParseInt: it skips tab, line feed, vertical tab, form feed, carriage return, space, U+00A0, U+2028, U+2029 and U+FEFF. The other Unicode space separators are not modelled.
- Loader.ParseTimecode: a NaN field makes the whole timecode a `NotANumber` failure instead of a NaN number carried into the time range. Through `Collect`, one such timecode makes the whole of `ParseSentencesJson` fail, where the source keeps the NaN in that one sentence and decodes the others.
- Resolver.PreventRangeOverlap: the source sorts the caller's array in place and trims `stack[0]` through a shared reference. This mutates moment objects the previous React state still holds. The model works on values and does not capture that aliasing.
- Sorting.SortBy: `json.sort` in the loader (src/lib/loader.ts:60) reorders the parsed array in place; the model returns a new sorted sequence, so it does not capture that the caller's array itself is reordered.
- Reducer.Reduce: a Modify with the cursor past the end is a `MissingMoment` failure. The source writes a partial record past the end (or leaves holes), which the resolver then reads.
- Reducer.Reduce: a merge at an index outside 0..len-2 is one `MissingMoment` failure; the source throws a `TypeError` there (reading a field of a missing moment), and the model does not distinguish which field was read. The editor only offers merges at 0..len-2.
- The debounce of the position slider (`useDebouncedCallback`, 100 ms) is timing and is not modelled. `SliderSeek` is the debounced call.
- The key-moment range slider (lines 530-535) dispatches a Modify edit with range `[v0, v1 - 1]`. That is an ordinary `ModifyKeyMoment` in this model. The percentages for the slider track are floating-point layout and are left out.
- The progress bar of `SentenceList` (lines 589-599) is floating-point layout and is left out. Its lookup is `Timeline.SentenceAt`.
- Rendering, the editor form and its schema, saving, and the session store are out of scope. The initial state is whatever the session store holds; the invariant is assumed of it, not checked.
- A missing `video` element (the `if (!video) return` guards) is not modelled: the controller always has a video.

## Findings

| source | as written | input that shows it | evidently intended | confidence | as-written member | corrected member |
|---|---|---|---|---|---|---|
| src/components/dasboard-item.tsx:175 | after the inner loop, the first kept moment's start is set to `end + 1` even when that moment did not overlap, so it grows backwards over a gap | moments [0,5],[3,4],[10,12] (after editing the first to [0,5]) give [0,5],[6,12]: sentences 6-9, in no moment before, are now in the last | trim only a neighbour that still overlaps (start <= end), leaving [10,12] alone, so no sentence changes owner except by overlap | not executed | Resolver.ResolveGrowsAcrossGap | Resolver.ResolveCovers |
| src/components/dasboard-item.tsx:617-626 | a moment whose start equals its end matches the "start" branch, never the "end" branch, so its group is never closed and `index` never advances | three sentences, one moment [0,0]: one group tagged 0 holding sentences 0, 1 and 2 | close the group in the same iteration when the start is also the end, giving groups [0] (tag 0) and [1,2] (tag -1) | not executed | Grouping.SingleSentenceMomentExample | Grouping.GroupsTagged |
| src/components/dasboard-item.tsx:378-383 | the sentence at time t is the first whose end is >= t, so a time shared by one sentence's end and the next one's start belongs to the earlier sentence, and "next" seeks to that same time | sentences [0,1000] and [1000,2000] ms at t = 1000: `findIndex` gives 0, and "next" seeks to 1000 again, indefinitely | "next" moves one sentence on; looking a time up with `end > t` does this for every chronological transcript | not executed | Timeline.NextStallsAtSharedInstant | Timeline.NextMovesOn |
| src/components/dasboard-item.tsx:367-375 | the sentence at time t is the first whose end is >= t, so the start of a sentence that begins where the previous one ends is looked up as that previous one, and "previous" skips a sentence | sentences [0,1000], [1000,2000] and [2000,3000] ms: "previous" from 2500 seeks to 1000, which `findIndex` places in sentence 0, and "previous" from there does nothing, so sentence 0 is never reached | "previous" moves one sentence back; looking a time up with `end > t` does this for every chronological transcript | not executed | Timeline.PreviousStallsAtSharedInstant | Timeline.PreviousMovesBack |
