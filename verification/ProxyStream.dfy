/** The streaming proxy: an upstream body passed on chunk by chunk, watched for the end marker and counted
  * for tokens on the way.
  */
module ProxyStream {
  import opened Wrappers
  import opened Inflight

  type Byte = c: char | c as int < 256 witness ' '
  type Bytes = seq<Byte>

  const DONE: Bytes := "data: [DONE]"
  const FINAL: Bytes := "data: [DONE]\n\n"
  const MARKER: Bytes := "\"content\""

  /** What the upstream body stream yields. */
  datatype Item = Chunk(bytes: Bytes) | Fault(error: string)

  /** What is reported once a response is over: 200 with its figures, or 502. */
  datatype Record = Served(ttft: nat, total: nat, tokens: nat) | Failed

  // ---------------------------------------------------------------------------------------------
  // Windows of one chunk
  // ---------------------------------------------------------------------------------------------

  predicate Occurs(p: Bytes, body: Bytes, i: nat) {
    i + |p| <= |body| && body[i..i + |p|] == p
  }

  function Occurrences(p: Bytes, body: Bytes): set<nat> {
    set i: nat | i <= |body| && Occurs(p, body, i)
  }

  /** How many windows of the chunk equal the pattern. */
  function CountWindows(p: Bytes, chunk: Bytes): nat {
    if |chunk| < |p| || chunk == [] then 0
    else CountWindows(p, chunk[..|chunk| - 1]) + if chunk[|chunk| - |p|..] == p then 1 else 0
  }

  predicate ContainsDone(chunk: Bytes) {
    exists i: nat | i <= |chunk| :: Occurs(DONE, chunk, i)
  }

  lemma OccursInPrefix(p: Bytes, body: Bytes, chunk: Bytes, i: nat)
    requires i + |p| <= |body|
    ensures Occurs(p, body + chunk, i) <==> Occurs(p, body, i)
  {
    assert (body + chunk)[i..i + |p|] == body[i..i + |p|];
  }

  /** The occurrences that start in `chunk`, wherever in a body the chunk lies. */
  ghost function Late(p: Bytes, body: Bytes, chunk: Bytes): set<nat> {
    set i | i in Occurrences(p, body + chunk) && |body| <= i
  }

  lemma {:induction false} CountIsOccurrences(p: Bytes, body: Bytes, chunk: Bytes)
    requires p != []
    ensures CountWindows(p, chunk) == |Late(p, body, chunk)|
  {
    if |chunk| < |p| {
      assert Late(p, body, chunk) == {};
    } else {
      CountIsOccurrences(p, body, chunk[..|chunk| - 1]);
      LateStep(p, body, chunk);
    }
  }

  lemma LateStep(p: Bytes, body: Bytes, chunk: Bytes)
    requires p != [] && |p| <= |chunk|
    ensures var last := |body| + |chunk| - |p|;
            && last !in Late(p, body, chunk[..|chunk| - 1])
            && Late(p, body, chunk)
               == Late(p, body, chunk[..|chunk| - 1]) + if chunk[|chunk| - |p|..] == p then {last} else {}
  {
    var n, last := |chunk| - 1, |body| + |chunk| - |p|;
    var init := body + chunk[..n];
    assert body + chunk == init + [chunk[n]];
    assert (body + chunk)[last..last + |p|] == chunk[|chunk| - |p|..];
    forall i: nat | i != last ensures Occurs(p, body + chunk, i) <==> Occurs(p, init, i) {
      if i + |p| <= |init| {
        OccursInPrefix(p, init, [chunk[n]], i);
      }
    }
  }

  lemma CountAlone(p: Bytes, chunk: Bytes)
    requires p != []
    ensures CountWindows(p, chunk) == |Occurrences(p, chunk)|
  {
    CountIsOccurrences(p, [], chunk);
    assert [] + chunk == chunk;
    assert Late(p, [], chunk) == Occurrences(p, chunk);
  }

  // ---------------------------------------------------------------------------------------------
  // The automaton
  // ---------------------------------------------------------------------------------------------

  predicate SawDone(items: seq<Item>) {
    exists k | 0 <= k < |items| :: items[k].Chunk? && ContainsDone(items[k].bytes)
  }

  predicate Faulted(items: seq<Item>) {
    exists k | 0 <= k < |items| :: items[k].Fault?
  }

  function CountIn(p: Bytes, item: Item): nat {
    if item.Chunk? then CountWindows(p, item.bytes) else 0
  }

  function CountChunks(p: Bytes, items: seq<Item>): nat {
    if items == [] then 0 else CountChunks(p, items[..|items| - 1]) + CountIn(p, items[|items| - 1])
  }

  /** When the first chunk arrived; errors do not count. */
  function FirstChunkAt(items: seq<Item>, clock: nat -> nat): Option<nat> {
    if items == [] then None
    else
      match FirstChunkAt(items[..|items| - 1], clock)
      case Some(t) => Some(t)
      case None => if items[|items| - 1].Chunk? then Some(clock(|items| - 1)) else None
  }

  /** All the client can read: the upstream's items in order, then the end marker if it is owed. */
  function Client(items: seq<Item>, streaming: bool): seq<Item> {
    items + if streaming && !SawDone(items) then [Chunk(FINAL)] else []
  }

  /** Every item the upstream yields reaches the client, errors too, in its place; after them comes nothing, or
    * in streaming mode at most one more item, which is the marker.
    */
  lemma ClientReads(items: seq<Item>, streaming: bool)
    ensures items <= Client(items, streaming)
    ensures !streaming ==> Client(items, streaming) == items
    ensures |Client(items, streaming)| <= |items| + 1
    ensures |Client(items, streaming)| == |items| + 1 ==> Client(items, streaming)[|items|] == Chunk("data: [DONE]\n\n")
  {
  }

  /** The one record of a response read to its end at time `now`. */
  function Outcome(items: seq<Item>, streaming: bool, header: Option<nat>, clock: nat -> nat, now: nat): Record {
    if Faulted(items) then Failed
    else
      Served(match FirstChunkAt(items, clock) case Some(t) => t case None => now,
             now,
             if streaming then CountChunks(MARKER, items) else match header case Some(n) => n case None => 0)
  }

  /** The position of the first chunk. */
  predicate FirstChunk(items: seq<Item>, k: nat) {
    k < |items| && items[k].Chunk? && forall j | 0 <= j < k :: items[j].Fault?
  }

  lemma {:induction false} FirstChunkAtIff(items: seq<Item>, clock: nat -> nat)
    ensures forall k: nat | FirstChunk(items, k) :: FirstChunkAt(items, clock) == Some(clock(k))
    ensures FirstChunkAt(items, clock) == None <==> forall j | 0 <= j < |items| :: items[j].Fault?
  {
    if items != [] {
      var init := items[..|items| - 1];
      FirstChunkAtIff(init, clock);
      forall k: nat | FirstChunk(items, k) ensures FirstChunkAt(items, clock) == Some(clock(k)) {
        if k < |init| {
          assert FirstChunk(init, k);
        } else {
          assert forall j | 0 <= j < |init| :: init[j].Fault?;
        }
      }
      assert forall j | 0 <= j < |init| :: init[j] == items[j];
    }
  }

  /** What is recorded: 502 exactly when some item was an error; otherwise the time of the first chunk, or of
    * the end when there was none, the time of the end, and as tokens the markers counted in a streamed
    * response and the upstream's own figure, or zero, in another.
    */
  lemma OutcomeIs(items: seq<Item>, streaming: bool, header: Option<nat>, clock: nat -> nat, now: nat)
    ensures var r := Outcome(items, streaming, header, clock, now);
            && (r == Failed <==> exists k :: 0 <= k < |items| && items[k].Fault?)
            && (r.Served? ==>
                  && r.total == now
                  && (items == [] ==> r.ttft == now)
                  && (items != [] ==> r.ttft == clock(0))
                  && (streaming ==> r.tokens == CountChunks(MARKER, items))
                  && (!streaming ==> r.tokens == if header.Some? then header.value else 0))
  {
    FirstChunkAtIff(items, clock);
    if items != [] && !Faulted(items) {
      assert FirstChunk(items, 0);
    }
  }

  function Past(items: seq<Item>, polls: nat): seq<Item> {
    if polls <= |items| then items[..polls] else items
  }

  lemma PastStep(items: seq<Item>, polls: nat, clock: nat -> nat)
    requires polls < |items|
    ensures var past, item, next := Past(items, polls), items[polls], Past(items, polls + 1);
            && next == past + [item]
            && (SawDone(next) <==> SawDone(past) || (item.Chunk? && ContainsDone(item.bytes)))
            && (Faulted(next) <==> Faulted(past) || item.Fault?)
            && CountChunks(MARKER, next) == CountChunks(MARKER, past) + CountIn(MARKER, item)
            && FirstChunkAt(next, clock)
               == if FirstChunkAt(past, clock).Some? || item.Fault? then FirstChunkAt(past, clock) else Some(clock(polls))
  {
    var past, item, next := Past(items, polls), items[polls], Past(items, polls + 1);
    assert next[..|next| - 1] == past && next[polls] == item;
    assert forall k | 0 <= k < polls :: next[k] == past[k];
  }

  lemma AllPast(items: seq<Item>, polls: nat, streaming: bool)
    requires |items| <= polls && polls <= |Client(items, streaming)|
    ensures Past(items, polls) == items && Past(items, polls + 1) == items
    ensures polls == |Client(items, streaming)| <==> streaming ==> SawDone(items) || polls > |items|
  {
  }

  class ProxyStreamState {
    var inner: seq<Item>
    var doneSeen: bool
    var firstChunkAfter: Option<nat>
    var tokens: nat
    var errored: bool
    /** What has been reported so far. */
    var records: seq<Record>
    const streaming: bool
    const completionTokens: Option<nat>
    const guard: InflightGuard

    constructor (upstream: seq<Item>, guard: InflightGuard, completionTokens: Option<nat>, streaming: bool, ghost clock: nat -> nat)
      ensures this.guard == guard && this.streaming == streaming && this.completionTokens == completionTokens
      ensures At(upstream, 0, clock)
    {
      inner := upstream;
      doneSeen := false;
      firstChunkAfter := None;
      tokens := 0;
      errored := false;
      records := [];
      this.streaming := streaming;
      this.completionTokens := completionTokens;
      this.guard := guard;
    }

    /** The state after `polls` polls that all yielded an item. */
    ghost predicate At(items: seq<Item>, polls: nat, clock: nat -> nat)
      reads this
    {
      var past := Past(items, polls);
      && polls <= |Client(items, streaming)|
      && inner == items[|past|..]
      && doneSeen == (streaming && (SawDone(past) || polls > |items|))
      && tokens == (if streaming then CountChunks(MARKER, past) else 0)
      && errored == Faulted(past)
      && firstChunkAfter == FirstChunkAt(past, clock)
      && records == []
    }

    /** One poll: the next item of `Client`, or the end, at which the outcome is recorded and the guard goes
      * with the state that held it.
      */
    method Poll(now: nat, ghost items: seq<Item>, ghost polls: nat, ghost clock: nat -> nat) returns (item: Option<Item>)
      requires At(items, polls, clock) && now == clock(polls)
      modifies this, guard.tracker
      ensures polls < |items| ==> item == Some(items[polls])
      ensures polls < |Client(items, streaming)| ==>
                && item == Some(Client(items, streaming)[polls])
                && At(items, polls + 1, clock)
                && guard.tracker.counts == old(guard.tracker.counts)
      ensures polls == |Client(items, streaming)| ==>
                && item == None
                && records == [Outcome(items, streaming, completionTokens, clock, now)]
                && guard.tracker.counts == Apply(old(guard.tracker.counts), Release(guard.worker))
    {
      if inner != [] {
        var next := PassOn(now, items, polls, clock);
        item := Some(next);
      } else {
        AllPast(items, polls, streaming);
        if streaming && !doneSeen {
          doneSeen := true;
          item := Some(Chunk(FINAL));
        } else {
          Finish(now);
          item := None;
        }
      }
    }

    /** An upstream item goes through. */
    method PassOn(now: nat, ghost items: seq<Item>, ghost polls: nat, ghost clock: nat -> nat) returns (item: Item)
      requires At(items, polls, clock) && now == clock(polls) && polls < |items|
      modifies this
      ensures item == items[polls] && At(items, polls + 1, clock)
    {
      PastStep(items, polls, clock);
      item := inner[0];
      inner := inner[1..];
      match item {
        case Chunk(bytes) => Note(bytes, now);
        case Fault(_) => errored := true;
      }
    }

    /** What is taken from a chunk on its way through. */
    method Note(bytes: Bytes, now: nat)
      modifies this
      ensures inner == old(inner) && errored == old(errored) && records == old(records)
      ensures firstChunkAfter == if old(firstChunkAfter).None? then Some(now) else old(firstChunkAfter)
      ensures doneSeen == (old(doneSeen) || (streaming && ContainsDone(bytes)))
      ensures tokens == old(tokens) + if streaming then CountWindows(MARKER, bytes) else 0
    {
      if firstChunkAfter.None? {
        firstChunkAfter := Some(now);
      }
      if streaming && !doneSeen && ContainsDone(bytes) {
        doneSeen := true;
      }
      if streaming {
        tokens := tokens + CountWindows(MARKER, bytes);
      }
    }

    /** The end: report, and let go of the guard. */
    method Finish(now: nat)
      modifies this, guard.tracker
      ensures records == old(records)
                + [if old(errored) then Failed
                   else Served(match old(firstChunkAfter) case Some(t) => t case None => now,
                               now,
                               if streaming then old(tokens) else match completionTokens case Some(n) => n case None => 0)]
      ensures guard.tracker.counts == Apply(old(guard.tracker.counts), Release(guard.worker))
    {
      if errored {
        records := records + [Failed];
      } else {
        var ttft := match firstChunkAfter case Some(t) => t case None => now;
        var count := if streaming then tokens else match completionTokens case Some(n) => n case None => 0;
        records := records + [Served(ttft, now, count)];
      }
      guard.Drop();
    }
  }

  /** A client that polls at most `limit` times and then goes away. It has read the first items of
    * `Client`; exactly one record is made if it read to the end and none otherwise; the guard is dropped
    * exactly once either way.
    */
  method Drain(state: ProxyStreamState, limit: nat, clock: nat -> nat, ghost items: seq<Item>) returns (out: seq<Item>)
    requires state.At(items, 0, clock)
    modifies state, state.guard.tracker
    ensures var all := Client(items, state.streaming);
            && out == (if limit <= |all| then all[..limit] else all)
            && state.records == (if limit <= |all| then []
                                 else [Outcome(items, state.streaming, state.completionTokens, clock, clock(|all|))])
    ensures forall k | 0 <= k < |out| && k < |items| :: out[k] == items[k]
    ensures !state.streaming ==> out <= items
    ensures state.guard.tracker.counts == Apply(old(state.guard.tracker.counts), Release(state.guard.worker))
  {
    out := [];
    ghost var all := Client(items, state.streaming);
    ClientReads(items, state.streaming);
    while |out| < limit
      invariant |out| <= |all| && |out| <= limit && out == all[..|out|]
      invariant state.At(items, |out|, clock)
      invariant state.guard.tracker.counts == old(state.guard.tracker.counts)
    {
      var item := state.Poll(clock(|out|), items, |out|, clock);
      if item.None? {
        return;
      }
      out := out + [item.value];
    }
    state.guard.Drop();
  }

  // ---------------------------------------------------------------------------------------------
  // Chunks against the body they add up to
  // ---------------------------------------------------------------------------------------------

  function BytesOf(item: Item): Bytes {
    if item.Chunk? then item.bytes else []
  }

  function Body(items: seq<Item>): Bytes {
    if items == [] then [] else Body(items[..|items| - 1]) + BytesOf(items[|items| - 1])
  }

  /** Where the `k`-th item ends in the body. */
  ghost function Cut(items: seq<Item>, k: nat): nat
    requires k <= |items|
  {
    |Body(items[..k])|
  }

  /** Some chunk ends inside the `n` bytes from `i` on. */
  ghost predicate Split(items: seq<Item>, i: nat, n: nat) {
    exists k | 0 <= k <= |items| :: i < Cut(items, k) < i + n
  }

  ghost function Straddling(p: Bytes, items: seq<Item>): set<nat> {
    set i | i in Occurrences(p, Body(items)) && Split(items, i, |p|)
  }

  ghost function Crossing(p: Bytes, body: Bytes, chunk: Bytes): set<nat> {
    set i | i in Occurrences(p, body + chunk) && i < |body| < i + |p|
  }

  /** Counting chunk by chunk misses exactly the occurrences split between chunks. */
  lemma {:induction false} ChunksMissStraddlers(p: Bytes, items: seq<Item>)
    requires p != []
    ensures CountChunks(p, items) + |Straddling(p, items)| == |Occurrences(p, Body(items))|
  {
    if items == [] {
      assert Occurrences(p, Body(items)) == {} && Straddling(p, items) == {};
    } else {
      var init, chunk := items[..|items| - 1], BytesOf(items[|items| - 1]);
      ChunksMissStraddlers(p, init);
      CountIsOccurrences(p, Body(init), chunk);
      OccurrencesStep(p, Body(init), chunk);
      StraddlingStep(p, items);
      assert CountIn(p, items[|items| - 1]) == CountWindows(p, chunk);
    }
  }

  lemma {:induction false} CutsGrow(items: seq<Item>, k: nat)
    requires k <= |items|
    ensures Cut(items, k) <= |Body(items)|
  {
    var n := |items| - 1;
    if k == |items| {
      assert items[..k] == items;
    } else {
      CutsGrow(items[..n], k);
      assert items[..k] == items[..n][..k];
    }
  }

  /** A window inside the body before the last item is split as it was; one across the seam is split; one
    * after it is not.
    */
  lemma SplitStep(items: seq<Item>, i: nat, n: nat)
    requires items != []
    ensures var init := items[..|items| - 1];
            && (i + n <= |Body(init)| ==> (Split(items, i, n) <==> Split(init, i, n)))
            && (i < |Body(init)| < i + n ==> Split(items, i, n))
            && (|Body(init)| <= i && i + n <= |Body(items)| ==> !Split(items, i, n))
  {
    var init := items[..|items| - 1];
    forall k: nat | k <= |init| ensures Cut(items, k) == Cut(init, k) <= |Body(init)| {
      assert items[..k] == init[..k];
      CutsGrow(init, k);
    }
    assert Cut(init, |init|) == |Body(init)| by {
      assert init[..|init|] == init;
    }
    assert Cut(items, |items|) == |Body(items)| by {
      assert items[..|items|] == items;
    }
  }

  lemma StraddlingStep(p: Bytes, items: seq<Item>)
    requires p != [] && items != []
    ensures var init, chunk := items[..|items| - 1], BytesOf(items[|items| - 1]);
            && Straddling(p, items) == Straddling(p, init) + Crossing(p, Body(init), chunk)
            && Straddling(p, init) !! Crossing(p, Body(init), chunk)
  {
    var init, chunk := items[..|items| - 1], BytesOf(items[|items| - 1]);
    assert Body(items) == Body(init) + chunk;
    forall i: nat
      ensures i in Straddling(p, items) <==> i in Straddling(p, init) || i in Crossing(p, Body(init), chunk)
    {
      SplitStep(items, i, |p|);
      if i + |p| <= |Body(init)| {
        OccursInPrefix(p, Body(init), chunk, i);
      }
    }
  }

  /** The occurrences in `body + chunk`: those within `body`, those across the seam, those within `chunk`. */
  lemma OccurrencesStep(p: Bytes, body: Bytes, chunk: Bytes)
    requires p != []
    ensures |Occurrences(p, body + chunk)|
            == |Occurrences(p, body)| + |Crossing(p, body, chunk)| + |Late(p, body, chunk)|
  {
    forall i: nat | i + |p| <= |body| ensures Occurs(p, body + chunk, i) <==> Occurs(p, body, i) {
      OccursInPrefix(p, body, chunk, i);
    }
    assert Occurrences(p, body + chunk) == Occurrences(p, body) + Crossing(p, body, chunk) + Late(p, body, chunk);
  }

  // ---------------------------------------------------------------------------------------------
  // The end marker
  // ---------------------------------------------------------------------------------------------

  lemma ContainsIffOccurs(chunk: Bytes)
    ensures ContainsDone(chunk) <==> Occurrences(DONE, chunk) != {}
  {
    if ContainsDone(chunk) {
      var i: nat :| i <= |chunk| && Occurs(DONE, chunk, i);
      assert i in Occurrences(DONE, chunk);
    }
  }

  lemma {:induction false} SawDoneIsCounted(items: seq<Item>)
    ensures SawDone(items) <==> CountChunks(DONE, items) > 0
  {
    if items != [] {
      var init, item := items[..|items| - 1], items[|items| - 1];
      SawDoneIsCounted(init);
      if item.Chunk? {
        CountAlone(DONE, item.bytes);
        ContainsIffOccurs(item.bytes);
      }
      assert forall k | 0 <= k < |init| :: items[k] == init[k];
    }
  }

  /** The end marker is added exactly when streaming and every marker the upstream sent, if it sent any,
    * was split between chunks.
    */
  lemma MarkerAddedIff(items: seq<Item>, streaming: bool)
    ensures |Client(items, streaming)| == |items| + 1
            <==> streaming && Occurrences(DONE, Body(items)) <= Straddling(DONE, items)
  {
    SawDoneIsCounted(items);
    ChunksMissStraddlers(DONE, items);
    var all, split := Occurrences(DONE, Body(items)), Straddling(DONE, items);
    if all <= split {
      assert all == split;
    } else {
      assert split < all;
      SmallerSubset(split, all);
    }
  }

  lemma {:induction false} SmallerSubset(a: set<nat>, b: set<nat>)
    requires a < b
    ensures |a| < |b|
  {
    assert b == a + (b - a) && b - a != {};
  }

  /** How many end markers reach the client: those the upstream sent, and one more when all of those were
    * split. So a streaming client always gets at least one, and gets one too many exactly when the
    * upstream's were all split and there was one.
    */
  lemma MarkersReceived(items: seq<Item>)
    ensures var sent := Occurrences(DONE, Body(items));
            && |Occurrences(DONE, Body(Client(items, true)))|
               == |sent| + (if sent <= Straddling(DONE, items) then 1 else 0)
            && Occurrences(DONE, Body(Client(items, true))) != {}
  {
    MarkerAddedIff(items, true);
    var sent, all := Occurrences(DONE, Body(items)), Client(items, true);
    if !SawDone(items) {
      assert all[..|all| - 1] == items;
      OccurrencesStep(DONE, Body(items), FINAL);
      CountIsOccurrences(DONE, Body(items), FINAL);
      CountAlone(DONE, FINAL);
      MarkerDoesNotOverlap(Body(items));
      OneFinal();
    } else {
      assert all == items;
      assert sent != {};
    }
  }

  lemma OneFinal()
    ensures |Occurrences(DONE, FINAL)| == 1
    ensures forall i: nat :: Occurs(DONE, FINAL, i) <==> i == 0
  {
    assert Occurs(DONE, FINAL, 0);
    forall i: nat | Occurs(DONE, FINAL, i) ensures i == 0 {
      assert FINAL[i..i + 12][0] == FINAL[i];
    }
    assert Occurrences(DONE, FINAL) == {0};
  }

  /** The marker starts with a byte it has nowhere else, so none can run into an added one. */
  lemma MarkerDoesNotOverlap(body: Bytes)
    ensures Crossing(DONE, body, FINAL) == {}
  {
    assert forall j | 0 < j < |DONE| :: DONE[j] != FINAL[0];
    forall i: nat | i < |body| < i + |DONE| && |body| < |body + FINAL| && i + |DONE| <= |body + FINAL|
      ensures !Occurs(DONE, body + FINAL, i)
    {
      assert (body + FINAL)[i..i + |DONE|][|body| - i] == FINAL[0];
    }
  }

  predicate EndsWith(body: Bytes, s: Bytes) {
    |s| <= |body| && body[|body| - |s|..] == s
  }

  /** The last thing in the body, line ends aside, is the marker. */
  predicate Terminated(body: Bytes) {
    exists i: nat | i < |body| :: Occurs(DONE, body, i) && forall j | i + |DONE| <= j < |body| :: body[j] in ['\n', '\r']
  }

  /** When the client's stream ends with the marker: exactly when it was added, or the upstream's own body
    * ends with it; read strictly, with the blank line after it, or leniently.
    */
  lemma EndsWithMarkerIff(items: seq<Item>)
    ensures var added := Occurrences(DONE, Body(items)) <= Straddling(DONE, items);
            && (EndsWith(Body(Client(items, true)), FINAL) <==> added || EndsWith(Body(items), FINAL))
            && (Terminated(Body(Client(items, true))) <==> added || Terminated(Body(items)))
  {
    MarkerAddedIff(items, true);
    var all := Client(items, true);
    if |all| == |items| + 1 {
      assert all[..|all| - 1] == items;
      FinalTerminates(Body(items));
    } else {
      assert all == items;
    }
  }

  /** The item added is the marker line and a blank one. */
  lemma FinalIsMarkerLine()
    ensures FINAL == DONE + "\n\n" && DONE == "data: [DONE]" && MARKER == "\"content\""
  {
  }

  lemma FinalTerminates(body: Bytes)
    ensures EndsWith(body + FINAL, FINAL) && Terminated(body + FINAL)
  {
    var i := |body|;
    assert (body + FINAL)[i..] == FINAL;
    assert (body + FINAL)[i..i + |DONE|] == FINAL[..|DONE|] == DONE;
    assert Occurs(DONE, body + FINAL, i);
  }

  /** An upstream that goes on after its marker: nothing is added, and the client's stream does not end with
    * the marker.
    */
  lemma EarlyMarkerIsNotLast(tail: Bytes)
    requires tail != [] && tail[|tail| - 1] !in ['\n', '\r', ']']
    ensures var items := [Chunk(FINAL + tail)];
            && Client(items, true) == items
            && !EndsWith(Body(Client(items, true)), FINAL)
            && !Terminated(Body(Client(items, true)))
  {
    var body := FINAL + tail;
    assert [Chunk(body)][..0] == [];
    assert Body([Chunk(body)]) == body;
    assert body[|body| - 1] == tail[|tail| - 1];
    StartsWithMarker(tail);
    assert [Chunk(body)][0].Chunk? && SawDone([Chunk(body)]);
    NotLast(body);
  }

  lemma StartsWithMarker(tail: Bytes)
    ensures ContainsDone(FINAL + tail)
  {
    assert (FINAL + tail)[0..0 + |DONE|] == FINAL[..|DONE|] == DONE;
    assert Occurs(DONE, FINAL + tail, 0);
  }

  /** The marker ends in a bracket and `FINAL` in a line end. */
  lemma NotLast(body: Bytes)
    requires body != [] && body[|body| - 1] !in ['\n', '\r', ']']
    ensures !EndsWith(body, FINAL) && !Terminated(body)
  {
    var last := |body| - 1;
    forall i: nat | Occurs(DONE, body, i) ensures i + |DONE| <= last {
      assert body[i..i + |DONE|][|DONE| - 1] == ']';
    }
    assert FINAL[|FINAL| - 1] == '\n';
    assert |FINAL| <= |body| ==> body[|body| - |FINAL|..][|FINAL| - 1] == body[last];
  }

  lemma TwoChunks(a: Bytes, b: Bytes)
    ensures Body([Chunk(a), Chunk(b)]) == a + b
    ensures Cut([Chunk(a), Chunk(b)], 1) == |a|
  {
    var items := [Chunk(a), Chunk(b)];
    assert items[..1] == [Chunk(a)] && items[..1][..0] == [];
    assert Body([Chunk(a)]) == a;
  }

  /** A marker sent in two chunks, wherever it is cut, reaches the client and is then sent a second time. */
  lemma SplitMarkerSentTwice(a: Bytes, b: Bytes)
    requires a + b == FINAL && 0 < |a| < |DONE|
    ensures Client([Chunk(a), Chunk(b)], true) == [Chunk(a), Chunk(b), Chunk(FINAL)]
    ensures |Occurrences(DONE, Body(Client([Chunk(a), Chunk(b)], true)))| == 2
  {
    var items := [Chunk(a), Chunk(b)];
    TwoChunks(a, b);
    OneFinal();
    assert Split(items, 0, |DONE|);
    MarkerAddedIff(items, true);
    MarkersReceived(items);
  }

  // ---------------------------------------------------------------------------------------------
  // The token total
  // ---------------------------------------------------------------------------------------------

  /** What a fault-free streamed response reports: the markers in its body less the split ones, so the
    * exact number precisely when no marker was split.
    */
  lemma ReportedTokens(items: seq<Item>, header: Option<nat>, clock: nat -> nat, now: nat)
    requires !Faulted(items)
    ensures var r := Outcome(items, true, header, clock, now);
            && r.Served?
            && r.tokens == |Occurrences(MARKER, Body(items))| - |Straddling(MARKER, items)|
            && (r.tokens == |Occurrences(MARKER, Body(items))| <==> Straddling(MARKER, items) == {})
  {
    ChunksMissStraddlers(MARKER, items);
  }
}
