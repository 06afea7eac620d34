/**
 * The track cycle for one URL (`trackPage`: validate, fetch, build the
 * snapshot, read the previous one, write the new one, diff and normalise) and
 * the sequential batch (`trackPages`), in which one URL's failure becomes an
 * `{url, error}` entry instead of ending the batch.
 *
 * The page collaborator is a `Browser` function from the URL and the refresh
 * flag to what the page handle yields; the clock is the `now` timestamp. A
 * batch gets one browser and one timestamp per position, since the world may
 * change between cycles. The storage namespace is the `Store` passed in.
 */
module TrackOrchestrator {
  import opened JsValues
  import opened KeyDeriver
  import opened TransportCodec
  import opened SnapshotStore
  import opened DeltaComputor

  /** What one opening of a page yields: its headings and HTML, and its text
      when the handle has `getText` (None when it does not); or the error the
      collaborator throws. */
  datatype Fetch =
    | Page(headings: Value, html: Value, text: Option<Value>)
    | FetchFailed(message: string)

  /** `browser.page(url, {refresh})` with the reads that follow it. */
  type Browser = (string, bool) -> Fetch

  datatype TrackResult = TrackResult(
    url: string,
    firstVisit: bool,
    snapshot: Value,
    previous: Option<Value>,  // absent on a first visit
    delta: Value)             // null or a delta object

  /** One entry of a batch: a result, or `{url, error}`. */
  datatype Item = Tracked(result: TrackResult) | Failed(url: Value, error: string)

  datatype Batch = Batch(results: seq<Item>, changes: seq<Item>)

  /** A completed call, or the message of the error it throws. */
  datatype Outcome<T> = Done(value: T) | Threw(message: string)

  const TrackPageMessage: string := "tracker.trackPage expects a URL string"
  const TrackPagesMessage: string := "tracker.trackPages expects a non-empty array of URLs"

  /** `!url || typeof url !== "string"` fails. */
  predicate IsUrl(url: Value)
  {
    url.Str? && url.s != []
  }

  /** `err && (err.message || String(err))` for a thrown `Error`: its message,
      or its name when the message is empty. */
  function ErrorText(message: string): string
  {
    if message != [] then message else "Error"
  }

  /** `typeof page.getText === "function" ? page.getText() : ""`. */
  function TextOf(text: Option<Value>): Value
  {
    match text
    case Some(t) => t
    case None => Str("")
  }

  function MakeSnapshot(url: string, headings: Value, html: Value, text: Value, fetchedAt: string): Value
  {
    Obj(map["url" := Str(url), "headings" := headings, "html" := html, "text" := text,
            "fetchedAt" := Str(fetchedAt)])
  }

  /** The compared fields of a snapshot are the values it was built from. */
  lemma SnapshotFields(url: string, headings: Value, html: Value, text: Value, fetchedAt: string)
    ensures var snapshot := MakeSnapshot(url, headings, html, text, fetchedAt);
            && Field(snapshot, "headings") == headings
            && Field(snapshot, "html") == html
            && Field(snapshot, "text") == text
  {
  }

  /** What `trackPage` returns or throws, and the records it leaves. */
  function TrackPageSpec(c: Codecs, lib: DiffLib, records: map<string, string>, url: Value,
                         browser: Browser, noRefresh: bool, now: string)
    : (Outcome<TrackResult>, map<string, string>)
  {
    if !IsUrl(url) then (Threw(TrackPageMessage), records)
    else match browser(url.s, !noRefresh)
      case FetchFailed(message) => (Threw(message), records)
      case Page(headings, html, text) =>
        var snapshot := MakeSnapshot(url.s, headings, html, TextOf(text), now);
        var previous := ReadFrom(c, records, url.s);
        var written := records[StorageKey(url.s) := Payload(c, snapshot)];
        if previous.None? || !Truthy(previous.value) then
          (Done(TrackResult(url.s, true, snapshot, None, Null)), written)
        else
          (Done(TrackResult(url.s, false, snapshot, previous, ComputeDelta(lib, previous.value, snapshot))), written)
  }

  /** `trackPage`. The previous snapshot is read before the new one is
      written, and the new one is always written. */
  method TrackPage(store: Store, c: Codecs, lib: DiffLib, url: Value, browser: Browser,
                   noRefresh: bool, now: string)
    returns (r: Outcome<TrackResult>)
    modifies store
    ensures (r, store.records) == TrackPageSpec(c, lib, old(store.records), url, browser, noRefresh, now)
  {
    if !IsUrl(url) {
      return Threw(TrackPageMessage);
    }
    var page := browser(url.s, !noRefresh);
    if page.FetchFailed? {
      return Threw(page.message);
    }
    var snapshot := MakeSnapshot(url.s, page.headings, page.html, TextOf(page.text), now);
    var previous := store.ReadPrevious(c, url.s);
    store.WriteSnapshot(c, url.s, snapshot);
    if previous.None? || !Truthy(previous.value) {
      return Done(TrackResult(url.s, true, snapshot, None, Null));
    }
    var delta := ComputeDelta(lib, previous.value, snapshot);
    r := Done(TrackResult(url.s, false, snapshot, previous, delta));
  }

  /** The entry a batch records for one call of `trackPage`: its result, or
      its error caught as `{url, error}`. */
  function ItemOf(url: Value, outcome: Outcome<TrackResult>): Item
  {
    match outcome
    case Done(result) => Tracked(result)
    case Threw(message) => Failed(url, ErrorText(message))
  }

  /** One batch step. */
  function Cycle(c: Codecs, lib: DiffLib, records: map<string, string>, url: Value,
                 browser: Browser, noRefresh: bool, now: string)
    : (Item, map<string, string>)
  {
    var (outcome, written) := TrackPageSpec(c, lib, records, url, browser, noRefresh, now);
    (ItemOf(url, outcome), written)
  }

  /** A batch step: the entry for the URL at position `i`, and the records it
      leaves, given the records before it. */
  type Step = (map<string, string>, Value, nat) -> (Item, map<string, string>)

  /** The batch loop over `urls`, in order, threading the records from one
      step to the next. */
  function Run(step: Step, records: map<string, string>, urls: seq<Value>): (seq<Item>, map<string, string>)
    decreases |urls|
  {
    if urls == [] then ([], records)
    else
      var last := |urls| - 1;
      var (items, before) := Run(step, records, urls[..last]);
      var (item, after) := step(before, urls[last], last);
      (items + [item], after)
  }

  /** The step of `trackPages`: the cycle for one URL, which sees
      `browserAt(i)` and `clockAt(i)`. */
  function BatchStep(c: Codecs, lib: DiffLib, browserAt: nat -> Browser, noRefresh: bool,
                     clockAt: nat -> string): Step
  {
    (records: map<string, string>, url: Value, i: nat) =>
      Cycle(c, lib, records, url, browserAt(i), noRefresh, clockAt(i))
  }

  /** The batch loop of `trackPages`. */
  function RunBatch(c: Codecs, lib: DiffLib, records: map<string, string>, urls: seq<Value>,
                    browserAt: nat -> Browser, noRefresh: bool, clockAt: nat -> string)
    : (seq<Item>, map<string, string>)
  {
    Run(BatchStep(c, lib, browserAt, noRefresh, clockAt), records, urls)
  }

  /** One more URL is one more step on the records the prefix left. */
  lemma RunStep(step: Step, records: map<string, string>, urls: seq<Value>, i: nat)
    requires i < |urls|
    ensures var (items, before) := Run(step, records, urls[..i]);
            var (item, after) := step(before, urls[i], i);
            Run(step, records, urls[..i + 1]) == (items + [item], after)
  {
    assert urls[..i + 1][..i] == urls[..i];
  }

  /** The `changes` filter: `item && !item.error && !item.firstVisit &&
      hasDelta(item.delta)`. An error entry has no `firstVisit` and no `delta`
      (both undefined). */
  predicate IsChange(item: Item)
  {
    match item
    case Tracked(r) => !r.firstVisit && HasDelta(r.delta)
    case Failed(_, error) => error == [] && HasDelta(Null)
  }

  /** `results.filter(...)`: only entries that pass, never more than there
      are results. */
  function Changes(results: seq<Item>): (changes: seq<Item>)
    ensures |changes| <= |results|
    ensures forall x :: x in changes ==> x in results && IsChange(x)
  {
    if results == [] then []
    else (if IsChange(results[0]) then [results[0]] else []) + Changes(results[1..])
  }

  /** What `trackPages` returns or throws, and the records it leaves. */
  function TrackPagesSpec(c: Codecs, lib: DiffLib, records: map<string, string>, urls: Value,
                          browserAt: nat -> Browser, noRefresh: bool, clockAt: nat -> string)
    : (Outcome<Batch>, map<string, string>)
  {
    if !urls.Arr? || |urls.items| == 0 then (Threw(TrackPagesMessage), records)
    else
      var (results, after) := RunBatch(c, lib, records, urls.items, browserAt, noRefresh, clockAt);
      (Done(Batch(results, Changes(results))), after)
  }

  /** One iteration of the batch loop: `trackPage` with its error caught. */
  method TrackCaught(store: Store, c: Codecs, lib: DiffLib, url: Value, browser: Browser,
                     noRefresh: bool, now: string)
    returns (item: Item)
    modifies store
    ensures (item, store.records) == Cycle(c, lib, old(store.records), url, browser, noRefresh, now)
  {
    var outcome := TrackPage(store, c, lib, url, browser, noRefresh, now);
    item := ItemOf(url, outcome);
  }

  /** `trackPages`: one cycle per URL, strictly in order. */
  method TrackPages(store: Store, c: Codecs, lib: DiffLib, urls: Value,
                    browserAt: nat -> Browser, noRefresh: bool, clockAt: nat -> string)
    returns (r: Outcome<Batch>)
    modifies store
    ensures (r, store.records)
         == TrackPagesSpec(c, lib, old(store.records), urls, browserAt, noRefresh, clockAt)
  {
    if !urls.Arr? || |urls.items| == 0 {
      return Threw(TrackPagesMessage);
    }
    var items := urls.items;
    ghost var step := BatchStep(c, lib, browserAt, noRefresh, clockAt);
    var results: seq<Item> := [];
    var i := 0;
    while i < |items|
      invariant 0 <= i <= |items|
      invariant results == Run(step, old(store.records), items[..i]).0
      invariant store.records == Run(step, old(store.records), items[..i]).1
    {
      ghost var before := store.records;
      var item := TrackCaught(store, c, lib, items[i], browserAt(i), noRefresh, clockAt(i));
      assert (item, store.records) == step(before, items[i], i);
      RunStep(step, old(store.records), items, i);
      results := results + [item];
      i := i + 1;
    }
    assert items[..i] == items;
    r := Done(Batch(results, Changes(results)));
  }

  // ---------------------------------------------------------------------------
  // Lemmas about one cycle

  /** The outcome of one cycle: a URL that is not a non-empty string, or a
      failing fetch, throws and writes nothing; otherwise the new snapshot is
      written under the URL's key and nothing else changes; it is a first
      visit, without `previous` and with a null delta, exactly when nothing
      truthy could be read; otherwise `previous` is what was read and the
      delta is null or satisfies `hasDelta`. */
  lemma TrackPageOutcome(c: Codecs, lib: DiffLib, records: map<string, string>, url: Value,
                         browser: Browser, noRefresh: bool, now: string)
    ensures var (r, written) := TrackPageSpec(c, lib, records, url, browser, noRefresh, now);
      && (!IsUrl(url) ==> r == Threw(TrackPageMessage) && written == records)
      && (IsUrl(url) && browser(url.s, !noRefresh).FetchFailed? ==> r.Threw? && written == records)
      && (r.Done? ==>
            var res := r.value;
            var previous := ReadFrom(c, records, url.s);
            && IsUrl(url) && res.url == url.s
            && written == records[StorageKey(url.s) := Payload(c, res.snapshot)]
            && (res.firstVisit <==> previous.None? || !Truthy(previous.value))
            && (res.firstVisit ==> res.delta == Null && res.previous.None?)
            && (!res.firstVisit ==> res.previous == previous)
            && (res.delta == Null || HasDelta(res.delta)))
  {
    var (r, written) := TrackPageSpec(c, lib, records, url, browser, noRefresh, now);
    if r.Done? && !r.value.firstVisit {
      NormalizeSound(RawDelta(lib, r.value.previous.value, r.value.snapshot));
    }
  }

  /** A result of a cycle is a change exactly when it is not a first visit and
      its delta is populated. */
  lemma TrackedIsChange(c: Codecs, lib: DiffLib, records: map<string, string>, url: Value,
                        browser: Browser, noRefresh: bool, now: string)
    requires TrackPageSpec(c, lib, records, url, browser, noRefresh, now).0.Done?
    ensures var res := TrackPageSpec(c, lib, records, url, browser, noRefresh, now).0.value;
            IsChange(Tracked(res)) <==> !res.firstVisit && res.delta != Null
  {
    TrackPageOutcome(c, lib, records, url, browser, noRefresh, now);
    HasDeltaFields(Null, Null, Null);
  }

  /** Two cycles for the same URL: the second one reads what the first one
      wrote, so it is no first visit and its `previous` is the first snapshot
      (given lossless base64 and JSON collaborators). */
  lemma SecondVisitSeesFirst(c: Codecs, lib: DiffLib, records: map<string, string>, url: Value,
                             browser1: Browser, now1: string, browser2: Browser, now2: string,
                             noRefresh: bool)
    requires LosslessBase64(c) && LosslessJson(c)
    requires IsUrl(url) && browser1(url.s, !noRefresh).Page? && browser2(url.s, !noRefresh).Page?
    ensures var (first, written) := TrackPageSpec(c, lib, records, url, browser1, noRefresh, now1);
            var second := TrackPageSpec(c, lib, written, url, browser2, noRefresh, now2).0;
            && first.Done? && second.Done?
            && !second.value.firstVisit
            && second.value.previous == Some(first.value.snapshot)
  {
    var (first, written) := TrackPageSpec(c, lib, records, url, browser1, noRefresh, now1);
    CycleSnapshot(c, lib, records, url, browser1, noRefresh, now1);
    TrackPageOutcome(c, lib, records, url, browser1, noRefresh, now1);
    var snapshot := first.value.snapshot;
    assert Truthy(snapshot);
    WriteThenRead(c, records, url.s, snapshot);
    assert ReadFrom(c, written, url.s) == Some(snapshot);
    CycleSnapshot(c, lib, written, url, browser2, noRefresh, now2);
    TrackPageOutcome(c, lib, written, url, browser2, noRefresh, now2);
  }

  /** A successful cycle's snapshot is built from what the page yielded at
      `now`, and a repeat visit's delta compares the stored snapshot with it. */
  lemma CycleSnapshot(c: Codecs, lib: DiffLib, records: map<string, string>, url: Value,
                      browser: Browser, noRefresh: bool, now: string)
    requires IsUrl(url) && browser(url.s, !noRefresh).Page?
    ensures var r := TrackPageSpec(c, lib, records, url, browser, noRefresh, now).0;
            var page := browser(url.s, !noRefresh);
            && r.Done?
            && r.value.snapshot == MakeSnapshot(url.s, page.headings, page.html, TextOf(page.text), now)
            && (!r.value.firstVisit ==> r.value.delta == ComputeDelta(lib, r.value.previous.value, r.value.snapshot))
  {
  }

  /** A first visit that reads back: after a first visit, fetching the same
      content again reports no delta, provided the diff collaborator reports
      identical inputs as falsy (`headings`) or as falsy or an empty array
      (`html`, `text`). */
  lemma UnchangedSecondVisit(c: Codecs, lib: DiffLib, records: map<string, string>, url: Value,
                             page: Fetch, now1: string, now2: string, noRefresh: bool)
    requires LosslessBase64(c) && LosslessJson(c)
    requires IsUrl(url) && page.Page?
    requires !Truthy(lib.diff(page.headings, page.headings))
    requires !NonEmptyDiff(TextDiff(lib, lib.diff(page.html, page.html)))
    requires !NonEmptyDiff(TextDiff(lib, lib.diff(TextOf(page.text), TextOf(page.text))))
    ensures var browser: Browser := (_, _) => page;
            var written := TrackPageSpec(c, lib, records, url, browser, noRefresh, now1).1;
            var second := TrackPageSpec(c, lib, written, url, browser, noRefresh, now2).0;
            second.Done? && !second.value.firstVisit && second.value.delta == Null
  {
    var browser: Browser := (_, _) => page;
    var written := TrackPageSpec(c, lib, records, url, browser, noRefresh, now1).1;
    var second := TrackPageSpec(c, lib, written, url, browser, noRefresh, now2).0;
    var previous := MakeSnapshot(url.s, page.headings, page.html, TextOf(page.text), now1);
    var current := MakeSnapshot(url.s, page.headings, page.html, TextOf(page.text), now2);
    assert && second.Done? && !second.value.firstVisit
           && second.value.delta == ComputeDelta(lib, previous, current) by {
      SecondVisitSeesFirst(c, lib, records, url, browser, now1, browser, now2, noRefresh);
      CycleSnapshot(c, lib, records, url, browser, noRefresh, now1);
      CycleSnapshot(c, lib, written, url, browser, noRefresh, now2);
    }
    SnapshotFields(url.s, page.headings, page.html, TextOf(page.text), now1);
    SnapshotFields(url.s, page.headings, page.html, TextOf(page.text), now2);
    UnchangedContentNoDelta(lib, previous, current);
  }

  /** A stored record that base64 cannot decode makes the next cycle a first
      visit, and the cycle still overwrites it. */
  lemma CorruptRecordFirstVisit(c: Codecs, lib: DiffLib, records: map<string, string>, url: Value,
                                browser: Browser, noRefresh: bool, now: string)
    requires IsUrl(url) && browser(url.s, !noRefresh).Page?
    requires StorageKey(url.s) in records && c.decodeAscii(records[StorageKey(url.s)]).None?
    ensures var (r, written) := TrackPageSpec(c, lib, records, url, browser, noRefresh, now);
            r.Done? && r.value.firstVisit && r.value.delta == Null
            && written[StorageKey(url.s)] == Payload(c, r.value.snapshot)
  {
    CorruptRecordReadsAbsent(c, records, url.s);
  }

  /** A stored record that base64 decodes but whose text does not parse as
      JSON also makes the next cycle a first visit, and is overwritten. */
  lemma UnparsableRecordFirstVisit(c: Codecs, lib: DiffLib, records: map<string, string>, url: Value,
                                   browser: Browser, noRefresh: bool, now: string, binary: string)
    requires IsUrl(url) && browser(url.s, !noRefresh).Page?
    requires StorageKey(url.s) in records && records[StorageKey(url.s)] != []
    requires c.decodeAscii(records[StorageKey(url.s)]) == Some(binary)
    requires c.parse(BinaryToUtf8(c.hasBuffer, binary)).None?
    ensures var (r, written) := TrackPageSpec(c, lib, records, url, browser, noRefresh, now);
            r.Done? && r.value.firstVisit && r.value.delta == Null
            && written[StorageKey(url.s)] == Payload(c, r.value.snapshot)
  {
    assert ReadFrom(c, records, url.s) == None;
  }

  // ---------------------------------------------------------------------------
  // Lemmas about the batch

  /** The URL an entry belongs to. */
  function ItemUrl(item: Item): Value
  {
    match item
    case Tracked(r) => Str(r.url)
    case Failed(url, _) => url
  }

  /** A failing entry is never a change. */
  lemma FailedIsNoChange(url: Value, error: string)
    ensures !IsChange(Failed(url, error))
  {
    HasDeltaFields(Null, Null, Null);
  }

  /** Any batch loop yields one entry per URL. */
  lemma {:induction false} RunLength(step: Step, records: map<string, string>, urls: seq<Value>)
    ensures |Run(step, records, urls).0| == |urls|
    decreases |urls|
  {
    if urls != [] {
      RunLength(step, records, urls[..|urls| - 1]);
    }
  }

  /** In any batch loop the i-th entry is the step at position i on the
      records the first i steps left. */
  lemma {:induction false} RunIndex(step: Step, records: map<string, string>, urls: seq<Value>, i: nat)
    requires i < |urls|
    ensures |Run(step, records, urls).0| == |urls|
    ensures Run(step, records, urls).0[i] == step(Run(step, records, urls[..i]).1, urls[i], i).0
    decreases |urls|
  {
    var last := |urls| - 1;
    assert urls[..last + 1] == urls;
    RunStep(step, records, urls, last);
    RunLength(step, records, urls[..last]);
    RunLength(step, records, urls);
    if i < last {
      RunIndex(step, records, urls[..last], i);
      assert urls[..last][..i] == urls[..i];
      assert urls[..last][i] == urls[i];
    }
  }

  /** One entry per URL, in input order. */
  lemma BatchAligned(c: Codecs, lib: DiffLib, records: map<string, string>, urls: seq<Value>,
                     browserAt: nat -> Browser, noRefresh: bool, clockAt: nat -> string)
    ensures var results := RunBatch(c, lib, records, urls, browserAt, noRefresh, clockAt).0;
            |results| == |urls| && forall i :: 0 <= i < |urls| ==> ItemUrl(results[i]) == urls[i]
  {
    var step := BatchStep(c, lib, browserAt, noRefresh, clockAt);
    RunLength(step, records, urls);
    forall i | 0 <= i < |urls| ensures ItemUrl(Run(step, records, urls).0[i]) == urls[i] {
      RunIndex(step, records, urls, i);
      CycleUrl(c, lib, Run(step, records, urls[..i]).1, urls[i], browserAt(i), noRefresh, clockAt(i));
    }
  }

  /** A cycle's entry belongs to its URL. */
  lemma CycleUrl(c: Codecs, lib: DiffLib, records: map<string, string>, url: Value,
                 browser: Browser, noRefresh: bool, now: string)
    ensures ItemUrl(Cycle(c, lib, records, url, browser, noRefresh, now).0) == url
  {
  }

  /** Per-item isolation: the i-th entry is exactly the single-URL cycle run
      on the records its predecessors left, whether or not they failed. */
  lemma BatchItemIsCycle(c: Codecs, lib: DiffLib, records: map<string, string>, urls: seq<Value>,
                            browserAt: nat -> Browser, noRefresh: bool, clockAt: nat -> string, i: nat)
    requires i < |urls|
    ensures var results := RunBatch(c, lib, records, urls, browserAt, noRefresh, clockAt).0;
            var before := RunBatch(c, lib, records, urls[..i], browserAt, noRefresh, clockAt).1;
            |results| == |urls| && results[i] == Cycle(c, lib, before, urls[i], browserAt(i), noRefresh, clockAt(i)).0
  {
    RunIndex(BatchStep(c, lib, browserAt, noRefresh, clockAt), records, urls, i);
  }

  /** Whether a cycle fails depends only on its own URL and its own fetch,
      never on the records: it is an error entry exactly when its URL is
      invalid or its fetch throws, and then it writes nothing. */
  lemma CycleFailure(c: Codecs, lib: DiffLib, records: map<string, string>, url: Value,
                     browser: Browser, noRefresh: bool, now: string)
    ensures var (item, after) := Cycle(c, lib, records, url, browser, noRefresh, now);
            && (item.Failed? <==> !IsUrl(url) || browser(url.s, !noRefresh).FetchFailed?)
            && (item.Failed? ==> after == records && item.url == url && item.error != [])
  {
  }

  /** The keys of the URLs a batch tracked successfully. */
  function TrackedKeys(results: seq<Item>): set<string>
  {
    set i | 0 <= i < |results| && results[i].Tracked? :: StorageKey(results[i].result.url)
  }

  /** A batch writes only under the keys of the URLs it tracked; failing
      entries leave the store as it was. */
  lemma {:induction false} BatchWritesOnlyTracked(c: Codecs, lib: DiffLib, records: map<string, string>, urls: seq<Value>,
                                                  browserAt: nat -> Browser, noRefresh: bool, clockAt: nat -> string)
    ensures var (results, after) := RunBatch(c, lib, records, urls, browserAt, noRefresh, clockAt);
            forall k :: k !in TrackedKeys(results) ==>
              (k in after <==> k in records) && (k in records ==> after[k] == records[k])
    decreases |urls|
  {
    if urls != [] {
      var last := |urls| - 1;
      assert urls[..last + 1] == urls;
      RunStep(BatchStep(c, lib, browserAt, noRefresh, clockAt), records, urls, last);
      var (items, before) := RunBatch(c, lib, records, urls[..last], browserAt, noRefresh, clockAt);
      var (item, after) := Cycle(c, lib, before, urls[last], browserAt(last), noRefresh, clockAt(last));
      BatchWritesOnlyTracked(c, lib, records, urls[..last], browserAt, noRefresh, clockAt);
      CycleWrites(c, lib, before, urls[last], browserAt(last), noRefresh, clockAt(last));
      var results := items + [item];
      TrackedKeysAppend(items, item);
    }
  }

  /** A cycle writes only under the key of the URL it tracked. */
  lemma CycleWrites(c: Codecs, lib: DiffLib, records: map<string, string>, url: Value,
                    browser: Browser, noRefresh: bool, now: string)
    ensures var (item, after) := Cycle(c, lib, records, url, browser, noRefresh, now);
            forall k :: (item.Failed? || k != StorageKey(item.result.url)) ==>
              (k in after <==> k in records) && (k in records ==> after[k] == records[k])
  {
  }

  lemma TrackedKeysAppend(items: seq<Item>, item: Item)
    ensures TrackedKeys(items + [item])
         == TrackedKeys(items) + (if item.Tracked? then {StorageKey(item.result.url)} else {})
  {
    var results := items + [item];
    forall k | k in TrackedKeys(results)
      ensures k in TrackedKeys(items) + (if item.Tracked? then {StorageKey(item.result.url)} else {})
    {
      var j :| 0 <= j < |results| && results[j].Tracked? && k == StorageKey(results[j].result.url);
      if j < |items| {
        assert results[j] == items[j];
      }
    }
    forall k | k in TrackedKeys(items) ensures k in TrackedKeys(results) {
      var j :| 0 <= j < |items| && items[j].Tracked? && k == StorageKey(items[j].result.url);
      assert results[j] == items[j];
    }
    if item.Tracked? {
      assert results[|items|] == item;
    }
  }

  // ---------------------------------------------------------------------------
  // Lemmas about the changes filter

  /** `a` is an in-order subsequence of `b`. */
  predicate IsSubsequence(a: seq<Item>, b: seq<Item>)
    decreases |b|
  {
    if a == [] then true
    else if b == [] then false
    else if a[0] == b[0] then IsSubsequence(a[1..], b[1..])
    else IsSubsequence(a, b[1..])
  }

  /** `changes` keeps exactly the entries that are changes, in their order,
      each as often as it occurs among the results. */
  lemma {:induction false} ChangesFilter(results: seq<Item>)
    ensures forall x :: x in Changes(results) <==> x in results && IsChange(x)
    ensures forall x :: multiset(Changes(results))[x] == if IsChange(x) then multiset(results)[x] else 0
    ensures IsSubsequence(Changes(results), results)
  {
    ChangesCount(results);
    ChangesInOrder(results);
  }

  lemma {:induction false} ChangesCount(results: seq<Item>)
    ensures forall x :: multiset(Changes(results))[x] == if IsChange(x) then multiset(results)[x] else 0
  {
    if results != [] {
      ChangesCount(results[1..]);
      assert results == [results[0]] + results[1..];
      assert multiset(results) == multiset([results[0]]) + multiset(results[1..]);
      if IsChange(results[0]) {
        assert Changes(results) == [results[0]] + Changes(results[1..]);
        assert multiset(Changes(results)) == multiset([results[0]]) + multiset(Changes(results[1..]));
      } else {
        assert Changes(results) == Changes(results[1..]);
      }
    }
  }

  lemma {:induction false} ChangesInOrder(results: seq<Item>)
    ensures IsSubsequence(Changes(results), results)
  {
    if results != [] {
      ChangesInOrder(results[1..]);
      if IsChange(results[0]) {
        assert Changes(results) == [results[0]] + Changes(results[1..]);
        assert Changes(results)[1..] == Changes(results[1..]);
      } else {
        assert Changes(results) == Changes(results[1..]);
        SkipKeepsSubsequence(Changes(results[1..]), results);
      }
    }
  }

  lemma SkipKeepsSubsequence(a: seq<Item>, b: seq<Item>)
    requires b != [] && IsSubsequence(a, b[1..]) && (a == [] || !IsChange(b[0])) && forall x :: x in a ==> IsChange(x)
    ensures IsSubsequence(a, b)
  {
    if a != [] {
      assert a[0] in a;
      assert a[0] != b[0];
    }
  }

  /** The changes of a batch are its cycles' results that are no first visit
      and carry a delta, in order and each as often as it occurs; error entries
      never appear. */
  lemma {:induction false} BatchChanges(c: Codecs, lib: DiffLib, records: map<string, string>, urls: seq<Value>,
                                        browserAt: nat -> Browser, noRefresh: bool, clockAt: nat -> string)
    ensures var results := RunBatch(c, lib, records, urls, browserAt, noRefresh, clockAt).0;
            && (forall x :: x in Changes(results) <==>
                  x in results && x.Tracked? && !x.result.firstVisit && x.result.delta != Null)
            && (forall x :: multiset(Changes(results))[x]
                  == if x.Tracked? && !x.result.firstVisit && x.result.delta != Null
                     then multiset(results)[x] else 0)
            && IsSubsequence(Changes(results), results)
  {
    var results := RunBatch(c, lib, records, urls, browserAt, noRefresh, clockAt).0;
    ChangesFilter(results);
    BatchAligned(c, lib, records, urls, browserAt, noRefresh, clockAt);
    forall x | x in results
      ensures IsChange(x) <==> x.Tracked? && !x.result.firstVisit && x.result.delta != Null
    {
      var i :| 0 <= i < |results| && results[i] == x;
      BatchItemIsCycle(c, lib, records, urls, browserAt, noRefresh, clockAt, i);
      var before := RunBatch(c, lib, records, urls[..i], browserAt, noRefresh, clockAt).1;
      if x.Tracked? {
        TrackedIsChange(c, lib, before, urls[i], browserAt(i), noRefresh, clockAt(i));
      } else {
        FailedIsNoChange(x.url, x.error);
      }
    }
  }

  /** `trackPages` throws for anything but a non-empty array and then writes
      nothing; otherwise it returns one entry per URL in order and the changes
      among them. */
  lemma TrackPagesOutcome(c: Codecs, lib: DiffLib, records: map<string, string>, urls: Value,
                          browserAt: nat -> Browser, noRefresh: bool, clockAt: nat -> string)
    ensures var (r, after) := TrackPagesSpec(c, lib, records, urls, browserAt, noRefresh, clockAt);
            && (r.Threw? <==> !urls.Arr? || |urls.items| == 0)
            && (r.Threw? ==> r.message == TrackPagesMessage && after == records)
            && (r.Done? ==>
                  && |r.value.results| == |urls.items|
                  && (forall i :: 0 <= i < |urls.items| ==> ItemUrl(r.value.results[i]) == urls.items[i])
                  && IsSubsequence(r.value.changes, r.value.results))
  {
    if urls.Arr? && |urls.items| > 0 {
      BatchAligned(c, lib, records, urls.items, browserAt, noRefresh, clockAt);
      ChangesFilter(RunBatch(c, lib, records, urls.items, browserAt, noRefresh, clockAt).0);
    }
  }
}
