/**
 * `main` of update.py: for each feed in turn, prune its store, ask whether the
 * feed changed, fetch, convert, save, and when a new snapshot was written
 * regenerate the windowed lists and `latest.txt`. The answers of the HEAD and
 * GET requests, the clock and the checksum are inputs.
 */
module Pipeline {
  import opened Wrappers
  import opened Text
  import opened Normalizer
  import opened Store

  /** The feeds `main` walks through, in the order of BLOCKLIST_LIST. */
  const SOURCES: seq<string> :=
    ["binarydefense", "blocklistde", "cinsarmy", "dshield", "greensnow", "spamhaus_drop_asn", "turris"]

  /** How one feed's turn of `main` ends, after the message it prints. */
  datatype Outcome =
    | NoUpdate                        // check_mtime said no
    | FetchFailed                     // the GET request failed
    | ConvertFailed(error: ConvertError) // convert raised; `main` stops here
    | TouchFilename                   // save found the content and renamed the snapshot
    | Completed(windows: map<int, set<string>>, latest: string)

  /** The five `{days}d.txt` lists `main` regenerates, keyed by their day count. */
  function Windows(m: map<int, string>, now: int): map<int, set<string>>
  {
    map[30 := Window(m, now, 30), 14 := Window(m, now, 14), 7 := Window(m, now, 7),
        3 := Window(m, now, 3), 1 := Window(m, now, 1)]
  }

  /**
   * One feed's turn of `main`, from the store `before` to the store `after`:
   * the outcome, and the store each outcome leaves.
   */
  ghost predicate Processed(before: map<int, string>, after: map<int, string>, name: string,
                            head: Head, body: Option<string>, now: int,
                            checksum: string -> int, outcome: Outcome)
  {
    var pruned := Pruned(before, now);
    if !Fresh(pruned, head) then outcome == NoUpdate && after == pruned
    else if body.None? then outcome == FetchFailed && after == pruned
    else
      match Converted(name, body.value)
      case Failure(e) => outcome == ConvertFailed(e) && after == pruned
      case Success(items) =>
        exists order :: SavedTurn(pruned, order, Join(items, "\n"), now, checksum, after, outcome)
  }

  /**
   * The end of a turn that reached save with `data`, the listing `order`
   * of the pruned store: the store save leaves, and either "touch filename"
   * or the regenerated lists of that store.
   */
  ghost predicate SavedTurn(pruned: map<int, string>, order: seq<int>, data: string, now: int,
                            checksum: string -> int, after: map<int, string>, outcome: Outcome)
  {
    && IsListing(order, pruned)
    && var s := SaveSpec(pruned, order, data, now, checksum);
       && after == s.store
       && if s.created
          then after != map[] && outcome == Completed(Windows(after, now), after[MaxOf(after.Keys)])
          else outcome == TouchFilename
  }

  /** One iteration of `main`'s loop, on the store of feed `name`. */
  method ProcessSource(store: SnapshotStore, name: string, head: Head, body: Option<string>,
                       now: int, checksum: string -> int)
    returns (outcome: Outcome)
    modifies store
    ensures Processed(old(store.snapshots), store.snapshots, name, head, body, now, checksum, outcome)
  {
    var order := store.Listing();
    store.Prune(now, order);
    order := store.Listing();
    var proceed := store.CheckMtime(order, head);
    if !proceed {
      return NoUpdate;
    }
    if body.None? {
      return FetchFailed;
    }
    var converted := Convert(name, body.value);
    if converted.Failure? {
      return ConvertFailed(converted.error);
    }
    var data := converted.value;
    ghost var pruned := store.snapshots;
    order := store.Listing();
    ghost var saveOrder := order;
    var created := store.Save(data, now, order, checksum);
    if !created {
      outcome := TouchFilename;
      assert SavedTurn(pruned, saveOrder, data, now, checksum, store.snapshots, outcome);
      return;
    }
    assert now in store.snapshots;
    order := store.Listing();
    var w30 := store.Generate(now, 30, order);
    order := store.Listing();
    var w14 := store.Generate(now, 14, order);
    order := store.Listing();
    var w7 := store.Generate(now, 7, order);
    order := store.Listing();
    var w3 := store.Generate(now, 3, order);
    order := store.Listing();
    var w1 := store.Generate(now, 1, order);
    order := store.Listing();
    var latest := store.GenerateLatest(order);
    outcome := Completed(map[30 := w30, 14 := w14, 7 := w7, 3 := w3, 1 := w1], latest);
    assert SavedTurn(pruned, saveOrder, data, now, checksum, store.snapshots, outcome);
  }

  /**
   * `main`: the feeds of SOURCES in order, each on its own store, with the
   * HEAD answer, GET body and clock reading of its turn. A failing convert
   * ends the run, so later feeds are left as they were.
   */
  method Run(stores: seq<SnapshotStore>, heads: seq<Head>, bodies: seq<Option<string>>,
             nows: seq<int>, checksum: string -> int)
    returns (outcomes: seq<Outcome>)
    requires |stores| == |heads| == |bodies| == |nows| == |SOURCES|
    requires forall i, j :: 0 <= i < j < |stores| ==> stores[i] != stores[j]
    modifies set i | 0 <= i < |stores| :: stores[i]
    ensures |outcomes| <= |SOURCES|
    ensures forall i :: 0 <= i < |outcomes| ==>
              Processed(old(stores[i].snapshots), stores[i].snapshots, SOURCES[i], heads[i],
                        bodies[i], nows[i], checksum, outcomes[i])
    ensures forall i :: 0 <= i < |outcomes| - 1 ==> !outcomes[i].ConvertFailed?
    ensures |outcomes| < |SOURCES| ==> outcomes != [] && outcomes[|outcomes| - 1].ConvertFailed?
    ensures forall i :: |outcomes| <= i < |stores| ==> stores[i].snapshots == old(stores[i].snapshots)
  {
    outcomes := [];
    var i := 0;
    while i < |SOURCES|
      invariant 0 <= i <= |SOURCES| && |outcomes| == i
      invariant forall j :: 0 <= j < i ==>
                  Processed(old(stores[j].snapshots), stores[j].snapshots, SOURCES[j], heads[j],
                            bodies[j], nows[j], checksum, outcomes[j])
      invariant forall j :: 0 <= j < i ==> !outcomes[j].ConvertFailed?
      invariant forall j :: i <= j < |stores| ==> stores[j].snapshots == old(stores[j].snapshots)
    {
      var outcome := ProcessSource(stores[i], SOURCES[i], heads[i], bodies[i], nows[i], checksum);
      outcomes := outcomes + [outcome];
      if outcome.ConvertFailed? {
        return;
      }
      i := i + 1;
    }
  }

  // ---------------------------------------------------------------- properties

  /**
   * The rule each feed of SOURCES gets: dshield its tab rule, spamhaus_drop_asn
   * the JSON rule, turris the comma rule, the rest their lines as they are; no
   * feed reaches the bruteforceblocker arm.
   */
  lemma SourceFormats()
    ensures FormatOf(SOURCES[0]) == Verbatim && FormatOf(SOURCES[1]) == Verbatim
    ensures FormatOf(SOURCES[2]) == Verbatim && FormatOf(SOURCES[4]) == Verbatim
    ensures FormatOf(SOURCES[3]) == AddressSlashPrefix
    ensures FormatOf(SOURCES[5]) == AsnJsonLine
    ensures FormatOf(SOURCES[6]) == FirstCommaField
    ensures forall i :: 0 <= i < |SOURCES| ==> FormatOf(SOURCES[i]) != FirstTabField
  {
    assert "spamhaus_drop" <= SOURCES[5];
    assert SOURCES[0][0] == 'b' && SOURCES[1][0] == 'b' && SOURCES[2][0] == 'c' && SOURCES[4][0] == 'g';
  }

  /** The shorter windows are subsets of the longer ones. */
  lemma WindowsNested(m: map<int, string>, now: int)
    ensures var w := Windows(m, now);
      w[1] <= w[3] <= w[7] <= w[14] <= w[30]
  {
    WindowMonotone(m, now, 1, 3);
    WindowMonotone(m, now, 3, 7);
    WindowMonotone(m, now, 7, 14);
    WindowMonotone(m, now, 14, 30);
  }

  /**
   * A turn that completes wrote the converted feed at `now`, and when the
   * clock has moved past every kept snapshot, `latest.txt` is that text and
   * every window holds each of its lines.
   */
  lemma CompletedLatest(before: map<int, string>, after: map<int, string>, name: string,
                        head: Head, body: Option<string>, now: int, checksum: string -> int,
                        outcome: Outcome)
    requires Processed(before, after, name, head, body, now, checksum, outcome)
    requires outcome.Completed?
    requires forall k :: k in Pruned(before, now) ==> k < now
    ensures body.Some? && Converted(name, body.value).Success?
    ensures var data := Join(Converted(name, body.value).value, "\n");
      && after == Pruned(before, now)[now := data]
      && outcome.latest == data
      && forall d, l :: d in outcome.windows && l in SplitLines(data) ==> l in outcome.windows[d]
  {
    var pruned := Pruned(before, now);
    var items := Converted(name, body.value).value;
    var data := Join(items, "\n");
    var order :| SavedTurn(pruned, order, data, now, checksum, after, outcome);
    assert SaveSpec(pruned, order, data, now, checksum).created;
    assert after == pruned[now := data];
    NewestInWindows(after, now);
    assert MaxOf(after.Keys) == now;
  }

  /** Every line of the snapshot saved at `now` is in each of the five windows. */
  lemma NewestInWindows(m: map<int, string>, now: int)
    requires now in m
    ensures forall d, l :: d in Windows(m, now) && l in SplitLines(m[now]) ==> l in Windows(m, now)[d]
  {
    forall d, l | d in Windows(m, now) && l in SplitLines(m[now])
      ensures l in Windows(m, now)[d]
    {
      assert d in {30, 14, 7, 3, 1};
      WindowMembers(m, now, d, l);
    }
  }

  /**
   * A turn that ends in "touch filename" keeps the number of snapshots, when
   * no kept snapshot already carries the moment `now`.
   */
  lemma TouchKeepsCount(before: map<int, string>, after: map<int, string>, name: string,
                        head: Head, body: Option<string>, now: int, checksum: string -> int)
    requires Processed(before, after, name, head, body, now, checksum, TouchFilename)
    requires now !in Pruned(before, now)
    ensures |after| == |Pruned(before, now)|
    ensures body.Some? && Converted(name, body.value).Success?
  {
    var pruned := Pruned(before, now);
    var data := Join(Converted(name, body.value).value, "\n");
    var order :| SavedTurn(pruned, order, data, now, checksum, after, TouchFilename);
    SaveOutcomes(pruned, order, data, now, checksum);
  }

  /** Every turn leaves no snapshot older than the retention period and two hours. */
  lemma ProcessedRetains(before: map<int, string>, after: map<int, string>, name: string,
                         head: Head, body: Option<string>, now: int, checksum: string -> int,
                         outcome: Outcome)
    requires Processed(before, after, name, head, body, now, checksum, outcome)
    ensures forall k :: k in after && k != now ==> k in before && !Expired(now, k, RETAIN_DAYS)
  {
    var pruned := Pruned(before, now);
    if Fresh(pruned, head) && body.Some? && Converted(name, body.value).Success? {
      var data := Join(Converted(name, body.value).value, "\n");
      var order :| SavedTurn(pruned, order, data, now, checksum, after, outcome);
      match FirstMatch(Chain(order), pruned, checksum(data), checksum)
      case Some(k) =>
        assert after.Keys <= pruned.Keys + {now};
      case None =>
    }
  }
}
