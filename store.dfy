/**
 * The per-source snapshot store of update.py: a directory of files named
 * `YYYYMMDD.HHMMSS.txt` after the UTC moment they were saved, modelled as a
 * map from that moment (in whole seconds) to the file's text. The order in
 * which `iterdir()` lists the files is an input to every operation.
 */
module Store {
  import opened Wrappers
  import opened Text

  const RETAIN_DAYS := 30
  const DUPLICATE_CHECK_DEPTH := 6
  const SECONDS_PER_DAY := 86400
  /** The `hours=2` of every `timedelta` the age tests build, in seconds. */
  const GRACE := 7200

  /** `timedelta(days=days, hours=2)` in seconds. */
  function Horizon(days: int): int
  {
    days * SECONDS_PER_DAY + GRACE
  }

  /** The age test of prune and generate: `now - ts > timedelta(days=days, hours=2)`. */
  predicate Expired(now: int, ts: int, days: int)
  {
    now - ts > Horizon(days)
  }

  /** `order` is one pass of `iterdir()` over the store: every key exactly once. */
  predicate IsListing(order: seq<int>, m: map<int, string>)
  {
    && (forall i, j :: 0 <= i < j < |order| ==> order[i] != order[j])
    && (forall k :: k in m ==> k in order)
    && (forall i :: 0 <= i < |order| ==> order[i] in m)
  }

  /** A non-empty set has an element. */
  lemma SomeElement(s: set<int>)
    requires s != {}
    ensures exists x :: x in s
  {
    if forall x :: x !in s {
      assert false;
    }
  }

  /** A listing is empty exactly when the store is. */
  lemma ListingEmpty(order: seq<int>, m: map<int, string>)
    requires IsListing(order, m)
    ensures order == [] <==> m == map[]
  {
    if order != [] {
      assert order[0] in m;
    }
    if m != map[] {
      SomeElement(m.Keys);
      var k :| k in m;
      assert k in order;
    }
  }

  /** The newest timestamp of a non-empty set of them. */
  ghost function MaxOf(s: set<int>): (mx: int)
    requires s != {}
    ensures mx in s && forall y :: y in s ==> y <= mx
  {
    SomeElement(s);
    var x :| x in s;
    var rest := s - {x};
    assert forall y :: y in s ==> y == x || y in rest;
    if rest == {} then x
    else
      var r := MaxOf(rest);
      if x > r then x else r
  }

  // ---------------------------------------------------------------- prune

  /** The store after `prune`: the snapshots whose age is within the retention period. */
  function Pruned(m: map<int, string>, now: int): (r: map<int, string>)
    ensures forall k :: k in r ==> k in m && r[k] == m[k] && now - k <= Horizon(RETAIN_DAYS)
    ensures forall k :: k in m && now - k <= Horizon(RETAIN_DAYS) ==> k in r
  {
    map k | k in m && !Expired(now, k, RETAIN_DAYS) :: m[k]
  }

  /** Pruning twice at the same moment removes nothing more. */
  lemma PruneIdempotent(m: map<int, string>, now: int)
    ensures Pruned(Pruned(m, now), now) == Pruned(m, now)
  {
  }

  /** Snapshots 2, 5, 10 and 40 days old: pruning removes only the 40-day one. */
  lemma PruneExample(now: int, a: string, b: string, c: string, d: string)
    ensures var m := map[now - 2 * SECONDS_PER_DAY := a, now - 5 * SECONDS_PER_DAY := b,
                         now - 10 * SECONDS_PER_DAY := c, now - 40 * SECONDS_PER_DAY := d];
      Pruned(m, now) == m - {now - 40 * SECONDS_PER_DAY}
  {
  }

  // ---------------------------------------------------------------- check_mtime

  /** What the HEAD request of check_mtime gave: an error, or the Last-Modified time. */
  datatype Head = HeadFailed | LastModified(time: int)

  /**
   * check_mtime's answer: proceed when the store is empty, or when the HEAD
   * request succeeded and the newest local snapshot is not newer than the remote.
   */
  predicate Fresh(m: map<int, string>, head: Head)
  {
    m == map[] || (head.LastModified? && forall k :: k in m ==> k <= head.time)
  }

  /**
   * check_mtime compares only the newest snapshot: a non-empty store proceeds
   * exactly when the HEAD request succeeded and its newest moment is not later
   * than Last-Modified.
   */
  lemma FreshNewest(m: map<int, string>, head: Head)
    requires m != map[]
    ensures Fresh(m, head) <==> head.LastModified? && MaxOf(m.Keys) <= head.time
  {
    var mx := MaxOf(m.Keys);
    assert mx in m;
  }

  // ---------------------------------------------------------------- save

  /**
   * The timestamps that beat every timestamp listed before them, newest first:
   * the successive running maxima of one pass of `iterdir()`.
   */
  ghost function Records(order: seq<int>): (r: seq<int>)
    ensures |r| <= |order|
    ensures r == [] <==> order == []
    ensures forall i :: 0 <= i < |r| ==> r[i] in order
    ensures r != [] ==> forall x :: x in order ==> x <= r[0]
    ensures forall i, j :: 0 <= i < j < |r| ==> r[i] > r[j]
  {
    if order == [] then []
    else
      var p := order[..|order| - 1];
      var x := order[|order| - 1];
      assert order == p + [x];
      if forall y :: y in p ==> y < x then [x] + Records(p) else Records(p)
  }

  /**
   * The candidate list save compares against: the newest DUPLICATE_CHECK_DEPTH
   * running maxima, padded with None.
   */
  ghost function Chain(order: seq<int>): (c: seq<Option<int>>)
    ensures |c| == DUPLICATE_CHECK_DEPTH
  {
    var r := Records(order);
    seq(DUPLICATE_CHECK_DEPTH, i requires 0 <= i < DUPLICATE_CHECK_DEPTH =>
      if i < |r| then Some(r[i]) else None)
  }

  /** A candidate whose snapshot has the checksum of the new content. */
  predicate Matches(candidate: Option<int>, m: map<int, string>, sum: int, checksum: string -> int)
  {
    candidate.Some? && candidate.value in m && checksum(m[candidate.value]) == sum
  }

  /** The first candidate, in list order, that matches. */
  function FirstMatch(candidates: seq<Option<int>>, m: map<int, string>, sum: int,
                      checksum: string -> int): (r: Option<int>)
    ensures r.Some? ==> Matches(r, m, sum, checksum)
    ensures r.Some? ==> exists j :: 0 <= j < |candidates| && candidates[j] == r
                          && forall i :: 0 <= i < j ==> !Matches(candidates[i], m, sum, checksum)
    ensures r.None? ==> forall i :: 0 <= i < |candidates| ==> !Matches(candidates[i], m, sum, checksum)
  {
    if candidates == [] then None
    else if Matches(candidates[0], m, sum, checksum) then candidates[0]
    else
      var r := FirstMatch(candidates[1..], m, sum, checksum);
      assert forall i :: 0 < i < |candidates| ==> candidates[i] == candidates[1..][i - 1];
      r
  }

  /** `rename` of the snapshot at `from` to the name of moment `to`. */
  function Renamed(m: map<int, string>, from: int, to: int): map<int, string>
    requires from in m
  {
    (m - {from})[to := m[from]]
  }

  /** The store and the return value after save. */
  datatype Saved = Saved(store: map<int, string>, created: bool)

  /** save, as update.py:85-103 writes it, for one pass `order` of `iterdir()`. */
  ghost function SaveSpec(m: map<int, string>, order: seq<int>, content: string, now: int,
                          checksum: string -> int): Saved
  {
    match FirstMatch(Chain(order), m, checksum(content), checksum)
    case Some(k) => Saved(Renamed(m, k, now), false)
    case None => Saved(m[now := content], true)
  }

  // ---------------------------------------------------------------- generate

  /** The union of the lines of every snapshot whose age is within `days` days and two hours. */
  function Window(m: map<int, string>, now: int, days: int): set<string>
  {
    set k, line | k in m && !Expired(now, k, days) && line in SplitLines(m[k]) :: line
  }

  /** The union over the snapshots listed in `keys`, as generate has it part-way. */
  ghost function WindowOver(m: map<int, string>, keys: seq<int>, now: int, days: int): set<string>
  {
    set k, line | k in keys && k in m && !Expired(now, k, days) && line in SplitLines(m[k]) :: line
  }

  // ---------------------------------------------------------------- the store

  class SnapshotStore {
    /** Timestamp (UTC seconds) of each snapshot file, mapped to its text. */
    var snapshots: map<int, string>

    constructor (initial: map<int, string>)
      ensures snapshots == initial
    {
      snapshots := initial;
    }

    /** One pass of `iterdir()`: every snapshot once, in an order the directory chooses. */
    method Listing() returns (order: seq<int>)
      ensures IsListing(order, snapshots)
    {
      order := [];
      var rest := snapshots.Keys;
      while rest != {}
        invariant rest <= snapshots.Keys
        invariant forall k :: k in snapshots ==> (k in order <==> k !in rest)
        invariant forall k :: k in order ==> k in snapshots
        invariant forall i, j :: 0 <= i < j < |order| ==> order[i] != order[j]
        decreases rest
      {
        SomeElement(rest);
        var k :| k in rest;
        order := order + [k];
        rest := rest - {k};
      }
    }

    /** prune: deletes every snapshot older than RETAIN_DAYS days and two hours. */
    method Prune(now: int, order: seq<int>)
      requires IsListing(order, snapshots)
      modifies this
      ensures snapshots == Pruned(old(snapshots), now)
    {
      ghost var m := snapshots;
      for i := 0 to |order|
        invariant snapshots == map k | k in m && (k !in order[..i] || !Expired(now, k, RETAIN_DAYS)) :: m[k]
      {
        var ts := order[i];
        assert order[..i + 1] == order[..i] + [ts];
        var elapsed := now - ts;
        if elapsed > Horizon(RETAIN_DAYS) {
          snapshots := snapshots - {ts};
        }
      }
      assert order[..|order|] == order;
    }

    /** The loop check_mtime, generate_latest and generate_asn share: the newest snapshot, if any. */
    method LatestKey(order: seq<int>) returns (latest: Option<int>)
      requires IsListing(order, snapshots)
      ensures latest.None? <==> snapshots == map[]
      ensures latest.Some? ==> latest.value in snapshots
                               && forall k :: k in snapshots ==> k <= latest.value
    {
      latest := None;
      for i := 0 to |order|
        invariant latest.None? <==> i == 0
        invariant latest.Some? ==> latest.value in order
                                   && forall j :: 0 <= j < i ==> order[j] <= latest.value
      {
        var ts := order[i];
        if latest.None? {
          latest := Some(ts);
          continue;
        }
        if ts > latest.value {
          latest := Some(ts);
        }
      }
      ListingEmpty(order, snapshots);
    }

    /**
     * check_mtime, given what its HEAD request returned: proceed on an empty
     * store; otherwise stop when the request failed or the newest snapshot is
     * newer than Last-Modified.
     */
    method CheckMtime(order: seq<int>, head: Head) returns (proceed: bool)
      requires IsListing(order, snapshots)
      ensures proceed == Fresh(snapshots, head)
    {
      var latest := LatestKey(order);
      if latest.None? {
        return true;
      }
      if head.HeadFailed? {
        return false;
      }
      if latest.value > head.time {
        return false;
      }
      return true;
    }

    /**
     * save: when a snapshot among the candidates has the checksum of `content`
     * it is renamed to `now` and save answers false; otherwise `content` is
     * written at `now` and save answers true. `checksum` stands for
     * `adler32(text.encode())`.
     */
    method Save(content: string, now: int, order: seq<int>, checksum: string -> int)
      returns (created: bool)
      requires IsListing(order, snapshots)
      modifies this
      ensures Saved(snapshots, created) == SaveSpec(old(snapshots), order, content, now, checksum)
    {
      var sum := checksum(content);
      var latestList: seq<Option<int>> := seq(DUPLICATE_CHECK_DEPTH, _ => None);
      assert latestList == Chain([]);
      for i := 0 to |order|
        invariant snapshots == old(snapshots)
        invariant latestList == Chain(order[..i])
      {
        var ts := order[i];
        ChainStep(order[..i], ts);
        assert order[..i + 1] == order[..i] + [ts];
        if latestList[0].None? {
          latestList := latestList[0 := Some(ts)];
          continue;
        }
        if ts > latestList[0].value {
          latestList := [Some(ts)] + latestList[..DUPLICATE_CHECK_DEPTH - 1];
        }
      }
      assert order[..|order|] == order;
      ChainInStore(order, snapshots);
      for j := 0 to DUPLICATE_CHECK_DEPTH
        invariant snapshots == old(snapshots)
        invariant FirstMatch(latestList, snapshots, sum, checksum)
                  == FirstMatch(latestList[j..], snapshots, sum, checksum)
      {
        assert latestList[j..][1..] == latestList[j + 1..];
        if latestList[j].None? {
          continue;
        }
        var ts := latestList[j].value;
        if sum == checksum(snapshots[ts]) {
          snapshots := Renamed(snapshots, ts, now);
          return false;
        }
      }
      assert latestList[DUPLICATE_CHECK_DEPTH..] == [];
      snapshots := snapshots[now := content];
      created := true;
    }

    /** generate: the set of lines of the snapshots within `days` days and two hours. */
    method Generate(now: int, days: int, order: seq<int>) returns (ipset: set<string>)
      requires IsListing(order, snapshots)
      ensures ipset == Window(snapshots, now, days)
    {
      ipset := {};
      for i := 0 to |order|
        invariant ipset == WindowOver(snapshots, order[..i], now, days)
      {
        var ts := order[i];
        WindowOverStep(snapshots, order[..i], ts, now, days);
        assert order[..i + 1] == order[..i] + [ts];
        var elapsed := now - ts;
        if elapsed > Horizon(days) {
          continue;
        }
        var lines := SplitLines(snapshots[ts]);
        ghost var before := ipset;
        for j := 0 to |lines|
          invariant forall l :: l in ipset <==> l in before || l in lines[..j]
        {
          assert lines[..j + 1] == lines[..j] + [lines[j]];
          ipset := ipset + {lines[j]};
        }
        assert lines[..|lines|] == lines;
        assert ipset == before + set l | l in lines;
      }
      assert order[..|order|] == order;
      WindowOverListing(snapshots, order, now, days);
    }

    /** generate_latest: the text of the newest snapshot. */
    method GenerateLatest(order: seq<int>) returns (latest: string)
      requires IsListing(order, snapshots)
      requires snapshots != map[]
      ensures latest == snapshots[MaxOf(snapshots.Keys)]
    {
      var latestKey := LatestKey(order);
      assert latestKey.value == MaxOf(snapshots.Keys);
      latest := snapshots[latestKey.value];
    }
  }

  // ---------------------------------------------------------------- proofs for the loops

  /** One step of save's first loop, stated on Chain. */
  lemma ChainStep(p: seq<int>, x: int)
    ensures var c := Chain(p);
      Chain(p + [x]) == if c[0].None? then c[0 := Some(x)]
                        else if x > c[0].value then [Some(x)] + c[..DUPLICATE_CHECK_DEPTH - 1]
                        else c
  {
    var o := p + [x];
    assert o[..|o| - 1] == p && o[|o| - 1] == x;
    var r := Records(p);
    var c := Chain(p);
    if r == [] {
      assert p == [];
      assert Records(o) == [x];
    } else if x > r[0] {
      assert forall y :: y in p ==> y < x;
      assert Records(o) == [x] + r;
    } else {
      assert r[0] in p;
      assert Records(o) == r;
    }
  }

  lemma ChainInStore(order: seq<int>, m: map<int, string>)
    requires IsListing(order, m)
    ensures forall i :: 0 <= i < DUPLICATE_CHECK_DEPTH && Chain(order)[i].Some? ==> Chain(order)[i].value in m
  {
  }

  lemma WindowOverStep(m: map<int, string>, keys: seq<int>, x: int, now: int, days: int)
    requires x in m
    ensures WindowOver(m, keys + [x], now, days)
            == WindowOver(m, keys, now, days)
               + (if Expired(now, x, days) then {} else set l | l in SplitLines(m[x]))
  {
    var lhs := WindowOver(m, keys + [x], now, days);
    var rhs := WindowOver(m, keys, now, days)
               + (if Expired(now, x, days) then {} else set l | l in SplitLines(m[x]));
    forall l | l in lhs ensures l in rhs {
      var k :| k in keys + [x] && k in m && !Expired(now, k, days) && l in SplitLines(m[k]);
      if k != x {
        assert k in keys;
      }
    }
    forall l | l in rhs ensures l in lhs {
      if l !in WindowOver(m, keys, now, days) {
        assert x in keys + [x];
      } else {
        var k :| k in keys && k in m && !Expired(now, k, days) && l in SplitLines(m[k]);
        assert k in keys + [x];
      }
    }
  }

  lemma WindowOverListing(m: map<int, string>, order: seq<int>, now: int, days: int)
    requires IsListing(order, m)
    ensures WindowOver(m, order, now, days) == Window(m, now, days)
  {
  }

  // ---------------------------------------------------------------- save: properties

  /**
   * The candidate list: length DUPLICATE_CHECK_DEPTH, its present entries form
   * a prefix of strictly decreasing timestamps of the store, and entry 0 is
   * present exactly when the store is not empty, holding the newest timestamp.
   */
  lemma ChainShape(order: seq<int>, m: map<int, string>)
    requires IsListing(order, m)
    ensures var c := Chain(order);
      && |c| == DUPLICATE_CHECK_DEPTH
      && (forall i, j :: 0 <= i < j < DUPLICATE_CHECK_DEPTH && c[j].Some? ==>
            c[i].Some? && c[i].value > c[j].value)
      && (forall i :: 0 <= i < DUPLICATE_CHECK_DEPTH && c[i].Some? ==> c[i].value in m)
      && (c[0].None? <==> m == map[])
      && (m != map[] ==> c[0] == Some(MaxOf(m.Keys)))
  {
    var r := Records(order);
    ListingEmpty(order, m);
    if m != map[] {
      var mx := MaxOf(m.Keys);
      assert mx in order && r[0] in m;
    }
  }

  /**
   * The candidates are not the DUPLICATE_CHECK_DEPTH newest snapshots: listed
   * in the order 1, 3, 2, the second newest snapshot (2) is never compared.
   */
  lemma ChainSkipsSecondNewest()
    ensures Chain([1, 3, 2]) == [Some(3), Some(1), None, None, None, None]
  {
    assert [1, 3, 2][..2] == [1, 3] && [1, 3][..1] == [1] && [1][..0] == [];
    assert 3 in [1, 3];
    assert Records([1]) == [1];
    assert Records([1, 3]) == [3, 1];
    assert Records([1, 3, 2]) == [3, 1];
  }

  /**
   * Hence a store of three snapshots whose second newest has the new content's
   * checksum still grows by a fourth snapshot when the directory lists 1, 3, 2.
   */
  lemma SaveMissesSecondNewest(a: string, b: string, c: string, content: string, checksum: string -> int)
    requires checksum(b) == checksum(content)
    requires checksum(a) != checksum(content) && checksum(c) != checksum(content)
    ensures var m := map[1 := a, 2 := b, 3 := c];
      SaveSpec(m, [1, 3, 2], content, 4, checksum) == Saved(m[4 := content], true)
  {
    ChainSkipsSecondNewest();
    var m := map[1 := a, 2 := b, 3 := c];
    var cands := Chain([1, 3, 2]);
    assert forall i :: 0 <= i < |cands| ==> !Matches(cands[i], m, checksum(content), checksum);
  }

  /** Renaming moves one snapshot to a fresh key and leaves every other one alone. */
  lemma RenamedFacts(m: map<int, string>, from: int, to: int)
    requires from in m && to !in m
    ensures var r := Renamed(m, from, to);
      && |r| == |m|
      && r.Keys == m.Keys - {from} + {to}
      && r[to] == m[from]
      && from !in r
      && forall j :: j in m && j != from ==> r[j] == m[j]
  {
    var r := Renamed(m, from, to);
    assert (m - {from}).Keys == m.Keys - {from};
    assert |m.Keys - {from}| == |m.Keys| - 1;
    assert r.Keys == (m.Keys - {from}) + {to};
  }

  /**
   * save answers false exactly when some candidate has the new content's
   * checksum; then that snapshot moves to `now` with its text, the count stays
   * and nothing else changes. Otherwise it answers true and only
   * `now := content` is added.
   */
  lemma SaveOutcomes(m: map<int, string>, order: seq<int>, content: string, now: int,
                     checksum: string -> int)
    requires now !in m
    ensures var s := SaveSpec(m, order, content, now, checksum);
      !s.created <==> exists i :: 0 <= i < DUPLICATE_CHECK_DEPTH
                                  && Matches(Chain(order)[i], m, checksum(content), checksum)
    ensures var s := SaveSpec(m, order, content, now, checksum);
      !s.created ==> exists k :: k in m && checksum(m[k]) == checksum(content)
                                 && |s.store| == |m|
                                 && s.store.Keys == m.Keys - {k} + {now}
                                 && s.store[now] == m[k]
                                 && forall j :: j in m && j != k ==> s.store[j] == m[j]
    ensures var s := SaveSpec(m, order, content, now, checksum);
      s.created ==> s.store == m[now := content] && |s.store| == |m| + 1
  {
    var sum := checksum(content);
    var c := Chain(order);
    var r := FirstMatch(c, m, sum, checksum);
    if r.Some? {
      var k := r.value;
      var j :| 0 <= j < |c| && c[j] == r;
      assert Matches(c[j], m, sum, checksum);
      RenamedFacts(m, k, now);
    } else {
      assert (m[now := content]).Keys == m.Keys + {now};
    }
  }

  /**
   * After save at a moment later than every snapshot, the store's newest
   * snapshot is at that moment and has the checksum of the saved content.
   */
  lemma SaveLeavesNewest(m: map<int, string>, order: seq<int>, content: string, now: int,
                         checksum: string -> int)
    requires IsListing(order, m)
    requires forall k :: k in m ==> k < now
    ensures var s := SaveSpec(m, order, content, now, checksum).store;
      && now in s && checksum(s[now]) == checksum(content)
      && forall k :: k in s ==> k <= now
  {
    match FirstMatch(Chain(order), m, checksum(content), checksum)
    case Some(k) =>
      assert Renamed(m, k, now).Keys <= m.Keys + {now};
    case None =>
  }

  /**
   * When the newest snapshot already has the checksum of the content, save
   * answers false and the number of snapshots stays, whatever the listing order.
   */
  lemma SaveNewestMatches(m: map<int, string>, order: seq<int>, content: string, now: int,
                          checksum: string -> int)
    requires IsListing(order, m) && m != map[]
    requires checksum(m[MaxOf(m.Keys)]) == checksum(content)
    requires forall k :: k in m ==> k <= now
    ensures var s := SaveSpec(m, order, content, now, checksum);
      !s.created && |s.store| == |m|
  {
    var sum := checksum(content);
    var mx := MaxOf(m.Keys);
    ChainShape(order, m);
    assert Matches(Chain(order)[0], m, sum, checksum);
    assert FirstMatch(Chain(order), m, sum, checksum) == Some(mx);
    if now == mx {
      assert Renamed(m, mx, now) == m;
    } else {
      RenamedFacts(m, mx, now);
    }
  }

  /**
   * Saving the same content twice in a row, at non-decreasing moments after the
   * newest snapshot, answers false the second time and does not grow the store.
   */
  lemma SaveTwice(m: map<int, string>, order1: seq<int>, order2: seq<int>, content: string,
                  now1: int, now2: int, checksum: string -> int)
    requires IsListing(order1, m)
    requires forall k :: k in m ==> k < now1
    requires now1 <= now2
    requires IsListing(order2, SaveSpec(m, order1, content, now1, checksum).store)
    ensures var s1 := SaveSpec(m, order1, content, now1, checksum);
      var s2 := SaveSpec(s1.store, order2, content, now2, checksum);
      !s2.created && |s2.store| == |s1.store|
  {
    var m1 := SaveSpec(m, order1, content, now1, checksum).store;
    SaveLeavesNewest(m, order1, content, now1, checksum);
    assert MaxOf(m1.Keys) == now1;
    SaveNewestMatches(m1, order2, content, now2, checksum);
  }

  /**
   * A store holding `1.2.3.0/24` at one moment: saving the same text later
   * answers false and leaves one snapshot, now at the later moment.
   */
  lemma SaveExample(t0: int, now: int, checksum: string -> int)
    requires t0 < now
    ensures SaveSpec(map[t0 := "1.2.3.0/24"], [t0], "1.2.3.0/24", now, checksum)
            == Saved(map[now := "1.2.3.0/24"], false)
  {
    var m := map[t0 := "1.2.3.0/24"];
    ChainShape([t0], m);
    assert MaxOf(m.Keys) == t0;
    assert Matches(Chain([t0])[0], m, checksum("1.2.3.0/24"), checksum);
    assert Renamed(m, t0, now) == map[now := "1.2.3.0/24"];
  }

  // ---------------------------------------------------------------- generate: properties

  /** Every line of every snapshot within the horizon is in the window, and nothing else. */
  lemma WindowMembers(m: map<int, string>, now: int, days: int, line: string)
    ensures line in Window(m, now, days) <==>
            exists k :: k in m && now - k <= Horizon(days) && line in SplitLines(m[k])
  {
  }

  /** A shorter horizon gives a subset of a longer one's window. */
  lemma WindowMonotone(m: map<int, string>, now: int, d1: int, d2: int)
    requires d1 <= d2
    ensures Window(m, now, d1) <= Window(m, now, d2)
  {
  }

  /**
   * A 7-day window over a snapshot of 3 days ago holding lines A and B and one
   * of 10 days ago holding B and C is exactly {A, B}.
   */
  lemma WindowExample(now: int, a: string, b: string, c: string)
    requires a != "" && b != "" && c != ""
    requires '\n' !in a && '\n' !in b && '\n' !in c
    ensures var m := map[now - 3 * SECONDS_PER_DAY := a + "\n" + b,
                         now - 10 * SECONDS_PER_DAY := b + "\n" + c];
      Window(m, now, 7) == {a, b}
  {
    var m := map[now - 3 * SECONDS_PER_DAY := a + "\n" + b,
                 now - 10 * SECONDS_PER_DAY := b + "\n" + c];
    assert Join([a, b], "\n") == a + "\n" + b;
    LinesJoin([a, b]);
    assert SplitLines(m[now - 3 * SECONDS_PER_DAY]) == [a, b];
    assert a in SplitLines(m[now - 3 * SECONDS_PER_DAY]);
    assert b in SplitLines(m[now - 3 * SECONDS_PER_DAY]);
  }
}
