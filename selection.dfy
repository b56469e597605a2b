/**
 * Best-server selection (`GetBestServerByPingAsync`): every entry of the server table is
 * pinged, the results keep table order, a stable `OrderBy` on the ping time sorts them and
 * `FirstOrDefault` takes the head; an empty list yields "Default Server".
 */
module Selection {
  import opened Wrappers
  import opened Ping

  /** One entry of the `serverUrls` dictionary: a region name and the URL of its test file. */
  datatype Server = Server(name: string, url: string)

  /** The anonymous `{ ServerName, PingTime }` record built for each server. */
  datatype PingResult = PingResult(serverName: string, pingTime: Int64)

  const DefaultServer: string := "Default Server"

  /** The fixed server table, in its insertion (and enumeration) order. */
  const ServerUrls: seq<Server> := [
    Server("New York", "https://speedtest-ny.turnkeyinternet.net/100mb.bin"),
    Server("California", "https://speedtest-ca.turnkeyinternet.net/100mb.bin"),
    Server("Colorado", "https://speedtest-co.turnkeyinternet.net/100mb.bin"),
    Server("Chicago", "https://speedtest-chi.turnkeyinternet.net/100mb.bin"),
    Server("Miami", "https://speedtest-mia.turnkeyinternet.net/100mb.bin"),
    Server("Amsterdam", "https://speedtest-ams.turnkeyinternet.net/100mb.bin")
  ]

  /** A dictionary never holds two entries with the same key. */
  predicate DistinctNames(table: seq<Server>) {
    forall i, j :: 0 <= i < j < |table| ==> table[i].name != table[j].name
  }

  predicate HasName(table: seq<Server>, name: string) {
    exists i :: 0 <= i < |table| && table[i].name == name
  }

  /** The dictionary indexer `serverUrls[name]`; a missing key is `None` (the indexer throws). */
  function LookupUrl(table: seq<Server>, name: string): (r: Option<string>)
    ensures r.Some? <==> HasName(table, name)
    ensures DistinctNames(table) ==>
      forall i :: 0 <= i < |table| && table[i].name == name ==> r == Some(table[i].url)
  {
    if table == [] then None
    else if table[0].name == name then Some(table[0].url)
    else
      var r := LookupUrl(table[1..], name);
      assert HasName(table[1..], name) ==> HasName(table, name) by {
        if HasName(table[1..], name) {
          var i :| 0 <= i < |table[1..]| && table[1..][i].name == name;
          assert table[i + 1].name == name;
        }
      }
      assert HasName(table, name) ==> HasName(table[1..], name) by {
        if HasName(table, name) {
          var i :| 0 <= i < |table| && table[i].name == name;
          assert table[1..][i - 1].name == name;
        }
      }
      r
  }

  /**
   * `serverUrls.Select(...)` awaited with `Task.WhenAll`: one result per table entry, in table
   * order, each name paired with the outcome of its own probe.
   */
  function PingAll(table: seq<Server>, replies: seq<PingOutcome>): (results: seq<PingResult>)
    requires |replies| == |table|
    ensures |results| == |table|
    ensures forall i :: 0 <= i < |table| ==>
      results[i] == PingResult(table[i].name, MeasurePingTimeAsync(replies[i]))
  {
    if table == [] then []
    else [PingResult(table[0].name, MeasurePingTimeAsync(replies[0]))] + PingAll(table[1..], replies[1..])
  }

  predicate SortedByPing(s: seq<PingResult>) {
    forall i, j :: 0 <= i < j < |s| ==> s[i].pingTime <= s[j].pingTime
  }

  /** Inserts `x` before the first element whose ping is not smaller, so it precedes its equals. */
  function InsertByPing(x: PingResult, s: seq<PingResult>): (r: seq<PingResult>)
    requires SortedByPing(s)
    ensures SortedByPing(r)
    ensures multiset(r) == multiset(s) + multiset{x}
    ensures r != [] && (r[0] == x || (s != [] && r[0] == s[0]))
  {
    if s == [] || x.pingTime <= s[0].pingTime then [x] + s
    else
      var rest := InsertByPing(x, s[1..]);
      assert s == [s[0]] + s[1..];
      assert s[0].pingTime <= rest[0].pingTime;
      [s[0]] + rest
  }

  /** `OrderBy(result => result.PingTime)`: a stable sort on the ping time. */
  function OrderByPing(s: seq<PingResult>): (r: seq<PingResult>)
    ensures SortedByPing(r)
    ensures multiset(r) == multiset(s)
  {
    if s == [] then []
    else
      assert s == [s[0]] + s[1..];
      InsertByPing(s[0], OrderByPing(s[1..]))
  }

  /** The subsequence of results whose ping is `k`, in their order. */
  function WithPing(s: seq<PingResult>, k: Int64): seq<PingResult> {
    if s == [] then []
    else if s[0].pingTime == k then [s[0]] + WithPing(s[1..], k)
    else WithPing(s[1..], k)
  }

  /** `FirstOrDefault`: the head of the sequence, or null for an empty one. */
  function FirstOrDefault(s: seq<PingResult>): (r: Option<PingResult>)
    ensures r.None? <==> s == []
    ensures r.Some? ==> r.value == s[0]
  {
    if s == [] then None else Some(s[0])
  }

  /** `bestServer?.ServerName ?? "Default Server"` over the ordered results. */
  function SelectBest(results: seq<PingResult>): (best: string)
    ensures results == [] ==> best == DefaultServer
  {
    match FirstOrDefault(OrderByPing(results))
    case None => DefaultServer
    case Some(b) => b.serverName
  }

  /** `GetBestServerByPingAsync` with the probe outcomes given per table entry. */
  function GetBestServerByPing(table: seq<Server>, replies: seq<PingOutcome>): (best: string)
    requires |replies| == |table|
    ensures table == [] ==> best == DefaultServer
  {
    SelectBest(PingAll(table, replies))
  }

  // ---------------------------------------------------------------------------------------
  // An independent reference for the winner: the earliest index holding the minimum ping.

  function MinPing(s: seq<PingResult>): (m: Int64)
    requires s != []
    ensures forall i :: 0 <= i < |s| ==> m <= s[i].pingTime
    ensures exists i :: 0 <= i < |s| && s[i].pingTime == m
  {
    if |s| == 1 then s[0].pingTime
    else
      var m := MinPing(s[1..]);
      assert exists i :: 1 <= i < |s| && s[i].pingTime == m by {
        var i :| 0 <= i < |s[1..]| && s[1..][i].pingTime == m;
        assert s[i + 1].pingTime == m;
      }
      if s[0].pingTime <= m then s[0].pingTime else m
  }

  function FirstMinIndex(s: seq<PingResult>): (i: nat)
    requires s != []
    ensures i < |s| && s[i].pingTime == MinPing(s)
    ensures forall j :: 0 <= j < i ==> s[j].pingTime > s[i].pingTime
  {
    if s[0].pingTime == MinPing(s) then 0
    else 1 + FirstMinIndex(s[1..])
  }

  // ---------------------------------------------------------------------------------------
  // Lemmas.

  lemma {:induction false} InsertByPingStable(x: PingResult, s: seq<PingResult>, k: Int64)
    requires SortedByPing(s)
    ensures WithPing(InsertByPing(x, s), k) == WithPing([x] + s, k)
  {
    if s == [] || x.pingTime <= s[0].pingTime {
    } else {
      var rest := InsertByPing(x, s[1..]);
      InsertByPingStable(x, s[1..], k);
      assert ([s[0]] + rest)[1..] == rest;
      assert ([x] + s)[1..] == s;
      assert ([x] + s[1..])[1..] == s[1..];
    }
  }

  /** `OrderBy` is stable: the results sharing a ping time keep their relative order. */
  lemma {:induction false} OrderByPingStable(s: seq<PingResult>, k: Int64)
    ensures WithPing(OrderByPing(s), k) == WithPing(s, k)
  {
    if s != [] {
      var sorted := OrderByPing(s[1..]);
      OrderByPingStable(s[1..], k);
      InsertByPingStable(s[0], sorted, k);
      assert ([s[0]] + sorted)[1..] == sorted;
    }
  }

  lemma {:induction false} WithPingHead(s: seq<PingResult>, i: nat, k: Int64)
    requires i < |s| && s[i].pingTime == k
    requires forall j :: 0 <= j < i ==> s[j].pingTime != k
    ensures WithPing(s, k) != [] && WithPing(s, k)[0] == s[i]
  {
    if i > 0 {
      WithPingHead(s[1..], i - 1, k);
    }
  }

  /**
   * The winner is the earliest result holding the minimum ping: `OrderBy` puts a minimum first
   * and, being stable, puts the earliest of equal minima first.
   */
  lemma SelectBestIsFirstMinimum(results: seq<PingResult>)
    requires results != []
    ensures SelectBest(results) == results[FirstMinIndex(results)].serverName
  {
    var sorted := OrderByPing(results);
    var m := MinPing(results);
    var fi := FirstMinIndex(results);
    assert sorted != [] by {
      assert results[0] in multiset(results);
    }
    assert sorted[0].pingTime == m by {
      assert sorted[0] in multiset(results);
      assert results[fi] in multiset(sorted);
      var j :| 0 <= j < |sorted| && sorted[j] == results[fi];
    }
    OrderByPingStable(results, m);
    WithPingHead(sorted, 0, m);
    WithPingHead(results, fi, m);
  }

  /** With a non-empty list the returned name is that of a result holding the minimum ping. */
  lemma SelectBestHasMinimumPing(results: seq<PingResult>)
    requires results != []
    ensures exists i :: 0 <= i < |results| && results[i].serverName == SelectBest(results) &&
                        forall j :: 0 <= j < |results| ==> results[i].pingTime <= results[j].pingTime
  {
    SelectBestIsFirstMinimum(results);
    var fi := FirstMinIndex(results);
    assert results[fi].serverName == SelectBest(results);
  }

  /**
   * When two results tie on the minimum ping, the later one never wins: the winner sits at or
   * before the earlier one. With distinct names, the later one's name is never returned.
   */
  lemma SelectBestTieNeverGoesToLater(results: seq<PingResult>, i: nat, j: nat)
    requires i < j < |results|
    requires results[i].pingTime == results[j].pingTime
    requires forall k :: 0 <= k < |results| ==> results[i].pingTime <= results[k].pingTime
    ensures FirstMinIndex(results) <= i
    ensures SelectBest(results) == results[FirstMinIndex(results)].serverName
    ensures (forall a, b :: 0 <= a < b < |results| ==> results[a].serverName != results[b].serverName) ==>
              SelectBest(results) != results[j].serverName
  {
    SelectBestIsFirstMinimum(results);
    var fi := FirstMinIndex(results);
    assert fi <= i;
  }

  /** The winner over a whole table is the earliest entry whose probe gave the minimum ping. */
  lemma BestServerIsFirstMinimum(table: seq<Server>, replies: seq<PingOutcome>)
    requires |replies| == |table| && table != []
    ensures var w := FirstMinIndex(PingAll(table, replies));
      w < |table| && GetBestServerByPing(table, replies) == table[w].name
  {
    SelectBestIsFirstMinimum(PingAll(table, replies));
  }

  /**
   * A non-empty table never yields "Default Server" when no key is called that, and always
   * yields a key of the table, so looking the winner up cannot miss.
   */
  lemma BestServerIsTableKey(table: seq<Server>, replies: seq<PingOutcome>)
    requires |replies| == |table| && table != []
    ensures HasName(table, GetBestServerByPing(table, replies))
    ensures LookupUrl(table, GetBestServerByPing(table, replies)).Some?
    ensures (forall i :: 0 <= i < |table| ==> table[i].name != DefaultServer) ==>
      GetBestServerByPing(table, replies) != DefaultServer
  {
    BestServerIsFirstMinimum(table, replies);
  }

  /** No region of the fixed table is called "Default Server", and no two share a name. */
  lemma FixedTableNames()
    ensures forall i :: 0 <= i < |ServerUrls| ==> ServerUrls[i].name != DefaultServer
    ensures DistinctNames(ServerUrls)
  {
    assert |DefaultServer| == 14;
    assert forall i :: 0 <= i < |ServerUrls| ==> |ServerUrls[i].name| < 11;
  }

  /** For the fixed table the winner is always one of its six regions. */
  lemma FixedTableLookupCannotMiss(replies: seq<PingOutcome>)
    requires |replies| == |ServerUrls|
    ensures GetBestServerByPing(ServerUrls, replies) != DefaultServer
    ensures LookupUrl(ServerUrls, GetBestServerByPing(ServerUrls, replies)).Some?
  {
    FixedTableNames();
    BestServerIsTableKey(ServerUrls, replies);
  }

  /**
   * A failed probe scores `long.MaxValue`, so once any server answers in under `long.MaxValue`
   * milliseconds the winner is a server whose probe succeeded.
   */
  lemma ReachedServerBeatsFailed(table: seq<Server>, replies: seq<PingOutcome>, i: nat)
    requires |replies| == |table| && i < |table|
    requires Reached(replies[i]) && replies[i].roundtripTime < LongMaxValue
    ensures var w := FirstMinIndex(PingAll(table, replies));
      w < |table| && GetBestServerByPing(table, replies) == table[w].name && Reached(replies[w])
  {
    var results := PingAll(table, replies);
    BestServerIsFirstMinimum(table, replies);
    var w := FirstMinIndex(results);
    assert results[w].pingTime <= results[i].pingTime < LongMaxValue;
  }

  /** When every probe fails, every score is `long.MaxValue` and the first table entry wins. */
  lemma AllFailedPicksFirst(table: seq<Server>, replies: seq<PingOutcome>)
    requires |replies| == |table| && table != []
    requires forall i :: 0 <= i < |replies| ==> !Reached(replies[i])
    ensures GetBestServerByPing(table, replies) == table[0].name
  {
    var results := PingAll(table, replies);
    BestServerIsFirstMinimum(table, replies);
    var w := FirstMinIndex(results);
    assert w == 0;
  }
}
