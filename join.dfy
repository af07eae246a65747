/**
 * Joining the remote status records with the configured servers (the loop
 * of `Update_ML.sort_ml`): a record whose host is not configured is
 * dropped; every other record, paired with the configured server URL for
 * its host, goes to the complete table when its completion is exactly 1.0
 * and to the incomplete table otherwise. Nothing is ordered.
 */
module Join {
  import opened Options
  import opened Tokens
  import opened Urls
  import opened Parse

  /**
   * One element of the `urls` array of the status document. Only the two
   * fields the loop reads are kept; a JSON null completion is None.
   */
  datatype StatusRecord = StatusRecord(url: string, completionPct: Option<real>)

  /** `segment["completion_pct"] == 1.0`; null compares unequal. */
  predicate IsComplete(rec: StatusRecord) {
    rec.completionPct == Some(1.0)
  }

  /** The pair `[segment, ml_servers[server_url]]` stored in either table. */
  datatype Match = Match(record: StatusRecord, server: string)

  /** `complete_servers` and `incomplete_servers`. */
  datatype Buckets = Buckets(complete: map<string, Match>, incomplete: map<string, Match>)

  /** Every key of the table is a configured host. */
  predicate Joined(table: map<string, Match>, servers: map<string, string>) {
    table.Keys <= servers.Keys
  }

  /**
   * A table in the shape `sort_ml` builds: each entry is stored under the
   * host of its record's URL, and its server URL is a token with that host.
   */
  ghost predicate MatchKeyed(table: map<string, Match>) {
    forall host :: host in table ==>
      Netloc(table[host].record.url) == host && IsToken(table[host].server) && Netloc(table[host].server) == host
  }

  /** The buckets after the loop of `sort_ml` has run over `records`, starting from `b`. */
  function Route(servers: map<string, string>, b: Buckets, records: seq<StatusRecord>): (r: Buckets)
    ensures r.complete.Keys <= b.complete.Keys + servers.Keys
    ensures r.incomplete.Keys <= b.incomplete.Keys + servers.Keys
    decreases |records|
  {
    if records == [] then b
    else
      var prev := Route(servers, b, records[..|records| - 1]);
      var rec := records[|records| - 1];
      var host := Netloc(rec.url);
      if host !in servers then prev
      else if IsComplete(rec) then prev.(complete := prev.complete[host := Match(rec, servers[host])])
      else prev.(incomplete := prev.incomplete[host := Match(rec, servers[host])])
  }

  /** Routing one more record: the step the loop of `sort_ml` takes. */
  lemma RouteNext(servers: map<string, string>, b: Buckets, records: seq<StatusRecord>, k: nat)
    requires 0 < k <= |records|
    ensures var prev, rec := Route(servers, b, records[..k - 1]), records[k - 1];
            var host := Netloc(rec.url);
            Route(servers, b, records[..k]) ==
              if host !in servers then prev
              else if IsComplete(rec) then prev.(complete := prev.complete[host := Match(rec, servers[host])])
              else prev.(incomplete := prev.incomplete[host := Match(rec, servers[host])])
  {
    assert records[..k][..k - 1] == records[..k - 1];
  }

  /**
   * The reference reading of one table: the LAST record for `host` whose
   * completeness is `complete`, if there is one.
   */
  function LastRecord(records: seq<StatusRecord>, host: string, complete: bool): (r: Option<StatusRecord>)
    ensures r.Some? <==> exists j :: 0 <= j < |records| && Netloc(records[j].url) == host && IsComplete(records[j]) == complete
    ensures r.Some? ==> r.value in records && Netloc(r.value.url) == host && IsComplete(r.value) == complete
    decreases |records|
  {
    if records == [] then None
    else
      var rec := records[|records| - 1];
      if Netloc(rec.url) == host && IsComplete(rec) == complete then Some(rec)
      else
        var r := LastRecord(records[..|records| - 1], host, complete);
        assert forall j :: 0 <= j < |records| - 1 ==> records[..|records| - 1][j] == records[j];
        r
  }

  /** No record after index `j` has host `host` and completeness `complete`. */
  ghost predicate NoLaterRecord(records: seq<StatusRecord>, host: string, complete: bool, j: nat) {
    forall k :: j < k < |records| ==> !(Netloc(records[k].url) == host && IsComplete(records[k]) == complete)
  }

  /** The record `LastRecord` returns is the last one for `host` and `complete`: no later record qualifies. */
  lemma {:induction false} LastRecordIsLast(records: seq<StatusRecord>, host: string, complete: bool)
    requires LastRecord(records, host, complete).Some?
    ensures exists j :: 0 <= j < |records| && Some(records[j]) == LastRecord(records, host, complete) && NoLaterRecord(records, host, complete, j)
    decreases |records|
  {
    var n := |records| - 1;
    if Netloc(records[n].url) == host && IsComplete(records[n]) == complete {
      assert Some(records[n]) == LastRecord(records, host, complete) && NoLaterRecord(records, host, complete, n);
    } else {
      var prefix := records[..n];
      assert LastRecord(records, host, complete) == LastRecord(prefix, host, complete);
      LastRecordIsLast(prefix, host, complete);
      var j :| 0 <= j < |prefix| && Some(prefix[j]) == LastRecord(prefix, host, complete) && NoLaterRecord(prefix, host, complete, j);
      assert records[j] == prefix[j];
      forall k | j < k < |records|
        ensures !(Netloc(records[k].url) == host && IsComplete(records[k]) == complete)
      {
        if k < n {
          assert records[k] == prefix[k];
          assert !(Netloc(prefix[k].url) == host && IsComplete(prefix[k]) == complete);
        } else {
          assert k == n;
        }
      }
      assert Some(records[j]) == LastRecord(records, host, complete) && NoLaterRecord(records, host, complete, j);
    }
  }

  /** The entry `host` ends up with in one table, by the reference reading. */
  function Expected(servers: map<string, string>, before: map<string, Match>, records: seq<StatusRecord>,
                    host: string, complete: bool): Option<Match>
  {
    var last := LastRecord(records, host, complete);
    if host in servers && last.Some? then Some(Match(last.value, servers[host]))
    else if host in before then Some(before[host])
    else None
  }

  /** The contents of `table` as a partial function. */
  function Lookup(table: map<string, Match>, host: string): Option<Match> {
    if host in table then Some(table[host]) else None
  }

  /** One of the two tables: the complete one when `complete` holds. */
  function Bucket(b: Buckets, complete: bool): map<string, Match> {
    if complete then b.complete else b.incomplete
  }

  lemma {:induction false} RouteBucketIsLastMatch(servers: map<string, string>, b: Buckets, records: seq<StatusRecord>, complete: bool)
    ensures forall host :: Lookup(Bucket(Route(servers, b, records), complete), host) == Expected(servers, Bucket(b, complete), records, host, complete)
    decreases |records|
  {
    if records != [] {
      var init := records[..|records| - 1];
      var rec := records[|records| - 1];
      RouteBucketIsLastMatch(servers, b, init, complete);
      var before := Bucket(Route(servers, b, init), complete);
      var after := Bucket(Route(servers, b, records), complete);
      forall host
        ensures Lookup(after, host) == Expected(servers, Bucket(b, complete), records, host, complete)
      {
        if host == Netloc(rec.url) && host in servers && IsComplete(rec) == complete {
          assert LastRecord(records, host, complete) == Some(rec);
          assert after == before[host := Match(rec, servers[host])];
        } else {
          assert LastRecord(records, host, complete) == LastRecord(init, host, complete) || host !in servers;
          assert Lookup(after, host) == Lookup(before, host);
        }
      }
    }
  }

  /**
   * Inner join with last-write-wins per table: for every host, each table
   * holds exactly what the reference reading says: the last record for a
   * configured host with the matching completeness, paired with that
   * host's configured server URL; otherwise what the table held before.
   */
  lemma RouteIsLastMatchPerBucket(servers: map<string, string>, b: Buckets, records: seq<StatusRecord>)
    ensures forall host :: Lookup(Route(servers, b, records).complete, host) == Expected(servers, b.complete, records, host, true)
    ensures forall host :: Lookup(Route(servers, b, records).incomplete, host) == Expected(servers, b.incomplete, records, host, false)
  {
    var r := Route(servers, b, records);
    RouteBucketIsLastMatch(servers, b, records, true);
    assert Bucket(r, true) == r.complete && Bucket(b, true) == b.complete;
    RouteBucketIsLastMatch(servers, b, records, false);
    assert Bucket(r, false) == r.incomplete && Bucket(b, false) == b.incomplete;
  }

  lemma MatchKeyedInsert(table: map<string, Match>, host: string, m: Match)
    requires MatchKeyed(table)
    requires Netloc(m.record.url) == host && IsToken(m.server) && Netloc(m.server) == host
    ensures MatchKeyed(table[host := m])
  {
  }

  /** Routing against a host-keyed server table keeps both tables in shape. */
  lemma {:induction false} RouteKeepsMatchKeyed(servers: map<string, string>, b: Buckets, records: seq<StatusRecord>)
    requires HostKeyed(servers) && MatchKeyed(b.complete) && MatchKeyed(b.incomplete)
    ensures MatchKeyed(Route(servers, b, records).complete) && MatchKeyed(Route(servers, b, records).incomplete)
    decreases |records|
  {
    if records != [] {
      var init := records[..|records| - 1];
      var rec := records[|records| - 1];
      RouteKeepsMatchKeyed(servers, b, init);
      var host := Netloc(rec.url);
      if host in servers {
        var m := Match(rec, servers[host]);
        MatchKeyedInsert(Route(servers, b, init).complete, host, m);
        MatchKeyedInsert(Route(servers, b, init).incomplete, host, m);
      }
    }
  }

  /** Starting from empty tables, every key of either table is a configured host. */
  lemma RouteIsInnerJoin(servers: map<string, string>, records: seq<StatusRecord>)
    ensures Joined(Route(servers, Buckets(map[], map[]), records).complete, servers)
    ensures Joined(Route(servers, Buckets(map[], map[]), records).incomplete, servers)
  {
  }

  /** A record whose host is not configured changes neither table. */
  lemma UnconfiguredRecordIsDropped(servers: map<string, string>, b: Buckets, records: seq<StatusRecord>, rec: StatusRecord)
    requires Netloc(rec.url) !in servers
    ensures Route(servers, b, records + [rec]) == Route(servers, b, records)
  {
    assert (records + [rec])[..|records|] == records;
  }

  /**
   * The tables may overlap: a configured host with one complete record and
   * one incomplete record ends up in both.
   */
  lemma BucketsMayOverlap(servers: map<string, string>, records: seq<StatusRecord>, i: nat, j: nat)
    requires i < |records| && j < |records|
    requires Netloc(records[i].url) == Netloc(records[j].url) && Netloc(records[i].url) in servers
    requires IsComplete(records[i]) && !IsComplete(records[j])
    ensures Netloc(records[i].url) in Route(servers, Buckets(map[], map[]), records).complete
    ensures Netloc(records[i].url) in Route(servers, Buckets(map[], map[]), records).incomplete
  {
    RouteIsLastMatchPerBucket(servers, Buckets(map[], map[]), records);
    var host := Netloc(records[i].url);
    assert Lookup(Route(servers, Buckets(map[], map[]), records).complete, host).Some?;
    assert Lookup(Route(servers, Buckets(map[], map[]), records).incomplete, host).Some?;
  }
}
