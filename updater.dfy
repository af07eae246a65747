/**
 * The object `Update_ML` and the three steps of its pipeline, on its own
 * fields: `parse_ml` fills `ml_servers` and sets `ml_servers_len`,
 * `sort_ml` fills `complete_servers` and `incomplete_servers`, and
 * `write_ml` renders the complete table. Reading the file, fetching the
 * status document and printing are left to the caller: the lines, the
 * records and the rendered lines are passed in and out as sequences.
 */
module Updater {
  import opened Options
  import opened Tokens
  import opened Urls
  import opened Parse
  import opened Join
  import opened Emit

  class MirrorListUpdater {
    /** `ml_servers`: host -> server URL, as read from the mirror list. */
    var mlServers: map<string, string>
    /** `ml_servers_len`: the size of `ml_servers` after the last complete read. */
    var mlServersLen: nat
    /** `complete_servers`: host -> (status record, server URL) for fully synced mirrors. */
    var completeServers: map<string, Match>
    /** `incomplete_servers`: the same for the other mirrors. */
    var incompleteServers: map<string, Match>

    /**
     * The shape every step keeps: the server table is host-keyed, and both
     * result tables hold only configured hosts, each entry under its host.
     */
    ghost predicate Valid()
      reads this
    {
      && HostKeyed(mlServers)
      && Joined(completeServers, mlServers) && Joined(incompleteServers, mlServers)
      && MatchKeyed(completeServers) && MatchKeyed(incompleteServers)
    }

    constructor ()
      ensures Valid()
      ensures mlServers == map[] && mlServersLen == 0
      ensures completeServers == map[] && incompleteServers == map[]
    {
      mlServers := map[];
      mlServersLen := 0;
      completeServers := map[];
      incompleteServers := map[];
    }

    /**
     * `parse_ml` on the lines of the file. On a line with fewer than three
     * tokens the source raises; here the index of that line is returned,
     * the entries of the lines before it stay stored, and `mlServersLen`
     * is not updated.
     */
    method ParseMirrorList(lines: seq<string>) returns (failedAt: Option<nat>)
      requires Valid()
      modifies this`mlServers, this`mlServersLen
      ensures Valid()
      ensures mlServers == ParseLines(old(mlServers), lines).table
      ensures failedAt.None? <==> ParseLines(old(mlServers), lines).Parsed?
      ensures failedAt.Some? ==> failedAt.value == ParseLines(old(mlServers), lines).at
      ensures mlServersLen == if failedAt.None? then |mlServers| else old(mlServersLen)
    {
      for i := 0 to |lines|
        invariant ParseLines(old(mlServers), lines[..i]) == Parsed(mlServers)
        invariant mlServersLen == old(mlServersLen)
        invariant Valid()
      {
        var line := lines[i];
        if IsSkipped(line) {
          ParseNextSkipped(old(mlServers), lines, i + 1);
          continue;
        }
        var tokens := Split(line);
        if |tokens| < 3 {
          ParseStopsAt(old(mlServers), lines, i);
          return Some(i);
        }
        ParseNextEntry(old(mlServers), lines, i + 1);
        HostKeyedInsert(mlServers, tokens[2]);
        assert mlServers.Keys <= mlServers[Netloc(tokens[2]) := tokens[2]].Keys;
        mlServers := mlServers[Netloc(tokens[2]) := tokens[2]];
      }
      assert lines[..|lines|] == lines;
      mlServersLen := |mlServers|;
      return None;
    }

    /**
     * The loop of `sort_ml` over the records of the status document:
     * records of unconfigured hosts are dropped, the others are filed
     * under their host, with the configured server URL, in the complete
     * or the incomplete table. No ordering takes place.
     */
    method SortMirrorList(records: seq<StatusRecord>)
      requires Valid()
      modifies this`completeServers, this`incompleteServers
      ensures Valid()
      ensures Buckets(completeServers, incompleteServers) ==
                Route(mlServers, old(Buckets(completeServers, incompleteServers)), records)
    {
      for i := 0 to |records|
        invariant Buckets(completeServers, incompleteServers) ==
                    Route(mlServers, old(Buckets(completeServers, incompleteServers)), records[..i])
        invariant Valid()
      {
        var segment := records[i];
        var serverUrl := Netloc(segment.url);
        RouteNext(mlServers, old(Buckets(completeServers, incompleteServers)), records, i + 1);
        if serverUrl in mlServers {
          var m := Match(segment, mlServers[serverUrl]);
          if IsComplete(segment) {
            MatchKeyedInsert(completeServers, serverUrl, m);
            completeServers := completeServers[serverUrl := m];
          } else {
            MatchKeyedInsert(incompleteServers, serverUrl, m);
            incompleteServers := incompleteServers[serverUrl := m];
          }
        }
      }
      assert records[..|records|] == records;
    }

    /**
     * The lines `write_ml` writes: "Server = <server URL>" once for every
     * entry of the complete table, in an unspecified order (`order` is the
     * order the keys were visited in). Nothing of the incomplete table is
     * read.
     */
    method WriteMirrorList() returns (out: seq<string>, ghost order: seq<string>)
      ensures RendersInOrder(completeServers, order, out)
      ensures |out| == |completeServers|
    {
      out, order := [], [];
      var remaining := completeServers.Keys;
      while remaining != {}
        invariant remaining <= completeServers.Keys
        invariant forall host :: host in completeServers ==> (host in order <==> host !in remaining)
        invariant forall host :: host in order ==> host in completeServers
        invariant Distinct(order)
        invariant |out| == |order| && |order| + |remaining| == |completeServers|
        invariant forall i :: 0 <= i < |out| ==> order[i] in completeServers && out[i] == Render(completeServers[order[i]].server)
        decreases remaining
      {
        var host :| host in remaining;
        out := out + [Render(completeServers[host].server)];
        order := order + [host];
        remaining := remaining - {host};
      }
    }
  }
}
