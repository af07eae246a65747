/**
 * Writing the new mirror list (`Update_ML.write_ml`): one line
 * "Server = <server URL>" per entry of the complete table, in whatever
 * order the table is walked. Only the complete table is read.
 */
module Emit {
  import opened Options
  import opened Tokens
  import opened Urls
  import opened Parse
  import opened Join

  /**
   * `"Server = %s" % server`: a line that is not skipped when read back,
   * and whose tokens are "Server", "=" and the server URL when that URL is
   * a single token.
   */
  function Render(server: string): (line: string)
    ensures !IsSkipped(line)
    ensures IsToken(server) ==> Split(line) == ["Server", "=", server]
  {
    var line := "Server = " + server;
    assert IsToken(server) ==> Split(line) == ["Server", "=", server] by {
      if IsToken(server) {
        assert line == "Server" + (" " + ("=" + (" " + server)));
        SplitWord("Server", " " + ("=" + (" " + server)));
        assert Split(" " + ("=" + (" " + server))) == Split("=" + (" " + server));
        SplitWord("=", " " + server);
        assert Split(" " + server) == Split(server);
        SplitWord(server, []);
        assert server + [] == server;
      }
    }
    line
  }

  predicate Distinct(keys: seq<string>) {
    forall i, j :: 0 <= i < j < |keys| ==> keys[i] != keys[j]
  }

  /** `out` holds one rendered line per entry of `table`, the entries taken in the key order `order`. */
  ghost predicate RendersInOrder(table: map<string, Match>, order: seq<string>, out: seq<string>) {
    && |out| == |order|
    && Distinct(order)
    && (forall host :: host in table <==> host in order)
    && (forall i :: 0 <= i < |out| ==> order[i] in table && out[i] == Render(table[order[i]].server))
  }

  /** An emitted line, read back as a mirror-list line, yields the server URL it was made from. */
  lemma RenderedLineParsesBack(server: string)
    requires IsToken(server)
    ensures IsEntry(Render(server)) && ServerUrl(Render(server)) == Some(server)
  {
    assert Split(Render(server))[2] == server;
  }

  /** Every emitted line is an entry line whose server URL is the one emitted, with the host it is filed under. */
  lemma RenderedLinesAreEntries(table: map<string, Match>, order: seq<string>, out: seq<string>)
    requires RendersInOrder(table, order, out) && MatchKeyed(table)
    ensures forall i :: 0 <= i < |out| ==>
              IsEntry(out[i]) && ServerUrl(out[i]) == Some(table[order[i]].server) && Netloc(table[order[i]].server) == order[i]
  {
    forall i | 0 <= i < |out|
      ensures IsEntry(out[i]) && ServerUrl(out[i]) == Some(table[order[i]].server)
    {
      RenderedLineParsesBack(table[order[i]].server);
    }
  }

  /**
   * Format stability: reading the emitted list back as a mirror list gives
   * a table with the same hosts, each mapped to the server URL emitted for it.
   */
  lemma RenderedListParsesBack(table: map<string, Match>, order: seq<string>, out: seq<string>)
    requires RendersInOrder(table, order, out) && MatchKeyed(table)
    ensures ParseLines(map[], out).Parsed?
    ensures ParseLines(map[], out).table.Keys == table.Keys
    ensures forall host :: host in table ==> ParseLines(map[], out).table[host] == table[host].server
  {
    assert ParseLines(map[], out).Parsed? by {
      RenderedLinesAreEntries(table, order, out);
      ParseStopsAtFirstMalformedLine(map[], out);
    }
    var read := ParseLines(map[], out).table;
    forall host | host in table
      ensures host in read && read[host] == table[host].server
    {
      RenderedLinesAreEntries(table, order, out);
      LastRenderedServer(table, order, out, host);
      ParseIsLastWriteWins(map[], out);
    }
    forall host | host in read ensures host in table {
      RenderedLinesAreEntries(table, order, out);
      ParseIsLastWriteWins(map[], out);
      var j :| 0 <= j < |out| && IsEntry(out[j]) && Netloc(ServerUrl(out[j]).value) == host;
    }
    assert read.Keys == table.Keys;
  }

  /** Each host is emitted once, so the last line for it is the one line for it. */
  lemma LastRenderedServer(table: map<string, Match>, order: seq<string>, out: seq<string>, host: string)
    requires RendersInOrder(table, order, out)
    requires forall i :: 0 <= i < |out| ==>
               IsEntry(out[i]) && ServerUrl(out[i]) == Some(table[order[i]].server) && Netloc(table[order[i]].server) == order[i]
    requires host in table
    ensures LastServer(out, host) == Some(table[host].server)
  {
    var i :| 0 <= i < |order| && order[i] == host;
    var last := LastServer(out, host);
    assert last.Some?;
    var j :| 0 <= j < |out| && IsEntry(out[j]) && ServerUrl(out[j]) == last;
    assert order[j] == host;
    assert i == j;
  }

  /** `line` is the rendering of the server URL of one of the entry lines of `lines`. */
  ghost predicate RendersEntryOf(line: string, lines: seq<string>) {
    exists j :: 0 <= j < |lines| && IsEntry(lines[j]) && line == Render(ServerUrl(lines[j]).value)
  }

  /**
   * Nothing is synthesised: after reading `lines` and joining `records`,
   * every emitted line renders the server URL of one of the entry lines of
   * the input, which is a verbatim piece of that line.
   */
  lemma EmittedServersComeFromInputLines(lines: seq<string>, records: seq<StatusRecord>, order: seq<string>, out: seq<string>)
    requires ParseLines(map[], lines).Parsed?
    requires RendersInOrder(Route(ParseLines(map[], lines).table, Buckets(map[], map[]), records).complete, order, out)
    ensures forall i :: 0 <= i < |out| ==> RendersEntryOf(out[i], lines)
  {
    var servers := ParseLines(map[], lines).table;
    var complete := Route(servers, Buckets(map[], map[]), records).complete;
    ParsedValuesAreServerUrls(lines);
    RouteIsLastMatchPerBucket(servers, Buckets(map[], map[]), records);
    forall i | 0 <= i < |out|
      ensures RendersEntryOf(out[i], lines)
    {
      var host := order[i];
      assert Lookup(complete, host) == Expected(servers, map[], records, host, true);
      assert complete[host].server == servers[host];
      var j :| 0 <= j < |lines| && IsEntry(lines[j]) && ServerUrl(lines[j]) == Some(servers[host]);
      assert out[i] == Render(ServerUrl(lines[j]).value);
    }
  }
}
