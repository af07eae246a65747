/**
 * Reading a pacman mirror list (`Update_ML.parse_ml`): comment lines and
 * empty lines are passed over; every other line contributes its third
 * whitespace token, stored verbatim under that URL's host.
 */
module Parse {
  import opened Options
  import opened Tokens
  import opened Urls

  /** A line `parse_ml` passes over: one starting with '#', or the empty line. */
  predicate IsSkipped(line: string) {
    (|line| > 0 && line[0] == '#') || line == ""
  }

  /** The server URL of an entry line, `line.split()[2]`; None when the line has fewer than three tokens. */
  function ServerUrl(line: string): (u: Option<string>)
    ensures u.Some? <==> |Split(line)| >= 3
    ensures u.Some? ==> IsToken(u.value) && OccursIn(u.value, line)
  {
    SplitTokensOccurInLine(line);
    var tokens := Split(line);
    if |tokens| >= 3 then Some(tokens[2]) else None
  }

  /** A line on which `split()[2]` raises: not skipped, but fewer than three tokens. */
  predicate IsMalformed(line: string) {
    !IsSkipped(line) && ServerUrl(line).None?
  }

  /** A line that contributes an entry to the table. */
  predicate IsEntry(line: string) {
    !IsSkipped(line) && ServerUrl(line).Some?
  }

  /**
   * A table in the shape `parse_ml` builds: every value is a token, and it
   * is stored under its own host.
   */
  ghost predicate HostKeyed(table: map<string, string>) {
    forall host :: host in table ==> IsToken(table[host]) && Netloc(table[host]) == host
  }

  /**
   * Where reading stops: the whole list was read, or line `at` raised, with
   * the entries of the lines before it already stored.
   */
  datatype ParseResult =
    | Parsed(table: map<string, string>)
    | Malformed(at: nat, table: map<string, string>)

  /** The table after the loop of `parse_ml` has run over `lines`, starting from `table`. */
  function ParseLines(table: map<string, string>, lines: seq<string>): (r: ParseResult)
    ensures table.Keys <= r.table.Keys
    ensures r.Malformed? ==> r.at < |lines|
    decreases |lines|
  {
    if lines == [] then Parsed(table)
    else
      var prev := ParseLines(table, lines[..|lines| - 1]);
      var line := lines[|lines| - 1];
      if prev.Malformed? || IsSkipped(line) then prev
      else match ServerUrl(line)
        case None => Malformed(|lines| - 1, prev.table)
        case Some(u) => Parsed(prev.table[Netloc(u) := u])
  }

  /**
   * The reference reading of the table: the server URL of the LAST entry
   * line whose URL has host `host`, if there is one.
   */
  function LastServer(lines: seq<string>, host: string): (r: Option<string>)
    ensures r.Some? <==> exists j :: 0 <= j < |lines| && IsEntry(lines[j]) && Netloc(ServerUrl(lines[j]).value) == host
    ensures r.Some? ==> exists j :: 0 <= j < |lines| && IsEntry(lines[j]) && ServerUrl(lines[j]) == r
    ensures r.Some? ==> Netloc(r.value) == host
    decreases |lines|
  {
    if lines == [] then None
    else
      var line := lines[|lines| - 1];
      if IsEntry(line) && Netloc(ServerUrl(line).value) == host then ServerUrl(line)
      else
        var r := LastServer(lines[..|lines| - 1], host);
        assert forall j :: 0 <= j < |lines| - 1 ==> lines[..|lines| - 1][j] == lines[j];
        r
  }

  /** No entry line after index `j` has host `host`. */
  ghost predicate NoLaterEntry(lines: seq<string>, host: string, j: nat) {
    forall k :: j < k < |lines| ==> !(IsEntry(lines[k]) && Netloc(ServerUrl(lines[k]).value) == host)
  }

  /** The line `LastServer` reads is the last one for `host`: no later entry line has that host. */
  lemma {:induction false} LastServerIsLast(lines: seq<string>, host: string)
    requires LastServer(lines, host).Some?
    ensures exists j :: 0 <= j < |lines| && IsEntry(lines[j]) && ServerUrl(lines[j]) == LastServer(lines, host) && NoLaterEntry(lines, host, j)
    decreases |lines|
  {
    var n := |lines| - 1;
    if IsEntry(lines[n]) && Netloc(ServerUrl(lines[n]).value) == host {
      assert ServerUrl(lines[n]) == LastServer(lines, host) && NoLaterEntry(lines, host, n);
    } else {
      var prefix := lines[..n];
      assert LastServer(lines, host) == LastServer(prefix, host);
      LastServerIsLast(prefix, host);
      var j :| 0 <= j < |prefix| && IsEntry(prefix[j]) && ServerUrl(prefix[j]) == LastServer(prefix, host) && NoLaterEntry(prefix, host, j);
      assert lines[j] == prefix[j];
      forall k | j < k < |lines|
        ensures !(IsEntry(lines[k]) && Netloc(ServerUrl(lines[k]).value) == host)
      {
        if k < n {
          assert lines[k] == prefix[k];
          assert !(IsEntry(prefix[k]) && Netloc(ServerUrl(prefix[k]).value) == host);
        } else {
          assert k == n;
        }
      }
      assert IsEntry(lines[j]) && ServerUrl(lines[j]) == LastServer(lines, host) && NoLaterEntry(lines, host, j);
    }
  }

  /** The hosts of the entry lines. */
  ghost function Hosts(lines: seq<string>): set<string> {
    set j | 0 <= j < |lines| && IsEntry(lines[j]) :: Netloc(ServerUrl(lines[j]).value)
  }

  /** Reading stops at a line exactly when some line is malformed, and it stops at the first such line. */
  lemma {:induction false} ParseStopsAtFirstMalformedLine(table: map<string, string>, lines: seq<string>)
    ensures ParseLines(table, lines).Malformed? <==> exists j :: 0 <= j < |lines| && IsMalformed(lines[j])
    ensures ParseLines(table, lines).Malformed? ==>
              var at := ParseLines(table, lines).at;
              && IsMalformed(lines[at])
              && (forall j :: 0 <= j < at ==> !IsMalformed(lines[j]))
              && ParseLines(table, lines).table == ParseLines(table, lines[..at]).table
    decreases |lines|
  {
    if lines != [] {
      var init := lines[..|lines| - 1];
      ParseStopsAtFirstMalformedLine(table, init);
      assert forall j :: 0 <= j < |init| ==> init[j] == lines[j];
      var r := ParseLines(table, lines);
      if ParseLines(table, init).Malformed? {
        var at := r.at;
        assert lines[..at] == init[..at];
      } else if r.Malformed? {
        assert lines[..r.at] == init;
      }
    }
  }

  /**
   * Later lines overwrite earlier ones: after a complete read, a host is in
   * the table exactly when it was there before or is the host of some entry
   * line, and its value is the server URL of the last such line.
   */
  lemma {:induction false} ParseIsLastWriteWins(table: map<string, string>, lines: seq<string>)
    requires ParseLines(table, lines).Parsed?
    ensures forall host :: host in ParseLines(table, lines).table <==> host in table || LastServer(lines, host).Some?
    ensures forall host :: host in ParseLines(table, lines).table ==>
              ParseLines(table, lines).table[host] == if LastServer(lines, host).Some? then LastServer(lines, host).value else table[host]
    decreases |lines|
  {
    if lines != [] {
      var init := lines[..|lines| - 1];
      ParseIsLastWriteWins(table, init);
    }
  }

  /** Reading keeps the table host-keyed. */
  lemma {:induction false} ParseKeepsHostKeyed(table: map<string, string>, lines: seq<string>)
    requires HostKeyed(table)
    ensures HostKeyed(ParseLines(table, lines).table)
    decreases |lines|
  {
    if lines != [] {
      ParseKeepsHostKeyed(table, lines[..|lines| - 1]);
    }
  }

  /** The keys of a table read from scratch are the distinct hosts of the entry lines. */
  lemma ParsedKeysAreHosts(lines: seq<string>)
    requires ParseLines(map[], lines).Parsed?
    ensures ParseLines(map[], lines).table.Keys == Hosts(lines)
  {
    ParseIsLastWriteWins(map[], lines);
    var keys := ParseLines(map[], lines).table.Keys;
    forall host | host in Hosts(lines) ensures host in keys {
      var j :| 0 <= j < |lines| && IsEntry(lines[j]) && Netloc(ServerUrl(lines[j]).value) == host;
    }
  }

  /** `ml_servers_len`: after a complete read from scratch, the table size is the number of distinct hosts. */
  lemma ServerCountIsDistinctHosts(lines: seq<string>)
    requires ParseLines(map[], lines).Parsed?
    ensures |ParseLines(map[], lines).table| == |Hosts(lines)|
  {
    ParsedKeysAreHosts(lines);
  }

  /**
   * Every value of a table read from scratch is the server URL of one of
   * the entry lines, stored under that URL's host.
   */
  lemma ParsedValuesAreServerUrls(lines: seq<string>)
    requires ParseLines(map[], lines).Parsed?
    ensures forall host :: host in ParseLines(map[], lines).table ==>
              Netloc(ParseLines(map[], lines).table[host]) == host &&
              exists j :: 0 <= j < |lines| && IsEntry(lines[j]) && ServerUrl(lines[j]) == Some(ParseLines(map[], lines).table[host])
  {
    ParseIsLastWriteWins(map[], lines);
  }

  /** Reading one more entry line stores its server URL under its host, overwriting any earlier one. */
  lemma ParseNextEntry(table: map<string, string>, lines: seq<string>, k: nat)
    requires 0 < k <= |lines|
    requires ParseLines(table, lines[..k - 1]).Parsed? && IsEntry(lines[k - 1])
    ensures ParseLines(table, lines[..k]) ==
              Parsed(ParseLines(table, lines[..k - 1]).table[Netloc(ServerUrl(lines[k - 1]).value) := ServerUrl(lines[k - 1]).value])
  {
    assert lines[..k][..k - 1] == lines[..k - 1];
  }

  /** Reading one more comment or empty line changes nothing. */
  lemma ParseNextSkipped(table: map<string, string>, lines: seq<string>, k: nat)
    requires 0 < k <= |lines| && IsSkipped(lines[k - 1])
    ensures ParseLines(table, lines[..k]) == ParseLines(table, lines[..k - 1])
  {
    assert lines[..k][..k - 1] == lines[..k - 1];
  }

  /** Once the lines before `i` read cleanly and line `i` is malformed, reading stops at `i` with the table read so far. */
  lemma ParseStopsAt(table: map<string, string>, lines: seq<string>, i: nat)
    requires i < |lines| && IsMalformed(lines[i])
    requires ParseLines(table, lines[..i]).Parsed?
    ensures ParseLines(table, lines) == Malformed(i, ParseLines(table, lines[..i]).table)
  {
    ParseStopsAtFirstMalformedLine(table, lines[..i]);
    ParseStopsAtFirstMalformedLine(table, lines);
    assert forall j :: 0 <= j < i ==> lines[..i][j] == lines[j];
  }

  /** Storing a token under its own host keeps a table host-keyed. */
  lemma HostKeyedInsert(table: map<string, string>, u: string)
    requires HostKeyed(table) && IsToken(u)
    ensures HostKeyed(table[Netloc(u) := u])
  {
  }

  /** A comment line or an empty line leaves the reading as it was. */
  lemma SkippedLineAddsNothing(table: map<string, string>, lines: seq<string>, line: string)
    requires IsSkipped(line)
    ensures ParseLines(table, lines + [line]) == ParseLines(table, lines)
  {
    assert (lines + [line])[..|lines|] == lines;
  }

  /** A line of whitespace only is not skipped; it has no third token, so reading stops there. */
  lemma BlankLineIsMalformed(line: string)
    requires line != "" && AllSpace(line)
    ensures IsMalformed(line)
  {
    SplitOfSpace(line);
  }
}
