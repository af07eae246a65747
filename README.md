# mlopt mirror-list pipeline in Dafny

This project models the core of `mlopt`, a small Python 2 tool that rewrites a
pacman mirror list. The core is the class `Update_ML`, and the model follows
its three steps:

1. **Read the mirror list** (`parse_ml`). Comment lines (starting with `#`)
   and empty lines are passed over. Every other line contributes its third
   whitespace token, stored verbatim in `ml_servers` under the host of that
   URL. Then `ml_servers_len` is set to the table size. A later line with
   the same host overwrites an earlier one. A line with fewer than three
   tokens makes `split()[2]` raise. That includes a line of spaces only,
   which is not passed over.
2. **Join and partition** (the loop of `sort_ml`). Each record of the remote
   status document is looked up by the host of its `url`. Records whose
   host is not configured are dropped. The others are stored, paired with
   the configured server URL, in `complete_servers` when
   `completion_pct == 1.0` and in `incomplete_servers` otherwise. The last
   record wins in each table, and one host can end up in both tables.
3. **Emit** (`write_ml`). One line `Server = <server URL>` is written per
   entry of `complete_servers`, in whatever order the table is walked.

Layout:

- `options.dfy`: `Option`.
- `tokens.dfy`: `Split`, a stand-in for Python 2's `str.split()`.
- `urls.dfy`: `Netloc`, a stand-in for `urlparse(u)[1]`. Python's `urlparse`
  is not part of this model. `Netloc` follows its rule: strip a valid
  scheme and `:`, then take what follows `//` up to the first `/`, `?` or `#`.
- `parse.dfy`, `join.dfy`, `emit.dfy`: each step as a function over
  sequences and maps (`ParseLines`, `Route`, `Render`), with an independent
  reference reading (`LastServer`, `LastRecord`) and the lemmas that relate them.
- Data: `Join.StatusRecord` is one element of the status document's `urls`
  array (mlopt.py:114-117, 124). `Join.Match` is the pair
  `[segment, ml_servers[server_url]]` stored in either table, and
  `Join.Buckets` holds the two tables `complete_servers` and
  `incomplete_servers` (mlopt.py:127, 129).
- `updater.dfy`: the class `MirrorListUpdater` (the model of `Update_ML`).
  It has the three tables and the count of the source, and its three loop methods are
  proved against the step functions.

Points where the code behaves differently from what its purpose suggests:

- The join key is the host alone (`urlparse(...)[1]`), not scheme plus host.
  `http://h/...` and `https://h/...` collide (`Urls.SchemeIsNotPartOfKey`).
- This version of `sort_ml` does not sort, reverse or limit. The model has no
  ordering step.
- Only the exact empty line is skipped. A line of spaces only is not
  skipped, and reading stops there (`Parse.BlankLineIsMalformed`).
- Zero entries is not an error in the code, and the model does not treat it
  as one.
- The two tables are not disjoint (`Join.BucketsMayOverlap`).

## Model

| member | source | states |
|---|---|---|
| `Tokens.Split` | mlopt.py:86 | every token `split()` yields is non-empty and free of whitespace |
| `Tokens.SplitKeepsVisibleText` | mlopt.py:86 | concatenating the tokens gives exactly the non-whitespace characters of the line: splitting only drops whitespace |
| `Tokens.SplitTokensOccurInLine` | mlopt.py:86 | every token is a contiguous, verbatim piece of its line |
| `Tokens.SplitOfSpace` | mlopt.py:86 | a line of whitespace only has no tokens |
| `Tokens.SplitWord` | mlopt.py:86 | a token followed by whitespace or by the end of the line is split off whole: tokens are the maximal whitespace-free runs, so "ab" is one token, never two |
| `Urls.Netloc` | mlopt.py:117 | the network location holds no `/`, `?` or `#`, and is no longer than the URL |
| `Urls.NetlocOfServerUrl` | mlopt.py:86 | for a URL built as scheme `://` host path, the key is exactly the host |
| `Urls.SchemeIsNotPartOfKey` | mlopt.py:86 | the same host under two schemes, with any two paths, gives the same key |
| `Parse.IsSkipped` | mlopt.py:82 | a line is passed over exactly when it starts with `#` or is the empty string |
| `Parse.ServerUrl` | mlopt.py:86 | `split()[2]` exists exactly when the line has at least three tokens; it is then a token that occurs verbatim in the line |
| `Parse.ParseLines` | mlopt.py:81-86 | reading only adds keys to the table, and a failed read stops at a line of the input |
| `Parse.LastServer` | mlopt.py:81-86 | the reference reading is defined exactly when some entry line has that host, and it is the server URL of one such line |
| `Parse.LastServerIsLast` | mlopt.py:86 | the line the reference reading takes is an entry line for that host, and no later entry line has that host: the last write wins |
| `Parse.ParseStopsAtFirstMalformedLine` | mlopt.py:81-86 | reading fails exactly when some non-skipped line has fewer than three tokens; it stops at the first such line, keeping the entries of the lines before it |
| `Parse.ParseStopsAt` | mlopt.py:81-86 | when the lines before `i` read cleanly and line `i` is malformed, the result is a failure at `i` with the table read so far |
| `Parse.ParseIsLastWriteWins` | mlopt.py:86 | after a complete read, a host is a key exactly when it was one before or some entry line has it; its value is the server URL of the last such line |
| `Parse.ParseKeepsHostKeyed` | mlopt.py:86 | reading keeps every value a token stored under its own host |
| `Parse.ParsedKeysAreHosts` | mlopt.py:81-86 | the keys of a table read from scratch are exactly the hosts of the entry lines |
| `Parse.ServerCountIsDistinctHosts` | mlopt.py:88 | `ml_servers_len` after a complete read from scratch is the number of distinct hosts among the entry lines |
| `Parse.ParsedValuesAreServerUrls` | mlopt.py:86 | every stored value is the server URL of an entry line of the input, stored under its host |
| `Parse.SkippedLineAddsNothing` | mlopt.py:82-83 | a `#` line or an empty line leaves the result unchanged |
| `Parse.BlankLineIsMalformed` | mlopt.py:82-86 | a non-empty line of whitespace only is not skipped and has no third token |
| `Join.IsComplete` | mlopt.py:124 | a record is complete exactly when its completion percentage is present and equal to 1.0; null or any other value is incomplete |
| `Join.Route` | mlopt.py:114-129 | after the loop, both tables hold only keys they held before or configured hosts |
| `Join.LastRecord` | mlopt.py:114-129 | the reference reading is defined exactly when some record has that host and completeness, and it is such a record |
| `Join.LastRecordIsLast` | mlopt.py:127-129 | the record the reference reading takes is one of the records, and no later record has that host and completeness: the last write to each table wins |
| `Join.RouteBucketIsLastMatch` | mlopt.py:121-129 | per table, by induction: each host holds the last record for it with that table's completeness, paired with `ml_servers[host]`, if the host is configured; otherwise what it held before |
| `Join.RouteIsLastMatchPerBucket` | mlopt.py:121-129 | the same for both tables: the complete table gets records with `completion_pct == 1.0`, the incomplete one the rest, and the last one wins |
| `Join.RouteKeepsMatchKeyed` | mlopt.py:117-129 | every stored pair sits under the host of its record, and its server URL is a token with that host |
| `Join.RouteIsInnerJoin` | mlopt.py:121 | starting from empty tables, every key of either table is a key of `ml_servers` |
| `Join.UnconfiguredRecordIsDropped` | mlopt.py:121 | a record whose host is not configured changes neither table |
| `Join.BucketsMayOverlap` | mlopt.py:124-129 | a configured host with a complete record and an incomplete record ends up in both tables |
| `Emit.Render` | mlopt.py:147 | the line `Server = <server URL>` is never a skipped line, and when the URL is one token its tokens are `Server`, `=` and the URL |
| `Emit.RenderedLineParsesBack` | mlopt.py:153 | a written line `Server = u`, read back as a mirror-list line, is an entry whose server URL is `u` |
| `Emit.RenderedLinesAreEntries` | mlopt.py:152-153 | every written line is an entry line whose server URL is the one written, and that URL's host is its key |
| `Emit.LastRenderedServer` | mlopt.py:152-153 | each host is written once, so the last written line for a host carries that host's server URL |
| `Emit.RenderedListParsesBack` | mlopt.py:152-153 | reading the written list back gives a table with the same hosts as `complete_servers`, each mapped to its server URL |
| `Emit.EmittedServersComeFromInputLines` | mlopt.py:145-153 | after reading, joining and writing, every written line renders the server URL of some entry line of the input: no URL is made up |
| `Updater.MirrorListUpdater.constructor` | mlopt.py:35-42 | all tables start empty and `ml_servers_len` is 0 |
| `Updater.MirrorListUpdater.ParseMirrorList` | mlopt.py:81-88 | `ml_servers` becomes the table `ParseLines` gives; the index of the failing line is returned on failure; `ml_servers_len` is set to the table size only after a complete read; the object invariant is kept |
| `Updater.MirrorListUpdater.SortMirrorList` | mlopt.py:114-129 | both tables become what `Route` gives from their old contents; the object invariant is kept |
| `Updater.MirrorListUpdater.WriteMirrorList` | mlopt.py:145-153 | the output has exactly one line per entry of `complete_servers`, each `Server = ` plus that entry's server URL; the incomplete table is not read |

## Left out

- Command-line parsing and verbose messages (`parse_args`, `msg`, mlopt.py:46-63). These are CLI plumbing.
- The file-existence check, reading the file and writing the output file or stdout (mlopt.py:65-69, 77-79, 145-153). The lines come in as a sequence, and the rendered lines go out as a sequence. A missing file (where `ml_raw` stays `None`) is not modelled.
- The HTTP fetch and JSON decoding in `get_stats` (mlopt.py:95-105). The records come in as a sequence. Each record keeps only `url` and `completion_pct`. The source raises `KeyError` for every record without `url` (mlopt.py:116), and for a record without `completion_pct` only when its host is configured, since that key is read only inside the test at mlopt.py:121 (mlopt.py:124). A null `url` also raises. None of these errors is modelled.
- `Join.Route`: Python 2 byte strings and unicode strings are not told apart. `json.loads` gives unicode `url` values, while the mirror-list tokens are byte strings. A unicode host with non-ASCII characters never equals the byte-string key at mlopt.py:121, so the source drops such a record; `Route` compares characters and routes it when the characters agree.
- `completion_pct` is a Python float. It is modelled as an exact `real` (JSON null becomes `None`). The only test is equality with 1.0, and that is exact for every finite float.
- The incomplete-server report (mlopt.py:131-138). It only prints. When `--i` is given and at least one incomplete server exists, it fails at run time, because it indexes a `[segment, line]` list with `"completion_pct"` (mlopt.py:137-138); otherwise it only prints a count.
- Output order of `write_ml`. Python 2 walks a dict in an unspecified order. `WriteMirrorList` picks keys in any order and returns that order as a ghost value; its properties do not depend on the order.
- `update` and `__main__` (mlopt.py:157-170). `update` reads and joins, then calls `write_ml` only when `--w` gives a destination (mlopt.py:161-163); without it nothing is written. `__main__` builds the object and calls `parse_args` before `update` (mlopt.py:167-170). The model offers the three steps as separate methods and does not model this sequencing or the option test.
- `Urls.Netloc`: `urlparse` can raise `ValueError` on an unbalanced `[` or `]` in the network location. It also caches results and handles unicode input. None of this is modelled.
- `Tokens.Split`: whitespace is the six ASCII whitespace characters of a Python 2 byte string. Unicode whitespace is not modelled.
