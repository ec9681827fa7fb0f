# debianSync in Dafny

`debianSync.py` mirrors a Debian or Ubuntu package repository into a
Spacewalk/Satellite software channel. It infers the repository root from the
index URL and reads the channel's checksums. It then parses the repository's
`Packages` index stanza by stanza. A stanza is queued when none of its checksums
is known to the server. A side report is written for Multi-Arch packages. The
queued packages are downloaded and pushed one at a time with `rhnpush`, and the
run stops at the first failed push.

This project models the pure core of that script and proves properties of the
model:

- `base.dfy`: `Option` and `Result` (with `:-` propagation).
- `text.dfy`: Python's `str.split`, `str.strip` and `os.path.basename`.
  Each is characterised independently: `Join` inverts `Split`, the pieces of a
  split are unique, and `Strip` removes exactly the surrounding whitespace.
- `reporoot.dfy`: the five `re.search(r'(.*MARKER/)', url)` calls. Python's
  leftmost-start, greedy, newline-stopping search is modelled exactly, as is the
  overwrite chain in which the last matching marker decides.
- `stanza.dfy`: the parsing of one line and one stanza into the script's
  variables. Variables survive from one stanza to the next.
- `diff.dfy`: the short-circuit checksum test that decides "already synced" or
  "needs sync".
- `report.dfy`: the Multi-Arch report line.
- `scan.dfy`: the loop over the index and its counters, with a reference
  description of the whole loop per key and per stanza.
- `upload.dfy`: the fail-fast download/push/remove loop, as a method with loop
  invariants.
- `sync.dfy`: one whole run from URL, catalog, index text and push statuses to
  the exit status.

The outside world enters as parameters:
- the index URL;
- the list of checksums the channel already holds (the `checksum` field of each
  package the XML-RPC call returns);
- the decompressed text of `Packages.gz`;
- the temporary directory;
- `status(i)`, the exit status of the i-th `rhnpush`.

Python exceptions that end the script are modelled as the `Fault` values of
`Result`, not as crashes:
- `IndexError` when a line is exactly a recognised key with no colon, so that
  `line[1]` does not exist;
- `NameError` when a variable is read before any stanza assigned it.

`TypeError` from `None + pkg` is the `RootMissing` outcome.

### Behaviour of the code worth knowing

- **Repo root:** every matching marker overwrites `repoRoot`, so the LAST one in
  the order ubuntu, debian, security.debian.org, archive.canonical.com,
  postgresql wins. The greedy `.*` makes each match end at the last occurrence
  of its marker on the first line that has one. The dot in `postgresql.org` is
  not escaped, so any character other than a newline may stand there.
- **Field values:** a line is split on every colon, and the value is `line[1]`,
  the text between the first and the second colon. Anything after a second colon
  is lost.
- **Variables between stanzas:**
  - only `sha1` (reset to `''`) and `multiarch` (reset to `None`) are cleared at
    the start of a stanza;
  - every other variable keeps the value an earlier stanza gave it;
  - a variable no stanza has assigned raises `NameError` when it is read.

  For example, an index whose first stanza has only `Package`, `Filename` and
  `MD5sum` stops with `NameError` on `sha256`, unless the empty string or that
  MD5 is a known checksum.
- **Trailing separator:** an index ending in "\n\n" yields an empty last chunk.
  It is counted as a package. It only does the per-stanza reset, so it is decided
  on the previous stanza's variables with `sha1` set to `''`
  (`Scan.EmptyChunkDecides`). So:
  - when `''` is not a known checksum, a package the previous stanza queued is
    queued a second time (`Scan.EmptyChunkRequeues`);
  - a package the previous stanza found on the server only through its SHA1 is
    queued and pushed although the server has it (`Scan.EmptyChunkQueuesSha1Match`);
  - when `''` is a known checksum, the empty chunk counts as already synced
    (`Scan.EmptyChunkSyncedWhenEmptyKnown`).

## Model

| member | source | states |
|---|---|---|
| RepoRoot.Search | debianSync.py:59 | `re.search('(.*P)', s).group(1)`: none exactly when no start and end form a match (a newline-free prefix followed by the marker); otherwise the text from the leftmost possible start to the end of the last marker occurrence on that line |
| RepoRoot.SearchWithoutNewline | debianSync.py:59-68 | for a URL without newlines, a marker's match is the URL prefix ending with the marker's last occurrence |
| RepoRoot.SearchFailsWithoutNewline | debianSync.py:59-68 | for a URL without newlines, a marker's search fails exactly when the marker occurs nowhere in it |
| RepoRoot.SearchIsPrefix | debianSync.py:59-67 | for a URL without newlines, a successful marker search returns the URL prefix ending with the marker's last occurrence |
| RepoRoot.RootIsUrlPrefix | debianSync.py:58-68 | for a URL without newlines, an inferred root is the URL prefix ending with the last occurrence of one of the markers |
| RepoRoot.PostgresDotIsWildcard | debianSync.py:67 | the unescaped dot in the postgresql marker matches any character except a newline |
| RepoRoot.OverwriteMeaning | debianSync.py:58-68 | each successful search overwrites the root and a failed one keeps it: the result is the last present match, or the initial root when none is present |
| RepoRoot.Resolve | debianSync.py:57-68 | the inferred root is None exactly when no marker matches; otherwise it is the search result of the last marker, in script order, that matches |
| RepoRoot.RootWarningIffNoMarker | debianSync.py:73-74 | `not repoRoot` holds exactly when no marker matched, because a match is never empty |
| Text.SplitJoin | debianSync.py:98 | joining the pieces of `s.split(sep)` with `sep` gives back `s` |
| Text.SplitPieces | debianSync.py:103-104 | no piece of a split contains the separator, and each piece but the last ends at the first occurrence of the separator |
| Text.SplitUnique | debianSync.py:98-104 | any list of pieces that joins to `s` and has the piece properties above is exactly `Split(s, sep)` |
| Text.Strip | debianSync.py:106 | `strip()` returns a contiguous part of its input, and removes only whitespace (space, tab, newline, carriage return, vertical tab, form feed); the result neither starts nor ends with whitespace |
| Text.BasenameMeaning | debianSync.py:142 | `os.path.basename` returns the suffix of the path after its last '/', which contains no '/' |
| Stanza.KeyOf | debianSync.py:105-119 | a line head is recognised exactly when it equals one of the eight key names, compared case-sensitively and without trimming |
| Stanza.ParseLineMeaning | debianSync.py:104-120 | a line raises IndexError exactly when it is a bare key name; it is ignored exactly when it neither is a key nor starts with key + ':'; otherwise it assigns that key the stripped text between its first and second colon |
| Stanza.LastValueMeaning | debianSync.py:103-120 | the per-key reference value is the value of the last line that assigns the key, and absent when no line does |
| Stanza.ApplyLinesSucceed | debianSync.py:103-120 | the inner loop over a stanza's lines goes through when no line raises |
| Stanza.ApplyLinesFirstFailure | debianSync.py:103-120 | the inner loop stops with the exception of the first line that raises |
| Stanza.ApplyLinesLastWins | debianSync.py:103-120 | after the lines, a key holds the value of the last line that sets it; a key no line sets keeps its previous value or stays unassigned |
| Stanza.Reset | debianSync.py:100-101 | at the start of a stanza `sha1` is '' and `multiarch` is unset; every other variable is unchanged |
| Stanza.StanzaCarriesOver | debianSync.py:98-120 | after a stanza, a key it sets holds its last value there; otherwise `sha1` is '', `multiarch` is unset and every other variable keeps the previous stanza's value |
| Diff.BuildChannelPkgs | debianSync.py:80-83 | the loop filling `channelPkgs` gives a dict whose keys are exactly the checksums the server lists, each with value 1 |
| Diff.Decide | debianSync.py:122-125 | the filename is queued exactly when all three checksum variables are assigned, none is known, and `filename` is assigned. The package counts as synced only when some checksum is known. Each test of the `and` chain is decided in order: an unassigned `md5` raises NameError even when a later checksum is known; a known `md5` means synced; then `sha1`, then `sha256`, each with the same two outcomes, once every earlier variable was assigned and not known; an unassigned `filename` raises only when the package is to be queued |
| Report.ReportLine | debianSync.py:127-128 | no line exactly when `multiarch` is unset; otherwise the line "name version arch multiarch\n" when those are assigned; otherwise a NameError for the first unassigned one of `pkgname`, `pkg_version`, `arch`, in the order the tuple lists them |
| Report.FormatLineRoundTrip | debianSync.py:128 | a report line whose values contain no space ends in a newline, and splitting the rest on ' ' gives back the four values |
| Scan.Step | debianSync.py:98-128 | one iteration counts the stanza once and either adds one to the synced count with the queue unchanged, or appends one filename to the queue with the synced count unchanged; the queue and the report are only appended to |
| Scan.ScanStanzas | debianSync.py:98-128 | the loop counts every stanza; the synced count and the queue only grow, and together they grow by exactly the number of stanzas |
| Scan.ScanIndex | debianSync.py:90-128 | the package count is the number of "\n\n"-separated chunks, and equals synced count plus queue length |
| Scan.ParseStanzaSettles | debianSync.py:98-120 | parsing a stanza gives exactly the per-key reference state `Settle` |
| Scan.StepFollowsSettle | debianSync.py:98-128 | one iteration adds exactly the queue, count and report contributions of the reference state |
| Scan.ScanFollowsTrace | debianSync.py:98-128 | the loop computes the reference plan over the sequence of reference states: the queue holds, in index order, the filenames of the states with no known checksum; the synced count is the number of states with a known one; the report has one line per state with `multiarch` set |
| Scan.MultiArchOnlyFromOwnStanza | debianSync.py:101-120 | a state has `multiarch` set exactly when its own stanza has a Multi-Arch line, whatever earlier stanzas held |
| Scan.StepReports | debianSync.py:127-128 | an iteration writes a report line exactly when its stanza has its own Multi-Arch line |
| Scan.ReportCountsMultiArchStanzas | debianSync.py:98-128 | the report has exactly as many lines as there are stanzas with their own Multi-Arch line |
| Scan.ScanIndexPlan | debianSync.py:90-128 | for the whole index text, the plan equals the reference plan started from no assigned variables, and the report length is the number of Multi-Arch stanzas |
| Scan.EmptyChunkIsReset | debianSync.py:98-120 | an empty chunk raises nothing and only performs the per-stanza reset of `sha1` and `multiarch` |
| Scan.EmptyChunkDecides | debianSync.py:98-125 | the decision for an empty chunk is the decision for the previous variables with `sha1` set to '' |
| Scan.EmptyChunkRequeues | debianSync.py:98-125 | with '' not a known checksum, a package the previous stanza queued is queued again by the empty chunk |
| Scan.EmptyChunkQueuesSha1Match | debianSync.py:98-125 | a package the previous stanza found on the server only through its SHA1 is queued by the empty chunk |
| Scan.EmptyChunkSyncedWhenEmptyKnown | debianSync.py:98-125 | with '' a known checksum and `md5` assigned, the empty chunk counts as already synced |
| Upload.UploadAll | debianSync.py:138-157 | the loop completes exactly when the queue is empty, or the root is present and every push returns 0. Otherwise it stops after the first nonzero push, with all earlier pushes 0, or (root None) after the first progress line with no push. With no root there is never a push, and the only event is that progress line (none for an empty queue). With a root its events are the per-package attempts up to the stop |
| Upload.AttemptsShape | debianSync.py:140-154 | each push is immediately followed by removal of the pushed file, and the files are pushed in queue order, each once |
| Sync.RunSync | debianSync.py:57-159 | a whole run: the root is the inferred root; the error line is printed exactly when no marker matches; the index is fetched from url + "Packages.gz"; a parse fault gives exit 1 with no upload; exit 0 exactly when the scan succeeds and every queued package is pushed with status 0. With no root nothing is pushed, and the only upload event is the first progress line |

## Left out

- Command-line parsing with `getopt` and the usage text (lines 1-55): no
  decision of the core depends on it.
- The XML-RPC session: login, `list_all_packages` and logout. The catalog
  enters as a list of checksum strings.
- HTTP fetches and gzip decompression: the index arrives as its decompressed
  text. A download's content is represented only by its URL and target path.
- Writing the Multi-Arch file and the temporary package files: the report is a
  list of lines. What an interrupted run leaves in the file is not modelled.
- The `INFO:` and `ERROR:` lines on standard output, except the per-package
  progress line and whether the missing-root error is printed. The counters they
  show are in the plan.
- The `rhnpush` command line, including its embedded credentials, and the
  subprocess itself: a push is reduced to the exit status the oracle `status`
  gives.
- Whitespace for `strip()` is the ASCII set Python 2 uses for byte strings. No
  Unicode or locale-dependent whitespace is modelled.
- Any exception other than those named above. Examples are I/O errors,
  an XML-RPC fault, or a `TypeError` when a report value is not a string.
