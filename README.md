# git-migrator, modelled in Dafny

git-migrator copies the commit timeline of an origin git repository into a
destination repository. For every origin commit it creates one empty commit,
dated like the original. The commit's message is a global identifier:
`<pathHash>-<commitHash>`, where `pathHash` is the decimal FNV-1a 32 hash of
the origin folder path. Before creating anything the migrator reads the
destination's commit subjects back and skips identifiers already present, so a
migration can be re-run or resumed without duplicating commits.

The model covers `migrator/git.go`:

- `outcomes.dfy` (`Outcomes`): `Option`, `Result` and `Outcome`. These stand
  for Go's `(value, error)` and `error` returns.
- `gotext.dfy` (`GoText`): the parts of Go's `strings` and `strconv` that the
  code relies on.
  - `strings.Split` on one separator.
  - `strings.Contains`.
  - `strings.Fields`, with `unicode.IsSpace`.
  - `strconv.ParseInt(s, 10, 64)` as `ParseInt64`, and `strconv.Itoa` as `FormatInt`.
  - `Join` is not called by the code. It is the inverse of `Split`, used to lay
    out git's newline-separated output and to state the round trips.
  - Each comes with round-trip or characterising lemmas.
- `fnv.dfy` (`Fnv`): hashing a path.
  - Go's `[]byte(s)` conversion is UTF-8 encoding. It is proved injective by a
    decoder round trip.
  - FNV-1a 32 is a fold over `bv32`, checked against the published test
    vectors.
  - The stateful hasher from `fnv.New32a` is a class, `Hash32a`, whose `sum`
    field `Write` updates.
  - `getHashFromString` is `GetHashFromString`.
- `gitlog.dfy` (`GitLog`): the `History` record, and how the two readers parse
  `git log` output.
  - Go's `History` struct (migrator/git.go:19-24) is the datatype
    `GitLog.History`. The `History` map of `CommitsHistory` (migrator/git.go:15-17)
    is the type `GitLog.HistoryMap`. Timestamps are Unix seconds.
  - The reader loop fills the map in place. It is proved equal to a left fold
    (`Collect`) over the parsed lines, and the properties of the fold are
    lemmas: which keys appear, the later line wins, malformed lines are
    skipped, empty output.
- `migration.dfy` (`Migration`): the destination repository and commit
  creation.
  - The repository is a class whose commit list commit creation appends to.
  - `createCommitWithTimestampInRepo`, `CreateCommitsInRepo` and
    `MigrateToFakeCommitRepo` are methods.
  - Also here: a faithful rendering of the destination's own `git log` as a
    reply, and the migration guarantees. Each missing identifier gets exactly
    one commit, in any map iteration order. A failed run keeps what it
    created. Re-running resumes with exactly the missing commits, and after a
    complete run a re-run creates nothing.

External effects are inputs to the model:

- The result of each `git log` invocation is a `CommandResult`: the output, or
  the error text runCommand would produce.
- `git commit` is a function `git(attempt, message, timestamp)` giving a
  `CommitReply`: either the new commit's hash and git's summary output, or an
  error. Because of this the contracts cover every pattern of git failures.
- The `os.Stat` existence test is a boolean parameter.
- Go's unordered `range` over the history map is an arbitrary choice
  (`k :| k in remaining`). A ghost out-parameter records the order taken, and
  the lemmas quantify over every possible order.

Three behaviours of the code that are easy to misread:

- The destination path hash is everything in the full destination folder path
  before its first `-` (`strings.Split(gitFolder, "-")[0]`). It is not derived
  from the folder's basename.
- The destination key is the third `|`-separated field of a log line. A subject
  that contains `|` is cut at that character, not taken verbatim.
- git can record a commit and then print output with fewer than two
  whitespace-separated tokens. The run then fails with "unexpected output from
  git commit", and the commit stays created.

## Model

| member | source | states |
|---|---|---|
| Fnv.Hash32a.constructor | migrator/git.go:194 | a new FNV-1a 32 hasher starts from the offset basis, with nothing written, so its sum is the hash of no bytes |
| Fnv.Hash32a.Write | migrator/git.go:195 | writing bytes folds each byte into the sum (xor, then multiply by the FNV prime modulo 2^32) and appends them to what was written, so the sum stays the hash of everything written |
| Fnv.Hash32a.Sum32 | migrator/git.go:196 | `Sum32` returns the FNV-1a 32 hash of every byte written since the hasher was made |
| Fnv.Fnv1a32 | migrator/git.go:194-196 | the hash of no bytes is the offset basis, and each further byte is one xor-and-multiply round on the hash of the bytes before it |
| Fnv.FoldConcat | migrator/git.go:195 | hashing in pieces equals hashing the concatenation, so one Write of the whole path is the FNV-1a hash of the path's bytes |
| Fnv.TestVectors | migrator/git.go:194-196 | the model gives the published FNV-1a 32 values for "", "a" and "foobar" |
| Fnv.DecodeEncodeChar | migrator/git.go:195 | the UTF-8 bytes of one character decode back to it, whatever follows |
| Fnv.Utf8RoundTrip | migrator/git.go:195 | the bytes `[]byte(s)` gives for a string decode back to that string |
| Fnv.Utf8Injective | migrator/git.go:195 | different paths give different byte strings to hash |
| Fnv.GetHashFromString | migrator/git.go:193-197 | the hasher's returned text is the decimal rendering of the FNV-1a 32 hash of the path's UTF-8 bytes |
| Fnv.PathHash | migrator/git.go:193-197 | the path hash is a non-empty string of decimal digits whose value is the FNV-1a 32 hash of the path's UTF-8 bytes |
| Fnv.PathHashIsDecimal | migrator/git.go:196 | the path hash's value is below 2^32, and it has no `-`, `\|` or newline in it |
| GoText.Split | migrator/git.go:116 | `strings.Split` on one separator gives at least one piece, and no piece contains the separator |
| GoText.Join | migrator/git.go:116 | joining pieces (how the model renders `git log` output as lines) gives text that starts with the first piece, and no text for no pieces |
| GoText.JoinSplit | migrator/git.go:116 | splitting on a separator and joining back gives the original text |
| GoText.SplitJoin | migrator/git.go:120 | splitting the join of separator-free pieces gives those pieces back |
| GoText.SplitWithoutSep | migrator/git.go:178-179 | text without the separator splits into itself alone |
| GoText.SplitAfterPiece | migrator/git.go:120 | a separator-free piece followed by the separator splits off as the first field |
| GoText.Contains | migrator/git.go:103 | `strings.Contains` holds for every prefix of the text, and never for anything longer than the text |
| GoText.ContainsIffOccurs | migrator/git.go:103 | `Contains` holds exactly when the substring occurs at some position |
| GoText.ContainsInfix | migrator/git.go:103 | any text with the substring inside it contains it |
| GoText.IsSpace | migrator/git.go:84 | `unicode.IsSpace`'s set of white-space characters: no visible ASCII character is in it, and none lies above U+3000 |
| GoText.Fields | migrator/git.go:84 | every token `strings.Fields` yields is non-empty and has no white space |
| GoText.FieldsOfJoin | migrator/git.go:84 | the fields of non-empty, space-free words joined by spaces are exactly those words |
| GoText.FieldsTrailingSpace | migrator/git.go:84 | trailing white space (git's final newline) does not change the fields |
| GoText.FieldsAroundSpace | migrator/git.go:84 | a white-space character (the newline ending git's first output line) splits the fields into those before it followed by those after it |
| GoText.ParseInt64 | migrator/git.go:125 | an accepted timestamp is within the int64 range |
| GoText.ParseFormatInt | migrator/git.go:125 | every int64, printed in decimal, parses back to itself |
| GoText.DecimalValueOfFormat | migrator/git.go:196 | a printed natural number's digits denote that number |
| GoText.FormatInt | migrator/git.go:196 | `strconv.Itoa` gives a non-empty string of digits for a non-negative number, and `-` followed by digits for a negative one |
| GoText.LeadingZerosIgnored | migrator/git.go:125 | leading zeros do not change the value of a numeral |
| GoText.PaddedParse | migrator/git.go:125 | `strconv.ParseInt` accepts an optional `+` or `-` sign and any number of leading zeros, giving the signed value of the shortest numeral (`-007` reads as -7, `-0` as 0) |
| GitLog.FirstField | migrator/git.go:178-179 | `strings.Split(s, sep)[0]` is the prefix of `s` before its first `sep`, or all of `s` when there is none |
| GitLog.GlobalId | migrator/git.go:130 | an origin key is the path hash, then `-`, then the commit id; a path hash without `-` is exactly the key's part before its first `-` |
| GitLog.IsEmptyBranchError | migrator/git.go:103 | git's error is taken as the no-commits error exactly when both marker texts occur in it (the same test is at line 152) |
| GitLog.ParseLine | migrator/git.go:117-136 | a line is skipped when it is empty, has fewer `\|`-fields than the listing needs (2 for the origin, 3 for the destination, as at lines 168-172), or has a second field that is not an int64; otherwise it gives the record with the first field as commit id and the second as timestamp, keyed `<pathHash>-<field0>` in the origin, and keyed by the third field with the folder prefix before `-` as path hash in the destination |
| GitLog.Store | migrator/git.go:131-136 | the map built from the records holds each record under its own global id |
| GitLog.ReadListing | migrator/git.go:94-112 | a missing folder, or a failed `git log` whose error is not the no-commits error, is an error with that text; the no-commits error reads as an empty history; every key of a history read is its record's global id |
| GitLog.FillHistory | migrator/git.go:115-137 | the line loop's map equals the fold of the parsed lines (the same loop serves both readers) |
| GitLog.GetCommits | migrator/git.go:93-140 | reading the origin: the missing folder is an error; a no-commits git error gives an empty map; other git errors propagate; output is parsed with `<pathHash>-<commitHash>` keys |
| GitLog.GetCommitsFakeRepo | migrator/git.go:142-191 | reading the destination: the same error cases, with the third field as key and the folder prefix before `-` as path hash |
| GitLog.CollectEmptyOutput | migrator/git.go:110-112 | empty output collects to the empty map, agreeing with the early return |
| GitLog.EmptyHistory | migrator/git.go:101-112 | empty output and git's no-commits error both read as an empty history |
| GitLog.NoCommitsErrorRecognised | migrator/git.go:103 | git's "your current branch ... does not have any commits yet" error is recognised wherever it sits in the error text |
| GitLog.ParsingNeverFails | migrator/git.go:116-139 | successful git output always yields a history: no line makes the read fail |
| GitLog.StoreStep | migrator/git.go:117-136 | one loop iteration: a skipped line leaves the map alone, a record is put under its identifier |
| GitLog.StoreKeys | migrator/git.go:131 | a key is in the map exactly when some record carries it as global id |
| GitLog.StoreLastWins | migrator/git.go:131-136 | a record with no later record of the same id is what the map holds for that id |
| GitLog.StoreFromRecords | migrator/git.go:131-136 | every value in the map is one of the records |
| GitLog.StoreSkipsNone | migrator/git.go:117-129 | a skipped record leaves the map as if it were absent |
| GitLog.StoreOnePerRecord | migrator/git.go:131 | with distinct ids the map has one entry per record |
| GitLog.CollectKeys | migrator/git.go:116-137 | a key is in the history exactly when some line parses to a record with that key |
| GitLog.CollectLastWins | migrator/git.go:131-136 | on duplicate keys the last line with that key wins |
| GitLog.CollectFromLines | migrator/git.go:116-137 | every record in the history is the parse of one of the lines |
| GitLog.CollectSkipsRejected | migrator/git.go:117-129 | a malformed line (empty, too few fields, bad timestamp) changes nothing |
| GitLog.CollectOnePerLine | migrator/git.go:131 | when the accepted lines have distinct keys, the history has one entry per accepted line |
| GitLog.OriginKeyedApart | migrator/git.go:130 | in the origin, distinct commit hashes give distinct keys |
| GitLog.OriginLineAccepted | migrator/git.go:120-136 | an origin line `<hash>\|<ts>...`, for any timestamp text `ts` that `strconv.ParseInt` accepts, gives the record keyed `<pathHash>-<hash>` with that value, ignoring extra fields |
| GitLog.DestinationLineAccepted | migrator/git.go:168-187 | a destination line `<hash>\|<ts>\|<subject>`, for any timestamp text `ts` that `strconv.ParseInt` accepts, gives the record keyed by the subject's first field, with the folder prefix as path hash |
| GitLog.PaddedTimestampAccepted | migrator/git.go:125-130 | an origin line whose timestamp is written with a sign or with leading zeros (`+017`, `0017`, `-007`, `-0`) is accepted with the signed value of the shortest numeral |
| GitLog.BadTimestampRejected | migrator/git.go:125-129 | a line whose second field is not an int64 is skipped |
| GitLog.ShortLineRejected | migrator/git.go:121-124 | a line with fewer fields than the listing needs (2 for the origin, 3 for the destination) is skipped |
| GitLog.OriginHistoryWellFormed | migrator/git.go:130-136 | every origin record is keyed by its own global id, which has no `\|` or newline, and carries an int64 timestamp |
| Migration.DestinationReadsMarkers | migrator/git.go:148-190 | reading back a destination whose log git renders faithfully finds exactly the first `\|`-field of every commit message |
| Migration.CollectReadsMarkers | migrator/git.go:164-188 | the destination collects exactly the keys its lines yield |
| Migration.Missing | migrator/git.go:60 | a key of the history is missing exactly when its id is not among the destination's keys |
| Migration.Plan | migrator/git.go:59-68 | the keys planned are at most as many as those visited, come from the visited keys, and each has an id the destination lacks |
| Migration.PlanSelectsMissing | migrator/git.go:59-68 | the visited keys that get a commit are exactly those whose id is not in the destination, each once |
| Migration.PlanIsMissing | migrator/git.go:59-68 | whatever order `range` visits the history in, one commit is planned per missing key: the same set and the same count |
| Migration.PlanStep | migrator/git.go:59-68 | visiting one more key adds it to the plan exactly when its id is missing |
| Migration.MarkersAfter | migrator/git.go:59-62 | after the planned commits, the destination's markers are the old ones plus the planned keys |
| Migration.ReadableAfter | migrator/git.go:77-78 | the commits migration writes keep the destination's log readable |
| Migration.MissingAfterPlan | migrator/git.go:59-68 | the keys still missing after a (partial) run are those missing before and not yet visited |
| Migration.ResumeCreatesRemainder | migrator/git.go:46-71 | after a run over some keys, a re-run in any order plans exactly the keys missing before and not yet visited |
| Migration.SecondRunCreatesNothing | migrator/git.go:46-71 | after a complete run, a re-run in any order plans nothing |
| Migration.CommitIdFromOutput | migrator/git.go:84-89 | reading git's output succeeds exactly when it has at least two white-space-separated fields, and gives the second, which is non-empty and has no white space; otherwise the error is "unexpected output from git commit: " followed by the output |
| Migration.CommitIdOfSummary | migrator/git.go:84-90 | for output whose first line is git's summary, the commit id is the summary's second word whatever lines follow; with fewer words it is the second field of the whole output, and with fewer than two fields the "unexpected output" error |
| Migration.SummaryCommitId | migrator/git.go:84-90 | for output starting with git's `[branch hash] subject` line, followed by anything, the id read is the hash with its closing bracket attached, and for a branch's first commit it is git's `(root-commit)` marker |
| Migration.CreateCommitWithTimestampInRepo | migrator/git.go:73-91 | a missing folder or a git error is returned and creates nothing; a recorded commit is appended with the id as message and the given date, and then the summary is parsed |
| Migration.CreateCommitsInRepo | migrator/git.go:46-71 | an empty path and a failed destination read are errors that create nothing; otherwise one commit is appended per missing key, in visiting order, and the first failure stops the run, keeping what was created |
| Migration.RunCreatesMissing | migrator/git.go:58-70 | a run fails only at a key that needed a commit; a complete run appends exactly as many commits as keys were missing |
| Migration.FailedRunCreatedPrefix | migrator/git.go:61-64 | a failed run leaves the destination as a run over a prefix of its order would, so resuming completes it |
| Migration.CompleteRunLeavesNothingMissing | migrator/git.go:46-71 | a complete run keeps the existing commits, appends one commit per missing id, adds exactly the missing ids to the destination's keys and leaves none missing |
| Migration.MigrateToFakeCommitRepo | migrator/git.go:26-44 | an origin read error is returned and creates nothing; otherwise the run behaves as CreateCommitsInRepo on the origin's history |
| Migration.MigrateTwice | migrator/git.go:26-44 | migrating twice, with the destination read back faithfully: a successful first run keeps the existing commits, appends one per missing id, so the destination's keys gain exactly the missing ids and none stays missing, and the second run succeeds and creates nothing |

## Left out

- Process execution (`runCommand`, `bash -c`, the command strings and their quoting) is not modelled. Each `git log` result is a `CommandResult` input. `git commit` is a reply function whose hashes and summary output are inputs.
- `os.Stat` is a boolean input. CreateCommitsInRepo passes the same flag to every commit it creates, so a folder that disappears during a run is not modelled.
- Logging (`log.Printf`, including the per-record logging loop in MigrateToFakeCommitRepo) has no effect on results and is left out.
- Timestamps are integer Unix seconds. `time.Unix`, the RFC 3339 rendering passed to `--date`, and git's parsing of it are not modelled. A created commit carries the record's timestamp.
- Go strings are byte strings. The model uses sequences of Unicode characters and hashes their UTF-8 encoding, so paths that are not valid UTF-8 are not modelled.
- Fnv.GetHashFromString: follows `strconv.Itoa` on a 64-bit `int`. On 32-bit platforms `int(uint32)` can be negative, and that case is not modelled.
- Migration.DestinationReadsMarkers: stated only for commits with one-line messages and int64 dates. git's `%s` folds multi-line messages into one subject line, and that folding is not modelled.
- Migration.LogReply: renders the no-commits error for a branch named `master`. Other branch names give the same recognised error text.
- Migration.MigrateTwice: stated only for an existing destination whose log is read back faithfully through LogReply.
- The commit id that createCommitWithTimestampInRepo returns is discarded by its caller. The model returns it without using it.
- Concurrent migrations against one destination are not modelled; the source does not guard against them either.
- `example/main.go` and the command-line entry point are not part of this model.
