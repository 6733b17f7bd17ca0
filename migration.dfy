/**
 * Migration: creating, in the destination repository, one empty commit per origin
 * commit whose global identifier is not yet a commit subject there
 * (CreateCommitsInRepo, createCommitWithTimestampInRepo, MigrateToFakeCommitRepo).
 *
 * `git commit` is an input: a function from the attempt number, the message and
 * the timestamp to git's reply, so that any pattern of failures can be described.
 */
module Migration {
  import opened Outcomes
  import opened GoText
  import opened Fnv
  import opened GitLog

  predicate IsHexDigit(c: char)
  {
    '0' <= c <= '9' || 'a' <= c <= 'f'
  }

  /** A git commit hash: lower-case hexadecimal digits. */
  type CommitHash = s: string | forall i :: 0 <= i < |s| ==> IsHexDigit(s[i])

  /** A commit of the destination repository: its hash, its date in Unix seconds and its message. */
  datatype Commit = Commit(hash: CommitHash, timestamp: int, message: string)

  /** What `git commit --allow-empty` does: records a commit and prints a summary, or fails. */
  datatype CommitReply = Committed(hash: CommitHash, output: string) | Rejected(error: string)

  /** The destination repository; migration only ever appends to its commits. */
  class Repository {
    var commits: seq<Commit>

    constructor (commits: seq<Commit>)
      ensures this.commits == commits
    {
      this.commits := commits;
    }
  }

  // ---------------------------------------------------------------------------
  // The destination's log, as `git log --pretty=format:"%H|%at|%s"` prints it
  // ---------------------------------------------------------------------------

  function LogLine(c: Commit): string
  {
    c.hash + "|" + FormatInt(c.timestamp) + "|" + c.message
  }

  /** The log lines, newest commit first. */
  function LogLines(commits: seq<Commit>): seq<string>
  {
    seq(|commits|, i requires 0 <= i < |commits| => LogLine(commits[|commits| - 1 - i]))
  }

  /** What running the log command in the destination gives; git refuses to list an empty branch. */
  function LogReply(commits: seq<Commit>): CommandResult
  {
    if commits == [] then
      Failed("command execution failed: exit status 128, output: " + NoCommitsError("master") + "\n")
    else Ran(Join(LogLines(commits), '\n'))
  }

  /** A commit whose log line reads back faithfully: a one-line message, an `int64` date. */
  predicate ReadableCommit(c: Commit)
  {
    '\n' !in c.message && IsInt64(c.timestamp)
  }

  predicate Readable(commits: seq<Commit>)
  {
    forall i :: 0 <= i < |commits| ==> ReadableCommit(commits[i])
  }

  /** The keys the destination reader finds: each message up to its first `|`. */
  function MarkerKeys(commits: seq<Commit>): set<string>
  {
    set i | 0 <= i < |commits| :: FirstField(commits[i].message, '|')
  }

  lemma HashIsPlain(h: CommitHash)
    ensures '|' !in h && '\n' !in h
  {
  }

  /** A readable commit's log line is one line, and the destination reader keys it by its marker. */
  lemma LogLineRead(gitFolder: string, c: Commit)
    requires ReadableCommit(c)
    ensures '\n' !in LogLine(c)
    ensures Yields(Destination(gitFolder), LogLine(c), FirstField(c.message, '|'))
  {
    HashIsPlain(c.hash);
    NumeralHasNoBar(c.timestamp);
    ParseFormatInt(c.timestamp);
    DestinationLineAccepted(gitFolder, c.hash, FormatInt(c.timestamp), c.timestamp, c.message);
  }

  /** Reading the destination's log finds exactly the marker keys of its commits. */
  lemma DestinationReadsMarkers(gitFolder: string, commits: seq<Commit>)
    requires Readable(commits)
    ensures ReadListing(Destination(gitFolder), gitFolder, true, LogReply(commits)).Ok?
    ensures ReadListing(Destination(gitFolder), gitFolder, true, LogReply(commits)).value.Keys == MarkerKeys(commits)
  {
    if commits == [] {
      NoCommitsErrorRecognised("command execution failed: exit status 128, output: ", "master", "\n");
    } else {
      var lines := LogLines(commits);
      forall i | 0 <= i < |lines|
        ensures '\n' !in lines[i]
        ensures Yields(Destination(gitFolder), lines[i], FirstField(commits[|commits| - 1 - i].message, '|'))
      {
        LogLineRead(gitFolder, commits[|commits| - 1 - i]);
      }
      SplitJoin(lines, '\n');
      assert ReadListing(Destination(gitFolder), gitFolder, true, LogReply(commits)).value
             == Collect(Destination(gitFolder), lines);
      CollectReadsMarkers(gitFolder, commits, lines);
    }
  }

  lemma CollectReadsMarkers(gitFolder: string, commits: seq<Commit>, lines: seq<string>)
    requires |lines| == |commits|
    requires forall i :: 0 <= i < |lines| ==>
               Yields(Destination(gitFolder), lines[i], FirstField(commits[|commits| - 1 - i].message, '|'))
    ensures Collect(Destination(gitFolder), lines).Keys == MarkerKeys(commits)
  {
    var m := Collect(Destination(gitFolder), lines);
    forall key
      ensures key in m <==> key in MarkerKeys(commits)
    {
      CollectKeys(Destination(gitFolder), lines, key);
      if key in m {
        var i :| 0 <= i < |lines| && Yields(Destination(gitFolder), lines[i], key);
        KeyOfYield(Destination(gitFolder), lines[i], key, FirstField(commits[|commits| - 1 - i].message, '|'));
      }
      if key in MarkerKeys(commits) {
        var i :| 0 <= i < |commits| && FirstField(commits[i].message, '|') == key;
        assert Yields(Destination(gitFolder), lines[|commits| - 1 - i], key);
      }
    }
  }

  lemma KeyOfYield(listing: Listing, line: string, key: string, key': string)
    requires Yields(listing, line, key) && Yields(listing, line, key')
    ensures key == key'
  {
  }

  // ---------------------------------------------------------------------------
  // The migration plan
  // ---------------------------------------------------------------------------

  predicate Distinct(s: seq<string>)
  {
    forall i, j :: 0 <= i < j < |s| ==> s[i] != s[j]
  }

  /** Keys of `history`, each visited once. */
  predicate Visits(order: seq<string>, history: HistoryMap)
  {
    Distinct(order) && forall i :: 0 <= i < |order| ==> order[i] in history
  }

  /** An order in which Go's `range` may visit the keys of `history`: each key once. */
  predicate IsRangeOrder(order: seq<string>, history: HistoryMap)
  {
    Visits(order, history) && forall k :: k in history ==> k in order
  }

  /** The keys, in visiting order, whose records need a commit: those whose identifier is not yet present. */
  function Plan(history: HistoryMap, existing: set<string>, order: seq<string>): (r: seq<string>)
    requires forall i :: 0 <= i < |order| ==> order[i] in history
    ensures |r| <= |order|
    ensures forall i :: 0 <= i < |r| ==> r[i] in order && r[i] in history && history[r[i]].globalId !in existing
  {
    if order == [] then []
    else
      var k := order[|order| - 1];
      Plan(history, existing, order[..|order| - 1]) + (if history[k].globalId in existing then [] else [k])
  }

  /** The keys of `history` whose identifiers are not among `existing`. */
  function Missing(history: HistoryMap, existing: set<string>): (r: set<string>)
    ensures r <= history.Keys
    ensures forall k :: k in history ==> (k in r <==> history[k].globalId !in existing)
  {
    set k | k in history && history[k].globalId !in existing
  }

  /** The plan visits each missing key of the order once and skips every present one. */
  lemma {:induction false} PlanSelectsMissing(history: HistoryMap, existing: set<string>, order: seq<string>)
    requires Visits(order, history)
    ensures Distinct(Plan(history, existing, order))
    ensures forall k :: k in Plan(history, existing, order) <==> k in order && k in Missing(history, existing)
  {
    if order != [] {
      var init := order[..|order| - 1];
      PlanSelectsMissing(history, existing, init);
      assert forall k :: k in order <==> k in init || k == order[|order| - 1];
      assert order[|order| - 1] !in init;
    }
  }

  lemma {:induction false} DistinctCard(s: seq<string>)
    requires Distinct(s)
    ensures |set x | x in s| == |s|
  {
    if s != [] {
      var init := s[..|s| - 1];
      DistinctCard(init);
      assert (set x | x in s) == (set x | x in init) + {s[|s| - 1]};
    }
  }

  /**
   * Whatever order `range` visits the history in, the plan creates exactly one commit
   * per missing key and none for a present one.
   */
  lemma PlanIsMissing(history: HistoryMap, existing: set<string>, order: seq<string>)
    requires IsRangeOrder(order, history)
    ensures Distinct(Plan(history, existing, order))
    ensures (set k | k in Plan(history, existing, order)) == Missing(history, existing)
    ensures |Plan(history, existing, order)| == |Missing(history, existing)|
  {
    PlanSelectsMissing(history, existing, order);
    DistinctCard(Plan(history, existing, order));
  }

  /** Extending the visited keys by one adds that key to the plan exactly when it is missing. */
  lemma PlanStep(history: HistoryMap, existing: set<string>, order: seq<string>, k: string)
    requires (forall i :: 0 <= i < |order| ==> order[i] in history) && k in history
    ensures Plan(history, existing, order + [k])
            == Plan(history, existing, order) + (if history[k].globalId in existing then [] else [k])
  {
  }

  /**
   * `after` is `before` followed by one commit per planned key, in plan order: attempt `i`
   * recorded the `i`-th planned record's identifier and timestamp under the hash git gave.
   */
  predicate Extends(before: seq<Commit>, after: seq<Commit>, history: HistoryMap, plan: seq<string>,
                    git: (nat, string, int) -> CommitReply)
    requires forall i :: 0 <= i < |plan| ==> plan[i] in history
  {
    && |after| == |before| + |plan|
    && after[..|before|] == before
    && forall i :: 0 <= i < |plan| ==>
         var rec := history[plan[i]];
         var reply := git(i, rec.globalId, rec.timestamp);
         reply.Committed? && after[|before| + i] == Commit(reply.hash, rec.timestamp, rec.globalId)
  }

  lemma ExtendsStep(before: seq<Commit>, after: seq<Commit>, history: HistoryMap, plan: seq<string>,
                    git: (nat, string, int) -> CommitReply, k: string)
    requires (forall i :: 0 <= i < |plan| ==> plan[i] in history) && k in history
    requires Extends(before, after, history, plan, git)
    requires git(|plan|, history[k].globalId, history[k].timestamp).Committed?
    ensures Extends(before, after + [Commit(git(|plan|, history[k].globalId, history[k].timestamp).hash,
                                            history[k].timestamp, history[k].globalId)],
                    history, plan + [k], git)
  {
  }

  /** The destination's marker keys after appending the commits of a plan. */
  lemma MarkersAfter(before: seq<Commit>, after: seq<Commit>, history: HistoryMap, plan: seq<string>,
                     git: (nat, string, int) -> CommitReply)
    requires WellFormedHistory(history) && forall i :: 0 <= i < |plan| ==> plan[i] in history
    requires Extends(before, after, history, plan, git)
    ensures MarkerKeys(after) == MarkerKeys(before) + set k | k in plan
  {
    forall i | 0 <= i < |plan|
      ensures FirstField(after[|before| + i].message, '|') == plan[i]
    {
      SplitWithoutSep(plan[i], '|');
    }
    forall key
      ensures key in MarkerKeys(after) <==> key in MarkerKeys(before) || key in plan
    {
      if key in MarkerKeys(after) {
        var i :| 0 <= i < |after| && FirstField(after[i].message, '|') == key;
        if i < |before| {
          assert after[i] == before[i];
        } else {
          assert key == plan[i - |before|];
        }
      }
      if key in MarkerKeys(before) {
        var i :| 0 <= i < |before| && FirstField(before[i].message, '|') == key;
        assert after[i] == before[i];
      }
      if key in plan {
        var i :| 0 <= i < |plan| && plan[i] == key;
        assert FirstField(after[|before| + i].message, '|') == key;
      }
    }
  }

  /** Appending the commits of a plan for a well-formed history keeps the log readable. */
  lemma ReadableAfter(before: seq<Commit>, after: seq<Commit>, history: HistoryMap, plan: seq<string>,
                      git: (nat, string, int) -> CommitReply)
    requires WellFormedHistory(history) && forall i :: 0 <= i < |plan| ==> plan[i] in history
    requires Readable(before) && Extends(before, after, history, plan, git)
    ensures Readable(after)
  {
    forall i | 0 <= i < |after|
      ensures '\n' !in after[i].message && IsInt64(after[i].timestamp)
    {
      if i < |before| {
        assert after[i] == before[i];
      } else {
        assert after[i].message == plan[i - |before|];
      }
    }
  }

  /**
   * Resumability: after a run that created the commits for the keys it visited (`done`,
   * possibly interrupted), a second run over any order creates commits for exactly the
   * keys that were missing and were not yet created, and for no other key.
   */
  lemma ResumeCreatesRemainder(history: HistoryMap, before: seq<Commit>, after: seq<Commit>, done: seq<string>,
                               git: (nat, string, int) -> CommitReply, order: seq<string>)
    requires WellFormedHistory(history) && Readable(before)
    requires Visits(done, history)
    requires Extends(before, after, history, Plan(history, MarkerKeys(before), done), git)
    requires IsRangeOrder(order, history)
    ensures Readable(after)
    ensures (set k | k in Plan(history, MarkerKeys(after), order))
            == Missing(history, MarkerKeys(before)) - set k | k in done
  {
    var plan1 := Plan(history, MarkerKeys(before), done);
    PlanSelectsMissing(history, MarkerKeys(before), done);
    ReadableAfter(before, after, history, plan1, git);
    MarkersAfter(before, after, history, plan1, git);
    PlanIsMissing(history, MarkerKeys(after), order);
    MissingAfterPlan(history, MarkerKeys(before), done);
  }

  /** Adding the identifiers a plan creates removes exactly the visited keys from the missing ones. */
  lemma MissingAfterPlan(history: HistoryMap, existing: set<string>, done: seq<string>)
    requires WellFormedHistory(history)
    requires Visits(done, history)
    ensures Missing(history, existing + set k | k in Plan(history, existing, done))
            == Missing(history, existing) - set k | k in done
  {
    PlanSelectsMissing(history, existing, done);
  }

  /** Idempotence: after a complete run, a second run over any order creates nothing. */
  lemma SecondRunCreatesNothing(history: HistoryMap, before: seq<Commit>, after: seq<Commit>, first: seq<string>,
                                git: (nat, string, int) -> CommitReply, order: seq<string>)
    requires WellFormedHistory(history) && Readable(before)
    requires IsRangeOrder(first, history)
    requires Extends(before, after, history, Plan(history, MarkerKeys(before), first), git)
    requires IsRangeOrder(order, history)
    ensures Plan(history, MarkerKeys(after), order) == []
  {
    ResumeCreatesRemainder(history, before, after, first, git, order);
    PlanIsMissing(history, MarkerKeys(after), order);
    assert Missing(history, MarkerKeys(before)) <= set k | k in first;
  }

  // ---------------------------------------------------------------------------
  // Creating commits
  // ---------------------------------------------------------------------------

  /**
   * The commit id read from git's summary output: its second whitespace-separated token,
   * or an error when the output has fewer than two.
   */
  function CommitIdFromOutput(output: string): (r: Result<string>)
    ensures r.Ok? <==> |Fields(output)| >= 2
    ensures r.Ok? ==> r.value == Fields(output)[1] && r.value != "" && NoSpace(r.value)
    ensures r.Err? ==> r.error == "unexpected output from git commit: " + output
  {
    var commitParts := Fields(output);
    if |commitParts| < 2 then Err("unexpected output from git commit: " + output) else Ok(commitParts[1])
  }

  /**
   * For output whose first line is git's summary, space-separated words, the commit id
   * is the second word, whatever follows; with fewer than two words it is the second
   * field of the whole output, or the "unexpected output" error when there is none.
   */
  lemma CommitIdOfSummary(words: seq<string>, rest: string)
    requires forall i :: 0 <= i < |words| ==> words[i] != "" && NoSpace(words[i])
    ensures |words| >= 2 ==> CommitIdFromOutput(Join(words, ' ') + "\n" + rest) == Ok(words[1])
    ensures var output := Join(words, ' ') + "\n" + rest;
            var fields := words + Fields(rest);
            CommitIdFromOutput(output)
            == if |fields| >= 2 then Ok(fields[1]) else Err("unexpected output from git commit: " + output)
  {
    FieldsAroundSpace(Join(words, ' '), '\n', rest);
    FieldsOfJoin(words);
  }

  /** Visible ASCII characters are never white space. */
  lemma VisibleAsciiWord(w: string)
    requires forall i :: 0 <= i < |w| ==> '!' <= w[i] <= '~'
    ensures NoSpace(w)
  {
  }

  /**
   * The words of the summary line `git commit` prints: `[<branch> <hash>] <subject>`,
   * or `[<branch> (root-commit) <hash>] <subject>` for the first commit of a branch.
   */
  function Summary(branch: string, root: bool, hash: string, subject: seq<string>): seq<string>
  {
    ["[" + branch] + (if root then ["(root-commit)"] else []) + [hash + "]"] + subject
  }

  lemma SummaryWordsPlain(branch: string, root: bool, hash: string, subject: seq<string>)
    requires NoSpace(branch) && NoSpace(hash)
    requires forall i :: 0 <= i < |subject| ==> subject[i] != "" && NoSpace(subject[i])
    ensures forall i :: 0 <= i < |Summary(branch, root, hash, subject)| ==>
              Summary(branch, root, hash, subject)[i] != "" && NoSpace(Summary(branch, root, hash, subject)[i])
  {
    VisibleAsciiWord("[");
    VisibleAsciiWord("]");
    VisibleAsciiWord("(root-commit)");
    assert NoSpace("[" + branch);
    assert NoSpace(hash + "]");
  }

  /**
   * On git's summary the token read is the abbreviated hash with its closing bracket
   * attached, and for the first commit of a branch it is the `(root-commit)` marker,
   * whatever git prints after the summary line (such as the ` Date:` line `--date` adds).
   */
  lemma SummaryCommitId(branch: string, root: bool, hash: string, subject: seq<string>, rest: string)
    requires NoSpace(branch) && NoSpace(hash)
    requires forall i :: 0 <= i < |subject| ==> subject[i] != "" && NoSpace(subject[i])
    ensures CommitIdFromOutput(Join(Summary(branch, root, hash, subject), ' ') + "\n" + rest)
            == Ok(if root then "(root-commit)" else hash + "]")
  {
    var words := Summary(branch, root, hash, subject);
    SummaryWordsPlain(branch, root, hash, subject);
    CommitIdOfSummary(words, rest);
    assert words[1] == if root then "(root-commit)" else hash + "]";
  }

  /**
   * `createCommitWithTimestampInRepo`: one empty commit with the given message and date.
   * A commit git records stays recorded even when its output cannot be read.
   */
  method CreateCommitWithTimestampInRepo(repo: Repository, gitFolder: string, folderExists: bool,
                                         timestamp: int, globalId: string, reply: CommitReply)
    returns (r: Result<string>)
    modifies repo
    ensures !folderExists ==> r == Err("gitFolder does not exist: " + gitFolder) && repo.commits == old(repo.commits)
    ensures folderExists && reply.Rejected? ==> r == Err(reply.error) && repo.commits == old(repo.commits)
    ensures folderExists && reply.Committed? ==>
              r == CommitIdFromOutput(reply.output)
              && repo.commits == old(repo.commits) + [Commit(reply.hash, timestamp, globalId)]
  {
    if !folderExists {
      return Err("gitFolder does not exist: " + gitFolder);
    }
    match reply {
      case Rejected(e) =>
        return Err(e);
      case Committed(hash, output) =>
        repo.commits := repo.commits + [Commit(hash, timestamp, globalId)];
        r := CommitIdFromOutput(output);
    }
  }

  /**
   * A run that handled the keys `done` and then stopped with error `r` at key `k`:
   * `k` was missing, and either git refused the commit, so only the plan of `done` was
   * created, or git recorded it and its output was unreadable, so `k`'s commit was created too.
   */
  ghost predicate StoppedAt(before: seq<Commit>, after: seq<Commit>, history: HistoryMap, existing: set<string>,
                            git: (nat, string, int) -> CommitReply, r: Outcome, done: seq<string>, k: string)
    requires Visits(done, history) && k in history
  {
    var plan := Plan(history, existing, done);
    var reply := git(|plan|, history[k].globalId, history[k].timestamp);
    && k !in done
    && history[k].globalId !in existing
    && (reply.Rejected? ==> r == Fail(reply.error) && Extends(before, after, history, plan, git))
    && (reply.Committed? ==>
          && CommitIdFromOutput(reply.output).Err?
          && r == Fail(CommitIdFromOutput(reply.output).error)
          && Extends(before, after, history, plan + [k], git))
  }

  /**
   * A run over `history` against the destination keys `existing`, visiting `order` (whose
   * last key is the failing one, if any): on success every key was visited once and one
   * commit was created per missing key, in visiting order; a failure stops the run at once,
   * keeping what was created.
   */
  ghost predicate RunSpec(before: seq<Commit>, after: seq<Commit>, history: HistoryMap, existing: set<string>,
                          git: (nat, string, int) -> CommitReply, r: Outcome, order: seq<string>)
  {
    && Visits(order, history)
    && (r.Pass? ==> IsRangeOrder(order, history) && Extends(before, after, history, Plan(history, existing, order), git))
    && (r.Fail? ==> |order| > 0 && StoppedAt(before, after, history, existing, git, r, order[..|order| - 1], order[|order| - 1]))
  }

  /**
   * What a call of CreateCommitsInRepo does to the destination's commits, from `before`
   * to `after`: an empty folder path or a failed read of the destination is an error and
   * creates nothing; otherwise the run is as RunSpec describes against the keys read.
   */
  ghost predicate CreateCommitsSpec(before: seq<Commit>, after: seq<Commit>, gitFolder: string, folderExists: bool,
                                    history: HistoryMap, log: CommandResult, git: (nat, string, int) -> CommitReply,
                                    r: Outcome, order: seq<string>)
  {
    var read := ReadListing(Destination(gitFolder), gitFolder, folderExists, log);
    if gitFolder == "" then r == Fail("gitFolder path is empty") && after == before && order == []
    else if read.Err? then r == Fail(read.error) && after == before && order == []
    else RunSpec(before, after, history, read.value.Keys, git, r, order)
  }

  /** Visiting a key whose identifier is present creates nothing. */
  lemma SkipStep(before: seq<Commit>, now: seq<Commit>, history: HistoryMap, existing: set<string>,
                 git: (nat, string, int) -> CommitReply, order: seq<string>, k: string)
    requires Visits(order, history) && k in history && k !in order && history[k].globalId in existing
    requires Extends(before, now, history, Plan(history, existing, order), git)
    ensures Visits(order + [k], history)
    ensures Plan(history, existing, order + [k]) == Plan(history, existing, order)
    ensures Extends(before, now, history, Plan(history, existing, order + [k]), git)
  {
    PlanStep(history, existing, order, k);
  }

  /** Visiting a missing key whose commit git records adds that commit to the plan's commits. */
  lemma CreateStep(before: seq<Commit>, was: seq<Commit>, history: HistoryMap, existing: set<string>,
                   git: (nat, string, int) -> CommitReply, order: seq<string>, k: string)
    requires Visits(order, history) && k in history && k !in order && history[k].globalId !in existing
    requires Extends(before, was, history, Plan(history, existing, order), git)
    requires git(|Plan(history, existing, order)|, history[k].globalId, history[k].timestamp).Committed?
    ensures Visits(order + [k], history)
    ensures |Plan(history, existing, order + [k])| == |Plan(history, existing, order)| + 1
    ensures Extends(before,
                    was + [Commit(git(|Plan(history, existing, order)|, history[k].globalId, history[k].timestamp).hash,
                                  history[k].timestamp, history[k].globalId)],
                    history, Plan(history, existing, order + [k]), git)
  {
    PlanStep(history, existing, order, k);
    ExtendsStep(before, was, history, Plan(history, existing, order), git, k);
  }

  /** A failure while creating the commit of a missing key ends the run as RunSpec says. */
  lemma StopStep(before: seq<Commit>, was: seq<Commit>, now: seq<Commit>, history: HistoryMap, existing: set<string>,
                 git: (nat, string, int) -> CommitReply, order: seq<string>, k: string, res: Result<string>)
    requires Visits(order, history) && k in history && k !in order && history[k].globalId !in existing
    requires Extends(before, was, history, Plan(history, existing, order), git)
    requires var reply := git(|Plan(history, existing, order)|, history[k].globalId, history[k].timestamp);
             && (reply.Rejected? ==> res == Err(reply.error) && now == was)
             && (reply.Committed? ==>
                   res == CommitIdFromOutput(reply.output)
                   && now == was + [Commit(reply.hash, history[k].timestamp, history[k].globalId)])
    requires res.Err?
    ensures RunSpec(before, now, history, existing, git, Fail(res.error), order + [k])
  {
    if git(|Plan(history, existing, order)|, history[k].globalId, history[k].timestamp).Committed? {
      ExtendsStep(before, was, history, Plan(history, existing, order), git, k);
    }
    assert (order + [k])[..|order|] == order;
  }

  /**
   * `CreateCommitsInRepo`: for every record of `history`, in whatever order the map is
   * visited, an empty commit unless its identifier is already a destination key.
   */
  method CreateCommitsInRepo(repo: Repository, gitFolder: string, folderExists: bool, history: HistoryMap,
                             log: CommandResult, git: (nat, string, int) -> CommitReply)
    returns (r: Outcome, ghost order: seq<string>)
    modifies repo
    ensures CreateCommitsSpec(old(repo.commits), repo.commits, gitFolder, folderExists, history, log, git, r, order)
  {
    order := [];
    if gitFolder == "" {
      return Fail("gitFolder path is empty"), order;
    }
    var commitsExist := GetCommitsFakeRepo(gitFolder, folderExists, log);
    if commitsExist.Err? {
      return Fail(commitsExist.error), order;
    }
    var existing := commitsExist.value;
    ghost var keys := existing.Keys;
    ghost var before := repo.commits;
    var remaining := history.Keys;
    var attempts := 0;
    while remaining != {}
      invariant remaining <= history.Keys
      invariant Visits(order, history)
      invariant forall i :: 0 <= i < |order| ==> order[i] !in remaining
      invariant forall k :: k in history ==> k in remaining || k in order
      invariant attempts == |Plan(history, keys, order)|
      invariant Extends(before, repo.commits, history, Plan(history, keys, order), git)
      decreases remaining
    {
      var k :| k in remaining;
      var commit := history[k];
      if commit.globalId !in existing {
        var reply := git(attempts, commit.globalId, commit.timestamp);
        ghost var was := repo.commits;
        var res := CreateCommitWithTimestampInRepo(repo, gitFolder, folderExists, commit.timestamp, commit.globalId, reply);
        if res.Err? {
          StopStep(before, was, repo.commits, history, keys, git, order, k, res);
          order := order + [k];
          return Fail(res.error), order;
        }
        CreateStep(before, was, history, keys, git, order, k);
        attempts := attempts + 1;
      } else {
        SkipStep(before, repo.commits, history, keys, git, order, k);
      }
      order := order + [k];
      remaining := remaining - {k};
    }
    return Pass, order;
  }

  /**
   * `MigrateToFakeCommitRepo`: read the origin's history, then create the missing
   * commits in the destination; an error reading the origin creates nothing.
   */
  method MigrateToFakeCommitRepo(gitFolderOrigin: string, originExists: bool, originLog: CommandResult,
                                 repo: Repository, gitFolderDestiny: string, destinyExists: bool,
                                 destinyLog: CommandResult, git: (nat, string, int) -> CommitReply)
    returns (r: Outcome, ghost order: seq<string>)
    modifies repo
    ensures var history := ReadListing(Origin(PathHash(gitFolderOrigin)), gitFolderOrigin, originExists, originLog);
            && (history.Err? ==> r == Fail(history.error) && repo.commits == old(repo.commits))
            && (history.Ok? ==> CreateCommitsSpec(old(repo.commits), repo.commits, gitFolderDestiny, destinyExists,
                                                  history.value, destinyLog, git, r, order))
  {
    var history := GetCommits(gitFolderOrigin, originExists, originLog);
    if history.Err? {
      return Fail(history.error), [];
    }
    r, order := CreateCommitsInRepo(repo, gitFolderDestiny, destinyExists, history.value, destinyLog, git);
  }

  /**
   * A complete run against the destination's marker keys creates one commit per missing
   * identifier and leaves none missing, whatever order it visited the history in.
   */
  lemma CompleteRunLeavesNothingMissing(history: HistoryMap, before: seq<Commit>, after: seq<Commit>,
                                        order: seq<string>, git: (nat, string, int) -> CommitReply)
    requires WellFormedHistory(history) && Readable(before)
    requires RunSpec(before, after, history, MarkerKeys(before), git, Pass, order)
    ensures Readable(after)
    ensures |after| == |before| + |Missing(history, MarkerKeys(before))| && after[..|before|] == before
    ensures MarkerKeys(after) == MarkerKeys(before) + Missing(history, MarkerKeys(before))
    ensures Missing(history, MarkerKeys(after)) == {}
  {
    var plan := Plan(history, MarkerKeys(before), order);
    PlanIsMissing(history, MarkerKeys(before), order);
    ReadableAfter(before, after, history, plan, git);
    MarkersAfter(before, after, history, plan, git);
    MissingAfterPlan(history, MarkerKeys(before), order);
    assert Missing(history, MarkerKeys(before)) <= set k | k in order;
  }

  /**
   * A run fails only at a key that needed a commit, and a complete run creates exactly
   * one commit per missing key, after the commits that were there.
   */
  lemma RunCreatesMissing(history: HistoryMap, existing: set<string>, before: seq<Commit>, after: seq<Commit>,
                          git: (nat, string, int) -> CommitReply, r: Outcome, order: seq<string>)
    requires RunSpec(before, after, history, existing, git, r, order)
    ensures r.Fail? ==> |order| > 0 && order[|order| - 1] in Missing(history, existing)
    ensures r.Pass? ==> |after| == |before| + |Missing(history, existing)| && after[..|before|] == before
  {
    if r.Pass? {
      PlanIsMissing(history, existing, order);
    }
  }

  /**
   * A failed run leaves the destination as a run over a prefix of its visiting order
   * would: without the failing key when git refused its commit, with it when git
   * recorded the commit and only its output was unreadable. With ResumeCreatesRemainder,
   * a later run then creates exactly the commits still missing.
   */
  lemma FailedRunCreatedPrefix(history: HistoryMap, existing: set<string>, before: seq<Commit>, after: seq<Commit>,
                               git: (nat, string, int) -> CommitReply, r: Outcome, order: seq<string>)
    requires RunSpec(before, after, history, existing, git, r, order) && r.Fail?
    ensures Visits(order[..|order| - 1], history)
    ensures || Extends(before, after, history, Plan(history, existing, order[..|order| - 1]), git)
            || Extends(before, after, history, Plan(history, existing, order), git)
  {
  }

  /**
   * Migrating twice from the same origin, with the destination's log read faithfully:
   * when the first run succeeds, it has kept the destination's commits and appended one
   * commit per identifier the destination lacked (`middle`), after which none is missing,
   * and the second run succeeds without creating any.
   */
  method MigrateTwice(gitFolderOrigin: string, originLog: CommandResult, repo: Repository, gitFolderDestiny: string,
                      git: (nat, string, int) -> CommitReply)
    returns (first: Outcome, second: Outcome, ghost middle: seq<Commit>)
    requires Readable(repo.commits)
    modifies repo
    ensures var history := ReadListing(Origin(PathHash(gitFolderOrigin)), gitFolderOrigin, true, originLog);
            first.Pass? ==>
              && history.Ok?
              && |middle| == |old(repo.commits)| + |Missing(history.value, MarkerKeys(old(repo.commits)))|
              && middle[..|old(repo.commits)|] == old(repo.commits)
              && MarkerKeys(middle) == MarkerKeys(old(repo.commits)) + Missing(history.value, MarkerKeys(old(repo.commits)))
              && Missing(history.value, MarkerKeys(middle)) == {}
              && second == Pass
              && repo.commits == middle
  {
    ghost var before := repo.commits;
    ghost var history := ReadListing(Origin(PathHash(gitFolderOrigin)), gitFolderOrigin, true, originLog);
    DestinationReadsMarkers(gitFolderDestiny, before);
    ghost var order;
    first, order := MigrateToFakeCommitRepo(gitFolderOrigin, true, originLog, repo, gitFolderDestiny, true,
                                            LogReply(repo.commits), git);
    middle := repo.commits;
    second := first;
    if first.Pass? {
      ghost var h := history.value;
      if originLog.Ran? {
        OriginHistoryWellFormed(gitFolderOrigin, originLog.output);
      }
      CompleteRunLeavesNothingMissing(h, before, middle, order, git);
      DestinationReadsMarkers(gitFolderDestiny, middle);
      second, order := MigrateToFakeCommitRepo(gitFolderOrigin, true, originLog, repo, gitFolderDestiny, true,
                                               LogReply(repo.commits), git);
      RunCreatesMissing(h, MarkerKeys(middle), middle, repo.commits, git, second, order);
      if second.Pass? {
        assert repo.commits == repo.commits[..|middle|];
      }
    }
  }
}
