/**
 * Reading commit histories out of `git log` listings: the origin listing
 * `%H|%at` (GetCommits) and the destination listing `%H|%at|%s`
 * (getCommitsFakeRepo). Running `git` and checking that the folder exists
 * are inputs: the command's result and a flag.
 */
module GitLog {
  import opened Outcomes
  import opened GoText
  import opened Fnv

  /** `History`: one commit as read from a listing. Timestamps are Unix seconds. */
  datatype History = History(globalId: string, pathHash: string, commitId: string, timestamp: int)

  /** `CommitsHistory.History`: records keyed by their global identifier. */
  type HistoryMap = map<string, History>

  /** What running a shell command gives: its output, or the text of its error. */
  datatype CommandResult = Ran(output: string) | Failed(error: string)

  /**
   * Which listing a line comes from: the origin's `<hash>|<timestamp>`, read with the
   * origin's path hash, or the destination's `<hash>|<timestamp>|<subject>`, read in
   * the destination folder.
   */
  datatype Listing = Origin(pathHash: string) | Destination(gitFolder: string)

  /**
   * The global identifier of an origin commit, `<pathHash>-<commitId>`: the path hash, a
   * `-`, then the commit id. A path hash without `-` is what precedes the first `-`.
   */
  function GlobalId(pathHash: string, commitId: string): (r: string)
    ensures |r| == |pathHash| + 1 + |commitId|
    ensures r[..|pathHash|] == pathHash && r[|pathHash|] == '-' && r[|pathHash| + 1..] == commitId
    ensures '-' !in pathHash ==> FirstField(r, '-') == pathHash
  {
    if '-' in pathHash then pathHash + "-" + commitId
    else
      SplitAfterPiece(pathHash, '-', commitId);
      pathHash + "-" + commitId
  }

  /** The number of `|`-separated fields a line of the listing needs. */
  function MinFields(listing: Listing): nat
  {
    if listing.Origin? then 2 else 3
  }

  /**
   * `strings.Split(s, sep)[0]`: the text before the first `sep`, all of `s` when there is
   * none. With `|` it is what a destination line keeps of a subject; with `-` it is the
   * destination's path hash taken from its folder path.
   */
  function FirstField(s: string, sep: char): (r: string)
    ensures r <= s && sep !in r
    ensures |r| < |s| ==> s[|r|] == sep
  {
    JoinSplit(s, sep);
    Split(s, sep)[0]
  }

  /**
   * The record one line of a listing gives, or `None` when the loop skips the line: a line
   * is skipped when it is empty, has fewer `|`-separated fields than the listing needs, or
   * has a second field that is not an `int64`. Otherwise the first field is the commit id
   * and the second the timestamp; an origin record is keyed `<pathHash>-<commitId>`, and
   * a destination record is keyed by the third field, with the folder path up to its
   * first `-` as path hash.
   */
  function ParseLine(listing: Listing, line: string): (r: Option<History>)
    ensures var fields := Split(line, '|');
            r.Some? <==> line != "" && |fields| >= MinFields(listing) && ParseInt64(fields[1]).Some?
    ensures var fields := Split(line, '|');
            r.Some? ==>
              && r.value.commitId == fields[0] && '|' !in r.value.commitId
              && ParseInt64(fields[1]) == Some(r.value.timestamp)
              && (listing.Origin? ==>
                    r.value.pathHash == listing.pathHash && r.value.globalId == GlobalId(listing.pathHash, fields[0]))
              && (listing.Destination? ==>
                    r.value.pathHash == FirstField(listing.gitFolder, '-') && r.value.globalId == fields[2])
  {
    var fields := Split(line, '|');
    if line == "" || |fields| < MinFields(listing) then None
    else
      match ParseInt64(fields[1])
      case None => None
      case Some(t) =>
        match listing
        case Origin(hash) => Some(History(GlobalId(hash, fields[0]), hash, fields[0], t))
        case Destination(folder) => Some(History(fields[2], FirstField(folder, '-'), fields[0], t))
  }

  /** Whether record `r` is present and stored under `key`. */
  predicate StoredAs(r: Option<History>, key: string)
  {
    r.Some? && r.value.globalId == key
  }

  /** Line `line` of a listing is accepted and stored under `key`. */
  predicate Yields(listing: Listing, line: string, key: string)
  {
    StoredAs(ParseLine(listing, line), key)
  }

  /** The record, or the skip, of every line of a listing. */
  function ParseAll(listing: Listing, lines: seq<string>): (r: seq<Option<History>>)
    ensures |r| == |lines| && forall i :: 0 <= i < |lines| ==> r[i] == ParseLine(listing, lines[i])
  {
    seq(|lines|, i requires 0 <= i < |lines| => ParseLine(listing, lines[i]))
  }

  /**
   * The map built by storing each present record, in order, under its global identifier;
   * a later record replaces an earlier one with the same identifier.
   */
  function Store(records: seq<Option<History>>): (m: HistoryMap)
    ensures forall k :: k in m ==> m[k].globalId == k
  {
    if records == [] then map[]
    else
      var m := Store(records[..|records| - 1]);
      match records[|records| - 1]
      case None => m
      case Some(rec) => m[rec.globalId := rec]
  }

  /** Storing one more record: a skipped line leaves the map, a record is put under its identifier. */
  lemma StoreStep(records: seq<Option<History>>, i: nat)
    requires i < |records|
    ensures Store(records[..i + 1])
            == if records[i].None? then Store(records[..i]) else Store(records[..i])[records[i].value.globalId := records[i].value]
  {
    assert records[..i + 1][..i] == records[..i];
  }

  /** The map the parsing loop builds from the lines of a listing. */
  function Collect(listing: Listing, lines: seq<string>): HistoryMap
  {
    Store(ParseAll(listing, lines))
  }

  const BranchMarker := "fatal: your current branch"
  const NoCommitsMarker := "does not have any commits yet"

  /** The error `git log` gives on a branch with no commits yet. */
  predicate IsEmptyBranchError(e: string)
    ensures IsEmptyBranchError(e) <==> (exists i :: OccursAt(e, BranchMarker, i)) && (exists j :: OccursAt(e, NoCommitsMarker, j))
  {
    ContainsIffOccurs(e, BranchMarker);
    ContainsIffOccurs(e, NoCommitsMarker);
    Contains(e, BranchMarker) && Contains(e, NoCommitsMarker)
  }

  /**
   * What reading a listing in `gitFolder` yields: the not-found error when the folder
   * is missing; for a failed `git log`, an empty history when the branch has no
   * commits yet and the error itself otherwise; for a successful one, its lines collected.
   */
  function ReadListing(listing: Listing, gitFolder: string, folderExists: bool, log: CommandResult): (r: Result<HistoryMap>)
    ensures r.Err? <==> !folderExists || (log.Failed? && !IsEmptyBranchError(log.error))
    ensures !folderExists ==> r == Err("gitFolder does not exist: " + gitFolder)
    ensures folderExists && log.Failed? ==> r == if IsEmptyBranchError(log.error) then Ok(map[]) else Err(log.error)
    ensures r.Ok? ==> forall k :: k in r.value ==> r.value[k].globalId == k
  {
    if !folderExists then Err("gitFolder does not exist: " + gitFolder)
    else
      match log
      case Failed(e) => if IsEmptyBranchError(e) then Ok(map[]) else Err(e)
      case Ran(output) => Ok(Collect(listing, Split(output, '\n')))
  }

  // ---------------------------------------------------------------------------
  // The reading code
  // ---------------------------------------------------------------------------

  /** The loop over the lines of `output` that fills the history map in place. */
  method FillHistory(listing: Listing, output: string) returns (history: HistoryMap)
    ensures history == Collect(listing, Split(output, '\n'))
  {
    var lines := Split(output, '\n');
    ghost var parsed := ParseAll(listing, lines);
    history := map[];
    for i := 0 to |lines|
      invariant history == Store(parsed[..i])
    {
      StoreStep(parsed, i);
      var line := lines[i];
      assert parsed[i] == ParseLine(listing, line);
      if line == "" {
        continue;
      }
      var commit := Split(line, '|');
      if |commit| < MinFields(listing) {
        continue;
      }
      var timestamp := ParseInt64(commit[1]);
      if timestamp.None? {
        continue;
      }
      var record;
      match listing {
        case Origin(hash) =>
          var globalId := GlobalId(hash, commit[0]);
          record := History(globalId, hash, commit[0], timestamp.value);
        case Destination(folder) =>
          var hashRepo := Split(folder, '-');
          record := History(commit[2], hashRepo[0], commit[0], timestamp.value);
      }
      history := history[record.globalId := record];
    }
    assert parsed[..|lines|] == parsed;
  }

  /** Output with no text at all is one empty line, which collects to nothing. */
  lemma CollectEmptyOutput(listing: Listing)
    ensures Collect(listing, Split("", '\n')) == map[]
  {
    assert Split("", '\n') == [""];
    var rs := ParseAll(listing, [""]);
    assert rs == [None];
    assert rs[..0] == [];
    assert Store(rs) == Store(rs[..0]);
  }

  /** `GetCommits(gitFolder)`: the origin history, keyed by `<pathHash>-<commitId>`. */
  method GetCommits(gitFolder: string, folderExists: bool, log: CommandResult) returns (r: Result<HistoryMap>)
    ensures r == ReadListing(Origin(PathHash(gitFolder)), gitFolder, folderExists, log)
  {
    if !folderExists {
      return Err("gitFolder does not exist: " + gitFolder);
    }
    if log.Failed? {
      if IsEmptyBranchError(log.error) {
        return Ok(map[]);
      }
      return Err(log.error);
    }
    if log.output == "" {
      CollectEmptyOutput(Origin(PathHash(gitFolder)));
      return Ok(map[]);
    }
    var hash := GetHashFromString(gitFolder);
    var history := FillHistory(Origin(hash), log.output);
    return Ok(history);
  }

  /** `getCommitsFakeRepo(gitFolder)`: the destination's commits, keyed by subject. */
  method GetCommitsFakeRepo(gitFolder: string, folderExists: bool, log: CommandResult) returns (r: Result<HistoryMap>)
    ensures r == ReadListing(Destination(gitFolder), gitFolder, folderExists, log)
  {
    if !folderExists {
      return Err("gitFolder does not exist: " + gitFolder);
    }
    if log.Failed? {
      if IsEmptyBranchError(log.error) {
        return Ok(map[]);
      }
      return Err(log.error);
    }
    if log.output == "" {
      CollectEmptyOutput(Destination(gitFolder));
      return Ok(map[]);
    }
    var history := FillHistory(Destination(gitFolder), log.output);
    return Ok(history);
  }

  // ---------------------------------------------------------------------------
  // What a listing collects to
  // ---------------------------------------------------------------------------

  /** A key is in the map exactly when some record is stored under it. */
  lemma {:induction false} StoreKeys(records: seq<Option<History>>, key: string)
    ensures key in Store(records) <==> exists i :: 0 <= i < |records| && StoredAs(records[i], key)
  {
    if records != [] {
      var init := records[..|records| - 1];
      StoreKeys(init, key);
      if exists i :: 0 <= i < |init| && StoredAs(init[i], key) {
        var i :| 0 <= i < |init| && StoredAs(init[i], key);
        assert StoredAs(records[i], key);
      }
      if exists i :: 0 <= i < |records| && StoredAs(records[i], key) {
        var i :| 0 <= i < |records| && StoredAs(records[i], key);
        if i < |init| {
          assert StoredAs(init[i], key);
        }
      }
    }
  }

  /** The value stored under a key is the last record with that key. */
  lemma {:induction false} StoreLastWins(records: seq<Option<History>>, i: nat)
    requires i < |records| && records[i].Some?
    requires forall j :: i < j < |records| ==> !StoredAs(records[j], records[i].value.globalId)
    ensures records[i].value.globalId in Store(records) && Store(records)[records[i].value.globalId] == records[i].value
  {
    var init := records[..|records| - 1];
    if i < |records| - 1 {
      assert records[i] == init[i];
      forall j | i < j < |init|
        ensures !StoredAs(init[j], records[i].value.globalId)
      {
        assert init[j] == records[j];
      }
      StoreLastWins(init, i);
    }
  }

  /** Every value of the map is one of the records. */
  lemma {:induction false} StoreFromRecords(records: seq<Option<History>>, key: string)
    requires key in Store(records)
    ensures exists i :: 0 <= i < |records| && records[i] == Some(Store(records)[key])
  {
    var init := records[..|records| - 1];
    var last := records[|records| - 1];
    if last.Some? && last.value.globalId == key {
      assert records[|records| - 1] == Some(Store(records)[key]);
    } else {
      StoreFromRecords(init, key);
      var i :| 0 <= i < |init| && init[i] == Some(Store(init)[key]);
      assert records[i] == init[i];
    }
  }

  /** A skipped entry changes nothing. */
  lemma {:induction false} StoreSkipsNone(before: seq<Option<History>>, after: seq<Option<History>>)
    ensures Store(before + [None] + after) == Store(before + after)
    decreases |after|
  {
    var all := before + [None] + after;
    if after == [] {
      assert all[..|all| - 1] == before;
      assert before + after == before;
    } else {
      var init := after[..|after| - 1];
      assert all[..|all| - 1] == before + [None] + init;
      assert (before + after)[..|before + after| - 1] == before + init;
      StoreSkipsNone(before, init);
    }
  }

  /** The number of present records. */
  function PresentCount(records: seq<Option<History>>): nat
  {
    if records == [] then 0
    else PresentCount(records[..|records| - 1]) + (if records[|records| - 1].Some? then 1 else 0)
  }

  /** No two present records share a global identifier. */
  predicate DistinctKeys(records: seq<Option<History>>)
  {
    forall i, j :: 0 <= i < j < |records| && records[i].Some? ==> !StoredAs(records[j], records[i].value.globalId)
  }

  /** With distinct identifiers, the map holds one entry per present record. */
  lemma {:induction false} StoreOnePerRecord(records: seq<Option<History>>)
    requires DistinctKeys(records)
    ensures |Store(records)| == PresentCount(records)
  {
    if records != [] {
      var init := records[..|records| - 1];
      assert forall i :: 0 <= i < |init| ==> init[i] == records[i];
      StoreOnePerRecord(init);
      var last := records[|records| - 1];
      if last.Some? {
        StoreKeys(init, last.value.globalId);
      }
    }
  }

  /** A key is in the collected map exactly when some line of the listing is accepted under it. */
  lemma CollectKeys(listing: Listing, lines: seq<string>, key: string)
    ensures key in Collect(listing, lines) <==> exists i :: 0 <= i < |lines| && Yields(listing, lines[i], key)
  {
    var rs := ParseAll(listing, lines);
    StoreKeys(rs, key);
    assert forall i :: 0 <= i < |lines| ==> (StoredAs(rs[i], key) <==> Yields(listing, lines[i], key));
  }

  /**
   * The record stored under a key is the one of the last line accepted under that key:
   * a later duplicate replaces an earlier record.
   */
  lemma CollectLastWins(listing: Listing, lines: seq<string>, i: nat)
    requires i < |lines| && ParseLine(listing, lines[i]).Some?
    requires forall j :: i < j < |lines| ==> !Yields(listing, lines[j], ParseLine(listing, lines[i]).value.globalId)
    ensures var rec := ParseLine(listing, lines[i]).value;
            rec.globalId in Collect(listing, lines) && Collect(listing, lines)[rec.globalId] == rec
  {
    var rs := ParseAll(listing, lines);
    assert forall j :: i < j < |lines| ==> !StoredAs(rs[j], rs[i].value.globalId);
    StoreLastWins(rs, i);
  }

  /** Every record of a collected map is the record of one of the lines. */
  lemma CollectFromLines(listing: Listing, lines: seq<string>, key: string)
    requires key in Collect(listing, lines)
    ensures exists i :: 0 <= i < |lines| && ParseLine(listing, lines[i]) == Some(Collect(listing, lines)[key])
  {
    StoreFromRecords(ParseAll(listing, lines), key);
  }

  /** Removing a line the loop skips changes nothing: a malformed line costs only itself. */
  lemma CollectSkipsRejected(listing: Listing, before: seq<string>, bad: string, after: seq<string>)
    requires ParseLine(listing, bad).None?
    ensures Collect(listing, before + [bad] + after) == Collect(listing, before + after)
  {
    assert ParseAll(listing, before + [bad] + after) == ParseAll(listing, before) + [None] + ParseAll(listing, after);
    assert ParseAll(listing, before + after) == ParseAll(listing, before) + ParseAll(listing, after);
    StoreSkipsNone(ParseAll(listing, before), ParseAll(listing, after));
  }

  /** The number of lines of a listing that are accepted. */
  function AcceptedCount(listing: Listing, lines: seq<string>): nat
  {
    PresentCount(ParseAll(listing, lines))
  }

  /** Accepted lines are keyed apart: no two accepted lines give the same key. */
  predicate KeyedApart(listing: Listing, lines: seq<string>)
  {
    DistinctKeys(ParseAll(listing, lines))
  }

  /** When accepted lines are keyed apart, the map holds one record per accepted line. */
  lemma CollectOnePerLine(listing: Listing, lines: seq<string>)
    requires KeyedApart(listing, lines)
    ensures |Collect(listing, lines)| == AcceptedCount(listing, lines)
  {
    StoreOnePerRecord(ParseAll(listing, lines));
  }

  /** On the origin listing, lines with distinct commit hashes are keyed apart. */
  lemma OriginKeyedApart(hash: string, lines: seq<string>)
    requires forall i, j :: 0 <= i < j < |lines| && ParseLine(Origin(hash), lines[i]).Some? && ParseLine(Origin(hash), lines[j]).Some?
               ==> ParseLine(Origin(hash), lines[i]).value.commitId != ParseLine(Origin(hash), lines[j]).value.commitId
    ensures KeyedApart(Origin(hash), lines)
  {
    var rs := ParseAll(Origin(hash), lines);
    forall i, j | 0 <= i < j < |rs| && rs[i].Some?
      ensures !StoredAs(rs[j], rs[i].value.globalId)
    {
      if rs[j].Some? {
        var a, b := rs[i].value.commitId, rs[j].value.commitId;
        assert a == GlobalId(hash, a)[|hash| + 1..];
        assert b == GlobalId(hash, b)[|hash| + 1..];
      }
    }
  }

  // ---------------------------------------------------------------------------
  // Lines the loop accepts
  // ---------------------------------------------------------------------------

  /**
   * An origin line `<commitId>|<timestamp>`, possibly followed by further `|` fields,
   * gives the record `<pathHash>-<commitId>` with that commit and timestamp; the
   * timestamp is any text ParseInt accepts (a sign and leading zeros included).
   */
  lemma OriginLineAccepted(hash: string, commitId: string, ts: string, t: int, more: string)
    requires '|' !in commitId && '|' !in ts && ParseInt64(ts) == Some(t)
    requires more == "" || more[0] == '|'
    ensures ParseLine(Origin(hash), commitId + "|" + ts + more)
            == Some(History(GlobalId(hash, commitId), hash, commitId, t))
  {
    var line := commitId + "|" + ts + more;
    assert line == commitId + ['|'] + (ts + more);
    SplitAfterPiece(commitId, '|', ts + more);
    if more == "" {
      assert ts + more == ts;
      SplitWithoutSep(ts, '|');
    } else {
      assert ts + more == ts + ['|'] + more[1..];
      SplitAfterPiece(ts, '|', more[1..]);
    }
  }

  /**
   * A destination line `<hash>|<timestamp>|<subject>` gives the record keyed by the
   * subject up to its first `|`, with the path hash taken from the folder name.
   */
  lemma DestinationLineAccepted(folder: string, hash: string, ts: string, t: int, subject: string)
    requires '|' !in hash && '|' !in ts && ParseInt64(ts) == Some(t)
    ensures ParseLine(Destination(folder), hash + "|" + ts + "|" + subject)
            == Some(History(FirstField(subject, '|'), FirstField(folder, '-'), hash, t))
  {
    var line := hash + "|" + ts + "|" + subject;
    assert line == hash + ['|'] + (ts + ['|'] + subject);
    SplitAfterPiece(hash, '|', ts + ['|'] + subject);
    SplitAfterPiece(ts, '|', subject);
  }

  /**
   * A timestamp written with a sign or with leading zeros (`+017`, `0017`, `-007`, `-0`)
   * is accepted with the value of its shortest form.
   */
  lemma PaddedTimestampAccepted(hash: string, commitId: string, sign: Sign, z: nat, n: nat)
    requires '|' !in commitId && IsInt64(Signed(sign, n))
    ensures ParseLine(Origin(hash), commitId + "|" + Padded(sign, z, n))
            == Some(History(GlobalId(hash, commitId), hash, commitId, Signed(sign, n)))
  {
    var ts := Padded(sign, z, n);
    PaddedParse(sign, z, n);
    PaddedChars(sign, z, n);
    OriginLineAccepted(hash, commitId, ts, Signed(sign, n), "");
    assert commitId + "|" + ts + "" == commitId + "|" + ts;
  }

  lemma NumeralHasNoBar(t: int)
    ensures '|' !in FormatInt(t) && '\n' !in FormatInt(t)
  {
  }

  /** A line whose timestamp field is not an `int64` is skipped, however many fields it has. */
  lemma BadTimestampRejected(listing: Listing, fields: seq<string>)
    requires |fields| >= MinFields(listing) && ParseInt64(fields[1]).None?
    requires forall i :: 0 <= i < |fields| ==> '|' !in fields[i]
    ensures ParseLine(listing, Join(fields, '|')).None?
  {
    SplitJoin(fields, '|');
  }

  /** A line with too few fields is skipped. */
  lemma ShortLineRejected(listing: Listing, fields: seq<string>)
    requires 1 <= |fields| < MinFields(listing)
    requires forall i :: 0 <= i < |fields| ==> '|' !in fields[i]
    ensures ParseLine(listing, Join(fields, '|')).None?
  {
    SplitJoin(fields, '|');
  }

  // ---------------------------------------------------------------------------
  // Origin histories
  // ---------------------------------------------------------------------------

  /** A history as the origin reader builds it: keyed by identifiers free of `|` and newlines. */
  predicate WellFormedHistory(history: HistoryMap)
  {
    forall k :: k in history ==>
      && history[k].globalId == k
      && '|' !in k && '\n' !in k
      && IsInt64(history[k].timestamp)
  }

  /** Whatever the output of `git log`, the origin reader builds a well-formed history. */
  lemma OriginHistoryWellFormed(gitFolder: string, output: string)
    ensures WellFormedHistory(Collect(Origin(PathHash(gitFolder)), Split(output, '\n')))
  {
    var hash := PathHash(gitFolder);
    var lines := Split(output, '\n');
    var m := Collect(Origin(hash), lines);
    PathHashIsDecimal(gitFolder);
    forall k | k in m
      ensures '|' !in k && '\n' !in k && IsInt64(m[k].timestamp)
    {
      CollectFromLines(Origin(hash), lines, k);
      var i :| 0 <= i < |lines| && ParseLine(Origin(hash), lines[i]) == Some(m[k]);
      var fields := Split(lines[i], '|');
      assert k == hash + "-" + fields[0];
      if '\n' in fields[0] {
        SplitPieceChars(lines[i], '|', 0, '\n');
      }
    }
  }

  /** Reading a successful listing never fails, whatever its lines hold. */
  lemma ParsingNeverFails(listing: Listing, gitFolder: string, output: string)
    ensures ReadListing(listing, gitFolder, true, Ran(output)).Ok?
  {
  }

  /** Empty output, or git's "no commits yet" error, reads as an empty history. */
  lemma EmptyHistory(listing: Listing, gitFolder: string, branch: string)
    ensures ReadListing(listing, gitFolder, true, Ran("")) == Ok(map[])
    ensures ReadListing(listing, gitFolder, true, Failed(NoCommitsError(branch))) == Ok(map[])
  {
    CollectEmptyOutput(listing);
    NoCommitsErrorRecognised([], branch, []);
    assert [] + NoCommitsError(branch) + [] == NoCommitsError(branch);
  }

  /** The text of git's error for `git log` on a branch without commits. */
  function NoCommitsError(branch: string): string
  {
    BranchMarker + " '" + branch + "' " + NoCommitsMarker
  }

  /** git's no-commits error is recognised wherever it sits in the error text. */
  lemma NoCommitsErrorRecognised(before: string, branch: string, after: string)
    ensures IsEmptyBranchError(before + NoCommitsError(branch) + after)
  {
    var middle := " '" + branch + "' ";
    var e := before + NoCommitsError(branch) + after;
    assert e == before + BranchMarker + (middle + NoCommitsMarker + after);
    ContainsInfix(before, BranchMarker, middle + NoCommitsMarker + after);
    assert e == (before + BranchMarker + middle) + NoCommitsMarker + after;
    ContainsInfix(before + BranchMarker + middle, NoCommitsMarker, after);
  }
}
