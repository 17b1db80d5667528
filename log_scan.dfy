/** The fallback that reads a released version out of the build log when the
    descriptor only declares a SNAPSHOT: doLogSearch and findVersion. */
module LogScan {
  import opened JavaLang
  import opened Configuration

  /** A compiled pattern applied to one line with Matcher.find: the first
      capture group of the leftmost match, or None when the line has no match. */
  type Pattern = string -> Option<string>

  /** The three phrasings findVersion passes, in priority order: an artifact
      upload, a version update, and the start of a build. */
  datatype LogPatterns = LogPatterns(upload: Pattern, update: Pattern, building: Pattern)

  function PatternList(p: LogPatterns): (ps: seq<Pattern>)
    ensures |ps| == 3 && ps[0] == p.upload && ps[1] == p.update && ps[2] == p.building
  {
    [p.upload, p.update, p.building]
  }

  /** A capture the scan accepts: there was a match and it is not a SNAPSHOT. */
  predicate Accepted(capture: Option<string>) {
    capture.Some? && !Contains(capture.value, Snapshot)
  }

  function CaptureAt(log: seq<string>, patterns: seq<Pattern>, i: nat, j: nat): Option<string>
    requires i < |log| && j < |patterns|
  {
    patterns[j](log[i])
  }

  /** (i', j') is tried before (i, j): an earlier line, or the same line and an
      earlier pattern. */
  predicate TriedBefore(i': nat, j': nat, i: nat, j: nat) {
    i' < i || (i' == i && j' < j)
  }

  /** No pair tried before (i, j) yields an accepted capture. */
  ghost predicate NoneAcceptedBefore(log: seq<string>, patterns: seq<Pattern>, i: nat, j: nat) {
    forall i': nat, j': nat | i' < |log| && j' < |patterns| && TriedBefore(i', j', i, j) ::
      !Accepted(CaptureAt(log, patterns, i', j'))
  }

  /** The accepted capture of the first pattern that gives one on this line. */
  function FirstInLine(line: string, patterns: seq<Pattern>): (r: Option<string>)
    ensures r.Some? ==> Accepted(r)
  {
    if patterns == [] then None
    else if Accepted(patterns[0](line)) then patterns[0](line)
    else FirstInLine(line, patterns[1..])
  }

  /** The specification of the scan: lines in order, and within a line the
      patterns in order; the first accepted capture wins. */
  function FirstVersion(log: seq<string>, patterns: seq<Pattern>): (r: Option<string>)
    ensures r.Some? ==> Accepted(r)
  {
    if log == [] then None
    else if FirstInLine(log[0], patterns).Some? then FirstInLine(log[0], patterns)
    else FirstVersion(log[1..], patterns)
  }

  lemma {:induction false} FirstInLineIsEarliest(line: string, patterns: seq<Pattern>)
    ensures FirstInLine(line, patterns).None? <==>
      forall j :: 0 <= j < |patterns| ==> !Accepted(patterns[j](line))
    ensures FirstInLine(line, patterns).Some? ==>
      exists j :: 0 <= j < |patterns| && patterns[j](line) == FirstInLine(line, patterns) &&
        forall j' :: 0 <= j' < j ==> !Accepted(patterns[j'](line))
  {
    if patterns != [] {
      FirstInLineIsEarliest(line, patterns[1..]);
      if !Accepted(patterns[0](line)) {
        assert forall j :: 1 <= j < |patterns| ==> patterns[j] == patterns[1..][j - 1];
        if FirstInLine(line, patterns).Some? {
          var j :| 0 <= j < |patterns[1..]| && patterns[1..][j](line) == FirstInLine(line, patterns[1..]) &&
            forall j' :: 0 <= j' < j ==> !Accepted(patterns[1..][j'](line));
          assert patterns[j + 1](line) == FirstInLine(line, patterns);
        }
      } else {
        assert patterns[0](line) == FirstInLine(line, patterns);
      }
    }
  }

  /** The scan returns the capture at the earliest (line, pattern) pair whose
      capture is accepted, and nothing when no pair has one. */
  lemma {:induction false} FirstVersionIsEarliest(log: seq<string>, patterns: seq<Pattern>)
    ensures FirstVersion(log, patterns).None? <==>
      forall i: nat, j: nat | i < |log| && j < |patterns| :: !Accepted(CaptureAt(log, patterns, i, j))
    ensures FirstVersion(log, patterns).Some? ==>
      exists i: nat, j: nat | i < |log| && j < |patterns| ::
        CaptureAt(log, patterns, i, j) == FirstVersion(log, patterns) && NoneAcceptedBefore(log, patterns, i, j)
  {
    if log != [] {
      FirstInLineIsEarliest(log[0], patterns);
      FirstVersionIsEarliest(log[1..], patterns);
      var v := FirstVersion(log, patterns);
      if FirstInLine(log[0], patterns).Some? {
        var j :| 0 <= j < |patterns| && patterns[j](log[0]) == v &&
          forall j' :: 0 <= j' < j ==> !Accepted(patterns[j'](log[0]));
        assert CaptureAt(log, patterns, 0, j) == v;
        assert NoneAcceptedBefore(log, patterns, 0, j);
      } else {
        assert forall i :: 1 <= i < |log| ==> log[i] == log[1..][i - 1];
        if v.Some? {
          var i: nat, j: nat :| i < |log[1..]| && j < |patterns| &&
            CaptureAt(log[1..], patterns, i, j) == v && NoneAcceptedBefore(log[1..], patterns, i, j);
          assert CaptureAt(log, patterns, i + 1, j) == v;
          forall i': nat, j': nat | i' < |log| && j' < |patterns| && TriedBefore(i', j', i + 1, j)
            ensures !Accepted(CaptureAt(log, patterns, i', j'))
          {
            if i' > 0 {
              assert CaptureAt(log, patterns, i', j') == CaptureAt(log[1..], patterns, i' - 1, j');
            }
          }
        } else {
          forall i: nat, j: nat | i < |log| && j < |patterns|
            ensures !Accepted(CaptureAt(log, patterns, i, j))
          {
            if i > 0 {
              assert CaptureAt(log, patterns, i, j) == CaptureAt(log[1..], patterns, i - 1, j);
            }
          }
        }
      }
    }
  }

  /** doLogSearch, with the match tested before the capture is read: lines in
      order, patterns in order within a line, the first accepted capture is
      returned at once, and None when the log runs out. */
  method DoLogSearch(log: seq<string>, patterns: seq<Pattern>) returns (version: Option<string>)
    ensures version == FirstVersion(log, patterns)
  {
    var i := 0;
    while i < |log|
      invariant 0 <= i <= |log|
      invariant FirstVersion(log[i..], patterns) == FirstVersion(log, patterns)
    {
      var line := log[i];
      assert log[i..][1..] == log[i + 1..];
      var j := 0;
      while j < |patterns|
        invariant 0 <= j <= |patterns|
        invariant FirstInLine(line, patterns[j..]) == FirstInLine(line, patterns)
      {
        var capture := patterns[j](line);
        if capture.Some? && !Contains(capture.value, Snapshot) {
          return capture;
        }
        assert patterns[j..][1..] == patterns[j + 1..];
        j := j + 1;
      }
      i := i + 1;
    }
    return None;
  }

  /** findVersion: the scan over the three fixed phrasings. */
  method FindVersion(log: seq<string>, p: LogPatterns) returns (version: Option<string>)
    ensures version == FirstVersion(log, PatternList(p))
    ensures version.Some? ==> !Contains(version.value, Snapshot)
  {
    version := DoLogSearch(log, PatternList(p));
  }

  /** Priority within a line: when the upload phrasing is accepted on the first
      line that has any accepted capture, its capture wins over the other two. */
  lemma {:induction false} UploadWinsOnItsLine(log: seq<string>, p: LogPatterns, i: nat)
    requires i < |log| && Accepted(p.upload(log[i]))
    requires forall k :: 0 <= k < i ==> FirstInLine(log[k], PatternList(p)).None?
    ensures FirstVersion(log, PatternList(p)) == p.upload(log[i])
  {
    if i > 0 {
      assert log[1..][i - 1] == log[i];
      UploadWinsOnItsLine(log[1..], p, i - 1);
    }
  }

  /** A SNAPSHOT capture never ends the scan: a later line still supplies the
      version. */
  lemma SnapshotCaptureIsSkipped(first: string, later: string, p: LogPatterns)
    requires p.upload(first).None? && p.building(first).None?
    requires p.update(first).Some? && Contains(p.update(first).value, Snapshot)
    requires Accepted(p.upload(later))
    ensures FirstVersion([first, later], PatternList(p)) == p.upload(later)
  {
    var ps := PatternList(p);
    assert [first, later][1..] == [later];
    assert ps[1..][1..] == ps[2..] && ps[2..][1..] == [];
    assert FirstInLine(first, ps[2..]).None?;
    assert FirstInLine(first, ps[1..]).None?;
    assert FirstInLine(first, ps).None?;
  }

  /** doLogSearch as written reads matcher.group(1) before matcher.find(), which
      throws IllegalStateException as soon as the first pattern meets the first
      line; only an empty log (or no pattern) gets through, yielding null. */
  function DoLogSearchAsWritten(log: seq<string>, patterns: seq<Pattern>): (r: Result<Option<string>, Exception>)
    ensures r.Success? ==> r.value.None?
  {
    if log != [] && patterns != [] then Failure(IllegalState) else Success(None)
  }

  /** Whenever the intended scan finds a version, the code as written throws
      instead of returning it; on a non-empty log it always throws. */
  lemma {:induction false} AsWrittenScanAborts(log: seq<string>, patterns: seq<Pattern>)
    ensures log != [] && patterns != [] ==> DoLogSearchAsWritten(log, patterns) == Failure(IllegalState)
    ensures FirstVersion(log, patterns).Some? ==> DoLogSearchAsWritten(log, patterns) == Failure(IllegalState)
  {
    if FirstVersion(log, patterns).Some? {
      FirstVersionIsEarliest(log, patterns);
    }
  }
}
