/** perform: resolve the declared version (falling back to the build log for
    a SNAPSHOT), fingerprint it and the registered auxiliary properties, and
    attach the resulting record to the build. */
module VersionProperty {
  import opened JavaLang
  import opened Configuration
  import opened LogScan
  import opened Registry
  import opened Fingerprint

  /** The <parent> element, with the text of its <version> child if any. */
  datatype ParentRef = ParentRef(version: Option<string>)

  /** The parsed descriptor: the root <version> text, the <parent> element,
      and the <properties> element as a map from child name to its text as
      elementTextTrim returns it. */
  datatype Descriptor = Descriptor(
    version: Option<string>,
    parent: Option<ParentRef>,
    properties: Option<map<string, string>>)

  /** A descriptor file in the workspace: unparseable, or parsed. */
  datatype PomFile = Malformed | Parsed(doc: Descriptor)

  /** The build's workspace: the descriptor files present, by relative path. */
  type Workspace = map<string, PomFile>

  /** How one call of perform ends. */
  datatype Outcome =
    | PomNotFound                 // returns false, attaches nothing
    | Aborted(cause: Exception)   // caught and logged, returns true, attaches nothing
    | Recorded(record: Record)    // returns true and attaches the record

  /** A build; its only state here is the record of its fingerprint action. */
  class Build {
    /** The record of the build's fingerprint action, None while it has none. */
    var fingerprints: Option<Record>

    constructor (fingerprints: Option<Record>)
      ensures this.fingerprints == fingerprints
    {
      this.fingerprints := fingerprints;
    }
  }

  /** The version the descriptor declares (root, else parent) contains SNAPSHOT. */
  predicate DeclaresSnapshot(d: Descriptor) {
    if d.version.Some? then Contains(d.version.value, Snapshot)
    else d.parent.Some? && d.parent.value.version.Some? && Contains(d.parent.value.version.value, Snapshot)
  }

  /** The version the primary property is fingerprinted with: the root
      version, else the parent's, replaced by what the log scan produced when
      it contains SNAPSHOT. With no root version and no parent, or no version
      at all, a NullPointerException is thrown. */
  function ResolveVersion(d: Descriptor, scan: Result<Option<string>, Exception>): (r: Result<Option<string>, Exception>)
    ensures d.version.Some? && !Contains(d.version.value, Snapshot) ==> r == Success(d.version)
    ensures (d.version.None? && d.parent.Some? && d.parent.value.version.Some?
             && !Contains(d.parent.value.version.value, Snapshot)) ==> r == Success(d.parent.value.version)
    ensures DeclaresSnapshot(d) ==> r == scan
    ensures d.version.None? && d.parent.None? ==> r == Failure(NullPointer(72))
    ensures d.version.None? && d.parent == Some(ParentRef(None)) ==> r == Failure(NullPointer(74))
    ensures ((scan.Success? && scan.value.Some? ==> !Contains(scan.value.value, Snapshot))
             && r.Success? && r.value.Some?) ==> !Contains(r.value.value, Snapshot)
  {
    var declared :=
      if d.version.Some? then Success(d.version)
      else if d.parent.None? then Failure(NullPointer(72))
      else Success(d.parent.value.version);
    match declared
    case Failure(e) => Failure(e)
    case Success(v) =>
      if v.None? then Failure(NullPointer(74))
      else if Contains(v.value, Snapshot) then scan
      else Success(v)
  }

  /** The record after the primary property (lines 65-79): empty when the step
      has no property; otherwise the property's entry for the resolved version,
      or the exception resolving threw. */
  function PrimaryRecord(p: Publisher, d: Descriptor, scan: Result<Option<string>, Exception>, digest: Digest)
    : (r: Result<Record, Exception>)
    ensures p.property.None? ==> r == Success(map[])
    ensures p.property.Some? ==> (r.Failure? <==> ResolveVersion(d, scan).Failure?)
    ensures p.property.Some? && r.Failure? ==> r.error == ResolveVersion(d, scan).error
    ensures p.property.Some? && r.Success? ==>
      r.value.Keys == {p.property.value} &&
      r.value[p.property.value] == EntryFor(p.property.value, ResolveVersion(d, scan).value, digest)
  {
    if p.property.None? then Success(map[])
    else match ResolveVersion(d, scan)
      case Failure(e) => Failure(e)
      case Success(version) => Success(map[p.property.value := EntryFor(p.property.value, version, digest)])
  }

  /** Line 85: a registered name is fingerprinted when the properties block has
      it and its text does not end with SNAPSHOT. */
  predicate AuxAccepted(props: map<string, string>, name: string) {
    name in props && !EndsWith(props[name], Snapshot)
  }

  /** Lines 83-88: the registered names in order, each accepted one put into
      the record. */
  function AuxRecord(record: Record, props: map<string, string>, names: seq<string>, digest: Digest): Record
    decreases names
  {
    if names == [] then record
    else
      var name := names[0];
      var next := if AuxAccepted(props, name) then record[name := EntryFor(name, Some(props[name]), digest)] else record;
      AuxRecord(next, props, names[1..], digest)
  }

  /** The entries the accepted registered names contribute. */
  function AuxEntries(props: map<string, string>, names: seq<string>, digest: Digest): Record {
    map name | name in names && AuxAccepted(props, name) :: EntryFor(name, Some(props[name]), digest)
  }

  /** The loop's effect in one step: the earlier record overlaid with an entry
      for every accepted registered name and nothing else. */
  lemma {:induction false} AuxRecordClosedForm(record: Record, props: map<string, string>, names: seq<string>, digest: Digest)
    ensures AuxRecord(record, props, names, digest) == record + AuxEntries(props, names, digest)
    decreases names
  {
    if names == [] {
      assert AuxEntries(props, names, digest) == map[];
    } else {
      var name := names[0];
      var next := if AuxAccepted(props, name) then record[name := EntryFor(name, Some(props[name]), digest)] else record;
      AuxRecordClosedForm(next, props, names[1..], digest);
      OverlayFirstName(record, next, props, names, digest);
    }
  }

  /** Putting the first name's entry and then the rest's equals putting all. */
  lemma OverlayFirstName(record: Record, next: Record, props: map<string, string>, names: seq<string>, digest: Digest)
    requires names != []
    requires next == if AuxAccepted(props, names[0]) then record[names[0] := EntryFor(names[0], Some(props[names[0]]), digest)] else record
    ensures next + AuxEntries(props, names[1..], digest) == record + AuxEntries(props, names, digest)
  {
    var rest := AuxEntries(props, names[1..], digest);
    var all := AuxEntries(props, names, digest);
    assert forall n :: n in names <==> n == names[0] || n in names[1..];
    assert all.Keys == rest.Keys + (if AuxAccepted(props, names[0]) then {names[0]} else {});
    var lhs, rhs := next + rest, record + all;
    assert lhs.Keys == rhs.Keys;
    forall n | n in lhs.Keys ensures lhs[n] == rhs[n] {
    }
  }

  /** Which registered names reach the record, and with what entry: exactly the
      accepted ones, each with the digest of its trimmed text. */
  lemma AuxRecordEntries(record: Record, props: map<string, string>, names: seq<string>, digest: Digest, name: string)
    ensures var r := AuxRecord(record, props, names, digest);
      && (name in r <==> name in record || (name in names && AuxAccepted(props, name)))
      && (name in names && AuxAccepted(props, name) ==> r[name] == EntryFor(name, Some(props[name]), digest))
      && (name in record && !(name in names && AuxAccepted(props, name)) ==> r[name] == record[name])
  {
    AuxRecordClosedForm(record, props, names, digest);
  }

  /** Neither the order of the registry nor repeated names change the record. */
  lemma AuxRecordIgnoresOrderAndRepeats(record: Record, props: map<string, string>, names1: seq<string>, names2: seq<string>, digest: Digest)
    requires forall n :: n in names1 <==> n in names2
    ensures AuxRecord(record, props, names1, digest) == AuxRecord(record, props, names2, digest)
  {
    AuxRecordClosedForm(record, props, names1, digest);
    AuxRecordClosedForm(record, props, names2, digest);
    assert AuxEntries(props, names1, digest) == AuxEntries(props, names2, digest);
  }

  /** The loop of lines 83-88: each registered name in turn, fingerprinting
      the accepted ones. */
  method FingerprintRegistered(record: Record, props: map<string, string>, names: seq<string>, digest: Digest)
    returns (updated: Record)
    ensures updated == AuxRecord(record, props, names, digest)
  {
    updated := record;
    for i := 0 to |names|
      invariant AuxRecord(updated, props, names[i..], digest) == AuxRecord(record, props, names, digest)
    {
      var name := names[i];
      assert names[i..][1..] == names[i + 1..];
      if name in props && !EndsWith(props[name], Snapshot) {
        var before := updated;
        updated := AddFingerprint(updated, name, Some(props[name]), digest);
        assert updated == before[name := EntryFor(name, Some(props[name]), digest)];
      }
    }
  }

  /** Lines 91-96: merged into the build's existing fingerprint record (the new
      entries win), or a new action holding exactly the record. */
  function Attach(existing: Option<Record>, record: Record): (r: Record)
    ensures existing.None? ==> r == record
    ensures r.Keys == record.Keys + (if existing.Some? then existing.value.Keys else {})
    ensures forall k :: k in record ==> r[k] == record[k]
    ensures existing.Some? ==> forall k :: k in existing.value && k !in record ==> r[k] == existing.value[k]
  {
    if existing.Some? then existing.value + record else record
  }

  /** What one call of perform does, given how the log scan turns out. */
  function Process(p: Publisher, workspace: Workspace, scan: Result<Option<string>, Exception>,
                   projects: seq<Project>, digest: Digest): (o: Outcome)
    ensures o.PomNotFound? <==> PomPath(p) !in workspace
    ensures PomPath(p) in workspace && workspace[PomPath(p)].Malformed? ==> o == Aborted(MalformedDocument)
    ensures o.Recorded? && p.property.Some? ==> p.property.value in o.record
    ensures o.Recorded? ==> forall k :: k in o.record ==> Some(k) == p.property || k in RegisteredNames(projects)
  {
    var path := PomPath(p);
    if path !in workspace then PomNotFound
    else match workspace[path]
      case Malformed => Aborted(MalformedDocument)
      case Parsed(d) =>
        match PrimaryRecord(p, d, scan, digest)
        case Failure(e) => Aborted(e)
        case Success(primary) =>
          if d.properties.None? then Recorded(primary)
          else
            var names := RegisteredNames(projects);
            AuxRecordClosedForm(primary, d.properties.value, names, digest);
            Recorded(AuxRecord(primary, d.properties.value, names, digest))
  }

  /** A parsed descriptor aborts exactly when the primary step throws; otherwise
      the record is the primary entry overlaid with the entry of every
      registered name the properties element resolves. */
  lemma ProcessOfParsedDescriptor(p: Publisher, workspace: Workspace, scan: Result<Option<string>, Exception>,
                                  projects: seq<Project>, digest: Digest)
    requires PomPath(p) in workspace && workspace[PomPath(p)].Parsed?
    ensures var d := workspace[PomPath(p)].doc;
      var primary := PrimaryRecord(p, d, scan, digest);
      var o := Process(p, workspace, scan, projects, digest);
      && (o.Aborted? <==> primary.Failure?)
      && (primary.Failure? ==> o == Aborted(primary.error))
      && (primary.Success? ==> o == Recorded(primary.value +
            if d.properties.Some? then AuxEntries(d.properties.value, RegisteredNames(projects), digest) else map[]))
  {
    var d := workspace[PomPath(p)].doc;
    var primary := PrimaryRecord(p, d, scan, digest);
    if primary.Success? {
      if d.properties.Some? {
        AuxRecordClosedForm(primary.value, d.properties.value, RegisteredNames(projects), digest);
      } else {
        assert primary.value + map[] == primary.value;
      }
    }
  }

  /** The step's own property is registered, so a properties element of the
      same name that resolves overrides the primary entry in the record. */
  lemma PropertiesElementOverridesPrimary(p: Publisher, workspace: Workspace, scan: Result<Option<string>, Exception>,
                                          projects: seq<Project>, digest: Digest)
    requires PomPath(p) in workspace && workspace[PomPath(p)].Parsed?
    requires p.property.Some? && Some(p) in projects
    requires workspace[PomPath(p)].doc.properties.Some?
    requires AuxAccepted(workspace[PomPath(p)].doc.properties.value, p.property.value)
    ensures var props := workspace[PomPath(p)].doc.properties.value;
      var o := Process(p, workspace, scan, projects, digest);
      o.Recorded? ==> o.record[p.property.value] == EntryFor(p.property.value, Some(props[p.property.value]), digest)
  {
    var i :| 0 <= i < |projects| && projects[i] == Some(p);
    RegisteredNamesMembers(projects, p.property.value);
    ProcessOfParsedDescriptor(p, workspace, scan, projects, digest);
  }

  /** Declared version "1.0" and a properties element releaseVersion = "9.9",
      with this step the only registered project: the record holds the digest
      of "releaseVersion9.9", not of the declared version. */
  lemma DeclaredVersionOverridden(scan: Result<Option<string>, Exception>, digest: Digest)
    ensures var p := Publisher(Some("releaseVersion"), None);
      var d := Descriptor(Some("1.0"), None, Some(map["releaseVersion" := "9.9"]));
      Process(p, map["pom.xml" := Parsed(d)], scan, [Some(p)], digest)
        == Recorded(map["releaseVersion" := digest("releaseVersion9.9")])
  {
    var p := Publisher(Some("releaseVersion"), None);
    var d := Descriptor(Some("1.0"), None, Some(map["releaseVersion" := "9.9"]));
    assert !Contains("1.0", Snapshot);
    assert RegisteredNames([Some(p)]) == ["releaseVersion"] by {
      assert [Some(p)][..0] == [];
    }
    assert AuxAccepted(map["releaseVersion" := "9.9"], "releaseVersion");
    ProcessOfParsedDescriptor(p, map["pom.xml" := Parsed(d)], scan, [Some(p)], digest);
    assert Concat("releaseVersion", Some("9.9")) == "releaseVersion9.9";
    var aux := AuxEntries(d.properties.value, ["releaseVersion"], digest);
    assert aux.Keys == {"releaseVersion"};
    assert aux == map["releaseVersion" := digest("releaseVersion9.9")];
  }

  /** The record of the build after perform. */
  function Attached(existing: Option<Record>, o: Outcome): Option<Record> {
    if o.Recorded? then Some(Attach(existing, o.record)) else existing
  }

  /** perform: look up the descriptor; fingerprint the primary property with
      its resolved version, scanning the log only for a SNAPSHOT; fingerprint
      the registered names the properties block resolves; attach the record.
      Every exception inside the try block is swallowed: perform then returns
      true and the build keeps the record it had. */
  method Perform(p: Publisher, build: Build, workspace: Workspace, log: seq<string>, patterns: LogPatterns,
                 projects: seq<Project>, digest: Digest) returns (ok: bool)
    modifies build
    ensures ok <==> PomPath(p) in workspace
    ensures build.fingerprints == Attached(old(build.fingerprints),
      Process(p, workspace, Success(FirstVersion(log, PatternList(patterns))), projects, digest))
  {
    var pom := PomPath(p);
    if pom !in workspace {
      return false;
    }
    ok := true;
    var file := workspace[pom];
    if file.Malformed? {
      return;
    }
    var d := file.doc;
    ghost var scan := Success(FirstVersion(log, PatternList(patterns)));
    var record: Record := map[];
    if p.property.Some? {
      var version := d.version;
      if version.None? {
        if d.parent.None? {
          return;
        }
        version := d.parent.value.version;
      }
      if version.None? {
        return;
      }
      if Contains(version.value, Snapshot) {
        version := FindVersion(log, patterns);
      }
      assert ResolveVersion(d, scan) == Success(version);
      record := AddFingerprint(record, p.property.value, version, digest);
      assert record == map[p.property.value := EntryFor(p.property.value, version, digest)];
    }
    assert PrimaryRecord(p, d, scan, digest) == Success(record);
    if d.properties.Some? {
      var props := d.properties.value;
      var names := GetPropertyNames(projects);
      record := FingerprintRegistered(record, props, names, digest);
    }
    var action := build.fingerprints;
    if action.Some? {
      build.fingerprints := Some(action.value + record);
    } else {
      build.fingerprints := Some(record);
    }
  }

  /** A version that is not a SNAPSHOT is fingerprinted as declared: however
      the log scan would turn out, perform does the same. */
  lemma ReleaseVersionIgnoresLog(p: Publisher, workspace: Workspace, scan1: Result<Option<string>, Exception>,
                                 scan2: Result<Option<string>, Exception>, projects: seq<Project>, digest: Digest)
    requires PomPath(p) in workspace && workspace[PomPath(p)].Parsed?
    requires !DeclaresSnapshot(workspace[PomPath(p)].doc)
    ensures Process(p, workspace, scan1, projects, digest) == Process(p, workspace, scan2, projects, digest)
  {
  }

  /** A SNAPSHOT whose log yields no accepted capture is still fingerprinted,
      as the property followed by the text "null". */
  lemma UnresolvedSnapshotDigestsNull(property: string, pom: Option<string>, d: Descriptor, log: seq<string>,
                                      patterns: LogPatterns, projects: seq<Project>, digest: Digest)
    requires d.version.Some? && Contains(d.version.value, Snapshot) && d.properties.None?
    requires forall i :: 0 <= i < |log| ==> FirstInLine(log[i], PatternList(patterns)).None?
    ensures var p := Publisher(Some(property), pom);
      Process(p, map[PomPath(p) := Parsed(d)], Success(FirstVersion(log, PatternList(patterns))), projects, digest)
        == Recorded(map[property := digest(property + "null")])
  {
    NoAcceptedLineNoVersion(log, PatternList(patterns));
  }

  lemma {:induction false} NoAcceptedLineNoVersion(log: seq<string>, patterns: seq<Pattern>)
    requires forall i :: 0 <= i < |log| ==> FirstInLine(log[i], patterns).None?
    ensures FirstVersion(log, patterns).None?
  {
    if log != [] {
      assert forall i :: 0 <= i < |log[1..]| ==> log[1..][i] == log[i + 1];
      NoAcceptedLineNoVersion(log[1..], patterns);
    }
  }

  /** Root version "2.3-SNAPSHOT", no parent, and a log line announcing the
      upload of 2.3.1: the record holds the property's digest of "2.3.1". */
  lemma SnapshotResolvedFromUploadLine(patterns: LogPatterns, projects: seq<Project>, digest: Digest)
    requires patterns.upload("[INFO] Uploading project information for foo 2.3.1") == Some("2.3.1")
    ensures var p := Publisher(Some("releaseVersion"), None);
      var d := Descriptor(Some("2.3-SNAPSHOT"), None, None);
      var log := ["[INFO] Uploading project information for foo 2.3.1"];
      Process(p, map["pom.xml" := Parsed(d)], Success(FirstVersion(log, PatternList(patterns))), projects, digest)
        == Recorded(map["releaseVersion" := digest("releaseVersion2.3.1")])
  {
    assert OccursAt("2.3-SNAPSHOT", Snapshot, 4);
    assert !Contains("2.3.1", Snapshot);
    var log := ["[INFO] Uploading project information for foo 2.3.1"];
    UploadWinsOnItsLine(log, patterns, 0);
    assert Concat("releaseVersion", Some("2.3.1")) == "releaseVersion2.3.1";
  }

  /** A step whose property is blank never reads the declared version, so a
      descriptor without one throws nothing; only registered names are recorded. */
  lemma BlankPropertyOnlyRecordsRegistered(pom: Option<string>, workspace: Workspace, scan: Result<Option<string>, Exception>,
                                           projects: seq<Project>, digest: Digest)
    requires NewPublisher(Some("  "), pom).Success?
    requires PomPath(NewPublisher(Some("  "), pom).value) in workspace
    requires workspace[PomPath(NewPublisher(Some("  "), pom).value)].Parsed?
    ensures var o := Process(NewPublisher(Some("  "), pom).value, workspace, scan, projects, digest);
      o.Recorded? && forall k :: k in o.record ==> k in RegisteredNames(projects)
  {
    assert Blank("  ");
  }

  /** For a step with a property, neither a root nor a parent version loses
      the whole record, the auxiliary properties included, although perform
      reports success. A step without a property never reads the version
      (line 69) and keeps its auxiliary entries. */
  lemma MissingVersionLosesWholeRecord(property: string, pom: Option<string>, d: Descriptor,
                                       scan: Result<Option<string>, Exception>, projects: seq<Project>, digest: Digest)
    requires d.version.None? && d.parent.None?
    ensures var p := Publisher(Some(property), pom);
      Process(p, map[PomPath(p) := Parsed(d)], scan, projects, digest) == Aborted(NullPointer(72))
    ensures var q := Publisher(None, pom);
      Process(q, map[PomPath(q) := Parsed(d)], scan, projects, digest) ==
        Recorded(if d.properties.Some? then AuxEntries(d.properties.value, RegisteredNames(projects), digest) else map[])
  {
    var q := Publisher(None, pom);
    ProcessOfParsedDescriptor(q, map[PomPath(q) := Parsed(d)], scan, projects, digest);
  }

  /** The primary version is tested with contains (line 74), the auxiliary
      values with endsWith (line 85). Every value the auxiliary filter rejects
      would also send the primary version to the log scan, but not the
      reverse: a value with the marker inside is scanned for as a version and
      fingerprinted as is as a property. */
  lemma MarkerInsideValue(name: string, value: string)
    ensures !AuxAccepted(map[name := value], name) ==> DeclaresSnapshot(Descriptor(Some(value), None, None))
    ensures DeclaresSnapshot(Descriptor(Some("1.0-SNAPSHOT-2"), None, None))
    ensures AuxAccepted(map[name := "1.0-SNAPSHOT-2"], name)
  {
    if !AuxAccepted(map[name := value], name) {
      EndsWithImpliesContains(value, Snapshot);
    }
    assert OccursAt("1.0-SNAPSHOT-2", Snapshot, 4);
  }

  /** With doLogSearch as written, for a step with a property, a SNAPSHOT
      build with any log output throws inside the try block: nothing is
      recorded, not even the auxiliary properties, and perform reports
      success. A step without a property never runs the scan (line 69) and
      keeps its auxiliary entries. */
  lemma AsWrittenSnapshotBuildRecordsNothing(property: string, pom: Option<string>, d: Descriptor,
                                             log: seq<string>, patterns: LogPatterns, projects: seq<Project>, digest: Digest)
    requires DeclaresSnapshot(d) && log != []
    ensures var p := Publisher(Some(property), pom);
      Process(p, map[PomPath(p) := Parsed(d)], DoLogSearchAsWritten(log, PatternList(patterns)), projects, digest)
        == Aborted(IllegalState)
    ensures var q := Publisher(None, pom);
      Process(q, map[PomPath(q) := Parsed(d)], DoLogSearchAsWritten(log, PatternList(patterns)), projects, digest) ==
        Recorded(if d.properties.Some? then AuxEntries(d.properties.value, RegisteredNames(projects), digest) else map[])
  {
    AsWrittenScanAborts(log, PatternList(patterns));
    var q := Publisher(None, pom);
    ProcessOfParsedDescriptor(q, map[PomPath(q) := Parsed(d)], DoLogSearchAsWritten(log, PatternList(patterns)), projects, digest);
  }
}
