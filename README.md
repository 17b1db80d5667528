# version-property: a Dafny model of the version-property publisher

The version-property publisher runs after a build. It finds the version of
the artifact the build produced and records it as a fingerprint, along with a
few related properties. The version is read from the build's Maven
descriptor (`pom.xml`). When the descriptor only declares a `SNAPSHOT`, the
released version is looked up in the build log instead. Each
(property, value) pair is digested into an entry of a per-build record. That
record is merged into the build's fingerprint action.

This project models that core, `VersionPropertyPublisher`, in Dafny:

- `java_lang.dfy` (module `JavaLang`): Java null as `Option`, a thrown
  exception as `Result`, the exceptions the publisher can raise, and the
  String operations it uses: `trim`, `contains`, `endsWith`, and `+` with a
  possibly-null right operand.
- `configuration.dfy` (module `Configuration`): the constructor's trim/null
  normalisation (`Util.fixEmptyAndTrim`), its rejection of a null
  property, and the default descriptor path.
- `log_scan.dfy` (module `LogScan`): `doLogSearch` and `findVersion`, the
  ordered scan of the build log. This module also holds the code as written,
  which has the defect listed under Findings.
- `registry.dfy` (module `Registry`): `getPropertyNames`, the property names
  of every project that has this publisher.
- `fingerprint.dfy` (module `Fingerprint`): `addFingerprint`, which puts
  `property ↦ digest(property + value)` into the record.
- `version_property.dfy` (module `VersionProperty`): `perform`. It covers the
  descriptor lookup, version resolution, primary and auxiliary fingerprints,
  exception handling, and attaching the record to the build.

The parts of the publisher that change things step by step are imperative
Dafny:

- `DoLogSearch` is the nested line/pattern loop with its early return.
- `GetPropertyNames` appends to a list in a loop.
- `FingerprintRegistered` is the auxiliary-property loop.
- `Perform` threads the record through these calls. It then updates the
  `Build` object's fingerprint record in place.

Each of these methods is proved equal to a specification function. Those are
`FirstVersion`, `RegisteredNames`, `AuxRecord` and `Process`, and the lemmas
below are proved about them. The record that `perform` builds is a local
`HashMap` that nothing else sees until it is attached. So it is modelled as a
map value: `AddFingerprint` takes it and returns it updated.

The foreign pieces become inputs:

- The workspace is a map from relative path to a descriptor file, which is
  either unparseable or parsed into a `Descriptor`.
- The build log is a sequence of lines.
- Each of the three regular expressions is a function from a line to the
  first capture group of its leftmost match (`Matcher.find` semantics).
- The MD5 digest (`Util.getDigestOf`) is an arbitrary function of a string.
- The server's projects are given as a sequence with one entry per project:
  the publisher of this kind that the project has, if any.

Four behaviours of the code that the model keeps, each stated and proved
below (line numbers are in `VersionPropertyPublisher.java`):

- When the descriptor is missing, `perform` returns `false` at line 61 and
  attaches nothing.
- For a step with a property, when the descriptor declares no root version
  and has no parent, or declares no version at all, the NullPointerException
  at line 72 or 74 is caught at line 98. The whole record is dropped, the
  auxiliary properties included. A step without a property never reads the
  version (the guard at line 69) and keeps its auxiliary entries.
- When the log scan finds no version, `addFingerprint` is still called at
  line 78. It digests the property name followed by the text `"null"`.
- A whitespace-only property passes the null test at line 36, which looks at
  the raw argument. It is stored as null, so the guard at line 69 skips the
  primary fingerprint.

## Model

| member | source | states |
|---|---|---|
| `Configuration.FixEmptyAndTrim` | src/main/java/jenkins/plugins/versionproperty/VersionPropertyPublisher.java:33-34 | A stored setting is null exactly when the argument is null or blank. Otherwise it is the argument with a blank prefix and suffix cut off, non-empty and with no trimmable character at either end |
| `Configuration.FixEmptyAndTrimIdempotent` | src/main/java/jenkins/plugins/versionproperty/VersionPropertyPublisher.java:33-34 | Normalising an already normalised setting changes nothing |
| `Configuration.NewPublisher` | src/main/java/jenkins/plugins/versionproperty/VersionPropertyPublisher.java:32-37 | The constructor throws IllegalArgumentException exactly when the property argument is null. Otherwise both fields are normalised. The property field is null exactly when the argument is blank, and the pom field exactly when its argument is null or blank |
| `Configuration.BlankPropertyAccepted` | src/main/java/jenkins/plugins/versionproperty/VersionPropertyPublisher.java:33-36 | A whitespace-only property is not rejected; the step is built with a null property |
| `Configuration.PomPath` | src/main/java/jenkins/plugins/versionproperty/VersionPropertyPublisher.java:54 | With no configured pom the path is "pom.xml". For a normalised step the path is never empty or padded |
| `Configuration.PomPathOfNewPublisher` | src/main/java/jenkins/plugins/versionproperty/VersionPropertyPublisher.java:54 | For a constructed step, the path is the trimmed configured path, or "pom.xml" when that path is null or blank |
| `LogScan.FirstInLineIsEarliest` | src/main/java/jenkins/plugins/versionproperty/VersionPropertyPublisher.java:147-153 | Within one line, the result is the capture of the first pattern whose capture is accepted. It is None exactly when no pattern's capture is accepted |
| `LogScan.FirstVersionIsEarliest` | src/main/java/jenkins/plugins/versionproperty/VersionPropertyPublisher.java:146-155 | The scan returns the capture at the earliest (line, pattern) pair whose capture exists and lacks SNAPSHOT. No earlier pair has one. The result is None exactly when no pair has one |
| `LogScan.DoLogSearch` | src/main/java/jenkins/plugins/versionproperty/VersionPropertyPublisher.java:136-164 | The nested loop with its early return computes exactly that earliest accepted capture |
| `LogScan.FindVersion` | src/main/java/jenkins/plugins/versionproperty/VersionPropertyPublisher.java:126-134 | The scan runs over upload, update and building in that order. A version it returns never contains SNAPSHOT |
| `LogScan.UploadWinsOnItsLine` | src/main/java/jenkins/plugins/versionproperty/VersionPropertyPublisher.java:128-133 | Suppose the upload phrasing is accepted on a line and no earlier line had an accepted capture. Then the upload capture wins, whatever the other two phrasings give on that line |
| `LogScan.SnapshotCaptureIsSkipped` | src/main/java/jenkins/plugins/versionproperty/VersionPropertyPublisher.java:150-152 | A SNAPSHOT capture does not stop the scan. A later line's accepted capture is returned |
| `LogScan.DoLogSearchAsWritten` | src/main/java/jenkins/plugins/versionproperty/VersionPropertyPublisher.java:146-155 | The code as written never returns a version. It throws IllegalStateException on any non-empty log and returns null otherwise |
| `LogScan.AsWrittenScanAborts` | src/main/java/jenkins/plugins/versionproperty/VersionPropertyPublisher.java:148-150 | On every non-empty log the code as written throws, including every log where the intended scan finds a version |
| `Registry.NameOf` | src/main/java/jenkins/plugins/versionproperty/VersionPropertyPublisher.java:108-113 | A project adds one name exactly when it has this publisher and the publisher's property is non-null, and that name is the property |
| `Registry.RegisteredNamesAppend` | src/main/java/jenkins/plugins/versionproperty/VersionPropertyPublisher.java:105-117 | The names of a list of projects are the names of its parts, concatenated in order. None are dropped or merged, so duplicates are kept |
| `Registry.RegisteredNamesMembers` | src/main/java/jenkins/plugins/versionproperty/VersionPropertyPublisher.java:105-117 | A name is registered exactly when some project's publisher has it as its property |
| `Registry.GetPropertyNames` | src/main/java/jenkins/plugins/versionproperty/VersionPropertyPublisher.java:105-117 | The appending loop yields exactly the registered names, in project order |
| `Fingerprint.AddFingerprint` | src/main/java/jenkins/plugins/versionproperty/VersionPropertyPublisher.java:119-124 | Afterwards the record maps the property to digest(property + value), with a null value rendered "null". An earlier entry for the property is overwritten. Every other key keeps its entry and no other key is added |
| `Fingerprint.ConcatenationCollisions` | src/main/java/jenkins/plugins/versionproperty/VersionPropertyPublisher.java:120 | With no separator, for all a, b, c the pairs (a+b, c) and (a, b+c) get the same entry. A null value gets the same entry as the text "null" |
| `VersionProperty.ResolveVersion` | src/main/java/jenkins/plugins/versionproperty/VersionPropertyPublisher.java:70-76 | A root version without SNAPSHOT is used as is. Without a root version, a parent version without SNAPSHOT is used. A declared SNAPSHOT is replaced by the scan outcome. No root version and no parent throws at line 72; a parent without a version throws at line 74. If the scan never returns a SNAPSHOT, the resolved version never contains one |
| `VersionProperty.PrimaryRecord` | src/main/java/jenkins/plugins/versionproperty/VersionPropertyPublisher.java:69-79 | With no property the record starts empty and nothing can throw. Otherwise it fails exactly when resolution throws, and else holds exactly the property's entry for the resolved version |
| `VersionProperty.AuxRecordClosedForm` | src/main/java/jenkins/plugins/versionproperty/VersionPropertyPublisher.java:81-89 | The auxiliary loop gives the earlier record overlaid with one entry per registered name present in the properties block whose text does not end with SNAPSHOT |
| `VersionProperty.AuxRecordEntries` | src/main/java/jenkins/plugins/versionproperty/VersionPropertyPublisher.java:81-89 | A name is in the result iff it was before, or it is registered and accepted. An accepted name maps to the digest of its text. Any other earlier entry is unchanged |
| `VersionProperty.AuxRecordIgnoresOrderAndRepeats` | src/main/java/jenkins/plugins/versionproperty/VersionPropertyPublisher.java:83-88 | Two registries with the same names, in any order and with any repeats, give the same record |
| `VersionProperty.FingerprintRegistered` | src/main/java/jenkins/plugins/versionproperty/VersionPropertyPublisher.java:83-88 | The loop over the registered names computes exactly the auxiliary record specified above |
| `VersionProperty.Attach` | src/main/java/jenkins/plugins/versionproperty/VersionPropertyPublisher.java:91-96 | A new action holds exactly the record. An existing action's record gains every new entry, new values winning, and keeps its other entries |
| `VersionProperty.Process` | src/main/java/jenkins/plugins/versionproperty/VersionPropertyPublisher.java:52-103 | The outcome is "descriptor not found" exactly when the path is missing from the workspace, and an unparseable descriptor aborts. A recorded outcome holds the step's property and no keys other than it and registered names |
| `VersionProperty.Perform` | src/main/java/jenkins/plugins/versionproperty/VersionPropertyPublisher.java:52-103 | Returns false exactly when the descriptor is missing. On a recorded outcome the build's record becomes the merge. On a missing descriptor or a caught exception the build's record is unchanged |
| `VersionProperty.ProcessOfParsedDescriptor` | src/main/java/jenkins/plugins/versionproperty/VersionPropertyPublisher.java:64-100 | For a parsed descriptor, the call aborts exactly when the primary step throws, with that exception. Otherwise it records the primary entry overlaid with the entry of every registered name that the properties element has and whose text does not end with SNAPSHOT |
| `VersionProperty.PropertiesElementOverridesPrimary` | src/main/java/jenkins/plugins/versionproperty/VersionPropertyPublisher.java:78-88 | When the step's own project is registered and the properties element has an accepted entry under the step's property name, the recorded entry for that name is the digest of the element's text, not of the version |
| `VersionProperty.DeclaredVersionOverridden` | src/main/java/jenkins/plugins/versionproperty/VersionPropertyPublisher.java:70-88 | Declared version "1.0" with a properties element releaseVersion = "9.9", and this step the only project, records exactly {"releaseVersion": digest("releaseVersion9.9")} |
| `VersionProperty.ReleaseVersionIgnoresLog` | src/main/java/jenkins/plugins/versionproperty/VersionPropertyPublisher.java:74-78 | When the declared version has no SNAPSHOT, the outcome is the same whatever the log scan would give |
| `VersionProperty.UnresolvedSnapshotDigestsNull` | src/main/java/jenkins/plugins/versionproperty/VersionPropertyPublisher.java:74-78 | A SNAPSHOT with no accepted capture in the log still records the property, as digest(property + "null") |
| `VersionProperty.SnapshotResolvedFromUploadLine` | src/main/java/jenkins/plugins/versionproperty/VersionPropertyPublisher.java:70-78 | Root version "2.3-SNAPSHOT" and a log line announcing the upload of 2.3.1 record exactly {"releaseVersion": digest("releaseVersion2.3.1")} |
| `VersionProperty.BlankPropertyOnlyRecordsRegistered` | src/main/java/jenkins/plugins/versionproperty/VersionPropertyPublisher.java:69-89 | A step built from a blank property never reads the declared version, so a parsed descriptor always gives a record, holding only registered names |
| `VersionProperty.MissingVersionLosesWholeRecord` | src/main/java/jenkins/plugins/versionproperty/VersionPropertyPublisher.java:69-72 | For a step with a property, with neither a root nor a parent version, the NullPointerException at line 72 discards the whole record, auxiliary properties included. A step without a property skips the version (line 69) and records exactly its accepted registered names |
| `VersionProperty.MarkerInsideValue` | src/main/java/jenkins/plugins/versionproperty/VersionPropertyPublisher.java:74-85 | Every value the auxiliary filter rejects (endsWith) would send the primary version to the log scan (contains). The reverse fails: a value with SNAPSHOT in the middle is scanned for as a version but fingerprinted as an auxiliary value |
| `VersionProperty.AsWrittenSnapshotBuildRecordsNothing` | src/main/java/jenkins/plugins/versionproperty/VersionPropertyPublisher.java:74-100 | For a step with a property, with the scan as written, a SNAPSHOT build with any log output aborts with IllegalStateException. Nothing is recorded, not even the auxiliary properties. A step without a property never runs the scan (line 69) and records exactly its accepted registered names |

## Findings

| source | as written | input that shows it | evidently intended | confidence | as-written member | corrected member |
|---|---|---|---|---|---|---|
| src/main/java/jenkins/plugins/versionproperty/VersionPropertyPublisher.java:148-150 | `matcher.group(1)` is read before `matcher.find()` has run, which throws IllegalStateException | descriptor version "2.3-SNAPSHOT" and a log whose first line is "[INFO] Uploading project information for foo 2.3.1" | test the match first, then read its capture; a line without a match is skipped | high; not executed | `LogScan.AsWrittenScanAborts` | `LogScan.DoLogSearch` |

The rest of the model (`Perform`, `Process` in its uses) uses the corrected
scan. `VersionProperty.AsWrittenSnapshotBuildRecordsNothing` shows the
consequence of the code as written. For a step with a property, the
exception is caught at line 98, so any SNAPSHOT build with log output records
nothing, and `perform` still returns true. A step without a property never
runs the scan (the guard at line 69) and keeps its auxiliary entries.

## Left out

- The global fingerprint store (`getOrCreate` and `fp.add` at lines 121-122) is not modelled. This includes the null build passed to it for auxiliary properties at line 86. Its internals are not part of this model, and only the per-build record is. The model assumes that `getOrCreate(null, …)` and `fp.add(null)` at lines 121-122 return normally; if `add` threw on the null build, every accepted auxiliary entry would abort the whole record at line 98.
- Exceptions from I/O are not modelled: reading the descriptor stream, reading the log file, or `getOrCreate` throwing IOException. The log is a complete sequence of lines. Closing the reader (lines 156-163) is not modelled.
- Logging to the build listener (lines 60 and 99) is left out, because it has no effect on the outcome.
- XML parsing is not modelled. The descriptor is a `Descriptor` value. A properties entry holds the text `elementTextTrim` returns; dom4j's trimming and whitespace normalisation of that text is not part of this model.
- The Java regular-expression engine is not modelled. Each of the three patterns is an arbitrary function giving the first capture group of its leftmost match on a line.
- The MD5 digest is an arbitrary function of a string, so no collision-resistance is assumed.
- `Attach`: `FingerprintAction.add` is not part of this model. Merging is modelled as a map union in which the new record's entries win. This assumes it copies the old record and then puts all the new entries.
- Looking up the projects (`Hudson.getInstance().getItems`) and their publisher lists is not modelled. The projects are an input sequence.
- `getRequiredMonitorService`, `getProperty` and `getPom` are plain accessors. They are the fields of the `Publisher` value.
- `DescriptorImpl` (lines 166-177) is UI metadata and is not modelled.
- `VersionPropertyFacet.java` is not part of this model. The publisher never uses it.
- Concurrency between builds is not modelled. A build's record is private to it, and the shared store is left out.
