/** The publisher's configuration: its constructor, which normalises both
    settings, and the descriptor path it falls back to. */
module Configuration {
  import opened JavaLang

  /** The placeholder marker of an unreleased version. */
  const Snapshot: string := "SNAPSHOT"

  /** The descriptor path used when none is configured. */
  const DefaultPom: string := "pom.xml"

  /** The configured build step, after construction. */
  datatype Publisher = Publisher(property: Option<string>, pom: Option<string>)

  /** A setting as the constructor stores it: absent, or trimmed and non-empty. */
  predicate IsNormalised(setting: Option<string>) {
    setting.Some? ==> setting.value != [] && HasSolidEnds(setting.value)
  }

  /** Hudson's Util.fixEmptyAndTrim: null stays null, otherwise the trimmed
      text, and an empty result becomes null. */
  function FixEmptyAndTrim(s: Option<string>): (r: Option<string>)
    ensures IsNormalised(r)
    ensures r.None? <==> s.None? || Blank(s.value)
    ensures r.Some? ==> StripsTo(s.value, r.value)
  {
    if s.None? then None
    else
      var t := Trim(s.value);
      if t == [] then None else Some(t)
  }

  /** Normalising an already normalised setting changes nothing. */
  lemma FixEmptyAndTrimIdempotent(s: Option<string>)
    ensures FixEmptyAndTrim(FixEmptyAndTrim(s)) == FixEmptyAndTrim(s)
  {
    if s.Some? {
      TrimIdempotent(s.value);
    }
  }

  /** The constructor: both settings are normalised, and a null property
      argument is rejected. The null test is on the raw argument, so a blank
      property is accepted and stored as null. */
  function NewPublisher(property: Option<string>, pom: Option<string>): (r: Result<Publisher, Exception>)
    ensures r.Failure? <==> property.None?
    ensures r.Failure? ==> r.error == IllegalArgument
    ensures r.Success? ==> IsNormalised(r.value.property) && IsNormalised(r.value.pom)
    ensures r.Success? ==> (r.value.property.None? <==> Blank(property.value))
    ensures r.Success? ==> (r.value.pom.None? <==> pom.None? || Blank(pom.value))
    ensures r.Success? && r.value.property.Some? ==> StripsTo(property.value, r.value.property.value)
    ensures r.Success? && r.value.pom.Some? ==> StripsTo(pom.value, r.value.pom.value)
  {
    var p := Publisher(FixEmptyAndTrim(property), FixEmptyAndTrim(pom));
    if property.None? then Failure(IllegalArgument) else Success(p)
  }

  /** A whitespace-only property is not rejected: the step is built with no
      property at all. */
  lemma BlankPropertyAccepted(pom: Option<string>)
    ensures NewPublisher(Some(" \t "), pom).Success?
    ensures NewPublisher(Some(" \t "), pom).value.property.None?
  {
    assert Blank(" \t ");
  }

  /** The descriptor path perform looks for in the workspace. */
  function PomPath(p: Publisher): (path: string)
    ensures p.pom.None? ==> path == DefaultPom
    ensures IsNormalised(p.pom) ==> path != [] && HasSolidEnds(path)
  {
    if p.pom.Some? then p.pom.value else DefaultPom
  }

  /** For a constructed step, the path is the trimmed configured path, or
      "pom.xml" when the configured one is null or blank. */
  lemma PomPathOfNewPublisher(property: string, pom: Option<string>)
    ensures NewPublisher(Some(property), pom).Success?
    ensures PomPath(NewPublisher(Some(property), pom).value)
         == if pom.None? || Blank(pom.value) then DefaultPom else Trim(pom.value)
  {
  }
}
