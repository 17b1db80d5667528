/** The pieces of java.lang the publisher relies on: null (as Option), thrown
    exceptions (as Result), and the String operations trim, contains, endsWith
    and concatenation with a possibly-null operand. */
module JavaLang {

  /** A Java reference that may be null. */
  datatype Option<+T> = None | Some(value: T)

  /** A computation that either returns a value or throws. */
  datatype Result<+T, +E> = Success(value: T) | Failure(error: E)

  /** The exceptions the publisher can raise. */
  datatype Exception =
    | IllegalArgument        // the constructor's "property is required"
    | NullPointer(line: nat) // a missing element or a null version dereferenced
    | IllegalState           // Matcher.group read before a successful match
    | MalformedDocument      // the descriptor could not be parsed

  /** String.trim strips every character whose code is at most U+0020. */
  predicate IsTrimmable(c: char) {
    c <= ' '
  }

  predicate Blank(s: string) {
    forall i :: 0 <= i < |s| ==> IsTrimmable(s[i])
  }

  /** Neither end of s is a character String.trim would strip. */
  predicate HasSolidEnds(s: string) {
    s != [] ==> !IsTrimmable(s[0]) && !IsTrimmable(s[|s| - 1])
  }

  /** r is s with a blank prefix and a blank suffix cut off. */
  ghost predicate StripsTo(s: string, r: string) {
    exists i, j :: 0 <= i <= j <= |s| && s[i..j] == r && Blank(s[..i]) && Blank(s[j..])
  }

  function TrimStart(s: string): (r: string)
    ensures |r| <= |s| && r == s[|s| - |r|..]
    ensures Blank(s[..|s| - |r|])
    ensures r != [] ==> !IsTrimmable(r[0])
  {
    if s != [] && IsTrimmable(s[0]) then
      var r := TrimStart(s[1..]);
      assert s[..|s| - |r|] == [s[0]] + s[1..][..|s| - 1 - |r|];
      r
    else
      s
  }

  function TrimEnd(s: string): (r: string)
    ensures |r| <= |s| && r == s[..|r|]
    ensures Blank(s[|r|..])
    ensures r != [] ==> !IsTrimmable(r[|r| - 1])
  {
    if s != [] && IsTrimmable(s[|s| - 1]) then
      var r := TrimEnd(s[..|s| - 1]);
      assert s[|r|..] == s[..|s| - 1][|r|..] + [s[|s| - 1]];
      r
    else
      s
  }

  /** String.trim. */
  function Trim(s: string): (r: string)
    ensures r == [] <==> Blank(s)
    ensures HasSolidEnds(r)
    ensures StripsTo(s, r)
  {
    TrimStartThenEnd(s);
    TrimEnd(TrimStart(s))
  }

  lemma TrimStartThenEnd(s: string)
    ensures var r := TrimEnd(TrimStart(s)); (r == [] <==> Blank(s)) && StripsTo(s, r)
  {
    var front := TrimStart(s);
    CutBlankEnds(s, front, TrimEnd(front));
  }

  /** Cutting a blank prefix (leaving front) and then a blank suffix (leaving r)
      strips s to r, and leaves nothing exactly when s is blank. */
  lemma CutBlankEnds(s: string, front: string, r: string)
    requires |front| <= |s| && front == s[|s| - |front|..] && Blank(s[..|s| - |front|])
    requires |r| <= |front| && r == front[..|r|] && Blank(front[|r|..])
    requires front != [] ==> !IsTrimmable(front[0])
    ensures r == [] <==> Blank(s)
    ensures StripsTo(s, r)
  {
    var i := |s| - |front|;
    var j := i + |r|;
    assert s[i..j] == r;
    assert s[j..] == front[|r|..];
    assert 0 <= i <= j <= |s| && s[i..j] == r && Blank(s[..i]) && Blank(s[j..]);
    if r == [] {
      assert front == [];
      forall k | 0 <= k < |s| ensures IsTrimmable(s[k]) {
        assert s[k] == s[..i][k];
      }
    } else {
      assert s[i] == front[0];
    }
  }

  /** Trimming a trimmed string changes nothing. */
  lemma TrimIdempotent(s: string)
    ensures Trim(Trim(s)) == Trim(s)
  {
    var r := Trim(s);
    assert TrimStart(r) == r;
    assert TrimEnd(r) == r;
  }

  predicate OccursAt(s: string, sub: string, i: nat) {
    i + |sub| <= |s| && s[i..i + |sub|] == sub
  }

  /** String.contains. */
  predicate Contains(s: string, sub: string) {
    exists i: nat | i <= |s| :: OccursAt(s, sub, i)
  }

  /** String.endsWith. */
  predicate EndsWith(s: string, suffix: string) {
    |suffix| <= |s| && s[|s| - |suffix|..] == suffix
  }

  /** Java's "+" on strings, where a null right operand is rendered "null". */
  function Concat(s: string, t: Option<string>): string {
    s + (if t.Some? then t.value else "null")
  }

  /** A value that ends with a marker contains it. */
  lemma EndsWithImpliesContains(s: string, suffix: string)
    requires EndsWith(s, suffix)
    ensures Contains(s, suffix)
  {
    assert OccursAt(s, suffix, |s| - |suffix|);
  }
}
