/** addFingerprint: digesting one (property, value) pair into the build's
    record. */
module Fingerprint {
  import opened JavaLang

  /** Util.getDigestOf: a deterministic digest of a string. */
  type Digest = string -> string

  /** The per-build record, property name to digest. */
  type Record = map<string, string>

  /** The digest addFingerprint stores for a property and a value; a null
      value is concatenated as the text "null". */
  function EntryFor(property: string, value: Option<string>, digest: Digest): string {
    digest(Concat(property, value))
  }

  /** addFingerprint: record.put(property, digest(property + value)). The key
      is present afterwards with the new digest, whatever it held before, and
      every other key keeps its entry. */
  method AddFingerprint(record: Record, property: string, value: Option<string>, digest: Digest)
    returns (updated: Record)
    ensures updated.Keys == record.Keys + {property}
    ensures updated[property] == digest(property + if value.Some? then value.value else "null")
    ensures forall k :: k in record && k != property ==> updated[k] == record[k]
  {
    var md5sum := digest(Concat(property, value));
    updated := record[property := md5sum];
  }

  /** No separator is placed between name and value, so different pairs can
      share an entry, and a null value is indistinguishable from "null". */
  lemma ConcatenationCollisions(a: string, b: string, c: string, digest: Digest)
    ensures EntryFor(a + b, Some(c), digest) == EntryFor(a, Some(b + c), digest)
    ensures EntryFor(a, None, digest) == EntryFor(a, Some("null"), digest)
  {
    assert Concat(a + b, Some(c)) == Concat(a, Some(b + c));
  }
}
