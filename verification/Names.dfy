/** Identifiers that appear in path names and records of the updater. */
module Names {

  const LEGACY_ID := "legacy-0"

  predicate LowerHex(c: char) { '0' <= c <= '9' || 'a' <= c <= 'f' }

  predicate AllLowerHex(s: string) { forall i :: 0 <= i < |s| ==> LowerHex(s[i]) }

  /** `_ID_RE.fullmatch`. */
  predicate FullId(s: string) { s == LEGACY_ID || (|s| == 64 && AllLowerHex(s)) }

  /** `_ID_RE.match`, which also lets one trailing newline through. */
  predicate MatchesId(s: string) {
    FullId(s) || (s != "" && s[|s| - 1] == '\n' && FullId(s[..|s| - 1]))
  }

  /** `_ATTEMPT_RE.fullmatch`. */
  predicate AttemptId(s: string) { 12 <= |s| <= 32 && AllLowerHex(s) }
}
