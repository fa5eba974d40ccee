/** Release numbers `(major, minor)` and the order util.py compares them
    in: lexicographic, the major number first. Both git's version (for
    sparse clones) and the interpreter's `version_info` (for the capture
    mode) are tested against a first release in this order. */
module Releases {

  /** `(major, minor)` is the release `(firstMajor, firstMinor)` or a
      later one. */
  predicate NotBefore(major: int, minor: int, firstMajor: int, firstMinor: int) {
    major > firstMajor || (major == firstMajor && minor >= firstMinor)
  }

  /** The order is transitive, so a release test is monotone: whatever is
      not before a release that passes passes too. */
  lemma NotBeforeTransitive(a0: int, a1: int, b0: int, b1: int, c0: int, c1: int)
    requires NotBefore(a0, a1, b0, b1) && NotBefore(b0, b1, c0, c1)
    ensures NotBefore(a0, a1, c0, c1)
  {
  }

  /** Any two releases are comparable, and only equal ones both ways. */
  lemma NotBeforeTotal(a0: int, a1: int, b0: int, b1: int)
    ensures NotBefore(a0, a1, b0, b1) || NotBefore(b0, b1, a0, a1)
    ensures NotBefore(a0, a1, b0, b1) && NotBefore(b0, b1, a0, a1) <==> a0 == b0 && a1 == b1
  {
  }
}
