/** Digests as the repository writes them. */
module Digests {

  /** `sha256:` and 64 lower-case hexadecimal digits. */
  predicate IsDigest(s: string) {
    |s| == 71 && s[..7] == "sha256:" && forall k :: 7 <= k < 71 ==> '0' <= s[k] <= '9' || 'a' <= s[k] <= 'f'
  }
}
