/**
  Name sanitisation: the exporter rewrites metric names and label names so
  that they only use the characters `[a-zA-Z0-9_]`; every other character is
  replaced by exactly one underscore.
 */
module Names {

  /** The characters a metric or label name may keep. */
  predicate IsNameChar(c: char) {
    ('a' <= c <= 'z') || ('A' <= c <= 'Z') || ('0' <= c <= '9') || c == '_'
  }

  /** A name made of allowed characters only. */
  predicate IsClean(s: string) {
    forall i :: 0 <= i < |s| ==> IsNameChar(s[i])
  }

  function SanitizeChar(c: char): char {
    if IsNameChar(c) then c else '_'
  }

  /** Replace every character outside `[a-zA-Z0-9_]` by `_`. */
  function Sanitize(s: string): (r: string)
    ensures |r| == |s|
    ensures IsClean(r)
    ensures forall i :: 0 <= i < |s| && IsNameChar(s[i]) ==> r[i] == s[i]
    ensures forall i :: 0 <= i < |s| && !IsNameChar(s[i]) ==> r[i] == '_'
  {
    seq(|s|, i requires 0 <= i < |s| => SanitizeChar(s[i]))
  }

  /** A name is left alone by sanitisation exactly when it is already clean. */
  lemma SanitizeFixesExactlyClean(s: string)
    ensures Sanitize(s) == s <==> IsClean(s)
  {
    if IsClean(s) {
      assert forall i :: 0 <= i < |s| ==> Sanitize(s)[i] == s[i];
    }
  }

  /** Sanitising twice is the same as sanitising once. */
  lemma SanitizeIdempotent(s: string)
    ensures Sanitize(Sanitize(s)) == Sanitize(s)
  {
    SanitizeFixesExactlyClean(Sanitize(s));
  }
}
