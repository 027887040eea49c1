/**
 * The file-name sanitiser both front ends use: each of the nine characters
 * a Windows file name may not hold becomes an underscore.
 */
module FileNames {

  /** `/ \ : * ? " < > |`. */
  predicate IsIllegal(c: char) {
    c == '/' || c == '\\' || c == ':' || c == '*' || c == '?' || c == '"' || c == '<' || c == '>' || c == '|'
  }

  function SafeChar(c: char): char {
    if IsIllegal(c) then '_' else c
  }

  /** The sanitised name, character by character. */
  function Sanitized(name: string): string {
    seq(|name|, i requires 0 <= i < |name| => SafeChar(name[i]))
  }

  /** A name holding none of the nine characters. */
  predicate IsClean(name: string) {
    forall i :: 0 <= i < |name| ==> !IsIllegal(name[i])
  }

  /**
   * `sanitizeFileName` / `sanitizeFilename`: a copy of the name, each
   * character overwritten in place when it is one of the nine.
   */
  method Sanitize(name: string) returns (sanitized: string)
    ensures sanitized == Sanitized(name)
  {
    sanitized := name;
    var i := 0;
    while i < |sanitized|
      invariant 0 <= i <= |sanitized| == |name|
      invariant forall j :: 0 <= j < i ==> sanitized[j] == SafeChar(name[j])
      invariant forall j :: i <= j < |name| ==> sanitized[j] == name[j]
    {
      if IsIllegal(sanitized[i]) {
        sanitized := sanitized[i := '_'];
      }
      i := i + 1;
    }
  }

  /**
   * What sanitising does: the length is kept, exactly the nine characters
   * turn into '_', every other character stays where it was, and none of
   * the nine is left.
   */
  lemma SanitizedChars(name: string)
    ensures |Sanitized(name)| == |name|
    ensures forall i :: 0 <= i < |name| ==> (IsIllegal(name[i]) <==> Sanitized(name)[i] != name[i])
    ensures forall i :: 0 <= i < |name| && IsIllegal(name[i]) ==> Sanitized(name)[i] == '_'
    ensures IsClean(Sanitized(name))
  {
  }

  /** A clean name is left as it is. */
  lemma SanitizedClean(name: string)
    requires IsClean(name)
    ensures Sanitized(name) == name
  {
  }

  /** Sanitising twice is sanitising once. */
  lemma SanitizedIdempotent(name: string)
    ensures Sanitized(Sanitized(name)) == Sanitized(name)
  {
    SanitizedChars(name);
    SanitizedClean(Sanitized(name));
  }
}
