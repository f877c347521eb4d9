/** Small helpers shared by the components: an optional value (a DOM attribute or a
    storage entry that may be absent) and the two string tests JavaScript offers as
    `String.prototype.startsWith` and `String.prototype.endsWith`. */
module Util {

  datatype Option<+T> = None | Some(value: T)

  /** `s.startsWith(p)`, compared character by character from the front. */
  predicate StartsWith(s: string, p: string)
    decreases p
  {
    p == [] || (s != [] && s[0] == p[0] && StartsWith(s[1..], p[1..]))
  }

  /** `s.endsWith(p)`, compared character by character from the back. */
  predicate EndsWith(s: string, p: string)
    decreases p
  {
    p == [] || (s != [] && s[|s| - 1] == p[|p| - 1] && EndsWith(s[..|s| - 1], p[..|p| - 1]))
  }

  /** The character-by-character test agrees with "p is the first |p| characters of s". */
  lemma {:induction false} StartsWithIsPrefix(s: string, p: string)
    ensures StartsWith(s, p) <==> |p| <= |s| && s[..|p|] == p
    decreases p
  {
    if p != [] && s != [] {
      StartsWithIsPrefix(s[1..], p[1..]);
      if |p| <= |s| && s[..|p|] == p {
        assert s[1..][..|p| - 1] == p[1..];
      }
      if StartsWith(s, p) {
        assert s[..|p|] == [s[0]] + s[1..][..|p| - 1];
      }
    }
  }

  /** The character-by-character test agrees with "p is the last |p| characters of s". */
  lemma {:induction false} EndsWithIsSuffix(s: string, p: string)
    ensures EndsWith(s, p) <==> |p| <= |s| && s[|s| - |p|..] == p
    decreases p
  {
    if p != [] && s != [] {
      var s', p' := s[..|s| - 1], p[..|p| - 1];
      EndsWithIsSuffix(s', p');
      if |p| <= |s| && s[|s| - |p|..] == p {
        assert s'[|s'| - |p'|..] == s[|s| - |p|..][..|p'|];
      }
      if EndsWith(s, p) {
        assert s[|s| - |p|..] == s'[|s'| - |p'|..] + [s[|s| - 1]];
      }
    }
  }
}
