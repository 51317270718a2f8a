/** The few Python string operations the core uses, on `seq<char>`. */
module Strings {
  import opened Wrappers

  /** `str.lower` restricted to ASCII: A-Z map to a-z, every other character is kept. */
  function LowerChar(c: char): char {
    if 'A' <= c <= 'Z' then (c as int + 32) as char else c
  }

  /** `s.lower()` under the ASCII restriction: character by character, length-preserving. */
  function Lower(s: string): (r: string)
    ensures |r| == |s|
  {
    seq(|s|, i requires 0 <= i < |s| => LowerChar(s[i]))
  }

  /** `s.rfind(c)`: the index of the last occurrence of `c`, or None when there is none. */
  function LastIndexOf(s: string, c: char): (r: Option<nat>)
    ensures r.None? <==> c !in s
    ensures r.Some? ==> r.value < |s| && s[r.value] == c
    ensures r.Some? ==> forall j :: r.value < j < |s| ==> s[j] != c
  {
    if s == [] then None
    else if s[|s| - 1] == c then Some(|s| - 1)
    else LastIndexOf(s[..|s| - 1], c)
  }

  /** `s.endswith(suffix)` */
  predicate EndsWith(s: string, suffix: string)
  {
    |suffix| <= |s| && s[|s| - |suffix|..] == suffix
  }

  /** `s.endswith(suffixes)` for a tuple of suffixes: true when any one of them ends `s`. */
  predicate EndsWithAny(s: string, suffixes: seq<string>)
    ensures suffixes == [] ==> !EndsWithAny(s, suffixes)
    ensures "" in suffixes ==> EndsWithAny(s, suffixes)
  {
    exists k :: 0 <= k < |suffixes| && EndsWith(s, suffixes[k])
  }

  /** After lowering no upper-case letter is left: each becomes its own lower-case letter, and every other character is unchanged. */
  lemma LowerResult(s: string)
    ensures forall i :: 0 <= i < |s| ==> !('A' <= Lower(s)[i] <= 'Z')
    ensures forall i :: 0 <= i < |s| && !('A' <= s[i] <= 'Z') ==> Lower(s)[i] == s[i]
    ensures forall i :: 0 <= i < |s| && 'A' <= s[i] <= 'Z' ==> Lower(s)[i] == (s[i] as int + 32) as char
  {
  }

  /** `s.endswith(suffix)` holds exactly when `s` is some string followed by `suffix`. */
  lemma EndsWithIff(s: string, suffix: string)
    ensures EndsWith(s, suffix) <==> exists t :: s == t + suffix
  {
    if EndsWith(s, suffix) {
      assert s == s[..|s| - |suffix|] + suffix;
    }
    if exists t :: s == t + suffix {
      var t :| s == t + suffix;
      assert s[|s| - |suffix|..] == suffix;
    }
  }

  /** Lowering commutes with taking a suffix. */
  lemma LowerSuffix(s: string, i: nat)
    requires i <= |s|
    ensures Lower(s[i..]) == Lower(s)[i..]
  {
  }

  /** Lowering turns '.' into '.' and nothing else into '.'. */
  lemma LowerKeepsDot(s: string, i: nat)
    requires i < |s|
    ensures Lower(s)[i] == '.' <==> s[i] == '.'
  {
  }
}
