/**
 * The two JavaScript string operations the bot uses to order token
 * addresses: `toLowerCase` (on the ASCII letters that hex addresses
 * contain) and the `<` comparison, which is lexicographic on code units.
 */
module JsString {

  /** toLowerCase on one character, for the ASCII range. */
  function LowerChar(c: char): (r: char)
    ensures 'A' <= c <= 'Z' ==> r as int == c as int + 32
    ensures !('A' <= c <= 'Z') ==> r == c
    ensures !('A' <= r <= 'Z')
  {
    if 'A' <= c <= 'Z' then (c as int + 32) as char else c
  }

  function ToLower(s: string): (r: string)
    ensures |r| == |s|
    ensures forall i :: 0 <= i < |s| ==> r[i] == LowerChar(s[i])
  {
    seq(|s|, i requires 0 <= i < |s| => LowerChar(s[i]))
  }

  /** JavaScript's `a < b` on strings: the first differing code unit decides, and a proper prefix is smaller. */
  function Less(a: string, b: string): (r: bool)
    ensures r ==> a != b
  {
    if b == [] then false
    else if a == [] then true
    else if a[0] != b[0] then a[0] < b[0]
    else Less(a[1..], b[1..])
  }

  /** `<` is a strict total order: exactly one of a < b, a == b, b < a holds. */
  lemma {:induction false} LessTrichotomy(a: string, b: string)
    ensures Less(a, b) || a == b || Less(b, a)
    ensures !(Less(a, b) && Less(b, a))
  {
    if a != [] && b != [] && a[0] == b[0] {
      LessTrichotomy(a[1..], b[1..]);
      if a[1..] == b[1..] {
        assert a == [a[0]] + a[1..] && b == [b[0]] + b[1..];
      }
    }
  }

  lemma {:induction false} LessTransitive(a: string, b: string, c: string)
    requires Less(a, b) && Less(b, c)
    ensures Less(a, c)
  {
    if a != [] && a[0] == b[0] && b[0] == c[0] {
      LessTransitive(a[1..], b[1..], c[1..]);
    }
  }

  /** `sub` starts at position `k` of `s`. */
  predicate OccursAt(s: string, sub: string, k: int)
  {
    0 <= k && k + |sub| <= |s| && s[k..k + |sub|] == sub
  }

  /** `s.includes(sub)`: some position of `s` starts a copy of `sub`. */
  predicate Contains(s: string, sub: string)
  {
    exists k | 0 <= k <= |s| - |sub| :: OccursAt(s, sub, k)
  }

  /** A run that occurs at a known position is found. */
  lemma ContainsAt(s: string, sub: string, k: nat)
    requires OccursAt(s, sub, k)
    ensures Contains(s, sub)
  {
  }

  /** A text lacking one of the characters of `sub` cannot contain it. */
  lemma MissingCharExcludes(s: string, sub: string, c: char)
    requires c in sub && c !in s
    ensures !Contains(s, sub)
  {
    var j :| 0 <= j < |sub| && sub[j] == c;
    forall k | 0 <= k && k + |sub| <= |s|
      ensures !OccursAt(s, sub, k)
    {
      assert s[k + j] in s;
      assert s[k..k + |sub|][j] != sub[j];
    }
  }

  /**
   * A case-insensitive regular-expression test for a literal pattern,
   * which is written here in lower case: the text is lower-cased first.
   */
  function ContainsIgnoringCase(s: string, lowered: string): bool
  {
    Contains(ToLower(s), lowered)
  }

  /** A lower-case letter is absent from the lower-cased text when neither of its cases occurs. */
  lemma LetterAbsentAfterLower(s: string, c: char)
    requires 'a' <= c <= 'z'
    requires c !in s && ((c as int - 32) as char) !in s
    ensures c !in ToLower(s)
  {
    forall i | 0 <= i < |s|
      ensures ToLower(s)[i] != c
    {
      assert s[i] in s;
    }
  }

  /** Text without upper-case letters is its own lower-case form. */
  lemma LowerFixed(s: string)
    requires forall i :: 0 <= i < |s| ==> !('A' <= s[i] <= 'Z')
    ensures ToLower(s) == s
  {
  }

  /** A lower-case run between two texts is found by a case-insensitive search. */
  lemma ContainsIgnoringCaseMiddle(a: string, b: string, c: string)
    requires ToLower(b) == b
    ensures ContainsIgnoringCase(a + b + c, b)
  {
    var lowered := ToLower(a + b + c);
    assert lowered[|a|..|a| + |b|] == b by {
      forall i | 0 <= i < |b|
        ensures lowered[|a| + i] == b[i]
      {
        assert (a + b + c)[|a| + i] == b[i];
        assert ToLower(b)[i] == LowerChar(b[i]);
      }
    }
    assert OccursAt(lowered, b, |a|);
  }

  /** The middle of a concatenation occurs in it where the first part ends. */
  lemma OccursMiddle(a: string, b: string, c: string)
    ensures OccursAt(a + b + c, b, |a|)
  {
    assert (a + b + c)[|a|..|a| + |b|] == b;
  }
}
