/**
 * The clean-up Multiplayer.SetUsername applies to a Steam persona name:
 * a regular-expression replace of `[^a-zA-Z0-9_]` by the empty string,
 * then Verse's `TrimmedToLength(15)`.
 */
module Username {

  const MaxUsernameLength: nat := 15

  /** A character the class `[a-zA-Z0-9_]` matches. */
  predicate IsNameChar(c: char) {
    ('a' <= c <= 'z') || ('A' <= c <= 'Z') || ('0' <= c <= '9') || c == '_'
  }

  predicate AllNameChars(s: string) {
    forall i :: 0 <= i < |s| ==> IsNameChar(s[i])
  }

  /** A name SanitizeUsername leaves as it is. */
  predicate IsSanitized(s: string) {
    AllNameChars(s) && |s| <= MaxUsernameLength
  }

  /** Every character outside `[a-zA-Z0-9_]` removed, the others kept in order. */
  function StripDisallowed(s: string): (r: string)
    ensures |r| <= |s|
    ensures AllNameChars(r)
  {
    if s == [] then []
    else (if IsNameChar(s[0]) then [s[0]] else []) + StripDisallowed(s[1..])
  }

  /**
   * Verse's `TrimmedToLength`: the first `n` characters when `s` is
   * longer, else `s` itself. (Its code is not part of this model.)
   */
  function TrimmedToLength(s: string, n: nat): (r: string)
    ensures r <= s
    ensures |r| == if |s| <= n then |s| else n
  {
    if |s| <= n then s else s[..n]
  }

  function SanitizeUsername(s: string): (r: string)
    ensures IsSanitized(r)
    ensures r <= StripDisallowed(s)
    ensures |StripDisallowed(s)| >= MaxUsernameLength ==> |r| == MaxUsernameLength
    ensures |StripDisallowed(s)| <= MaxUsernameLength ==> r == StripDisallowed(s)
  {
    TrimmedToLength(StripDisallowed(s), MaxUsernameLength)
  }

  /** Stripping works character by character: it distributes over concatenation. */
  lemma {:induction false} StripDisallowedAppend(a: string, b: string)
    ensures StripDisallowed(a + b) == StripDisallowed(a) + StripDisallowed(b)
  {
    if a != [] {
      assert (a + b)[1..] == a[1..] + b;
      StripDisallowedAppend(a[1..], b);
    } else {
      assert a + b == b;
    }
  }

  /** A single character is kept exactly when the class matches it. */
  lemma StripDisallowedChar(c: char)
    ensures StripDisallowed([c]) == if IsNameChar(c) then [c] else []
  {
    assert [c][1..] == [];
  }

  /** Nothing is removed from a string of name characters. */
  lemma {:induction false} StripDisallowedKeepsNameChars(s: string)
    requires AllNameChars(s)
    ensures StripDisallowed(s) == s
  {
    if s != [] {
      StripDisallowedKeepsNameChars(s[1..]);
      assert [s[0]] + s[1..] == s;
    }
  }

  /** Exactly the strings of name characters survive stripping unchanged. */
  lemma StripDisallowedFixpoints(s: string)
    ensures StripDisallowed(s) == s <==> AllNameChars(s)
  {
    if AllNameChars(s) { StripDisallowedKeepsNameChars(s); }
  }

  /** A sanitised name is its own sanitisation. */
  lemma SanitizeKeepsSanitized(s: string)
    requires IsSanitized(s)
    ensures SanitizeUsername(s) == s
  {
    StripDisallowedKeepsNameChars(s);
  }

  /** Sanitising twice is sanitising once. */
  lemma SanitizeIdempotent(s: string)
    ensures SanitizeUsername(SanitizeUsername(s)) == SanitizeUsername(s)
  {
    SanitizeKeepsSanitized(SanitizeUsername(s));
  }
}
