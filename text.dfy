/** ASCII models of the three Python string operations the contact book
    relies on: `str.strip()`, `str.lower()` and the substring test `t in s`. */
module Text {

  /** The ASCII characters for which `str.isspace()` holds: tab, line feed,
      vertical tab, form feed, carriage return, the four separators
      0x1C..0x1F, and space. */
  predicate IsSpace(c: char) {
    var n := c as int;
    (9 <= n <= 13) || (28 <= n <= 31) || n == 32
  }

  /** Drops leading whitespace. */
  function TrimStart(s: string): (r: string)
    ensures |r| <= |s| && r == s[|s| - |r|..]
    ensures r == [] || !IsSpace(r[0])
    ensures forall i | 0 <= i < |s| - |r| :: IsSpace(s[i])
  {
    if |s| > 0 && IsSpace(s[0]) then TrimStart(s[1..]) else s
  }

  /** Drops trailing whitespace. */
  function TrimEnd(s: string): (r: string)
    ensures |r| <= |s| && r == s[..|r|]
    ensures r == [] || !IsSpace(r[|r| - 1])
    ensures forall i | |r| <= i < |s| :: IsSpace(s[i])
  {
    if |s| > 0 && IsSpace(s[|s| - 1]) then TrimEnd(s[..|s| - 1]) else s
  }

  /** `s.strip()`: the result is the slice of `s` left once the whitespace
      before and after it is removed, and neither starts nor ends with
      whitespace. */
  function Strip(s: string): (r: string)
    ensures |r| <= |s|
    ensures exists k | 0 <= k <= |s| - |r| :: Trims(s, k, r)
    ensures r != [] ==> !IsSpace(r[0]) && !IsSpace(r[|r| - 1])
  {
    var t := TrimStart(s);
    var r := TrimEnd(t);
    assert Trims(s, |s| - |t|, r) by {
      assert r == s[|s| - |t|..][..|r|];
      assert forall i | |s| - |t| + |r| <= i < |s| :: s[i] == t[i - (|s| - |t|)];
    }
    r
  }

  /** `r` sits at offset `k` of `s`, with only whitespace before and after
      it. */
  ghost predicate Trims(s: string, k: int, r: string) {
    0 <= k <= |s| - |r| && r == s[k..k + |r|] &&
    (forall i | 0 <= i < k :: IsSpace(s[i])) &&
    (forall i | k + |r| <= i < |s| :: IsSpace(s[i]))
  }

  /** Stripping leaves nothing exactly when `s` is all whitespace. */
  lemma StripEmptyIffBlank(s: string)
    ensures Strip(s) == [] <==> forall i | 0 <= i < |s| :: IsSpace(s[i])
  {
    if Strip(s) == [] {
      var k :| 0 <= k <= |s| && Trims(s, k, []);
    }
    if forall i | 0 <= i < |s| :: IsSpace(s[i]) {
      BlankTrimsToEmpty(s);
    }
  }

  /** A string of whitespace has nothing left after the leading whitespace
      is dropped. */
  lemma {:induction false} BlankTrimsToEmpty(s: string)
    requires forall i | 0 <= i < |s| :: IsSpace(s[i])
    ensures TrimStart(s) == []
    decreases |s|
  {
    if |s| > 0 {
      assert IsSpace(s[0]);
      BlankTrimsToEmpty(s[1..]);
    }
  }

  /** `c.lower()` for ASCII: an upper-case letter becomes its lower-case
      letter, every other character is kept. */
  function LowerChar(c: char): (r: char)
    ensures !('A' <= r <= 'Z')
    ensures 'A' <= c <= 'Z' ==> r as int == c as int + 32
    ensures !('A' <= c <= 'Z') ==> r == c
  {
    if 'A' <= c <= 'Z' then (c as int + 32) as char else c
  }

  /** `s.lower()` for ASCII, character by character. */
  function Lower(s: string): (r: string)
    ensures |r| == |s|
    ensures forall i | 0 <= i < |r| :: !('A' <= r[i] <= 'Z')
    ensures forall i | 0 <= i < |s| :: r[i] == LowerChar(s[i])
  {
    seq(|s|, i requires 0 <= i < |s| => LowerChar(s[i]))
  }

  /** `t` occurs in `s` starting at offset `k`. */
  ghost predicate OccursAt(t: string, s: string, k: int) {
    0 <= k <= |s| - |t| && s[k..k + |t|] == t
  }

  /** Python's `t in s` for strings, stated directly: `t` occurs in `s` at
      some offset. */
  ghost predicate IsSubstring(t: string, s: string) {
    exists k :: OccursAt(t, s, k)
  }

  /** An executable substring test: `t` is a prefix of `s` or occurs in
      `s` without its first character. */
  predicate Contains(s: string, t: string)
    decreases |s|
  {
    if |t| > |s| then false
    else if s[..|t|] == t then true
    else Contains(s[1..], t)
  }

  /** An occurrence at any offset is found by the executable test. */
  lemma {:induction false} OccurrenceContained(s: string, t: string, k: nat)
    requires OccursAt(t, s, k)
    ensures Contains(s, t)
    decreases k
  {
    if k > 0 && s[..|t|] != t {
      assert s[1..][k - 1..k - 1 + |t|] == s[k..k + |t|];
      OccurrenceContained(s[1..], t, k - 1);
    }
  }

  /** What the executable test finds is an occurrence. */
  lemma {:induction false} ContainedOccurs(s: string, t: string)
    requires Contains(s, t)
    ensures IsSubstring(t, s)
    decreases |s|
  {
    if s[..|t|] == t {
      assert OccursAt(t, s, 0);
    } else {
      ContainedOccurs(s[1..], t);
      var k :| OccursAt(t, s[1..], k);
      assert s[k + 1..k + 1 + |t|] == s[1..][k..k + |t|];
      assert OccursAt(t, s, k + 1);
    }
  }

  /** The executable test agrees with the definition of `t in s`. */
  lemma ContainsIsSubstring(s: string, t: string)
    ensures Contains(s, t) <==> IsSubstring(t, s)
  {
    if Contains(s, t) {
      ContainedOccurs(s, t);
    }
    if IsSubstring(t, s) {
      var k :| OccursAt(t, s, k);
      OccurrenceContained(s, t, k);
    }
  }

  /** A non-empty term cannot occur where its first character does not. */
  lemma {:induction false} MissingFirstChar(s: string, t: string)
    requires |t| > 0 && forall i | 0 <= i < |s| :: s[i] != t[0]
    ensures !Contains(s, t)
    decreases |s|
  {
    if |t| <= |s| {
      assert s[..|t|][0] != t[0];
      MissingFirstChar(s[1..], t);
    }
  }

  /** The empty string occurs in every string. */
  lemma EmptyContained(s: string)
    ensures Contains(s, [])
  {
  }
}
