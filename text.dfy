/**
 * String helpers shared by the backend and the frontend: case folding (restricted to
 * ASCII letters) and substring search.
 */
module Text {

  function LowerChar(c: char): char
  {
    if 'A' <= c <= 'Z' then (c as int + 32) as char else c
  }

  function UpperChar(c: char): char
  {
    if 'a' <= c <= 'z' then (c as int - 32) as char else c
  }

  /** `toLowerCase()` in Java and JavaScript, SQL `LOWER`. */
  function ToLower(s: string): string
  {
    seq(|s|, i requires 0 <= i < |s| => LowerChar(s[i]))
  }

  /** `toUpperCase()` in Java. */
  function ToUpper(s: string): string
  {
    seq(|s|, i requires 0 <= i < |s| => UpperChar(s[i]))
  }

  /** `s` contains `sub` as a contiguous substring (`String.includes`, `LIKE '%sub%'`). */
  function Contains(s: string, sub: string): bool
  {
    sub <= s || (|s| > 0 && Contains(s[1..], sub))
  }

  /** `sub` occurs in `s` starting at offset `k`. */
  predicate OccursAt(s: string, sub: string, k: int)
  {
    0 <= k && k + |sub| <= |s| && s[k..k + |sub|] == sub
  }

  lemma {:induction false} OccursAtContains(s: string, sub: string, k: int)
    requires OccursAt(s, sub, k)
    ensures Contains(s, sub)
  {
    if k == 0 {
      assert s[..|sub|] == sub;
    } else {
      assert s[1..][k - 1..k - 1 + |sub|] == s[k..k + |sub|];
      OccursAtContains(s[1..], sub, k - 1);
    }
  }

  lemma {:induction false} ContainsOccursAt(s: string, sub: string)
    requires Contains(s, sub)
    ensures exists k :: OccursAt(s, sub, k)
  {
    if sub <= s {
      assert OccursAt(s, sub, 0);
    } else {
      ContainsOccursAt(s[1..], sub);
      var k :| OccursAt(s[1..], sub, k);
      assert s[k + 1..k + 1 + |sub|] == s[1..][k..k + |sub|];
      assert OccursAt(s, sub, k + 1);
    }
  }

  /** The recursive definition of Contains agrees with "`sub` occurs at some offset of `s`". */
  lemma ContainsIffOccurs(s: string, sub: string)
    ensures Contains(s, sub) <==> exists k :: OccursAt(s, sub, k)
  {
    if Contains(s, sub) {
      ContainsOccursAt(s, sub);
    }
    forall k | OccursAt(s, sub, k)
      ensures Contains(s, sub)
    {
      OccursAtContains(s, sub, k);
    }
  }

  /** Lower-casing is idempotent. */
  lemma LowerIdempotent(s: string)
    ensures ToLower(ToLower(s)) == ToLower(s)
  {
  }

  /** Upper-casing is idempotent. */
  lemma UpperIdempotent(s: string)
    ensures ToUpper(ToUpper(s)) == ToUpper(s)
  {
  }

  /** Upper-casing forgets the case of the input. */
  lemma UpperOfLower(s: string)
    ensures ToUpper(ToLower(s)) == ToUpper(s)
  {
  }
}
