/** Option, the one wrapper the model needs: Python's `None` or a value. */
module Wrappers {
  datatype Option<+T> = None | Some(value: T)
}

/**
 * The few operations on Python `str` values that the core relies on:
 * `lower()`, `strip()` and the `in` substring test. Only the ASCII part of
 * Python's Unicode tables is modelled (see README).
 */
module Strings {

  predicate IsUpper(c: char) {
    'A' <= c <= 'Z'
  }

  /** Python's whitespace characters below 128: space, \t \n \v \f \r and \x1c..\x1f. */
  predicate IsSpace(c: char) {
    c == ' ' || (9 <= c as int <= 13) || (28 <= c as int <= 31)
  }

  predicate AllSpace(s: string) {
    forall i | 0 <= i < |s| :: IsSpace(s[i])
  }

  function LowerChar(c: char): char {
    if IsUpper(c) then (c as int + 32) as char else c
  }

  /** `s.lower()` on ASCII letters. */
  function Lower(s: string): (r: string)
    ensures |r| == |s|
  {
    seq(|s|, i requires 0 <= i < |s| => LowerChar(s[i]))
  }

  /** Lower-casing maps each character on its own and leaves no upper-case letter. */
  lemma LowerSpec(s: string)
    ensures forall i | 0 <= i < |s| :: Lower(s)[i] == LowerChar(s[i]) && !IsUpper(Lower(s)[i])
  {
  }

  lemma LowerIdempotent(s: string)
    ensures Lower(Lower(s)) == Lower(s)
  {
    var l := Lower(s);
    assert forall i | 0 <= i < |l| :: LowerChar(l[i]) == l[i];
  }

  /** Text with no upper-case letter is its own lower case. */
  lemma LowerOfLower(s: string)
    requires forall i | 0 <= i < |s| :: !IsUpper(s[i])
    ensures Lower(s) == s
  {
  }

  lemma LowerAppend(a: string, b: string)
    ensures Lower(a + b) == Lower(a) + Lower(b)
  {
    var l, r := Lower(a + b), Lower(a) + Lower(b);
    assert |l| == |r|;
    forall i | 0 <= i < |l| ensures l[i] == r[i] {
      if i < |a| {
        assert (a + b)[i] == a[i];
      } else {
        assert (a + b)[i] == b[i - |a|];
      }
    }
  }

  /** `s.lstrip()`. */
  function StripLeft(s: string): string
    decreases |s|
  {
    if s != [] && IsSpace(s[0]) then StripLeft(s[1..]) else s
  }

  /** `s.rstrip()`. */
  function StripRight(s: string): string
    decreases |s|
  {
    if s != [] && IsSpace(s[|s| - 1]) then StripRight(s[..|s| - 1]) else s
  }

  /** `s.strip()`. */
  function Strip(s: string): string {
    StripRight(StripLeft(s))
  }

  /** `lstrip` removes the longest whitespace prefix: what is left is a suffix not starting with whitespace. */
  lemma {:induction false} StripLeftSpec(s: string)
    ensures var r := StripLeft(s);
      |r| <= |s| && r == s[|s| - |r|..] &&
      (forall k | 0 <= k < |s| - |r| :: IsSpace(s[k])) &&
      (r == [] || !IsSpace(r[0]))
    decreases |s|
  {
    if s != [] && IsSpace(s[0]) {
      StripLeftSpec(s[1..]);
      var r := StripLeft(s);
      assert s[1..][|s| - 1 - |r|..] == s[|s| - |r|..];
      forall k | 1 <= k < |s| - |r| ensures IsSpace(s[k]) {
        assert s[k] == s[1..][k - 1];
      }
    }
  }

  /** `rstrip` removes the longest whitespace suffix: what is left is a prefix not ending with whitespace. */
  lemma {:induction false} StripRightSpec(s: string)
    ensures var r := StripRight(s);
      |r| <= |s| && r == s[..|r|] &&
      (forall k | |r| <= k < |s| :: IsSpace(s[k])) &&
      (r == [] || !IsSpace(r[|r| - 1]))
    decreases |s|
  {
    if s != [] && IsSpace(s[|s| - 1]) {
      StripRightSpec(s[..|s| - 1]);
      var r := StripRight(s);
      assert s[..|s| - 1][..|r|] == s[..|r|];
      forall k | |r| <= k < |s| - 1 ensures IsSpace(s[k]) {
        assert s[k] == s[..|s| - 1][k];
      }
    }
  }

  /** `s[i..j]` is what is left of `s` once leading and trailing whitespace is cut. */
  predicate Trimmed(s: string, i: int, j: int)
    requires 0 <= i <= j <= |s|
  {
    SpaceBefore(s, i) && SpaceFrom(s, j) &&
    (i == j || (!IsSpace(s[i]) && !IsSpace(s[j - 1])))
  }

  predicate SpaceBefore(s: string, i: int) {
    forall k | 0 <= k < i && k < |s| :: IsSpace(s[k])
  }

  predicate SpaceFrom(s: string, j: int) {
    forall k | 0 <= j <= k < |s| :: IsSpace(s[k])
  }

  /** Where `strip` cuts: the length of the whitespace prefix it removes. */
  function StripStart(s: string): int {
    |s| - |StripLeft(s)|
  }

  /**
   * `strip` leaves the slice of `s` between a whitespace prefix and a
   * whitespace suffix that neither starts nor ends with whitespace.
   */
  lemma StripSpec(s: string)
    ensures var i := StripStart(s);
      0 <= i <= i + |Strip(s)| <= |s| && Trimmed(s, i, i + |Strip(s)|) && Strip(s) == s[i..i + |Strip(s)|]
  {
    StripLeftSpec(s);
    StripRightSpec(StripLeft(s));
    TrimmedParts(s, StripLeft(s), Strip(s));
  }

  /** A whitespace-free-ended prefix `r` of a whitespace-free-started suffix `l` of `s`, with only whitespace cut. */
  lemma TrimmedParts(s: string, l: string, r: string)
    requires |l| <= |s| && l == s[|s| - |l|..] && (forall k | 0 <= k < |s| - |l| :: IsSpace(s[k]))
    requires l == [] || !IsSpace(l[0])
    requires |r| <= |l| && r == l[..|r|] && (forall k | |r| <= k < |l| :: IsSpace(l[k]))
    requires r == [] || !IsSpace(r[|r| - 1])
    ensures var i := |s| - |l|; Trimmed(s, i, i + |r|) && r == s[i..i + |r|]
  {
    var i, j := |s| - |l|, |s| - |l| + |r|;
    assert r == s[i..j] by {
      assert l[..|r|] == s[i..j];
    }
    assert SpaceFrom(s, j) by {
      forall k | j <= k < |s| ensures IsSpace(s[k]) {
        assert s[k] == l[k - i];
      }
    }
    if r != [] {
      assert s[i] == r[0] && s[j - 1] == r[|r| - 1];
    }
  }

  /** A cut of `s` into whitespace, a word with non-space ends, whitespace is the cut `strip` makes. */
  lemma StripIsTheTrimmedSlice(s: string, i: int, j: int)
    requires 0 <= i < j <= |s|
    requires Trimmed(s, i, j)
    ensures Strip(s) == s[i..j]
  {
    StripSpec(s);
  }

  /** `k` occurs in `s` at position `i`. */
  predicate OccursAt(s: string, k: string, i: int) {
    0 <= i && i + |k| <= |s| && s[i..i + |k|] == k
  }

  /** Python's `k in s` for two strings. */
  function Contains(s: string, k: string): bool
    decreases |s|
  {
    if |k| > |s| then false
    else if s[..|k|] == k then true
    else Contains(s[1..], k)
  }

  /** `k in s` holds exactly when `k` occurs somewhere in `s`; the empty string occurs in every string. */
  lemma {:induction false} ContainsSpec(s: string, k: string)
    ensures Contains(s, k) <==> exists i :: OccursAt(s, k, i)
    decreases |s|
  {
    if |k| > |s| {
    } else if s[..|k|] == k {
      assert OccursAt(s, k, 0);
    } else {
      ContainsSpec(s[1..], k);
      OccursShift(s, k);
    }
  }

  /** An occurrence of `k` in `s` is at the front or is one in `s[1..]`, shifted. */
  lemma OccursShift(s: string, k: string)
    requires |k| <= |s| && s[..|k|] != k
    ensures (exists i :: OccursAt(s, k, i)) <==> (exists i :: OccursAt(s[1..], k, i))
  {
    if i :| OccursAt(s[1..], k, i) {
      assert s[1..][i..i + |k|] == s[i + 1..i + 1 + |k|];
      assert OccursAt(s, k, i + 1);
    }
    if i :| OccursAt(s, k, i) {
      if i > 0 {
        assert s[1..][i - 1..i - 1 + |k|] == s[i..i + |k|];
        assert s[i..i + |k|] == k;
        assert OccursAt(s[1..], k, i - 1);
      }
    }
  }

  /** Decimal text of a nat, as Python's `str` writes it. */
  function NatToString(n: nat): string
    decreases n
  {
    var d := [(48 + n % 10) as char];
    if n < 10 then d else NatToString(n / 10) + d
  }

  /** Decimal text of an int, as Python's f-string writes it. */
  function IntToString(n: int): string {
    if n < 0 then "-" + NatToString(-n) else NatToString(n)
  }
}
