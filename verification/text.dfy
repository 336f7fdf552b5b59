/**
 The string operations the source applies to coupon codes and search terms, restricted to
 ASCII: JavaScript's `trim()`, `toUpperCase()` and `includes()`.
 */
module Text {

  /** ASCII whitespace as `String.prototype.trim` strips it (space, tab, LF, VT, FF, CR). */
  predicate IsSpace(c: char)
  {
    c == ' ' || c == '\t' || c == '\n' || c == '\U{000B}' || c == '\U{000C}' || c == '\r'
  }

  predicate AllSpace(s: string)
  {
    forall i :: 0 <= i < |s| ==> IsSpace(s[i])
  }

  /** Neither the first nor the last character is whitespace. */
  predicate NoOuterSpace(s: string)
  {
    |s| > 0 ==> !IsSpace(s[0]) && !IsSpace(s[|s| - 1])
  }

  /** The index of the first non-whitespace character at or after `i`, or `|s|` if there is none. */
  function SkipSpaces(s: string, i: nat): (r: nat)
    requires i <= |s|
    ensures i <= r <= |s|
    ensures forall k :: i <= k < r ==> IsSpace(s[k])
    ensures r < |s| ==> !IsSpace(s[r])
    decreases |s| - i
  {
    if i < |s| && IsSpace(s[i]) then SkipSpaces(s, i + 1) else i
  }

  /** The index just past the last non-whitespace character in `s[lo..j]`, or `lo` if there is none. */
  function BackSpaces(s: string, lo: nat, j: nat): (r: nat)
    requires lo <= j <= |s|
    ensures lo <= r <= j
    ensures forall k :: r <= k < j ==> IsSpace(s[k])
    ensures r > lo ==> !IsSpace(s[r - 1])
    decreases j
  {
    if j > lo && IsSpace(s[j - 1]) then BackSpaces(s, lo, j - 1) else j
  }

  /** JavaScript's `s.trim()`: leading whitespace, then trailing whitespace, cut away. */
  function Trim(s: string): string
  {
    var i := SkipSpaces(s, 0);
    s[i..BackSpaces(s, i, |s|)]
  }

  /**
   Trim removes whitespace and only whitespace, from both ends: the result is a slice of the input
   whose outer characters are not whitespace, and everything cut away is whitespace.
   */
  lemma TrimSpec(s: string)
    ensures NoOuterSpace(Trim(s))
    ensures exists i, j :: 0 <= i <= j <= |s| && Trim(s) == s[i..j] && AllSpace(s[..i]) && AllSpace(s[j..])
  {
    var i := SkipSpaces(s, 0);
    var j := BackSpaces(s, i, |s|);
    TrimIsTrimmed(s);
    assert AllSpace(s[..i]) by {
      forall k | 0 <= k < i
        ensures IsSpace(s[..i][k])
      {
        assert s[..i][k] == s[k];
      }
    }
    assert AllSpace(s[j..]) by {
      forall k | 0 <= k < |s| - j
        ensures IsSpace(s[j..][k])
      {
        assert s[j..][k] == s[j + k];
      }
    }
    assert Trim(s) == s[i..j];
  }

  /** Neither end of a trimmed string is whitespace. */
  lemma TrimIsTrimmed(s: string)
    ensures NoOuterSpace(Trim(s))
  {
    var i := SkipSpaces(s, 0);
    var j := BackSpaces(s, i, |s|);
    var r := s[i..j];
    if |r| > 0 {
      assert r[0] == s[i];
      assert r[|r| - 1] == s[j - 1];
    }
  }

  /** Trimming a string whose ends are not whitespace changes nothing. */
  lemma TrimKeepsTrimmed(s: string)
    requires NoOuterSpace(s)
    ensures Trim(s) == s
  {
  }

  /** ASCII `toUpperCase` of one character. */
  function UpperChar(c: char): char
  {
    if 'a' <= c <= 'z' then (c as int - 32) as char else c
  }

  lemma UpperCharIdempotent(c: char)
    ensures UpperChar(UpperChar(c)) == UpperChar(c)
  {
  }

  /** JavaScript's `s.toUpperCase()` on ASCII letters; every other character is kept. */
  function ToUpper(s: string): (r: string)
    ensures |r| == |s|
    ensures forall i :: 0 <= i < |s| ==> r[i] == UpperChar(s[i])
  {
    seq(|s|, i requires 0 <= i < |s| => UpperChar(s[i]))
  }

  /**
   The normal form of a coupon code: `code.trim().toUpperCase()` in the admin route, and the
   `trim` and `uppercase` setters of the coupon schema.
   */
  function Normalize(s: string): string
  {
    ToUpper(Trim(s))
  }

  /** Already in normal form: no whitespace at either end and no lower-case ASCII letter. */
  predicate IsNormal(s: string)
  {
    NoOuterSpace(s) && forall i :: 0 <= i < |s| ==> UpperChar(s[i]) == s[i]
  }

  /** Upper-casing leaves whitespace as it is, so it keeps a trimmed string trimmed. */
  lemma UpperKeepsNoOuterSpace(t: string)
    requires NoOuterSpace(t)
    ensures NoOuterSpace(ToUpper(t))
  {
    var u := ToUpper(t);
    if |u| > 0 {
      assert u[0] == UpperChar(t[0]);
      assert u[|u| - 1] == UpperChar(t[|t| - 1]);
    }
  }

  /** Every normalised string is in normal form. */
  lemma NormalizeYieldsNormal(s: string)
    ensures IsNormal(Normalize(s))
  {
    var t := Trim(s);
    TrimIsTrimmed(s);
    UpperKeepsNoOuterSpace(t);
    var u := ToUpper(t);
    forall i | 0 <= i < |u|
      ensures UpperChar(u[i]) == u[i]
    {
      UpperCharIdempotent(t[i]);
    }
  }

  /** A string in normal form is its own normal form. */
  lemma NormalIsFixed(s: string)
    requires IsNormal(s)
    ensures Normalize(s) == s
  {
    TrimKeepsTrimmed(s);
    assert ToUpper(s) == s;
  }

  /** The normal forms are exactly the fixed points of normalisation. */
  lemma NormalIffFixed(s: string)
    ensures IsNormal(s) <==> Normalize(s) == s
  {
    if IsNormal(s) {
      NormalIsFixed(s);
    }
    if Normalize(s) == s {
      NormalizeYieldsNormal(s);
    }
  }

  /** Normalising a normalised code changes nothing, so the schema setters re-applied to the
      route's already formatted code store it as it is. */
  lemma NormalizeIdempotent(s: string)
    ensures Normalize(Normalize(s)) == Normalize(s)
  {
    NormalizeYieldsNormal(s);
    NormalIsFixed(Normalize(s));
  }

  /** `t` occurs in `s` starting at index `i`. */
  predicate OccursAt(s: string, t: string, i: int)
  {
    0 <= i && i + |t| <= |s| && s[i..i + |t|] == t
  }

  /** JavaScript's `s.includes(t)`. */
  function Contains(s: string, t: string): bool
    decreases |s|
  {
    if |t| > |s| then false
    else if s[..|t|] == t then true
    else Contains(s[1..], t)
  }

  /** `Contains` holds exactly when `t` occurs somewhere in `s`. */
  lemma {:induction false} ContainsSpec(s: string, t: string)
    ensures Contains(s, t) <==> exists i :: OccursAt(s, t, i)
    decreases |s|
  {
    if |t| > |s| {
    } else if s[..|t|] == t {
      assert OccursAt(s, t, 0);
    } else {
      ContainsSpec(s[1..], t);
      if Contains(s, t) {
        var i :| OccursAt(s[1..], t, i);
        OccursShift(s, t, i);
      }
      if i :| OccursAt(s, t, i) {
        assert i != 0;
        OccursShift(s, t, i - 1);
      }
    }
  }

  /** An occurrence in the tail is an occurrence one place later in the whole. */
  lemma OccursShift(s: string, t: string, i: nat)
    requires |s| > 0
    ensures OccursAt(s[1..], t, i) <==> OccursAt(s, t, i + 1)
  {
    if i + |t| <= |s| - 1 {
      assert s[1..][i..i + |t|] == s[i + 1..i + 1 + |t|];
    }
  }

  /** The empty string occurs in every string, as `"abc".includes("")` is true. */
  lemma ContainsEmpty(s: string)
    ensures Contains(s, "")
  {
    assert s[..0] == "";
  }
}
