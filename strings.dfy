/**
  The java.lang.String operations that the plot pipeline's gates are built
  from: trim, toLowerCase, startsWith, endsWith and equalsIgnoreCase.
  Case mapping is modelled for the ASCII letters only.
 */
module JavaStrings {

  /** String.trim removes every character whose code is at most U+0020. */
  predicate IsSpace(c: char) {
    c <= ' '
  }

  ghost predicate AllSpace(s: string) {
    forall i :: 0 <= i < |s| ==> IsSpace(s[i])
  }

  /** Neither end of the string is white space. */
  predicate IsTrimmed(s: string) {
    s == [] || (!IsSpace(s[0]) && !IsSpace(s[|s| - 1]))
  }

  /** Drops the leading white space. */
  function TrimStart(s: string): string {
    if s == [] || !IsSpace(s[0]) then s else TrimStart(s[1..])
  }

  /** Drops the trailing white space. */
  function TrimEnd(s: string): string {
    if s == [] || !IsSpace(s[|s| - 1]) then s else TrimEnd(s[..|s| - 1])
  }

  /** TrimStart keeps the longest suffix that does not start with white space. */
  lemma {:induction false} TrimStartSpec(s: string)
    ensures var r := TrimStart(s);
      && |r| <= |s| && r == s[|s| - |r|..]
      && (r == [] || !IsSpace(r[0]))
      && forall i :: 0 <= i < |s| - |r| ==> IsSpace(s[i])
  {
    if s != [] && IsSpace(s[0]) {
      TrimStartSpec(s[1..]);
    }
  }

  /** TrimEnd keeps the longest prefix that does not end with white space. */
  lemma {:induction false} TrimEndSpec(s: string)
    ensures var r := TrimEnd(s);
      && |r| <= |s| && r == s[..|r|]
      && (r == [] || !IsSpace(r[|r| - 1]))
      && forall i :: |r| <= i < |s| ==> IsSpace(s[i])
  {
    if s != [] && IsSpace(s[|s| - 1]) {
      TrimEndSpec(s[..|s| - 1]);
    }
  }

  /** String.trim: neither end of the result is white space, and a trimmed string is left alone. */
  function Trim(s: string): (r: string)
    ensures IsTrimmed(r) && |r| <= |s|
    ensures IsTrimmed(s) ==> r == s
  {
    TrimStartSpec(s);
    TrimEndSpec(TrimStart(s));
    TrimEnd(TrimStart(s))
  }

  /** What TrimStart drops is white space. */
  lemma TrimStartPad(s: string)
    ensures var t := TrimStart(s); |t| <= |s| && AllSpace(s[..|s| - |t|]) && s == s[..|s| - |t|] + t
  {
    TrimStartSpec(s);
  }

  /** What TrimEnd drops is white space. */
  lemma TrimEndPad(t: string)
    ensures var r := TrimEnd(t); |r| <= |t| && AllSpace(t[|r|..]) && t == r + t[|r|..]
  {
    TrimEndSpec(t);
    var r := TrimEnd(t);
    forall j | 0 <= j < |t| - |r|
      ensures IsSpace(t[|r|..][j])
    {
      assert t[|r|..][j] == t[|r| + j];
    }
  }

  /** Trim removes white space only: the string is the result with white space around it. */
  lemma TrimSlices(s: string)
    ensures exists front, back :: AllSpace(front) && AllSpace(back) && s == front + Trim(s) + back
  {
    var t := TrimStart(s);
    TrimStartPad(s);
    TrimEndPad(t);
    var front, back := s[..|s| - |t|], t[|Trim(s)|..];
    assert s == front + Trim(s) + back;
  }

  /** Trim yields the empty string exactly for strings made of white space. */
  lemma TrimEmpty(s: string)
    ensures Trim(s) == [] <==> AllSpace(s)
  {
    TrimStartSpec(s);
    TrimEndSpec(TrimStart(s));
  }

  lemma {:induction false} TrimStartSkips(pad: string, s: string)
    requires AllSpace(pad) && (s == [] || !IsSpace(s[0]))
    ensures TrimStart(pad + s) == s
  {
    if pad != [] {
      assert (pad + s)[1..] == pad[1..] + s;
      TrimStartSkips(pad[1..], s);
    } else {
      assert pad + s == s;
    }
  }

  lemma {:induction false} TrimEndSkips(s: string, pad: string)
    requires AllSpace(pad) && (s == [] || !IsSpace(s[|s| - 1]))
    ensures TrimEnd(s + pad) == s
  {
    if pad != [] {
      assert (s + pad)[..|s + pad| - 1] == s + pad[..|pad| - 1];
      TrimEndSkips(s, pad[..|pad| - 1]);
    } else {
      assert s + pad == s;
    }
  }

  /** Trim removes exactly the white space around a trimmed core. */
  lemma TrimPadded(front: string, s: string, back: string)
    requires AllSpace(front) && AllSpace(back) && IsTrimmed(s) && s != []
    ensures Trim(front + s + back) == s
  {
    assert front + s + back == front + (s + back);
    TrimStartSkips(front, s + back);
    TrimEndSkips(s, back);
  }

  /** Trimming twice is trimming once. */
  lemma TrimIdempotent(s: string)
    ensures Trim(Trim(s)) == Trim(s)
  {
  }

  function LowerChar(c: char): char {
    if 'A' <= c <= 'Z' then (c as int + 32) as char else c
  }

  /** String.toLowerCase, on ASCII letters. */
  function Lower(s: string): (r: string)
    ensures |r| == |s|
    ensures forall i :: 0 <= i < |s| ==> r[i] == LowerChar(s[i])
  {
    seq(|s|, i requires 0 <= i < |s| => LowerChar(s[i]))
  }

  /** Lower-casing distributes over concatenation. */
  lemma LowerAppend(a: string, b: string)
    ensures Lower(a + b) == Lower(a) + Lower(b)
  {
  }

  /** String.startsWith: the string opens with the prefix. */
  predicate StartsWith(s: string, prefix: string): (r: bool)
    ensures r <==> |prefix| <= |s| && s[..|prefix|] == prefix
  {
    prefix <= s
  }

  /** String.endsWith: the string is something followed by the suffix. */
  predicate EndsWith(s: string, suffix: string): (r: bool)
    ensures r ==> |suffix| <= |s| && s == s[..|s| - |suffix|] + suffix
  {
    |suffix| <= |s| && s[|s| - |suffix|..] == suffix
  }

  /** String.equalsIgnoreCase, on ASCII letters: equal lengths, and equal characters up to case. */
  predicate EqualsIgnoreCase(a: string, b: string): (r: bool)
    ensures a == b ==> r
    ensures r ==> |a| == |b|
  {
    |a| == |b| && forall i :: 0 <= i < |a| ==> LowerChar(a[i]) == LowerChar(b[i])
  }

  /** Comparing while ignoring case is comparing the lower-cased strings. */
  lemma EqualsIgnoreCaseLower(a: string, b: string)
    ensures EqualsIgnoreCase(a, b) <==> Lower(a) == Lower(b)
  {
    if Lower(a) == Lower(b) {
      forall i | 0 <= i < |a|
        ensures LowerChar(a[i]) == LowerChar(b[i])
      {
        assert Lower(a)[i] == Lower(b)[i];
      }
    }
  }
}
