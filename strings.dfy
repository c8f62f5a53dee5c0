/**
 * Whitespace trimming as Go's `strings.TrimSpace` performs it: leading and
 * trailing white space is removed, inner white space is kept.
 */
module Strings {

  /**
   * The fixed white-space set: the six ASCII spaces (tab, line feed, vertical
   * tab, form feed, carriage return, space), NEL and NO-BREAK SPACE, and the
   * other characters of Unicode's White_Space property.
   */
  predicate IsSpace(c: char)
    ensures c as int < 128 ==> (IsSpace(c) <==> c in "\t\n\U{B}\U{C}\r ")
  {
    var n := c as int;
    || 9 <= n <= 13 || n == 32 || n == 0x85 || n == 0xA0 || n == 0x1680
    || 0x2000 <= n <= 0x200A || n == 0x2028 || n == 0x2029 || n == 0x202F || n == 0x205F || n == 0x3000
  }

  /** Every character of `s` is white space. */
  ghost predicate AllSpace(s: string)
  {
    forall k :: 0 <= k < |s| ==> IsSpace(s[k])
  }

  /** `s` neither starts nor ends with white space. */
  predicate Trimmed(s: string)
  {
    |s| == 0 || (!IsSpace(s[0]) && !IsSpace(s[|s| - 1]))
  }

  /** `s` without its leading white space. */
  function TrimLeft(s: string): (r: string)
    ensures |r| <= |s|
    ensures r == [] || !IsSpace(r[0])
  {
    if |s| > 0 && IsSpace(s[0]) then TrimLeft(s[1..]) else s
  }

  /** `s` without its trailing white space. */
  function TrimRight(s: string): (r: string)
    ensures |r| <= |s|
    ensures r == [] || !IsSpace(r[|r| - 1])
  {
    if |s| > 0 && IsSpace(s[|s| - 1]) then TrimRight(s[..|s| - 1]) else s
  }

  /** `TrimLeft` keeps a suffix of `s` and cuts only white space. */
  lemma {:induction false} TrimLeftCuts(s: string)
    ensures TrimLeft(s) == s[|s| - |TrimLeft(s)|..]
    ensures AllSpace(s[..|s| - |TrimLeft(s)|])
  {
    if |s| > 0 && IsSpace(s[0]) {
      var t := s[1..];
      TrimLeftCuts(t);
      var n := |s| - |TrimLeft(s)|;
      assert t[n - 1..] == s[n..];
      forall k | 0 <= k < n ensures IsSpace(s[..n][k]) {
        if k > 0 { assert s[..n][k] == t[..n - 1][k - 1]; }
      }
    }
  }

  /** `TrimRight` keeps a prefix of `s` and cuts only white space. */
  lemma {:induction false} TrimRightCuts(s: string)
    ensures TrimRight(s) == s[..|TrimRight(s)|]
    ensures AllSpace(s[|TrimRight(s)|..])
  {
    if |s| > 0 && IsSpace(s[|s| - 1]) {
      var t := s[..|s| - 1];
      TrimRightCuts(t);
      var n := |TrimRight(s)|;
      assert t[..n] == s[..n];
      forall k | 0 <= k < |s| - n ensures IsSpace(s[n..][k]) {
        if k < |s| - 1 - n { assert s[n..][k] == t[n..][k]; }
      }
    }
  }

  /** `s` with leading and trailing white space removed. */
  function TrimSpace(s: string): (r: string)
    ensures Trimmed(r)
  {
    var l := TrimLeft(s);
    TrimRightCuts(l);
    TrimRight(l)
  }

  /**
   * `TrimSpace` cuts white space only: its result is a contiguous part of `s`
   * and everything before and after that part is white space.
   */
  lemma TrimSpaceCutsSpace(s: string) returns (i: nat)
    ensures i + |TrimSpace(s)| <= |s| && TrimSpace(s) == s[i..i + |TrimSpace(s)|]
    ensures AllSpace(s[..i]) && AllSpace(s[i + |TrimSpace(s)|..])
  {
    var l := TrimLeft(s);
    var r := TrimRight(l);
    TrimLeftCuts(s);
    TrimRightCuts(l);
    i := |s| - |l|;
    assert r == s[i..i + |r|] by { assert l[..|r|] == r; }
    assert s[i + |r|..] == l[|r|..];
  }

  /** Cutting exactly the white-space prefix `s[..i]` is what `TrimLeft` does. */
  lemma {:induction false} TrimLeftAt(s: string, i: nat)
    requires i <= |s| && AllSpace(s[..i]) && (i == |s| || !IsSpace(s[i]))
    ensures TrimLeft(s) == s[i..]
  {
    if i > 0 {
      assert s[..i][0] == s[0];
      assert s[1..][..i - 1] == s[1..i];
      assert s[1..][i - 1..] == s[i..];
      TrimLeftAt(s[1..], i - 1);
    }
  }

  /** Cutting exactly the white-space suffix `s[e..]` is what `TrimRight` does. */
  lemma {:induction false} TrimRightAt(s: string, e: nat)
    requires e <= |s| && AllSpace(s[e..]) && (e == 0 || !IsSpace(s[e - 1]))
    ensures TrimRight(s) == s[..e]
  {
    if e < |s| {
      assert s[e..][|s| - 1 - e] == s[|s| - 1];
      var t := s[..|s| - 1];
      assert t[e..] == s[e..|s| - 1];
      assert t[..e] == s[..e];
      TrimRightAt(t, e);
    }
  }

  /**
   * The trimming contract determines the result: any `r` without edge white
   * space that `s` surrounds with white space only is `TrimSpace(s)`.
   */
  lemma TrimSpaceUnique(s: string, r: string, i: nat)
    requires Trimmed(r)
    requires i + |r| <= |s| && r == s[i..i + |r|]
    requires AllSpace(s[..i]) && AllSpace(s[i + |r|..])
    ensures r == TrimSpace(s)
  {
    if r == [] {
      AllSpaceSplit(s, i);
      assert s[..|s|] == s;
      TrimLeftAt(s, |s|);
      assert TrimLeft(s) == [];
    } else {
      TrimLeftAt(s, i);
      TrimRightOfTail(s, r, i);
    }
    assert TrimSpace(s) == TrimRight(TrimLeft(s));
  }

  /** The step of `TrimSpaceUnique` for a non-empty `r`. */
  lemma TrimRightOfTail(s: string, r: string, i: nat)
    requires r != [] && !IsSpace(r[|r| - 1])
    requires i + |r| <= |s| && r == s[i..i + |r|]
    requires AllSpace(s[i + |r|..])
    ensures TrimRight(s[i..]) == r
  {
    var l := s[i..];
    assert l[|r|..] == s[i + |r|..];
    assert l[|r| - 1] == r[|r| - 1];
    TrimRightAt(l, |r|);
    assert l[..|r|] == r;
  }

  /** If the prefix before `i` and the suffix after it are white space, so is the whole string. */
  lemma AllSpaceSplit(s: string, i: nat)
    requires i <= |s| && AllSpace(s[..i]) && AllSpace(s[i..])
    ensures AllSpace(s)
  {
    forall k | 0 <= k < |s| ensures IsSpace(s[k]) {
      if k < i { assert s[..i][k] == s[k]; } else { assert s[i..][k - i] == s[k]; }
    }
  }

  /** Trimming twice is trimming once. */
  lemma TrimSpaceIdempotent(s: string)
    ensures TrimSpace(TrimSpace(s)) == TrimSpace(s)
  {
    var t := TrimSpace(s);
    assert t[..0] == [] && t[0 + |t|..] == [];
    TrimSpaceUnique(t, t, 0);
  }

  /** `TrimSpace("42 ")` is `42`. */
  lemma TrimSpaceExample()
    ensures TrimSpace("42 ") == "42"
  {
    assert "42 "[0..2] == "42" && "42 "[..0] == [] && "42 "[2..] == " ";
    TrimSpaceUnique("42 ", "42", 0);
  }

  /** A string without white space at its ends is its own trimming. */
  lemma TrimmedStaysPut(s: string)
    requires Trimmed(s)
    ensures TrimSpace(s) == s
  {
    assert s[..0] == [] && s[0 + |s|..] == [] && s[0..0 + |s|] == s;
    TrimSpaceUnique(s, s, 0);
  }
}
