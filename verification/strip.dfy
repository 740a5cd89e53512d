/**
 The token normaliser of both review scripts: lowercase the token, then
 apply `str.strip(c)` once for each character of a fixed list, in list
 order. Each `strip(c)` removes every leading and trailing copy of `c`.
 */
module Strip {
  import opened Text

  /** The characters stripped, in the order the chain applies them. */
  const StripChars: seq<char> :=
    ['"', '\'', '.', '/', '\\', '?', '<', '>', '`', '~', '!',
     '@', '#', '$', '%', '^', '&', '*', '(', ')', '+', '=']

  function TrimLeft(s: string, c: char): (r: string)
    ensures |r| <= |s|
    ensures r != [] ==> r[0] != c
    decreases |s|
  {
    if s != [] && s[0] == c then TrimLeft(s[1..], c) else s
  }

  function TrimRight(s: string, c: char): (r: string)
    ensures |r| <= |s|
    ensures r != [] ==> r[|r| - 1] != c
    decreases |s|
  {
    if s != [] && s[|s| - 1] == c then TrimRight(s[..|s| - 1], c) else s
  }

  /** `TrimLeft` removes a block of `c` from the front and keeps the rest. */
  lemma {:induction false} TrimLeftSuffix(s: string, c: char)
    ensures TrimLeft(s, c) == s[|s| - |TrimLeft(s, c)|..]
    ensures forall k :: 0 <= k < |s| - |TrimLeft(s, c)| ==> s[k] == c
    decreases |s|
  {
    if s != [] && s[0] == c {
      TrimLeftSuffix(s[1..], c);
    }
  }

  /** `TrimRight` removes a block of `c` from the back and keeps the rest. */
  lemma {:induction false} TrimRightPrefix(s: string, c: char)
    ensures TrimRight(s, c) == s[..|TrimRight(s, c)|]
    ensures forall k :: |TrimRight(s, c)| <= k < |s| ==> s[k] == c
    decreases |s|
  {
    if s != [] && s[|s| - 1] == c {
      TrimRightPrefix(s[..|s| - 1], c);
    }
  }

  /**
   Python's `s.strip(c)` for a single character `c`: the result neither
   starts nor ends with `c`, and a string that already does not is returned
   as it is.
   */
  function StripChar(s: string, c: char): (r: string)
    ensures |r| <= |s|
    ensures r != [] ==> r[0] != c && r[|r| - 1] != c
    ensures (s == [] || (s[0] != c && s[|s| - 1] != c)) ==> r == s
  {
    var l := TrimLeft(s, c);
    assert l != [] ==> l[0] != c;
    TrimRightPrefix(l, c);
    TrimRight(l, c)
  }

  /** `strip(c)` cuts a block of `c` from each end and keeps the middle. */
  lemma StripCharInfix(s: string, c: char) returns (i: nat, j: nat)
    ensures i <= j <= |s| && StripChar(s, c) == s[i..j]
    ensures forall k :: 0 <= k < i ==> s[k] == c
    ensures forall k :: j <= k < |s| ==> s[k] == c
  {
    var l := TrimLeft(s, c);
    TrimLeftSuffix(s, c);
    TrimRightPrefix(l, c);
    i := |s| - |l|;
    j := i + |StripChar(s, c)|;
    forall k | j <= k < |s|
      ensures s[k] == c
    {
      assert s[k] == l[k - i];
    }
  }

  /**
   The chain `.strip(cs[0]).strip(cs[1])...`, one strip per listed character,
   left to right. When the list is non-empty the result neither starts nor
   ends with its last character.
   */
  function StripAll(s: string, cs: seq<char>): (r: string)
    ensures |r| <= |s|
    ensures cs != [] && r != [] ==> r[0] != cs[|cs| - 1] && r[|r| - 1] != cs[|cs| - 1]
    decreases |cs|, s
  {
    if cs == [] then s
    else
      var t := StripChar(s, cs[0]);
      assert |cs| > 1 ==> cs[1..][|cs| - 2] == cs[|cs| - 1];
      StripAll(t, cs[1..])
  }

  /** Every character of `t` is one of `cs`. */
  predicate OnlyFrom(t: string, cs: seq<char>) {
    forall k :: 0 <= k < |t| ==> t[k] in cs
  }

  lemma OnlyFromTail(t: string, cs: seq<char>)
    requires cs != [] && OnlyFrom(t, cs[1..])
    ensures OnlyFrom(t, cs)
  {
    forall k | 0 <= k < |t|
      ensures t[k] in cs
    {
      var n :| 0 <= n < |cs| - 1 && cs[1..][n] == t[k];
      assert cs[n + 1] == t[k];
    }
  }

  lemma StripCharCuts(s: string, c: char, cs: seq<char>) returns (i: nat, j: nat)
    requires cs != [] && cs[0] == c
    ensures i <= j <= |s| && StripChar(s, c) == s[i..j]
    ensures OnlyFrom(s[..i], cs) && OnlyFrom(s[j..], cs)
  {
    i, j := StripCharInfix(s, c);
    assert forall k :: 0 <= k < i ==> s[..i][k] == s[k];
    assert forall k :: 0 <= k < |s| - j ==> s[j..][k] == s[j + k];
  }

  /** Cutting a middle part out of a middle part is cutting a middle part. */
  lemma ComposeCuts(s: string, m: string, i1: nat, j1: nat, i2: nat, j2: nat, cs: seq<char>)
    requires i1 <= j1 <= |s| && m == s[i1..j1] && i2 <= j2 <= |m|
    requires OnlyFrom(s[..i1], cs) && OnlyFrom(s[j1..], cs)
    requires OnlyFrom(m[..i2], cs) && OnlyFrom(m[j2..], cs)
    ensures OnlyFrom(s[..i1 + i2], cs) && OnlyFrom(s[i1 + j2..], cs)
  {
    var pre := s[..i1 + i2];
    var post := s[i1 + j2..];

    forall k | 0 <= k < |pre|
      ensures pre[k] in cs
    {
      if k < i1 {
        assert s[..i1][k] == s[k];
      } else {
        assert m[..i2][k - i1] == s[k];
      }
    }
    forall k | 0 <= k < |post|
      ensures post[k] in cs
    {
      var p := i1 + j2 + k;
      if p < j1 {
        assert m[j2..][k] == s[p];
      } else {
        assert s[j1..][p - j1] == s[p];
      }
    }
  }

  /** The chain keeps a contiguous middle part and removes only listed characters. */
  lemma {:induction false} StripAllInfix(s: string, cs: seq<char>) returns (i: nat, j: nat)
    ensures i <= j <= |s| && StripAll(s, cs) == s[i..j]
    ensures OnlyFrom(s[..i], cs) && OnlyFrom(s[j..], cs)
    decreases |cs|
  {
    if cs == [] {
      StripAllEmpty(s, cs);
      i, j := 0, |s|;
    } else {
      var s1 := StripChar(s, cs[0]);
      var i1, j1 := StripCharCuts(s, cs[0], cs);
      var i2, j2 := StripAllInfix(s1, cs[1..]);
      StripAllStepResult(s, cs, s1, i1, j1, i2, j2);
      i, j := StripAllStep(s, cs, s1, i1, j1, i2, j2);
    }
  }

  /** With nothing to strip, the whole string is kept and nothing is cut. */
  lemma StripAllEmpty(s: string, cs: seq<char>)
    requires cs == []
    ensures StripAll(s, cs) == s[0..|s|]
    ensures OnlyFrom(s[..0], cs) && OnlyFrom(s[|s|..], cs)
  {
    assert s[0..|s|] == s;
  }

  /** One step of StripAllInfix: the first strip's cut composed with the rest of the chain's cut. */
  lemma StripAllStep(s: string, cs: seq<char>, s1: string, i1: nat, j1: nat, i2: nat, j2: nat)
    returns (i: nat, j: nat)
    requires cs != [] && i1 <= j1 <= |s| && s1 == s[i1..j1] && i2 <= j2 <= |s1|
    requires StripAll(s, cs) == s[i1 + i2..i1 + j2]
    requires OnlyFrom(s[..i1], cs) && OnlyFrom(s[j1..], cs)
    requires OnlyFrom(s1[..i2], cs[1..]) && OnlyFrom(s1[j2..], cs[1..])
    ensures i <= j <= |s| && StripAll(s, cs) == s[i..j]
    ensures OnlyFrom(s[..i], cs) && OnlyFrom(s[j..], cs)
  {
    i, j := i1 + i2, i1 + j2;
    StripAllStepCuts(s, cs, s1, i1, j1, i2, j2);
  }

  /** The characters cut by the first strip and by the rest of the chain together come from the list. */
  lemma StripAllStepCuts(s: string, cs: seq<char>, s1: string, i1: nat, j1: nat, i2: nat, j2: nat)
    requires cs != [] && i1 <= j1 <= |s| && s1 == s[i1..j1] && i2 <= j2 <= |s1|
    requires OnlyFrom(s[..i1], cs) && OnlyFrom(s[j1..], cs)
    requires OnlyFrom(s1[..i2], cs[1..]) && OnlyFrom(s1[j2..], cs[1..])
    ensures OnlyFrom(s[..i1 + i2], cs) && OnlyFrom(s[i1 + j2..], cs)
  {
    OnlyFromTail(s1[..i2], cs);
    OnlyFromTail(s1[j2..], cs);
    ComposeCuts(s, s1, i1, j1, i2, j2, cs);
  }

  /** The chain's result after the first strip, located in the original string. */
  lemma StripAllStepResult(s: string, cs: seq<char>, s1: string, i1: nat, j1: nat, i2: nat, j2: nat)
    requires cs != [] && s1 == StripChar(s, cs[0])
    requires i1 <= j1 <= |s| && s1 == s[i1..j1]
    requires i2 <= j2 <= |s1| && StripAll(s1, cs[1..]) == s1[i2..j2]
    ensures StripAll(s, cs) == s[i1 + i2..i1 + j2]
  {
    StripAllUnfold(s, cs);
    SliceOfSlice(s, i1, j1, i2, j2);
  }

  lemma StripAllUnfold(s: string, cs: seq<char>)
    requires cs != []
    ensures StripAll(s, cs) == StripAll(StripChar(s, cs[0]), cs[1..])
  {
  }

  /** A string whose two ends are not in the list passes through the chain untouched. */
  lemma {:induction false} StripAllKeepsUnlisted(s: string, cs: seq<char>)
    requires s == [] || (s[0] !in cs && s[|s| - 1] !in cs)
    ensures StripAll(s, cs) == s
    decreases |cs|
  {
    if cs != [] {
      assert StripChar(s, cs[0]) == s;
      StripAllKeepsUnlisted(s, cs[1..]);
    }
  }

  /** `word.lower().strip('"').strip("'")....strip('=')`, the normalised form of a token. */
  function Normalise(w: string): string {
    StripAll(Lower(w), StripChars)
  }

  lemma StripCharsShape()
    ensures |StripChars| == 22 && StripChars[21] == '='
  {
  }

  /** A non-empty normalised token neither starts nor ends with '=', the last character stripped. */
  lemma NormaliseEnds(w: string)
    ensures |Normalise(w)| <= |w|
    ensures Normalise(w) != [] ==> Normalise(w)[0] != '=' && Normalise(w)[|Normalise(w)| - 1] != '='
  {
    StripCharsShape();
  }

  /**
   The normalised token is a contiguous part of the lowercased token, and
   only characters of the strip list were cut from either side.
   */
  lemma NormaliseInfix(w: string) returns (i: nat, j: nat)
    ensures i <= j <= |w| && Normalise(w) == Lower(w)[i..j]
    ensures OnlyFrom(Lower(w)[..i], StripChars) && OnlyFrom(Lower(w)[j..], StripChars)
  {
    i, j := StripAllInfix(Lower(w), StripChars);
  }

  /** Stripping never brings back a capital letter. */
  lemma StripAllKeepsLowerCase(s: string, cs: seq<char>)
    requires IsLowerCase(s)
    ensures IsLowerCase(StripAll(s, cs))
  {
    var i, j := StripAllInfix(s, cs);
    var r := StripAll(s, cs);
    forall k | 0 <= k < |r|
      ensures !('A' <= r[k] <= 'Z')
    {
      assert r[k] == s[i + k];
    }
  }

  /** A normalised token holds no capital letter. */
  lemma NormaliseIsLowerCase(w: string)
    ensures IsLowerCase(Normalise(w))
  {
    LowerIdempotent(w);
    StripAllKeepsLowerCase(Lower(w), StripChars);
  }

  /**
   A token whose first and last characters are both outside the strip list
   comes out merely lowercased (lowercasing never turns a letter into a
   listed character).
   */
  lemma NormaliseOnlyLowercases(w: string)
    requires w == [] || (w[0] !in StripChars && w[|w| - 1] !in StripChars)
    ensures Normalise(w) == Lower(w)
  {
    if w != [] {
      var l := Lower(w);
      assert l[0] == LowerChar(w[0]) && l[|l| - 1] == LowerChar(w[|w| - 1]);
      LowerCharUnlisted(w[0]);
      LowerCharUnlisted(w[|w| - 1]);
    }
    StripAllKeepsUnlisted(Lower(w), StripChars);
  }

  /** The list holds no letters, so lowercasing never turns an unlisted character into a listed one. */
  lemma LowerCharUnlisted(c: char)
    requires c !in StripChars
    ensures LowerChar(c) !in StripChars
  {
    if 'A' <= c <= 'Z' {
      assert forall i :: 0 <= i < |StripChars| ==> !('a' <= StripChars[i] <= 'z');
    }
  }

  /**
   Where exactly one listed character can act on a string, the chain
   reduces to that character's strip.
   */
  lemma StripAllOneActive(s: string, ys: seq<char>, c: char, zs: seq<char>)
    requires s == [] || (s[0] !in ys && s[|s| - 1] !in ys)
    requires var t := StripChar(s, c); t == [] || (t[0] !in zs && t[|t| - 1] !in zs)
    ensures StripAll(s, ys + [c] + zs) == StripChar(s, c)
  {
    var rest := [c] + zs;
    assert ys + [c] + zs == ys + rest;
    StripAllSplit(s, ys, rest);
    StripAllKeepsUnlisted(s, ys);
    assert rest[0] == c && rest[1..] == zs;
    StripAllUnfold(s, rest);
    StripAllKeepsUnlisted(StripChar(s, c), zs);
  }

  /** No lower-case letter is listed, so no part of the list holds one. */
  lemma NoLetterListed(i: nat, j: nat)
    requires i <= j <= |StripChars|
    ensures 'a' !in StripChars[i..j]
  {
    var part := StripChars[i..j];
    assert forall k :: 0 <= k < |StripChars| ==> !('a' <= StripChars[k] <= 'z');
    assert forall k :: 0 <= k < |part| ==> part[k] == StripChars[i + k];
  }

  lemma StripCharsSplitAtEquals()
    ensures StripChars == StripChars[..21] + ['='] + []
    ensures 'a' !in StripChars[..21] && '=' !in StripChars[..21]
  {
    SplitAround(StripChars, 21);
    NoLetterListed(0, 21);
  }

  lemma StripCharsSplitAtPeriod()
    ensures StripChars == StripChars[..2] + ['.'] + StripChars[3..]
    ensures 'a' !in StripChars[..2] && '.' !in StripChars[..2] && 'a' !in StripChars[3..]
  {
    SplitAround(StripChars, 2);
    assert StripChars[..2] == ['"', '\''];
    NoLetterListed(3, |StripChars|);
    assert StripChars[3..] == StripChars[3..|StripChars|];
  }

  lemma NormaliseExampleEq(s: string)
    requires s == "a.="
    ensures Normalise(s) == "a."
  {
    assert Lower(s) == s;
    assert TrimLeft(s, '=') == s;
    assert s[..2] == "a.";
    assert TrimRight(s[..2], '=') == "a.";
    StripCharsSplitAtEquals();
    StripAllOneActive(s, StripChars[..21], '=', []);
  }

  lemma NormaliseExampleDot(s: string)
    requires s == "a."
    ensures Normalise(s) == "a"
  {
    assert Lower(s) == s;
    assert TrimLeft(s, '.') == s;
    assert s[..1] == "a";
    assert TrimRight(s[..1], '.') == "a";
    StripCharsSplitAtPeriod();
    StripAllOneActive(s, StripChars[..2], '.', StripChars[3..]);
  }

  /**
   The chain is not idempotent: one pass turns "a.=" into "a." because the
   period is stripped before the equals sign is; a second pass strips it.
   */
  lemma NormaliseNotIdempotent()
    ensures Normalise("a.=") == "a."
    ensures Normalise("a.") == "a"
    ensures Normalise(Normalise("a.=")) != Normalise("a.=")
  {
    NormaliseExampleEq("a.=");
    NormaliseExampleDot("a.");
  }

  lemma {:induction false} StripAllSplit(s: string, xs: seq<char>, ys: seq<char>)
    ensures StripAll(s, xs + ys) == StripAll(StripAll(s, xs), ys)
    decreases |xs|
  {
    if xs == [] {
      assert xs + ys == ys;
    } else {
      assert (xs + ys)[1..] == xs[1..] + ys;
      StripAllSplit(StripChar(s, xs[0]), xs[1..], ys);
    }
  }
}
