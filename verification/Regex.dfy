/**
 The regular expressions of grep (usr/grep.c). C strings are sequences of their
 characters before the terminating NUL.
 */
module Regex {
  // ------------------------------------------------ regular expressions as such

  datatype Re = Eps | Sym(c: char) | Cat(l: Re, r: Re) | Rep(r: Re)

  /** The character matches `c`, of which '.' stands for any. */
  predicate Fits(c: char, x: char) {
    c == '.' || c == x
  }

  /** The language of a regular expression. */
  ghost predicate Denotes(e: Re, s: string)
    decreases e, |s|
  {
    match e
    case Eps => s == []
    case Sym(c) => |s| == 1 && (c == '.' || c == s[0])
    case Cat(l, r) => exists k :: 0 <= k <= |s| && Denotes(l, s[..k]) && Denotes(r, s[k..])
    case Rep(r) => s == [] || exists k :: 0 < k <= |s| && Denotes(r, s[..k]) && Denotes(e, s[k..])
  }

  // ------------------------------------------------------- the pattern notation

  /** What a pattern stands for, apart from a leading '^' and a final '$'. */
  function Parse(re: string): Re {
    if re == [] || re == "$" then Eps
    else if |re| > 1 && re[1] == '*' then Cat(Rep(Sym(re[0])), Parse(re[2..]))
    else Cat(Sym(re[0]), Parse(re[1..]))
  }

  /** The pattern ends with an anchor: a final '$' that is not itself repeated or the body of a repetition. */
  predicate AtEnd(re: string) {
    if re == [] then false
    else if |re| > 1 && re[1] == '*' then AtEnd(re[2..])
    else re == "$" || AtEnd(re[1..])
  }

  /** The prefix of length `j` of the text is an instance of the pattern. */
  ghost predicate Accepts(re: string, text: string, j: int) {
    0 <= j <= |text| && Denotes(Parse(re), text[..j]) && (AtEnd(re) ==> j == |text|)
  }

  /** Some prefix of the text is an instance of the pattern. */
  ghost predicate Here(re: string, text: string) {
    exists j :: Accepts(re, text, j)
  }

  /** Some substring of the text is, or a prefix if the pattern begins with '^'. */
  ghost predicate Matches(re: string, text: string) {
    if re != [] && re[0] == '^' then Here(re[1..], text)
    else exists i :: 0 <= i <= |text| && Here(re, text[i..])
  }

  // --------------------------------------------------------------- what to prove

  lemma HereEmpty(text: string)
    ensures Here("", text)
  {
    assert Accepts("", text, 0);
  }

  lemma HereDollar(text: string)
    ensures Here("$", text) <==> text == []
  {
    if text == [] {
      assert Accepts("$", text, 0);
    }
    forall j | Accepts("$", text, j) ensures text == [] {
      assert text[..j] == [];
    }
  }

  lemma HereOne(re: string, text: string)
    requires re != [] && re != "$" && !(|re| > 1 && re[1] == '*')
    ensures Here(re, text) <==> text != [] && Fits(re[0], text[0]) && Here(re[1..], text[1..])
  {
    forall j | Accepts(re, text, j) ensures text != [] && Fits(re[0], text[0]) && Accepts(re[1..], text[1..], j - 1) {
      var s := text[..j];
      var k :| 0 <= k <= |s| && Denotes(Sym(re[0]), s[..k]) && Denotes(Parse(re[1..]), s[k..]);
      assert s[k..] == text[1..][..j - 1];
    }
    if text != [] && Fits(re[0], text[0]) {
      forall j | Accepts(re[1..], text[1..], j) ensures Accepts(re, text, j + 1) {
        var s := text[..j + 1];
        assert s[1..] == text[1..][..j];
        assert Denotes(Sym(re[0]), s[..1]);
      }
    }
  }

  /** The first `k` characters of the text all match `c`. */
  predicate Run(c: char, text: string, k: nat) {
    k <= |text| && forall i | 0 <= i < k :: Fits(c, text[i])
  }

  lemma {:induction false} RepRun(c: char, s: string)
    ensures Denotes(Rep(Sym(c)), s) <==> Run(c, s, |s|)
    decreases |s|
  {
    if s != [] {
      RepRun(c, s[1..]);
      forall k | 0 < k <= |s| && Denotes(Sym(c), s[..k]) ensures k == 1 {
      }
      if Run(c, s, |s|) {
        assert Denotes(Sym(c), s[..1]);
        assert forall i | 0 <= i < |s| - 1 :: s[1..][i] == s[i + 1];
      }
      assert Run(c, s, |s|) <==> Fits(c, s[0]) && Run(c, s[1..], |s| - 1) by {
        assert forall i | 0 < i < |s| :: s[i] == s[1..][i - 1];
      }
    }
  }

  lemma HereStar(re: string, text: string)
    requires |re| > 1 && re[1] == '*'
    ensures Here(re, text) <==> exists k: nat :: Run(re[0], text, k) && Here(re[2..], text[k..])
  {
    forall j | Accepts(re, text, j) ensures exists k: nat :: Run(re[0], text, k) && Here(re[2..], text[k..]) {
      var s := text[..j];
      var k :| 0 <= k <= |s| && Denotes(Rep(Sym(re[0])), s[..k]) && Denotes(Parse(re[2..]), s[k..]);
      RepRun(re[0], s[..k]);
      assert forall i | 0 <= i < k :: text[i] == s[..k][i];
      assert s[k..] == text[k..][..j - k];
      assert Accepts(re[2..], text[k..], j - k);
      assert Run(re[0], text, k);
    }
    forall k: nat | Run(re[0], text, k) && Here(re[2..], text[k..]) ensures Here(re, text) {
      var j :| Accepts(re[2..], text[k..], j);
      var s := text[..k + j];
      RepRun(re[0], s[..k]);
      assert s[k..] == text[k..][..j];
      assert Accepts(re, text, k + j);
    }
  }

  /** A repetition stops or takes one more character. */
  lemma StarLaw(c: char, re: string, text: string)
    ensures Here([c, '*'] + re, text) <==>
      Here(re, text) || (text != [] && (c == '.' || c == text[0]) && Here([c, '*'] + re, text[1..]))
  {
    var all := [c, '*'] + re;
    assert all[2..] == re && text[0..] == text;
    hide Here;
    HereStar(all, text);
    forall k: nat | Run(c, text, k) && Here(re, text[k..])
      ensures k == 0 || (text != [] && Fits(c, text[0]) && Run(c, text[1..], k - 1) && Here(re, text[1..][k - 1..]))
    {
      assert k > 0 ==> text[1..][k - 1..] == text[k..];
    }
    if text != [] {
      HereStar(all, text[1..]);
      if Fits(c, text[0]) {
        forall k: nat | Run(c, text[1..], k) && Here(re, text[1..][k..])
          ensures Run(c, text, k + 1) && Here(re, text[k + 1..])
        {
          assert text[1..][k..] == text[k + 1..];
          assert forall i | 0 < i < k + 1 :: text[i] == text[1..][i - 1];
        }
      }
    }
    assert Here(re, text) ==> Run(c, text, 0) && Here(re, text[0..]);
  }

  /** The pattern notation, case by case. With `StarLaw` these cases say of every pattern what it matches. */
  lemma PatternLaws(c: char, re: string, text: string)
    ensures Here("", text) && (Here("$", text) <==> text == [])
    ensures [c] + re != "$" && (re == [] || re[0] != '*') ==>
      (Here([c] + re, text) <==> text != [] && (c == '.' || c == text[0]) && Here(re, text[1..]))
  {
    HereEmpty(text);
    HereDollar(text);
    hide Here;
    if [c] + re != "$" && (re == [] || re[0] != '*') {
      assert ([c] + re)[1..] == re;
      HereOne([c] + re, text);
    }
  }

  // --------------------------------------------------------------------- the code

  /** matchhere */
  method MatchHere(re: string, text: string) returns (r: bool)
    ensures r <==> Here(re, text)
    decreases |re|, 0
  {
    hide Here;
    if re == [] {
      HereEmpty(text);
      return true;
    }
    if |re| > 1 && re[1] == '*' {
      HereStar(re, text);
      r := MatchStar(re[0], re[2..], text);
      return;
    }
    if re[0] == '$' && |re| == 1 {
      assert re == "$";
      HereDollar(text);
      return text == [];
    }
    HereOne(re, text);
    if text != [] && (re[0] == '.' || re[0] == text[0]) {
      r := MatchHere(re[1..], text[1..]);
      return;
    }
    return false;
  }

  /** matchstar: some run of characters that match `c`, the empty one included, is followed by an instance of `re`. */
  method MatchStar(c: char, re: string, text0: string) returns (r: bool)
    ensures r <==> exists k: nat :: Run(c, text0, k) && Here(re, text0[k..])
    decreases |re|, 1
  {
    hide Here;
    var text := text0;
    ghost var n: nat := 0;
    while true
      invariant Run(c, text0, n) && text == text0[n..]
      invariant forall k: nat | k < n :: !Here(re, text0[k..])
      decreases |text|
    {
      var here := MatchHere(re, text);
      if here {
        return true;
      }
      if text == [] || !(text[0] == c || c == '.') {
        break;
      }
      text := text[1..];
      n := n + 1;
    }
    assert n == |text0| || !Fits(c, text0[n]);
    assert forall k: nat | k > n :: !Run(c, text0, k);
    return false;
  }

  /** match */
  method Match(re: string, text0: string) returns (r: bool)
    ensures r <==> Matches(re, text0)
  {
    hide Here;
    if re != [] && re[0] == '^' {
      r := MatchHere(re[1..], text0);
      return;
    }
    var text := text0;
    ghost var n: nat := 0;
    while true
      invariant n <= |text0| && text == text0[n..]
      invariant forall i | 0 <= i < n :: !Here(re, text0[i..])
      decreases |text|
    {
      var here := MatchHere(re, text);
      if here {
        return true;
      }
      if text == [] {
        break;
      }
      text := text[1..];
      n := n + 1;
    }
    return false;
  }
}
