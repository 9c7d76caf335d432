/** The handful of Python `str` operations the core relies on, on `string == seq<char>`.
    Case mapping is ASCII; whitespace is Python's whitespace below U+0100. */
module Strings {

  predicate IsDigit(c: char) { '0' <= c <= '9' }

  predicate IsAsciiLetter(c: char) { 'a' <= c <= 'z' || 'A' <= c <= 'Z' }

  /** `[a-zA-Z0-9]` */
  predicate IsAlnum(c: char) { IsDigit(c) || IsAsciiLetter(c) }

  /** `\w` */
  predicate IsWordChar(c: char) { IsAlnum(c) || c == '_' }

  const Whitespace: set<char> :=
    {' ', '\t', '\n', '\r', '\U{B}', '\U{C}', '\U{1C}', '\U{1D}', '\U{1E}', '\U{1F}', '\U{85}', '\U{A0}'}

  predicate IsSpace(c: char) { c in Whitespace }

  function LowerChar(c: char): char
  {
    if 'A' <= c <= 'Z' then (c as int + 32) as char else c
  }

  /** `s.lower()` */
  function Lower(s: string): string
  {
    seq(|s|, i requires 0 <= i < |s| => LowerChar(s[i]))
  }

  /** `s.startswith(p)` */
  predicate StartsWith(s: string, p: string)
  {
    |p| <= |s| && s[..|p|] == p
  }

  /** `s.endswith(p)` */
  predicate EndsWith(s: string, p: string)
  {
    |p| <= |s| && s[|s| - |p|..] == p
  }

  /** `t in s` */
  predicate Contains(s: string, t: string)
    decreases |s|
  {
    StartsWith(s, t) || (s != [] && Contains(s[1..], t))
  }

  /** `s.replace(pat, rep)`: left to right, non-overlapping. */
  function ReplaceAll(s: string, pat: string, rep: string): string
    requires pat != []
    decreases |s|
  {
    if s == [] then []
    else if StartsWith(s, pat) then rep + ReplaceAll(s[|pat|..], pat, rep)
    else [s[0]] + ReplaceAll(s[1..], pat, rep)
  }

  function TrimStart(s: string, cs: set<char>): string
    decreases |s|
  {
    if s != [] && s[0] in cs then TrimStart(s[1..], cs) else s
  }

  function TrimEnd(s: string, cs: set<char>): string
    decreases |s|
  {
    if s != [] && s[|s| - 1] in cs then TrimEnd(s[..|s| - 1], cs) else s
  }

  /** `s.strip(chars)` */
  function StripChars(s: string, cs: set<char>): string
  {
    TrimEnd(TrimStart(s, cs), cs)
  }

  /** `s.strip()` */
  function Strip(s: string): string
  {
    StripChars(s, Whitespace)
  }

  /** `s.split(c)[0]`: everything before the first `c`. */
  function Before(s: string, c: char): string
    decreases |s|
  {
    if s == [] || s[0] == c then [] else [s[0]] + Before(s[1..], c)
  }

  /** Length of the leading run of non-space characters. */
  function NonSpaceRun(s: string): (n: nat)
    ensures n <= |s|
    decreases |s|
  {
    if s != [] && !IsSpace(s[0]) then 1 + NonSpaceRun(s[1..]) else 0
  }

  /** `s.split()` */
  function Words(s: string): seq<string>
    decreases |s|
  {
    if s == [] then []
    else if IsSpace(s[0]) then Words(s[1..])
    else var k := NonSpaceRun(s); [s[..k]] + Words(s[k..])
  }

  /** `sep.join(ws)` */
  function Join(ws: seq<string>, sep: string): string
  {
    if ws == [] then [] else if |ws| == 1 then ws[0] else ws[0] + sep + Join(ws[1..], sep)
  }

  /** `int(s)` for a string of ASCII digits. */
  function DigitsValue(s: string): nat
    requires forall i :: 0 <= i < |s| ==> IsDigit(s[i])
  {
    if s == [] then 0
    else
      assert IsDigit(s[|s| - 1]);
      DigitsValue(s[..|s| - 1]) * 10 + (s[|s| - 1] as int - '0' as int)
  }

  /** `str(n)` */
  function NatToString(n: nat): (s: string)
    ensures |s| > 0 && forall i :: 0 <= i < |s| ==> IsDigit(s[i])
  {
    var d := [('0' as int + n % 10) as char];
    if n < 10 then d else NatToString(n / 10) + d
  }

  lemma {:induction false} DigitsValueOfNatToString(n: nat)
    ensures DigitsValue(NatToString(n)) == n
  {
    var s := NatToString(n);
    if n >= 10 {
      DigitsValueOfNatToString(n / 10);
      assert s[..|s| - 1] == NatToString(n / 10);
    }
  }

  /** Removing leading spaces, then trailing ones, leaves a string unchanged exactly when it
      neither starts nor ends with a space. */
  lemma StripUnchanged(s: string)
    requires s == [] || (!IsSpace(s[0]) && !IsSpace(s[|s| - 1]))
    ensures Strip(s) == s
  {
  }

  lemma {:induction false} WordsAreNonEmptyAndSpaceFree(s: string)
    ensures forall w :: w in Words(s) ==> w != [] && forall j :: 0 <= j < |w| ==> !IsSpace(w[j])
    decreases |s|
  {
    if s == [] {
    } else if IsSpace(s[0]) {
      WordsAreNonEmptyAndSpaceFree(s[1..]);
    } else {
      var k := NonSpaceRun(s);
      NonSpaceRunIsSpaceFree(s);
      WordsAreNonEmptyAndSpaceFree(s[k..]);
    }
  }

  lemma {:induction false} NonSpaceRunIsSpaceFree(s: string)
    ensures forall j :: 0 <= j < NonSpaceRun(s) ==> !IsSpace(s[j])
    ensures s != [] && !IsSpace(s[0]) ==> NonSpaceRun(s) > 0
    decreases |s|
  {
    if s != [] && !IsSpace(s[0]) {
      NonSpaceRunIsSpaceFree(s[1..]);
    }
  }

  lemma {:induction false} ContainsAt(s: string, t: string, i: nat)
    requires i + |t| <= |s| && s[i..i + |t|] == t
    ensures Contains(s, t)
    decreases i
  {
    if i > 0 {
      assert s[1..][i - 1..i - 1 + |t|] == s[i..i + |t|];
      ContainsAt(s[1..], t, i - 1);
    }
  }

  lemma {:induction false} ContainsWitness(s: string, t: string) returns (i: nat)
    requires Contains(s, t)
    ensures i + |t| <= |s| && s[i..i + |t|] == t
    decreases |s|
  {
    if StartsWith(s, t) {
      i := 0;
    } else {
      var j := ContainsWitness(s[1..], t);
      assert s[1..][j..j + |t|] == s[j + 1..j + 1 + |t|];
      i := j + 1;
    }
  }

  lemma {:induction false} ReplaceAllAbsent(s: string, pat: string, rep: string)
    requires pat != [] && !Contains(s, pat)
    ensures ReplaceAll(s, pat, rep) == s
    decreases |s|
  {
    if s != [] {
      ReplaceAllAbsent(s[1..], pat, rep);
    }
  }

  /** Every character of a contained string occurs in the container. */
  lemma ContainedChars(s: string, t: string)
    requires Contains(s, t)
    ensures forall j :: 0 <= j < |t| ==> t[j] in s
  {
    var i := ContainsWitness(s, t);
    forall j | 0 <= j < |t| ensures t[j] in s {
      assert t[j] == s[i..i + |t|][j] == s[i + j];
    }
  }

  /** Replacing introduces no character beyond those of `s` and `rep`. */
  lemma {:induction false} ReplaceAllChars(s: string, pat: string, rep: string)
    requires pat != []
    ensures forall x :: x in ReplaceAll(s, pat, rep) ==> x in s || x in rep
    decreases |s|
  {
    if s != [] {
      if StartsWith(s, pat) {
        ReplaceAllChars(s[|pat|..], pat, rep);
        assert forall x :: x in s[|pat|..] ==> x in s;
      } else {
        ReplaceAllChars(s[1..], pat, rep);
        assert forall x :: x in s[1..] ==> x in s;
      }
    }
  }

  /** Replacing a single character by text without it removes every occurrence. */
  lemma {:induction false} ReplaceCharGone(s: string, c: char, rep: string)
    requires c !in rep
    ensures c !in ReplaceAll(s, [c], rep)
    decreases |s|
  {
    if s != [] {
      if StartsWith(s, [c]) {
        ReplaceCharGone(s[1..], c, rep);
      } else {
        assert s[0] != c by { assert s[..1] == [s[0]]; }
        ReplaceCharGone(s[1..], c, rep);
      }
    }
  }

  /** Replacing by something shorter never lengthens, and shortens when a match exists. */
  lemma {:induction false} ReplaceAllShrinks(s: string, pat: string, rep: string)
    requires pat != [] && |rep| < |pat|
    ensures |ReplaceAll(s, pat, rep)| <= |s|
    ensures Contains(s, pat) ==> |ReplaceAll(s, pat, rep)| < |s|
    decreases |s|
  {
    if s != [] {
      if StartsWith(s, pat) {
        ReplaceAllShrinks(s[|pat|..], pat, rep);
      } else {
        ReplaceAllShrinks(s[1..], pat, rep);
      }
    }
  }

  lemma {:induction false} BeforeAbsent(s: string, c: char)
    requires c !in s
    ensures Before(s, c) == s
    decreases |s|
  {
    if s != [] {
      BeforeAbsent(s[1..], c);
      assert s == [s[0]] + s[1..];
    }
  }

  /** `s.split(c)[0]` holds no `c`, and only characters of `s`. */
  lemma {:induction false} BeforeChars(s: string, c: char)
    ensures forall x :: x in Before(s, c) ==> x in s && x != c
    decreases |s|
  {
    if s != [] && s[0] != c {
      BeforeChars(s[1..], c);
      assert Before(s, c) == [s[0]] + Before(s[1..], c);
      forall x | x in Before(s[1..], c) ensures x in s { assert x in s[1..]; }
    }
  }

  lemma {:induction false} BeforeFirst(a: string, c: char, b: string)
    requires c !in a
    ensures Before(a + [c] + b, c) == a
    decreases |a|
  {
    var s := a + [c] + b;
    if a != [] {
      assert s[1..] == a[1..] + [c] + b;
      BeforeFirst(a[1..], c, b);
      assert a == [a[0]] + a[1..];
    }
  }

  /** A string lacking one of `t`'s characters does not contain `t`. */
  lemma {:induction false} MissingCharNotContained(s: string, t: string, j: nat)
    requires j < |t| && t[j] !in s
    ensures !Contains(s, t)
    decreases |s|
  {
    assert !StartsWith(s, t) by {
      if |t| <= |s| {
        assert s[..|t|][j] == s[j];
      }
    }
    if s != [] {
      assert forall x :: x in s[1..] ==> x in s;
      MissingCharNotContained(s[1..], t, j);
    }
  }
}
