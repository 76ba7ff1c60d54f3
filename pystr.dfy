/**
 The Python `str` operations that the producer and the consumer rely on:
 `upper()` (ASCII letters only), the `in` substring test, `replace(pat, "")`,
 `strip()` and `split()` with no argument.
 */
module PyStr {

  /* ---------- upper() ---------- */

  predicate IsLower(c: char) {
    'a' <= c <= 'z'
  }

  function UpperChar(c: char): char {
    if IsLower(c) then (c as int - 32) as char else c
  }

  /** `s.upper()`, restricted to ASCII letters. */
  function ToUpper(s: string): (r: string)
    ensures |r| == |s|
    ensures forall i :: 0 <= i < |r| ==> !IsLower(r[i])
    ensures forall i :: 0 <= i < |s| && !IsLower(s[i]) ==> r[i] == s[i]
    ensures forall i :: 0 <= i < |s| && IsLower(s[i]) ==> r[i] as int == s[i] as int - 32
  {
    seq(|s|, i requires 0 <= i < |s| => UpperChar(s[i]))
  }

  /** A string with no ASCII lower-case letter; `upper()` leaves it alone. */
  predicate NoLower(s: string) {
    forall i :: 0 <= i < |s| ==> !IsLower(s[i])
  }

  lemma ToUpperIdempotent(s: string)
    ensures ToUpper(ToUpper(s)) == ToUpper(s)
  {
  }

  /* ---------- the `in` operator ---------- */

  predicate IsPrefix(p: string, s: string) {
    |p| <= |s| && s[..|p|] == p
  }

  /** `sub in s`. */
  predicate Contains(s: string, sub: string) {
    exists i :: 0 <= i <= |s| && IsPrefix(sub, s[i..])
  }

  lemma ContainsAt(s: string, sub: string, i: nat)
    requires i + |sub| <= |s| && s[i..i + |sub|] == sub
    ensures Contains(s, sub)
  {
    assert IsPrefix(sub, s[i..]);
  }

  /** A text contains its own suffix. */
  lemma ContainsSuffix(p: string, w: string)
    ensures Contains(p + w, w)
  {
    assert (p + w)[|p|..|p| + |w|] == w;
    ContainsAt(p + w, w, |p|);
  }

  /** A substring of a substring is a substring. */
  lemma ContainsTransitive(s: string, mid: string, sub: string)
    requires Contains(s, mid) && Contains(mid, sub)
    ensures Contains(s, sub)
  {
    var i :| 0 <= i <= |s| && IsPrefix(mid, s[i..]);
    var j :| 0 <= j <= |mid| && IsPrefix(sub, mid[j..]);
    forall k | 0 <= k < |sub|
      ensures s[i + j + k] == sub[k]
    {
      assert sub[k] == mid[j..][k] == mid[j + k];
      assert mid[j + k] == s[i..][j + k];
    }
    assert s[i + j..][..|sub|] == sub;
    assert IsPrefix(sub, s[i + j..]);
  }

  /** Upper-casing keeps every occurrence of a word that has no lower-case letter. */
  lemma ContainsUpper(s: string, w: string)
    requires NoLower(w) && Contains(s, w)
    ensures Contains(ToUpper(s), w)
  {
    var i :| 0 <= i <= |s| && IsPrefix(w, s[i..]);
    var u := ToUpper(s);
    forall k | 0 <= k < |w|
      ensures u[i + k] == w[k]
    {
      assert s[i + k] == s[i..][..|w|][k];
    }
    assert u[i..][..|w|] == w;
    assert IsPrefix(w, u[i..]);
  }

  /** A string is at least as long as any string it contains. */
  lemma ContainsLength(s: string, sub: string)
    requires Contains(s, sub)
    ensures |sub| <= |s|
  {
    var i :| 0 <= i <= |s| && IsPrefix(sub, s[i..]);
  }

  /** A character of `sub` occurs in every string containing `sub`. */
  lemma ContainsChar(s: string, sub: string, c: char)
    requires Contains(s, sub) && c in sub
    ensures c in s
  {
    var i :| 0 <= i <= |s| && IsPrefix(sub, s[i..]);
    var k :| 0 <= k < |sub| && sub[k] == c;
    assert s[i + k] == s[i..][..|sub|][k];
  }

  /** A string lacking one of the characters of `sub` does not contain `sub`. */
  lemma AbsentChar(s: string, sub: string, c: char)
    requires c in sub && c !in s
    ensures !Contains(s, sub)
  {
    if Contains(s, sub) {
      ContainsChar(s, sub, c);
    }
  }

  /* ---------- replace(pat, "") ---------- */

  /**
   `s.replace(pat, "")`: scanning from the left, every occurrence of `pat`
   is deleted and the scan resumes after it; the result is not rescanned.
   */
  function RemoveAll(s: string, pat: string): (r: string)
    requires pat != []
    ensures |r| <= |s|
    decreases |s|
  {
    if s == [] then []
    else if IsPrefix(pat, s) then RemoveAll(s[|pat|..], pat)
    else [s[0]] + RemoveAll(s[1..], pat)
  }

  lemma ContainsInTail(s: string, pat: string)
    requires s != [] && Contains(s[1..], pat)
    ensures Contains(s, pat)
  {
    var i :| 0 <= i <= |s[1..]| && IsPrefix(pat, s[1..][i..]);
    assert s[i + 1..] == s[1..][i..];
  }

  lemma ContainsBeyondHead(s: string, pat: string)
    requires s != [] && !IsPrefix(pat, s) && Contains(s, pat)
    ensures Contains(s[1..], pat)
  {
    var i :| 0 <= i <= |s| && IsPrefix(pat, s[i..]);
    assert s[0..] == s;
    assert s[1..][i - 1..] == s[i..];
  }

  /** A leading occurrence of the pattern is deleted and the scan goes on after it. */
  lemma RemoveAllLeading(pat: string, rest: string)
    requires pat != []
    ensures RemoveAll(pat + rest, pat) == RemoveAll(rest, pat)
  {
    assert IsPrefix(pat, pat + rest) by { assert (pat + rest)[..|pat|] == pat; }
    assert (pat + rest)[|pat|..] == rest;
  }

  /** The removal changes the string exactly when the pattern occurs, and then shortens it. */
  lemma {:induction false} RemoveAllChangesIff(s: string, pat: string)
    requires pat != []
    ensures RemoveAll(s, pat) == s <==> !Contains(s, pat)
    ensures Contains(s, pat) ==> |RemoveAll(s, pat)| < |s|
    decreases |s|
  {
    if s == [] {
    } else if IsPrefix(pat, s) {
      assert s[0..] == s;
      assert Contains(s, pat);
    } else {
      RemoveAllChangesIff(s[1..], pat);
      if Contains(s, pat) {
        ContainsBeyondHead(s, pat);
      } else {
        if Contains(s[1..], pat) {
          ContainsInTail(s, pat);
        }
        assert [s[0]] + s[1..] == s;
      }
    }
  }

  /** Deleting a one-character pattern from `u + [c]`, where `c` is not in `u`, gives back `u`. */
  lemma {:induction false} RemoveAllTrailingChar(u: string, c: char)
    requires c !in u
    ensures RemoveAll(u + [c], [c]) == u
  {
    if u == [] {
      assert RemoveAll([c], [c]) == RemoveAll([], [c]);
    } else {
      assert (u + [c])[1..] == u[1..] + [c];
      assert !IsPrefix([c], u + [c]) by { assert (u + [c])[0] == u[0]; }
      RemoveAllTrailingChar(u[1..], c);
      assert [u[0]] + u[1..] == u;
    }
  }

  /* ---------- whitespace, strip() and split() ---------- */

  /** The characters for which Python's `str.isspace()` holds. */
  predicate IsSpace(c: char) {
    || c == ' ' || c == '\t' || c == '\n' || c == '\r'
    || c == '\U{000B}' || c == '\U{000C}'
    || ('\U{001C}' <= c <= '\U{001F}')
    || c == '\U{0085}' || c == '\U{00A0}' || c == '\U{1680}'
    || ('\U{2000}' <= c <= '\U{200A}')
    || c == '\U{2028}' || c == '\U{2029}' || c == '\U{202F}'
    || c == '\U{205F}' || c == '\U{3000}'
  }

  predicate NoSpace(s: string) {
    forall i :: 0 <= i < |s| ==> !IsSpace(s[i])
  }

  predicate AllSpace(s: string) {
    forall i :: 0 <= i < |s| ==> IsSpace(s[i])
  }

  /** `s.lstrip()`: the suffix left after the leading whitespace. */
  function LStrip(s: string): (r: string)
    ensures |r| <= |s| && r == s[|s| - |r|..]
    ensures r == [] || !IsSpace(r[0])
    decreases |s|
  {
    if s != [] && IsSpace(s[0]) then LStrip(s[1..]) else s
  }

  /** What `lstrip()` removes is whitespace only. */
  lemma {:induction false} LStripDropsSpaces(s: string)
    ensures AllSpace(s[..|s| - |LStrip(s)|])
    decreases |s|
  {
    if s != [] && IsSpace(s[0]) {
      var t := s[1..];
      LStripDropsSpaces(t);
      var j := |t| - |LStrip(t)|;
      assert |s| - |LStrip(s)| == j + 1;
      forall i | 0 <= i < j + 1
        ensures IsSpace(s[i])
      {
        if i > 0 {
          assert s[i] == t[..j][i - 1];
        }
      }
    }
  }

  /** `s.rstrip()`: the prefix left before the trailing whitespace. */
  function RStrip(s: string): (r: string)
    ensures |r| <= |s| && r == s[..|r|]
    ensures r == [] || !IsSpace(r[|r| - 1])
    decreases |s|
  {
    if s != [] && IsSpace(s[|s| - 1]) then RStrip(s[..|s| - 1]) else s
  }

  /** What `rstrip()` removes is whitespace only. */
  lemma {:induction false} RStripDropsSpaces(s: string)
    ensures AllSpace(s[|RStrip(s)|..])
    decreases |s|
  {
    if s != [] && IsSpace(s[|s| - 1]) {
      var p := s[..|s| - 1];
      RStripDropsSpaces(p);
      assert s[|RStrip(s)|..] == p[|RStrip(p)|..] + [s[|s| - 1]];
    }
  }

  /** `s.strip()`. */
  function Strip(s: string): string {
    RStrip(LStrip(s))
  }

  /** A string that neither starts nor ends with whitespace is its own strip. */
  lemma StripTrimmed(s: string)
    requires s == [] || (!IsSpace(s[0]) && !IsSpace(s[|s| - 1]))
    ensures Strip(s) == s
  {
  }

  /** The length of the leading run of non-whitespace characters. */
  function TokenEnd(t: string): (k: nat)
    ensures k <= |t|
    ensures k < |t| ==> IsSpace(t[k])
  {
    if t == [] || IsSpace(t[0]) then 0 else 1 + TokenEnd(t[1..])
  }

  /** The leading run is free of whitespace. */
  lemma {:induction false} TokenEndWord(t: string)
    ensures NoSpace(t[..TokenEnd(t)])
  {
    if t != [] && !IsSpace(t[0]) {
      TokenEndWord(t[1..]);
      assert t[..TokenEnd(t)] == [t[0]] + t[1..][..TokenEnd(t[1..])];
    }
  }

  /** `s.split()`: the maximal runs of non-whitespace characters, in order. */
  function Split(s: string): seq<string>
    decreases |s|
  {
    var t := LStrip(s);
    if t == [] then []
    else
      var k := TokenEnd(t);
      [t[..k]] + Split(t[k..])
  }

  /** Every token of a split is non-empty and free of whitespace. */
  lemma {:induction false} SplitTokensPlain(s: string)
    ensures forall k :: 0 <= k < |Split(s)| ==> Split(s)[k] != [] && NoSpace(Split(s)[k])
    decreases |s|
  {
    var t := LStrip(s);
    if t != [] {
      var k := TokenEnd(t);
      var rest := Split(t[k..]);
      TokenEndWord(t);
      SplitTokensPlain(t[k..]);
      var r := [t[..k]] + rest;
      assert Split(s) == r;
      assert k > 0;
      forall i | 0 <= i < |r|
        ensures r[i] != [] && NoSpace(r[i])
      {
        if i > 0 {
          assert r[i] == rest[i - 1];
        }
      }
    }
  }

  function Concat(ts: seq<string>): string {
    if ts == [] then [] else ts[0] + Concat(ts[1..])
  }

  /** The non-whitespace characters of `s`, in order. */
  function DropSpaces(s: string): string {
    if s == [] then [] else (if IsSpace(s[0]) then [] else [s[0]]) + DropSpaces(s[1..])
  }

  lemma {:induction false} DropSpacesAppend(a: string, b: string)
    ensures DropSpaces(a + b) == DropSpaces(a) + DropSpaces(b)
  {
    if a == [] {
      assert a + b == b;
    } else {
      assert (a + b)[1..] == a[1..] + b;
      DropSpacesAppend(a[1..], b);
    }
  }

  lemma {:induction false} DropSpacesOfSpaces(a: string)
    requires AllSpace(a)
    ensures DropSpaces(a) == []
  {
    if a != [] {
      DropSpacesOfSpaces(a[1..]);
    }
  }

  lemma {:induction false} DropSpacesOfWord(a: string)
    requires NoSpace(a)
    ensures DropSpaces(a) == a
  {
    if a != [] {
      DropSpacesOfWord(a[1..]);
      assert [a[0]] + a[1..] == a;
    }
  }

  lemma DropSpacesLStrip(s: string)
    ensures DropSpaces(LStrip(s)) == DropSpaces(s)
  {
    var j := |s| - |LStrip(s)|;
    LStripDropsSpaces(s);
    assert s == s[..j] + LStrip(s);
    DropSpacesAppend(s[..j], LStrip(s));
    DropSpacesOfSpaces(s[..j]);
  }

  lemma DropSpacesToken(t: string)
    ensures DropSpaces(t) == t[..TokenEnd(t)] + DropSpaces(t[TokenEnd(t)..])
  {
    var k := TokenEnd(t);
    TokenEndWord(t);
    assert t == t[..k] + t[k..];
    DropSpacesAppend(t[..k], t[k..]);
    DropSpacesOfWord(t[..k]);
  }

  lemma ConcatCons(x: string, rest: seq<string>)
    ensures Concat([x] + rest) == x + Concat(rest)
  {
    assert ([x] + rest)[1..] == rest;
  }

  /** Splitting loses nothing but whitespace. */
  lemma {:induction false} SplitConcat(s: string)
    ensures Concat(Split(s)) == DropSpaces(s)
    decreases |s|
  {
    var t := LStrip(s);
    DropSpacesLStrip(s);
    if t != [] {
      var k := TokenEnd(t);
      DropSpacesToken(t);
      SplitConcat(t[k..]);
      ConcatCons(t[..k], Split(t[k..]));
    }
  }

  /** The leading token of a word followed by whitespace (or nothing) is the whole word. */
  lemma {:induction false} TokenEndOfWord(w: string, rest: string)
    requires NoSpace(w) && (rest == [] || IsSpace(rest[0]))
    ensures TokenEnd(w + rest) == |w|
  {
    if w == [] {
      assert w + rest == rest;
    } else {
      assert (w + rest)[0] == w[0];
      assert (w + rest)[1..] == w[1..] + rest;
      TokenEndOfWord(w[1..], rest);
    }
  }

  /** A word on its own is a single token. */
  lemma SplitWord(w: string)
    requires w != [] && NoSpace(w)
    ensures Split(w) == [w]
  {
    assert LStrip(w) == w;
    TokenEndOfWord(w, []);
    assert w + [] == w;
    assert w[..|w|] == w && w[|w|..] == [];
  }

  /** Splitting depends only on what is left after the leading whitespace. */
  lemma SplitAfterLStrip(x: string, y: string)
    requires LStrip(x) == LStrip(y)
    ensures Split(x) == Split(y)
  {
  }

  /** A string that starts with a word followed by whitespace splits into that word and the rest. */
  lemma SplitLeadingWord(w: string, rest: string)
    requires w != [] && NoSpace(w) && rest != [] && IsSpace(rest[0])
    ensures Split(w + rest) == [w] + Split(rest)
  {
    var s := w + rest;
    assert LStrip(s) == s by { assert s[0] == w[0]; }
    TokenEndOfWord(w, rest);
    assert s[..|w|] == w && s[|w|..] == rest;
  }

  /** Whitespace followed by one word splits into that word alone. */
  lemma SplitSpacedWord(sp: char, b: string)
    requires IsSpace(sp) && b != [] && NoSpace(b)
    ensures Split([sp] + b) == [b]
  {
    var rest := [sp] + b;
    assert LStrip(rest) == LStrip(b) by { assert rest[1..] == b; }
    SplitAfterLStrip(rest, b);
    SplitWord(b);
  }

  /** Two words joined by one whitespace character split into exactly those two words. */
  lemma SplitPair(a: string, sp: char, b: string)
    requires a != [] && NoSpace(a) && IsSpace(sp) && b != [] && NoSpace(b)
    ensures Split(a + ([sp] + b)) == [a, b]
  {
    SplitLeadingWord(a, [sp] + b);
    SplitSpacedWord(sp, b);
  }
}
