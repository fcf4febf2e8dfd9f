/** The Python string built-ins the core relies on (str.strip, str.lstrip, str.split,
    str.join, str.replace, str.startswith and the `in` operator), as functions on
    sequences of Unicode scalar values, with the facts the other modules need. */
module Text {

  /** Python's str.isspace(): the characters str.strip() removes and the regular
      expression class \s matches on str patterns. */
  predicate IsSpace(c: char) {
    || ('\t' <= c <= '\r')
    || ('\U{1C}' <= c <= ' ')
    || c == '\U{85}' || c == '\U{A0}' || c == '\U{1680}'
    || ('\U{2000}' <= c <= '\U{200A}')
    || c == '\U{2028}' || c == '\U{2029}' || c == '\U{202F}' || c == '\U{205F}' || c == '\U{3000}'
  }

  predicate AllSpace(s: string) {
    forall k :: 0 <= k < |s| ==> IsSpace(s[k])
  }

  /** Concatenation is associative; stated as a lemma so that proofs can name the step. */
  lemma AppendAssoc<T>(a: seq<T>, b: seq<T>, c: seq<T>)
    ensures a + (b + c) == (a + b) + c
  {
  }

  /** Python's s.strip(): leading and trailing whitespace removed. */
  function Strip(s: string): string
    decreases |s|
  {
    if s != [] && IsSpace(s[0]) then Strip(s[1..])
    else if s != [] && IsSpace(s[|s| - 1]) then Strip(s[..|s| - 1])
    else s
  }

  /** The number of leading characters s.strip() removes. */
  function StripOffset(s: string): nat
    decreases |s|
  {
    if s != [] && IsSpace(s[0]) then 1 + StripOffset(s[1..]) else 0
  }

  /** Character by character, s.strip() is s from StripOffset(s) on. */
  lemma {:induction false} StripKept(s: string)
    ensures StripOffset(s) + |Strip(s)| <= |s|
    ensures forall k :: 0 <= k < |Strip(s)| ==> Strip(s)[k] == s[StripOffset(s) + k]
    decreases |s|
  {
    if s != [] && IsSpace(s[0]) {
      StripKept(s[1..]);
    } else if s != [] && IsSpace(s[|s| - 1]) {
      StripKept(s[..|s| - 1]);
    }
  }

  /** Everything s.strip() removes is whitespace. */
  lemma {:induction false} StripRemoved(s: string)
    ensures StripOffset(s) + |Strip(s)| <= |s|
    ensures forall k :: 0 <= k < |s| && !(StripOffset(s) <= k < StripOffset(s) + |Strip(s)|) ==> IsSpace(s[k])
    decreases |s|
  {
    StripKept(s);
    if s != [] && IsSpace(s[0]) {
      StripRemoved(s[1..]);
    } else if s != [] && IsSpace(s[|s| - 1]) {
      StripRemoved(s[..|s| - 1]);
    }
  }

  /** s.strip() has no whitespace at either end. */
  lemma {:induction false} StripEnds(s: string)
    ensures Strip(s) == [] || (!IsSpace(Strip(s)[0]) && !IsSpace(Strip(s)[|Strip(s)| - 1]))
    decreases |s|
  {
    if s != [] && IsSpace(s[0]) {
      StripEnds(s[1..]);
    } else if s != [] && IsSpace(s[|s| - 1]) {
      StripEnds(s[..|s| - 1]);
    }
  }

  /** s.strip() is the stretch of `s` left between a whitespace prefix and a whitespace
      suffix, and it has no whitespace at either end. */
  lemma StripSpec(s: string)
    ensures var r, a := Strip(s), StripOffset(s);
      a + |r| <= |s| && r == s[a..a + |r|] && AllSpace(s[..a]) && AllSpace(s[a + |r|..])
    ensures var r := Strip(s); r == [] || (!IsSpace(r[0]) && !IsSpace(r[|r| - 1]))
  {
    StripKept(s);
    StripRemoved(s);
    StripEnds(s);
    var r, a := Strip(s), StripOffset(s);
    assert r == s[a..a + |r|];
    var u := s[a + |r|..];
    assert AllSpace(u) by {
      forall k | 0 <= k < |u| ensures IsSpace(u[k]) {
        assert u[k] == s[a + |r| + k];
      }
    }
  }

  /** A string with no whitespace at either end is its own strip. */
  lemma StrippedIsFixed(s: string)
    requires s == [] || (!IsSpace(s[0]) && !IsSpace(s[|s| - 1]))
    ensures Strip(s) == s
  {
  }

  /** A string of whitespace strips to nothing. */
  lemma {:induction false} StripBlank(s: string)
    requires AllSpace(s)
    ensures Strip(s) == []
    decreases |s|
  {
    if s != [] {
      assert IsSpace(s[0]);
      var t := s[1..];
      assert AllSpace(t) by {
        forall k | 0 <= k < |t| ensures IsSpace(t[k]) {
          assert t[k] == s[k + 1];
        }
      }
      StripBlank(t);
    }
  }

  /** Python's s.lstrip(chars). */
  function LStripChars(s: string, chars: set<char>): (r: string)
    ensures |r| <= |s| && r == s[|s| - |r|..]
    ensures forall k :: 0 <= k < |s| - |r| ==> s[k] in chars
    ensures r == [] || r[0] !in chars
    decreases |s|
  {
    if s != [] && s[0] in chars then LStripChars(s[1..], chars) else s
  }

  /** Python's s.startswith(p). */
  predicate StartsWith(s: string, p: string) {
    |p| <= |s| && s[..|p|] == p
  }

  /** Python's `p in s` on strings. */
  predicate Contains(s: string, p: string)
    decreases |s|
  {
    StartsWith(s, p) || (s != [] && Contains(s[1..], p))
  }

  lemma {:induction false} ContainsAt(s: string, p: string, i: nat)
    requires i + |p| <= |s| && s[i..i + |p|] == p
    ensures Contains(s, p)
    decreases i
  {
    if i > 0 {
      assert s[1..][i - 1..i - 1 + |p|] == s[i..i + |p|];
      ContainsAt(s[1..], p, i - 1);
    }
  }

  lemma {:induction false} ContainsIndex(s: string, p: string) returns (i: nat)
    requires Contains(s, p)
    ensures i + |p| <= |s| && s[i..i + |p|] == p
    decreases |s|
  {
    if StartsWith(s, p) {
      i := 0;
    } else {
      var j := ContainsIndex(s[1..], p);
      i := j + 1;
      assert s[i..i + |p|] == s[1..][j..j + |p|];
    }
  }

  /** What occurs in a piece of a string occurs in the whole string. */
  lemma ContainsInfix(x: string, y: string, z: string, p: string)
    requires Contains(y, p)
    ensures Contains(x + y + z, p)
  {
    var i := ContainsIndex(y, p);
    assert (x + y + z)[|x| + i..|x| + i + |p|] == y[i..i + |p|];
    ContainsAt(x + y + z, p, |x| + i);
  }

  /** What does not occur in a string does not occur in any of its suffixes. */
  lemma ContainsSuffix(s: string, k: nat, p: string)
    requires k <= |s| && !Contains(s, p)
    ensures !Contains(s[k..], p)
  {
    if Contains(s[k..], p) {
      assert s[..k] + s[k..] + [] == s;
      ContainsInfix(s[..k], s[k..], [], p);
      assert false;
    }
  }

  /** An occurrence of `p` cannot straddle a character that `p` does not hold. */
  lemma ContainsAcross(x: string, c: char, y: string, p: string)
    requires c !in p
    requires Contains(x + [c] + y, p)
    ensures Contains(x, p) || Contains(y, p)
  {
    var s := x + [c] + y;
    var i := ContainsIndex(s, p);
    if i + |p| <= |x| {
      assert x[i..i + |p|] == s[i..i + |p|];
      ContainsAt(x, p, i);
    } else if i > |x| {
      assert y[i - |x| - 1..i - |x| - 1 + |p|] == s[i..i + |p|];
      ContainsAt(y, p, i - |x| - 1);
    } else {
      ElemIn(p, |x| - i);
      assert false;
    }
  }

  lemma ElemIn<T>(s: seq<T>, k: int)
    ensures 0 <= k < |s| ==> s[k] in s
  {
  }

  lemma ContainsChar(s: string, c: char)
    ensures Contains(s, [c]) <==> c in s
  {
    if c in s {
      var k :| 0 <= k < |s| && s[k] == c;
      assert s[k..k + 1] == [c];
      ContainsAt(s, [c], k);
    }
    if Contains(s, [c]) {
      var i := ContainsIndex(s, [c]);
      assert s[i] == s[i..i + 1][0] == c;
    }
  }

  /** Python's s.split(sep) for a one-character separator. */
  function SplitOn(s: string, sep: char): (r: seq<string>)
    ensures |r| >= 1
    ensures forall k :: 0 <= k < |r| ==> sep !in r[k]
    decreases |s|
  {
    if s == [] then [[]]
    else
      var rest := SplitOn(s[1..], sep);
      if s[0] == sep then [[]] + rest
      else [[s[0]] + rest[0]] + rest[1..]
  }

  /** Python's sep.join(xs) for a one-character separator. */
  function JoinWith(xs: seq<string>, sep: char): string
    decreases |xs|
  {
    if xs == [] then []
    else if |xs| == 1 then xs[0]
    else xs[0] + [sep] + JoinWith(xs[1..], sep)
  }

  /** Joining the pieces of a split gives back the string. */
  lemma {:induction false} JoinSplitOn(s: string, sep: char)
    ensures JoinWith(SplitOn(s, sep), sep) == s
    decreases |s|
  {
    if s != [] {
      JoinSplitOn(s[1..], sep);
      var rest := SplitOn(s[1..], sep);
      if s[0] == sep {
        assert ([[]] + rest)[1..] == rest;
        assert JoinWith([[]] + rest, sep) == [] + [sep] + JoinWith(rest, sep);
        assert s == [sep] + s[1..];
      } else {
        var r := [[s[0]] + rest[0]] + rest[1..];
        if |rest| > 1 {
          assert r[1..] == rest[1..];
          assert JoinWith(r, sep) == [s[0]] + (rest[0] + [sep] + JoinWith(rest[1..], sep));
        }
        assert s == [s[0]] + s[1..];
      }
    }
  }

  lemma {:induction false} SplitOnPrefix(x: string, tail: string, sep: char)
    requires sep !in x
    ensures var t := SplitOn(tail, sep);
      SplitOn(x + tail, sep) == [x + t[0]] + t[1..]
    decreases |x|
  {
    if x != [] {
      var t := SplitOn(tail, sep);
      assert (x + tail)[1..] == x[1..] + tail;
      SplitOnPrefix(x[1..], tail, sep);
      assert x[0] in x;
      var rest := SplitOn(x[1..] + tail, sep);
      assert rest == [x[1..] + t[0]] + t[1..];
      assert [x[0]] + rest[0] == x + t[0];
    } else {
      var t := SplitOn(tail, sep);
      assert x + tail == tail;
      assert [] + t[0] == t[0];
      assert t == [t[0]] + t[1..];
    }
  }

  /** Splitting a join of separator-free pieces gives back the pieces. */
  lemma {:induction false} SplitOnJoin(xs: seq<string>, sep: char)
    requires |xs| >= 1
    requires forall k :: 0 <= k < |xs| ==> sep !in xs[k]
    ensures SplitOn(JoinWith(xs, sep), sep) == xs
    decreases |xs|
  {
    if |xs| == 1 {
      SplitOnPrefix(xs[0], [], sep);
      var t := SplitOn([], sep);
      assert t == [[]];
      assert xs[0] + [] == xs[0] + t[0] == xs[0];
      assert xs == [xs[0]] + t[1..];
      assert SplitOn(xs[0] + [], sep) == [xs[0]];
      assert JoinWith(xs, sep) == xs[0];
    } else {
      var rest := JoinWith(xs[1..], sep);
      SplitOnJoin(xs[1..], sep);
      assert xs[0] + [sep] + rest == xs[0] + ([sep] + rest);
      SplitOnPrefix(xs[0], [sep] + rest, sep);
      assert ([sep] + rest)[1..] == rest;
      var u := SplitOn([sep] + rest, sep);
      assert u == [[]] + xs[1..];
      assert u[1..] == xs[1..];
      assert xs[0] + u[0] == xs[0];
      assert xs == [xs[0]] + xs[1..];
    }
  }

  /** A pattern free of the separator occurs in a join only inside one piece. */
  lemma {:induction false} JoinKeepsOut(xs: seq<string>, sep: char, p: string)
    requires p != [] && sep !in p
    requires forall k :: 0 <= k < |xs| ==> !Contains(xs[k], p)
    ensures !Contains(JoinWith(xs, sep), p)
    decreases |xs|
  {
    if xs == [] {
    } else if |xs| > 1 {
      JoinKeepsOut(xs[1..], sep, p);
      if Contains(JoinWith(xs, sep), p) {
        ContainsAcross(xs[0], sep, JoinWith(xs[1..], sep), p);
      }
    }
  }

  /** Python's s.replace(pat, rep) for a non-empty pattern: occurrences are found left
      to right and do not overlap. */
  function ReplaceAll(s: string, pat: string, rep: string): string
    requires pat != []
    decreases |s|
  {
    if s == [] then []
    else if StartsWith(s, pat) then rep + ReplaceAll(s[|pat|..], pat, rep)
    else [s[0]] + ReplaceAll(s[1..], pat, rep)
  }

  lemma {:induction false} ForeignPrefix(u: string, t: string, p: string)
    requires p != []
    requires forall c :: c in u ==> c !in p
    requires !Contains(t, p)
    ensures !Contains(u + t, p)
    decreases |u|
  {
    if u == [] {
      assert u + t == t;
    } else {
      assert (u + t)[1..] == u[1..] + t;
      ForeignPrefix(u[1..], t, p);
      assert u[0] in u && p[0] in p;
      assert !StartsWith(u + t, p);
    }
  }

  lemma {:induction false} ReplacedPrefix(x: string, w: string, pat: string, rep: string)
    requires pat != [] && rep != []
    requires forall c :: c in rep ==> c !in pat
    requires forall c :: c in w ==> c in pat
    requires StartsWith(ReplaceAll(x, pat, rep), w)
    ensures StartsWith(x, w)
    decreases |x|
  {
    if w != [] && x != [] {
      if StartsWith(x, pat) {
        ElemIn(w, 0);
        ElemIn(rep, 0);
        assert false;
      } else {
        var r := ReplaceAll(x[1..], pat, rep);
        assert ReplaceAll(x, pat, rep) == [x[0]] + r;
        assert StartsWith(r, w[1..]);
        ReplacedPrefix(x[1..], w[1..], pat, rep);
        assert x == [x[0]] + x[1..] && w == [w[0]] + w[1..];
      }
    }
  }

  /** After a replacement whose text shares no character with the pattern, the pattern
      no longer occurs. */
  lemma {:induction false} ReplaceAllRemoves(s: string, pat: string, rep: string)
    requires pat != [] && rep != []
    requires forall c :: c in rep ==> c !in pat
    ensures !Contains(ReplaceAll(s, pat, rep), pat)
    decreases |s|
  {
    if s == [] {
    } else if StartsWith(s, pat) {
      ReplaceAllRemoves(s[|pat|..], pat, rep);
      ForeignPrefix(rep, ReplaceAll(s[|pat|..], pat, rep), pat);
    } else {
      var r := ReplaceAll(s[1..], pat, rep);
      ReplaceAllRemoves(s[1..], pat, rep);
      assert ([s[0]] + r)[1..] == r;
      if StartsWith([s[0]] + r, pat) {
        assert pat[0] == s[0];
        assert StartsWith(r, pat[1..]);
        ReplacedPrefix(s[1..], pat[1..], pat, rep);
        assert false;
      }
    }
  }

  /** A replacement introduces no character other than those of its replacement text. */
  lemma {:induction false} ReplaceAllChars(s: string, pat: string, rep: string, c: char)
    requires pat != []
    requires c !in s && c !in rep
    ensures c !in ReplaceAll(s, pat, rep)
    decreases |s|
  {
    if s != [] {
      if StartsWith(s, pat) {
        ReplaceAllChars(s[|pat|..], pat, rep, c);
      } else {
        ReplaceAllChars(s[1..], pat, rep, c);
      }
    }
  }

  /** Replacing one character by another is a character-by-character substitution. */
  lemma {:induction false} ReplaceCharAt(s: string, c: char, d: char)
    ensures |ReplaceAll(s, [c], [d])| == |s|
    ensures forall i :: 0 <= i < |s| ==> ReplaceAll(s, [c], [d])[i] == (if s[i] == c then d else s[i])
    decreases |s|
  {
    if s != [] {
      ReplaceCharAt(s[1..], c, d);
      var r := ReplaceAll(s[1..], [c], [d]);
      if s[0] == c {
        assert StartsWith(s, [c]) && s[1..] == s[|[c]|..];
        assert ReplaceAll(s, [c], [d]) == [d] + r;
      } else {
        assert !StartsWith(s, [c]);
        assert ReplaceAll(s, [c], [d]) == [s[0]] + r;
      }
    }
  }

  /** An occurrence of `p` after replacing a character by one that `p` does not hold
      was already there. */
  lemma ReplaceCharFrom(s: string, c: char, d: char, p: string)
    requires d !in p && Contains(ReplaceAll(s, [c], [d]), p)
    ensures Contains(s, p)
  {
    var r := ReplaceAll(s, [c], [d]);
    ReplaceCharAt(s, c, d);
    var i := ContainsIndex(r, p);
    forall j | 0 <= j < |p| ensures s[i + j] == p[j] {
      assert r[i + j] == r[i..i + |p|][j];
      assert p[j] in p;
    }
    assert s[i..i + |p|] == p;
    ContainsAt(s, p, i);
  }

  /** Replacing a character by one that `p` does not hold cannot create an occurrence
      of `p`. */
  lemma ReplaceCharKeepsOut(s: string, c: char, d: char, p: string)
    requires d !in p && !Contains(s, p)
    ensures !Contains(ReplaceAll(s, [c], [d]), p)
  {
    if Contains(ReplaceAll(s, [c], [d]), p) {
      ReplaceCharFrom(s, c, d, p);
      assert false;
    }
  }

  /** Replacing a character the string does not hold changes nothing. */
  lemma ReplaceCharAbsent(s: string, c: char, d: char)
    requires c !in s
    ensures ReplaceAll(s, [c], [d]) == s
  {
    ReplaceCharAt(s, c, d);
  }

  /** A single-character replacement works on the parts of a concatenation separately. */
  lemma ReplaceCharConcat(x: string, y: string, c: char, d: char)
    ensures ReplaceAll(x + y, [c], [d]) == ReplaceAll(x, [c], [d]) + ReplaceAll(y, [c], [d])
  {
    ReplaceCharAt(x + y, c, d);
    ReplaceCharAt(x, c, d);
    ReplaceCharAt(y, c, d);
    var l, r := ReplaceAll(x + y, [c], [d]), ReplaceAll(x, [c], [d]) + ReplaceAll(y, [c], [d]);
    forall i | 0 <= i < |l| ensures l[i] == r[i] {
      if i >= |x| {
        assert (x + y)[i] == y[i - |x|];
      }
    }
  }

  /** What occurs in the strip of a string occurs in the string. */
  lemma StripInfix(s: string, p: string)
    requires Contains(Strip(s), p)
    ensures Contains(s, p)
  {
    var r, a := Strip(s), StripOffset(s);
    StripSpec(s);
    ContainsInfix(s[..a], r, s[a + |r|..], p);
    assert s[..a] + r + s[a + |r|..] == s;
  }

  /** A character of the strip of a string is a character of the string. */
  lemma StripChars(s: string, c: char)
    requires c in Strip(s)
    ensures c in s
  {
    ContainsChar(Strip(s), c);
    StripInfix(s, [c]);
    ContainsChar(s, c);
  }

  /** A string that ends in a non-space character keeps it as the last character of its
      strip. */
  lemma StripLast(s: string)
    requires s != [] && !IsSpace(s[|s| - 1])
    ensures Strip(s) != [] && Strip(s)[|Strip(s)| - 1] == s[|s| - 1]
  {
    var r, a := Strip(s), StripOffset(s);
    StripSpec(s);
    assert s[..a] + r + s[a + |r|..] == s;
  }

  /** The first character of a join is that of its first piece, the last that of its
      last piece. */
  lemma {:induction false} JoinEnds(xs: seq<string>, sep: char)
    requires |xs| >= 1 && xs[0] != [] && xs[|xs| - 1] != []
    ensures JoinWith(xs, sep) != [] && JoinWith(xs, sep)[0] == xs[0][0]
    ensures var j := JoinWith(xs, sep); j[|j| - 1] == xs[|xs| - 1][|xs[|xs| - 1]| - 1]
    decreases |xs|
  {
    if |xs| > 1 {
      var rest := xs[1..];
      if |rest| > 1 || rest[0] != [] {
        assert rest[|rest| - 1] == xs[|xs| - 1];
        if rest[0] != [] {
          JoinEnds(rest, sep);
        } else {
          assert |rest| > 1;
          JoinLastOnly(rest, sep);
        }
      }
    }
  }

  /** The last character of a join of pieces whose last is non-empty. */
  lemma {:induction false} JoinLastOnly(xs: seq<string>, sep: char)
    requires |xs| >= 1 && xs[|xs| - 1] != []
    ensures var j := JoinWith(xs, sep); j != [] && j[|j| - 1] == xs[|xs| - 1][|xs[|xs| - 1]| - 1]
    decreases |xs|
  {
    if |xs| > 1 {
      JoinLastOnly(xs[1..], sep);
    }
  }
}
