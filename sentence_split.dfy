/** The two regular expressions format_doctor_reply applies: re.sub(r'(\d)\.(\d)',
    r'\1<dot>\2', t), which shields the points of decimal numbers behind a sentinel, and
    re.split(r'(?<=[.!?])\s+', t), which cuts a text into sentences. `\d` is taken as the
    ASCII digits and `\s` as the characters of Python's str.isspace(). */
module SentenceSplit {
  import opened Wrappers
  import opened Text

  predicate IsDigit(c: char) {
    '0' <= c <= '9'
  }

  /** The characters the look-behind (?<=[.!?]) accepts. */
  predicate IsTerminator(c: char) {
    c == '.' || c == '!' || c == '?'
  }

  /** The text that stands in for a decimal point while the text is split. */
  const Sentinel: string := "<dot>"

  // ------------------------------------------------------- decimal points

  /** The pattern (\d)\.(\d) matches at the start of t. */
  predicate DecimalAt(t: string) {
    |t| >= 3 && IsDigit(t[0]) && t[1] == '.' && IsDigit(t[2])
  }

  /** re.sub(r'(\d)\.(\d)', r'\1<dot>\2', t): matches are tried left to right, and after a
      match the scan resumes behind its second digit, so "1.2.3" becomes "1<dot>2.3". */
  function ProtectDecimals(t: string): (r: string)
    ensures |r| >= |t|
    ensures '.' !in t ==> r == t
    decreases |t|
  {
    if DecimalAt(t) then
      [t[0]] + Sentinel + [t[2]] + ProtectDecimals(t[3..])
    else if t == [] then []
    else [t[0]] + ProtectDecimals(t[1..])
  }

  /** s.replace("<dot>", "."). */
  function Restore(s: string): string {
    ReplaceAll(s, Sentinel, ".")
  }

  /** The protected text starts with the same character as the text. */
  lemma ProtectFirst(t: string)
    requires t != []
    ensures ProtectDecimals(t) != [] && ProtectDecimals(t)[0] == t[0]
  {
  }

  /** A protected text ending in a non-digit ends in the same character. */
  lemma {:induction false} ProtectLast(t: string)
    requires t != [] && !IsDigit(t[|t| - 1])
    ensures ProtectDecimals(t) != [] && ProtectDecimals(t)[|ProtectDecimals(t)| - 1] == t[|t| - 1]
    decreases |t|
  {
    if DecimalAt(t) {
      ProtectLast(t[3..]);
    } else if |t| > 1 {
      ProtectLast(t[1..]);
    }
  }

  /** A digit-free prefix of the protected text is a prefix of the text. */
  lemma {:induction false} ProtectPlainPrefix(t: string, w: string)
    requires forall c :: c in w ==> !IsDigit(c)
    requires StartsWith(ProtectDecimals(t), w)
    ensures StartsWith(t, w)
    decreases |t|
  {
    if w != [] {
      var p := ProtectDecimals(t);
      assert t != [];
      ProtectFirst(t);
      assert w[0] in w && p[..|w|][0] == p[0];
      assert !DecimalAt(t);
      assert p == [t[0]] + ProtectDecimals(t[1..]);
      assert forall c :: c in w[1..] ==> c in w;
      assert p[1..][..|w| - 1] == w[1..];
      ProtectPlainPrefix(t[1..], w[1..]);
      assert t[..|w|] == [t[0]] + t[1..][..|w| - 1];
    }
  }

  /** A text whose first character differs from that of p does not start with p. */
  lemma NotStartsWith(s: string, p: string)
    requires s != [] && p != [] && s[0] != p[0]
    ensures !StartsWith(s, p)
  {
    if |p| <= |s| {
      assert s[..|p|][0] == s[0];
    }
  }

  /** Restoring the sentinel of a protected decimal point gives the point back. */
  lemma RestoreDecimal(t: string)
    requires DecimalAt(t)
    ensures Restore(ProtectDecimals(t)) == [t[0]] + "." + [t[2]] + Restore(ProtectDecimals(t[3..]))
  {
    var rest := ProtectDecimals(t[3..]);
    var p := [t[0]] + Sentinel + [t[2]] + rest;
    assert ProtectDecimals(t) == p;
    NotStartsWith(p, Sentinel);
    assert p[1..] == Sentinel + ([t[2]] + rest);
    assert p[1..][|Sentinel|..] == [t[2]] + rest;
    NotStartsWith([t[2]] + rest, Sentinel);
    assert ([t[2]] + rest)[1..] == rest;
    assert Restore(p) == [p[0]] + Restore(p[1..]);
    assert Restore(p[1..]) == "." + Restore([t[2]] + rest);
  }

  /** Outside a decimal match, a character is kept as it is, unless it starts the
      sentinel in the text itself. */
  lemma RestorePlain(t: string)
    requires t != [] && !DecimalAt(t) && !StartsWith(t, Sentinel)
    ensures Restore(ProtectDecimals(t)) == [t[0]] + Restore(ProtectDecimals(t[1..]))
  {
    var rest := ProtectDecimals(t[1..]);
    var p := [t[0]] + rest;
    assert ProtectDecimals(t) == p;
    if StartsWith(p, Sentinel) {
      ProtectSentinelStart(t);
      assert false;
    }
    assert p[1..] == rest;
  }

  /** Protection creates no sentinel at the start of a text without a decimal match
      there: such a sentinel was in the text already. */
  lemma ProtectSentinelStart(t: string)
    requires t != [] && !DecimalAt(t) && StartsWith(ProtectDecimals(t), Sentinel)
    ensures StartsWith(t, Sentinel)
  {
    var rest := ProtectDecimals(t[1..]);
    var p := [t[0]] + rest;
    assert ProtectDecimals(t) == p;
    assert StartsWith(rest, "dot>") by {
      assert rest[..4] == p[1..5];
    }
    ProtectPlainPrefix(t[1..], "dot>");
    assert t[..5] == [t[0]] + t[1..][..4];
  }

  /** Restoring the sentinels of a protected text gives the text back, provided the text
      does not itself contain the sentinel. */
  lemma {:induction false} RestoreProtect(t: string)
    requires !Contains(t, Sentinel)
    ensures Restore(ProtectDecimals(t)) == t
    decreases |t|
  {
    if DecimalAt(t) {
      ContainsSuffix(t, 3, Sentinel);
      RestoreProtect(t[3..]);
      RestoreDecimal(t);
      assert t == [t[0]] + "." + [t[2]] + t[3..];
    } else if t != [] {
      ContainsSuffix(t, 1, Sentinel);
      RestoreProtect(t[1..]);
      RestorePlain(t);
      assert t == [t[0]] + t[1..];
    }
  }

  /** Whitespace is never part of a decimal match. */
  lemma {:induction false} ProtectSpaces(g: string, rest: string)
    requires AllSpace(g)
    ensures ProtectDecimals(g + rest) == g + ProtectDecimals(rest)
    decreases |g|
  {
    if g != [] {
      var h, g1 := [g[0]], g[1..];
      assert AllSpace(g1) by {
        forall k | 0 <= k < |g1| ensures IsSpace(g1[k]) {
          assert g1[k] == g[k + 1];
        }
      }
      ProtectSpaces(g1, rest);
      assert g == h + g1;
      AppendAssoc(h, g1, rest);
      var t := g1 + rest;
      assert (h + t)[0] == g[0] && (h + t)[1..] == t;
      assert !DecimalAt(h + t);
      AppendAssoc(h, g1, ProtectDecimals(rest));
    } else {
      assert g + rest == rest;
    }
  }

  /** A decimal match at the start of x is one at the start of x + y. */
  lemma ProtectConcatDecimal(x: string, y: string)
    requires DecimalAt(x)
    ensures ProtectDecimals(x + y) == [x[0]] + Sentinel + [x[2]] + ProtectDecimals(x[3..] + y)
  {
    var xy := x + y;
    assert xy[..3] == x[..3];
    assert xy[3..] == x[3..] + y;
  }

  /** No decimal match at the start of x, and y starting with neither a digit nor a
      point: none at the start of x + y either. */
  lemma PlainHead(x: string, y: string)
    requires x != [] && !DecimalAt(x)
    requires y == [] || (!IsDigit(y[0]) && y[0] != '.')
    ensures x + y != [] && !DecimalAt(x + y)
    ensures (x + y)[0] == x[0] && (x + y)[1..] == x[1..] + y
  {
    var xy := x + y;
    if |x| >= 3 {
      assert xy[..3] == x[..3];
    }
    assert xy[1..] == x[1..] + y;
  }

  /** So protecting x + y starts by copying the first character of x. */
  lemma ProtectConcatPlain(x: string, y: string)
    requires x != [] && !DecimalAt(x)
    requires y == [] || (!IsDigit(y[0]) && y[0] != '.')
    ensures ProtectDecimals(x + y) == [x[0]] + ProtectDecimals(x[1..] + y)
  {
    PlainHead(x, y);
  }

  /** A decimal match cannot reach into a suffix that starts with neither a digit nor a
      point, so the two parts are protected separately. */
  lemma {:induction false} ProtectConcat(x: string, y: string)
    requires y == [] || (!IsDigit(y[0]) && y[0] != '.')
    ensures ProtectDecimals(x + y) == ProtectDecimals(x) + ProtectDecimals(y)
    decreases |x|
  {
    if x == [] {
      assert x + y == y;
    } else {
      var h, a, b;
      if DecimalAt(x) {
        h, a, b := [x[0]] + Sentinel + [x[2]], ProtectDecimals(x[3..]), ProtectDecimals(y);
        ProtectConcat(x[3..], y);
        ProtectConcatDecimal(x, y);
      } else {
        h, a, b := [x[0]], ProtectDecimals(x[1..]), ProtectDecimals(y);
        ProtectConcat(x[1..], y);
        ProtectConcatPlain(x, y);
      }
      AppendAssoc(h, a, b);
    }
  }

  // ------------------------------------------------------- sentence split

  /** Position j of t is where (?<=[.!?])\s+ can match: after a terminator, on a space. */
  predicate SplitAt(t: string, j: int) {
    0 < j < |t| && IsTerminator(t[j - 1]) && IsSpace(t[j])
  }

  /** No match of the pattern can start inside t. */
  predicate NoSplitPoint(t: string) {
    forall j :: 0 < j < |t| ==> !SplitAt(t, j)
  }

  /** The end of the run of whitespace starting at position p. */
  function RunEnd(t: string, p: nat): (e: nat)
    requires p <= |t|
    ensures p <= e <= |t| && AllSpace(t[p..e]) && (e == |t| || !IsSpace(t[e]))
    decreases |t| - p
  {
    if p < |t| && IsSpace(t[p]) then
      var e := RunEnd(t, p + 1);
      assert t[p..e] == [t[p]] + t[p + 1..e];
      e
    else p
  }

  /** The first match at or after position p: the leftmost split point and the end of
      the (greedy) whitespace run it starts. */
  function MatchFrom(t: string, p: nat): (r: Option<(nat, nat)>)
    requires p <= |t|
    ensures r.None? ==> forall j :: p <= j ==> !SplitAt(t, j)
    ensures r.Some? ==> p <= r.value.0 && SplitAt(t, r.value.0) && r.value.1 == RunEnd(t, r.value.0)
    ensures r.Some? ==> forall j :: p <= j < r.value.0 ==> !SplitAt(t, j)
    decreases |t| - p
  {
    if p == |t| then None
    else if SplitAt(t, p) then Some((p, RunEnd(t, p)))
    else MatchFrom(t, p + 1)
  }

  /** re.split(r'(?<=[.!?])\s+', t): the text between matches, matches excluded. The
      search after a match resumes at its end, where the look-behind sees whitespace, so
      continuing on the rest of the text alone finds the same matches. */
  function SplitSentences(t: string): (r: seq<string>)
    ensures |r| >= 1
    decreases |t|
  {
    match MatchFrom(t, 0)
    case None => [t]
    case Some((p, e)) => [t[..p]] + SplitSentences(t[e..])
  }

  /** The whitespace runs the split removes, one per cut. */
  function Gaps(t: string): (r: seq<string>)
    ensures |r| == |SplitSentences(t)| - 1
    decreases |t|
  {
    match MatchFrom(t, 0)
    case None => []
    case Some((p, e)) => [t[p..e]] + Gaps(t[e..])
  }

  /** Pieces and gaps put back together. */
  function Interleave(ps: seq<string>, gs: seq<string>): string
    requires |ps| == |gs| + 1
    decreases |gs|
  {
    if gs == [] then ps[0] else ps[0] + gs[0] + Interleave(ps[1..], gs[1..])
  }

  /** What a split of a text into sentences `ps` and whitespace gaps `gs` must look
      like: no piece holds a place the pattern matches, every gap is a non-empty run of
      whitespace that follows a piece ending in a terminator and that is not followed by
      more whitespace. */
  predicate ValidSplit(ps: seq<string>, gs: seq<string>)
    decreases |gs|
  {
    |ps| == |gs| + 1 && NoSplitPoint(ps[0])
    && (gs != [] ==>
      ps[0] != [] && IsTerminator(ps[0][|ps[0]| - 1])
      && gs[0] != [] && AllSpace(gs[0])
      && (ps[1] == [] || !IsSpace(ps[1][0]))
      && ValidSplit(ps[1..], gs[1..]))
  }

  /** The split cuts the text into pieces and gaps of the required shape, and they put
      back together to the text. */
  lemma {:induction false} SplitSpec(t: string)
    ensures ValidSplit(SplitSentences(t), Gaps(t))
    ensures Interleave(SplitSentences(t), Gaps(t)) == t
    decreases |t|
  {
    match MatchFrom(t, 0)
    case None =>
    case Some((p, e)) =>
      var rest := t[e..];
      SplitSpec(rest);
      var ps, gs := SplitSentences(t), Gaps(t);
      assert ps[1..] == SplitSentences(rest) && gs[1..] == Gaps(rest);
      assert ps[0] == t[..p] && gs[0] == t[p..e];
      forall j ensures !SplitAt(ps[0], j) {
        if SplitAt(ps[0], j) {
          assert SplitAt(t, j);
          assert false;
        }
      }
      assert ps[1] == [] || ps[1][0] == rest[0] by {
        SplitHead(rest);
      }
      assert t == t[..p] + t[p..e] + rest;
  }

  /** The first piece of a split starts the text. */
  lemma SplitHead(t: string)
    ensures var p := SplitSentences(t)[0]; |p| <= |t| && p == t[..|p|]
  {
  }

  /** A text with no split point is not cut. */
  lemma NoCut(t: string)
    requires NoSplitPoint(t)
    ensures SplitSentences(t) == [t] && Gaps(t) == []
  {
  }

  /** The first cut of x + g + y falls exactly on g when x ends in a terminator and has
      no split point, g is whitespace, and y does not start with whitespace. */
  lemma FirstCut(x: string, g: string, y: string)
    requires NoSplitPoint(x) && x != [] && IsTerminator(x[|x| - 1])
    requires g != [] && AllSpace(g)
    requires y == [] || !IsSpace(y[0])
    ensures MatchFrom(x + g + y, 0) == Some((|x|, |x| + |g|))
  {
    var t := x + g + y;
    assert SplitAt(t, |x|);
    forall j | 0 <= j < |x| ensures !SplitAt(t, j) {
      assert !SplitAt(x, j);
    }
    var m := MatchFrom(t, 0);
    assert m.value.0 == |x|;
    assert t[|x|..|x| + |g|] == g;
    RunEndExact(t, |x|, |x| + |g|);
  }

  /** A whitespace run ends where the whitespace stops. */
  lemma {:induction false} RunEndExact(t: string, a: nat, b: nat)
    requires a <= b <= |t| && AllSpace(t[a..b]) && (b == |t| || !IsSpace(t[b]))
    ensures RunEnd(t, a) == b
    decreases b - a
  {
    if a < b {
      assert t[a] == t[a..b][0];
      var u := t[a + 1..b];
      forall k | 0 <= k < |u| ensures IsSpace(u[k]) {
        assert u[k] == t[a..b][k + 1];
      }
      RunEndExact(t, a + 1, b);
    }
  }

  /** A sentence ending in a terminator, a run of whitespace and a rest that does not
      start with whitespace: the split cuts there first. */
  lemma SplitCons(x: string, g: string, y: string)
    requires NoSplitPoint(x) && x != [] && IsTerminator(x[|x| - 1])
    requires g != [] && AllSpace(g)
    requires y == [] || !IsSpace(y[0])
    ensures SplitSentences(x + g + y) == [x] + SplitSentences(y)
    ensures Gaps(x + g + y) == [g] + Gaps(y)
  {
    var t := x + g + y;
    FirstCut(x, g, y);
    assert t[..|x|] == x && t[|x|..|x| + |g|] == g && t[|x| + |g|..] == y;
  }

  /** A text put together from pieces and gaps of the required shape splits back into
      exactly those pieces: re.split is characterized by ValidSplit and Interleave. */
  lemma {:induction false} SplitUnique(ps: seq<string>, gs: seq<string>)
    requires ValidSplit(ps, gs)
    ensures SplitSentences(Interleave(ps, gs)) == ps
    ensures Gaps(Interleave(ps, gs)) == gs
    decreases |gs|
  {
    if gs == [] {
      NoCut(ps[0]);
    } else {
      var t := Interleave(ps, gs);
      var x, g, y := ps[0], gs[0], Interleave(ps[1..], gs[1..]);
      assert t == x + g + y;
      assert y == [] || y[0] == ps[1][0] by {
        if ps[1] != [] && gs[1..] != [] {
          assert y == ps[1] + (gs[1] + Interleave(ps[2..], gs[2..]));
        }
      }
      SplitCons(x, g, y);
      SplitUnique(ps[1..], gs[1..]);
      assert ps == [x] + ps[1..] && gs == [g] + gs[1..];
    }
  }

  // ------------------------------------------------ protection is transparent

  function ProtectEach(ps: seq<string>): (r: seq<string>)
    ensures |r| == |ps|
  {
    seq(|ps|, i requires 0 <= i < |ps| => ProtectDecimals(ps[i]))
  }

  /** Protection cannot create a place where the split pattern matches. */
  lemma {:induction false} ProtectNoSplitPoint(t: string)
    requires NoSplitPoint(t)
    ensures NoSplitPoint(ProtectDecimals(t))
    decreases |t|
  {
    var p := ProtectDecimals(t);
    if DecimalAt(t) {
      var rest := t[3..];
      assert NoSplitPoint(rest) by {
        forall j ensures !SplitAt(rest, j) {
          assert SplitAt(rest, j) ==> SplitAt(t, j + 3);
        }
      }
      ProtectNoSplitPoint(rest);
      var q := ProtectDecimals(rest);
      assert p == [t[0]] + Sentinel + [t[2]] + q;
      forall j ensures !SplitAt(p, j) {
        if 7 < j < |p| {
          assert p[j - 1] == q[j - 8] && p[j] == q[j - 7];
          assert !SplitAt(q, j - 7);
        }
      }
    } else if t != [] {
      var rest := t[1..];
      assert NoSplitPoint(rest) by {
        forall j ensures !SplitAt(rest, j) {
          assert SplitAt(rest, j) ==> SplitAt(t, j + 1);
        }
      }
      ProtectNoSplitPoint(rest);
      var q := ProtectDecimals(rest);
      assert p == [t[0]] + q;
      forall j ensures !SplitAt(p, j) {
        if j == 1 && |p| > 1 {
          ProtectFirst(rest);
          assert !SplitAt(t, 1);
        } else if 1 < j < |p| {
          assert !SplitAt(q, j - 1);
        }
      }
    }
  }

  /** Protecting every piece keeps the shape of a split. */
  lemma {:induction false} ProtectValidSplit(ps: seq<string>, gs: seq<string>)
    requires ValidSplit(ps, gs)
    ensures ValidSplit(ProtectEach(ps), gs)
    decreases |gs|
  {
    var qs := ProtectEach(ps);
    ProtectNoSplitPoint(ps[0]);
    if gs != [] {
      ProtectLast(ps[0]);
      if ps[1] != [] {
        ProtectFirst(ps[1]);
      }
      ProtectValidSplit(ps[1..], gs[1..]);
      assert qs[1..] == ProtectEach(ps[1..]);
    }
  }

  /** Protecting a split text protects each piece and leaves the gaps alone. */
  lemma {:induction false} ProtectInterleave(ps: seq<string>, gs: seq<string>)
    requires ValidSplit(ps, gs)
    ensures ProtectDecimals(Interleave(ps, gs)) == Interleave(ProtectEach(ps), gs)
    decreases |gs|
  {
    if gs != [] {
      var y := Interleave(ps[1..], gs[1..]);
      AppendAssoc(ps[0], gs[0], y);
      ProtectConcat(ps[0], gs[0] + y);
      ProtectSpaces(gs[0], y);
      ProtectInterleave(ps[1..], gs[1..]);
      assert ProtectEach(ps)[1..] == ProtectEach(ps[1..]);
      AppendAssoc(ProtectDecimals(ps[0]), gs[0], ProtectDecimals(y));
    }
  }

  /** What a piece contains, the whole text contains. */
  lemma {:induction false} PieceInText(ps: seq<string>, gs: seq<string>, i: nat, p: string)
    requires |ps| == |gs| + 1 && i < |ps|
    requires Contains(ps[i], p)
    ensures Contains(Interleave(ps, gs), p)
    decreases |gs|
  {
    if gs == [] {
    } else if i == 0 {
      ContainsInfix([], ps[0], gs[0] + Interleave(ps[1..], gs[1..]), p);
      assert [] + ps[0] + (gs[0] + Interleave(ps[1..], gs[1..])) == Interleave(ps, gs);
    } else {
      PieceInText(ps[1..], gs[1..], i - 1, p);
      ContainsInfix(ps[0] + gs[0], Interleave(ps[1..], gs[1..]), [], p);
      assert ps[0] + gs[0] + Interleave(ps[1..], gs[1..]) + [] == Interleave(ps, gs);
    }
  }

  /** Shielding decimal points changes nothing about where the text is cut: for a text
      without the sentinel, the restored pieces of the protected text are exactly the
      pieces of the text. */
  lemma ProtectionTransparent(t: string)
    requires !Contains(t, Sentinel)
    ensures |SplitSentences(ProtectDecimals(t))| == |SplitSentences(t)|
    ensures forall i :: 0 <= i < |SplitSentences(t)| ==>
      Restore(SplitSentences(ProtectDecimals(t))[i]) == SplitSentences(t)[i]
  {
    var ps, gs := SplitSentences(t), Gaps(t);
    SplitSpec(t);
    ProtectInterleave(ps, gs);
    ProtectValidSplit(ps, gs);
    SplitUnique(ProtectEach(ps), gs);
    forall i | 0 <= i < |ps| ensures Restore(ProtectDecimals(ps[i])) == ps[i] {
      if Contains(ps[i], Sentinel) {
        PieceInText(ps, gs, i, Sentinel);
      }
      RestoreProtect(ps[i]);
    }
  }

  // ------------------------------------------------------- piece by piece

  /** A stretch of a text without split points has none either. */
  lemma NoSplitInfix(t: string, a: nat, b: nat)
    requires a <= b <= |t| && NoSplitPoint(t)
    ensures NoSplitPoint(t[a..b])
  {
    forall j | 0 < j < b - a ensures !SplitAt(t[a..b], j) {
      assert !SplitAt(t, a + j);
    }
  }

  /** ValidSplit, read piece by piece. */
  lemma {:induction false} ValidSplitAt(ps: seq<string>, gs: seq<string>, i: nat)
    requires ValidSplit(ps, gs) && i < |ps|
    ensures NoSplitPoint(ps[i])
    ensures i < |gs| ==> ps[i] != [] && IsTerminator(ps[i][|ps[i]| - 1])
    decreases i
  {
    if i > 0 {
      ValidSplitAt(ps[1..], gs[1..], i - 1);
    }
  }

  /** Protection adds no character besides those of the sentinel. */
  lemma {:induction false} ProtectChars(t: string, c: char)
    requires c !in t && c !in Sentinel
    ensures c !in ProtectDecimals(t)
    decreases |t|
  {
    if DecimalAt(t) {
      assert t[0] in t && t[2] in t;
      ProtectChars(t[3..], c);
    } else if t != [] {
      assert t[0] in t;
      ProtectChars(t[1..], c);
    }
  }

  /** A piece of the split holds nothing the text does not hold. */
  lemma PieceKeepsOut(t: string, i: nat, p: string)
    requires i < |SplitSentences(t)| && !Contains(t, p)
    ensures !Contains(SplitSentences(t)[i], p)
  {
    SplitSpec(t);
    if Contains(SplitSentences(t)[i], p) {
      PieceInText(SplitSentences(t), Gaps(t), i, p);
      assert false;
    }
  }

  /** A piece of the split holds no character the text does not hold. */
  lemma PieceChars(t: string, i: nat, c: char)
    requires i < |SplitSentences(t)| && c !in t
    ensures c !in SplitSentences(t)[i]
  {
    ContainsChar(t, c);
    PieceKeepsOut(t, i, [c]);
    ContainsChar(SplitSentences(t)[i], c);
  }
}
