/** format_doctor_reply: the chatbot's answer cut down to at most four sentences of more
    than twelve characters, one per line. */
module ReplyFormatter {
  import opened Text
  import opened SentenceSplit

  /** Sentences this long or shorter are dropped. */
  const MinLength: nat := 12

  /** At most this many sentences are kept. */
  const MaxSentences: nat := 4

  /** text.strip().replace("\n", " "). */
  function Normalize(text: string): string {
    ReplaceAll(Strip(text), "\n", " ")
  }

  /** The sentences of the normalized text, split with its decimal points protected. */
  function Sentences(text: string): seq<string> {
    SplitSentences(ProtectDecimals(Normalize(text)))
  }

  /** s.replace("<dot>", ".").strip(). */
  function Clean(s: string): string {
    Strip(Restore(s))
  }

  function CleanEach(ss: seq<string>): seq<string> {
    seq(|ss|, i requires 0 <= i < |ss| => Clean(ss[i]))
  }

  function StripEach(ss: seq<string>): seq<string> {
    seq(|ss|, i requires 0 <= i < |ss| => Strip(ss[i]))
  }

  /** The strings longer than MinLength, in their order. */
  function Long(xs: seq<string>): seq<string>
    decreases |xs|
  {
    if xs == [] then []
    else Long(xs[..|xs| - 1]) + (if |xs[|xs| - 1]| > MinLength then [xs[|xs| - 1]] else [])
  }

  /** xs[:n]. */
  function Prefix(xs: seq<string>, n: nat): seq<string> {
    if |xs| <= n then xs else xs[..n]
  }

  /** format_doctor_reply as a function of its text. */
  function Format(text: string): string {
    if text == [] then []
    else JoinWith(Prefix(Long(CleanEach(Sentences(text))), MaxSentences), '\n')
  }

  /** format_doctor_reply: normalize, protect, split, then clean and keep the long
      sentences in a loop, and join the first four. */
  method FormatReply(text: string) returns (reply: string)
    ensures reply == Format(text)
  {
    if text == [] {
      return "";
    }
    var t := Normalize(text);
    t := ProtectDecimals(t);
    var sentences := SplitSentences(t);
    var clean: seq<string> := [];
    for k := 0 to |sentences|
      invariant clean == Long(CleanEach(sentences[..k]))
    {
      var s := Clean(sentences[k]);
      if |s| > MinLength {
        clean := clean + [s];
      }
      assert CleanEach(sentences[..k + 1]) == CleanEach(sentences[..k]) + [Clean(sentences[k])];
    }
    assert sentences[..|sentences|] == sentences;
    if |clean| > MaxSentences {
      clean := clean[..MaxSentences];
    }
    reply := JoinWith(clean, '\n');
  }

  // ------------------------------------------------------------ the filter

  /** The filter keeps exactly the long strings. */
  lemma {:induction false} LongMembers(xs: seq<string>)
    ensures forall x :: x in Long(xs) <==> x in xs && |x| > MinLength
    decreases |xs|
  {
    if xs != [] {
      var n := |xs| - 1;
      LongMembers(xs[..n]);
      assert xs == xs[..n] + [xs[n]];
    }
  }

  /** A list of long strings passes the filter unchanged. */
  lemma {:induction false} LongKeepsAll(xs: seq<string>)
    requires forall i :: 0 <= i < |xs| ==> |xs[i]| > MinLength
    ensures Long(xs) == xs
    decreases |xs|
  {
    if xs != [] {
      var n := |xs| - 1;
      LongKeepsAll(xs[..n]);
      assert xs == xs[..n] + [xs[n]];
    }
  }

  /** s ends with a terminator. */
  predicate EndsSentence(s: string) {
    s != [] && IsTerminator(s[|s| - 1])
  }

  /** Every string but the last ends with a terminator. */
  predicate EndsChain(xs: seq<string>) {
    forall i :: 0 <= i < |xs| - 1 ==> EndsSentence(xs[i])
  }

  /** The filter keeps only terminated sentences when given only those. */
  lemma {:induction false} LongEnds(xs: seq<string>)
    requires forall i :: 0 <= i < |xs| ==> EndsSentence(xs[i])
    ensures forall i :: 0 <= i < |Long(xs)| ==> EndsSentence(Long(xs)[i])
    decreases |xs|
  {
    if xs != [] {
      LongEnds(xs[..|xs| - 1]);
    }
  }

  /** The filter keeps the chain of terminated sentences. */
  lemma LongChain(xs: seq<string>)
    requires EndsChain(xs)
    ensures EndsChain(Long(xs))
  {
    if xs != [] {
      var n := |xs| - 1;
      LongEnds(xs[..n]);
    }
  }

  // ------------------------------------------------------------ shape of a reply

  /** A cleaned sentence is stripped and free of the sentinel, and holds no line break
      when the sentence had none. */
  lemma CleanShape(s: string)
    ensures Strip(Clean(s)) == Clean(s)
    ensures !Contains(Clean(s), Sentinel)
    ensures '\n' !in s ==> '\n' !in Clean(s)
  {
    StripSpec(Restore(s));
    StrippedIsFixed(Clean(s));
    ReplaceAllRemoves(s, Sentinel, ".");
    if Contains(Clean(s), Sentinel) {
      StripInfix(Restore(s), Sentinel);
      assert false;
    }
    if '\n' !in s {
      ReplaceAllChars(s, Sentinel, ".", '\n');
      if '\n' in Clean(s) {
        StripChars(Restore(s), '\n');
        assert false;
      }
    }
  }

  /** The normalized text holds no line break. */
  lemma NormalizeOneLine(text: string)
    ensures '\n' !in Normalize(text)
  {
    ReplaceAllRemoves(Strip(text), "\n", " ");
    ContainsChar(Normalize(text), '\n');
  }

  /** No sentence holds a line break. */
  lemma SentencesOneLine(text: string, i: nat)
    requires i < |Sentences(text)|
    ensures '\n' !in Sentences(text)[i]
  {
    NormalizeOneLine(text);
    ProtectChars(Normalize(text), '\n');
    PieceChars(ProtectDecimals(Normalize(text)), i, '\n');
  }

  /** The reply has at most four lines; a non-empty reply has lines of more than twelve
      characters, without surrounding whitespace and without the sentinel. */
  lemma FormatShape(text: string)
    ensures |SplitOn(Format(text), '\n')| <= MaxSentences
    ensures Format(text) != [] ==> forall l :: l in SplitOn(Format(text), '\n') ==>
      |l| > MinLength && Strip(l) == l && !Contains(l, Sentinel)
  {
    if text != [] {
      var ss := Sentences(text);
      var long := Long(CleanEach(ss));
      var cs := Prefix(long, MaxSentences);
      LongMembers(CleanEach(ss));
      forall k | 0 <= k < |cs|
        ensures '\n' !in cs[k] && |cs[k]| > MinLength && Strip(cs[k]) == cs[k] && !Contains(cs[k], Sentinel)
      {
        assert cs[k] in long;
        var i :| 0 <= i < |ss| && CleanEach(ss)[i] == cs[k];
        SentencesOneLine(text, i);
        CleanShape(ss[i]);
      }
      if cs != [] {
        SplitOnJoin(cs, '\n');
      }
    }
  }

  /** A blank answer gives an empty reply. */
  lemma BlankReplyIsEmpty(text: string)
    requires AllSpace(text)
    ensures Format(text) == []
  {
    if text != [] {
      StripBlank(text);
      assert Normalize(text) == [];
      assert ProtectDecimals([]) == [];
      assert Sentences(text) == [[]];
      assert CleanEach([[]]) == [[]];
    }
  }

  // ------------------------------------------------------------ protection and idempotence

  /** A text without the sentinel normalizes to a text without the sentinel. */
  lemma NormalizeKeepsOut(text: string)
    requires !Contains(text, Sentinel)
    ensures !Contains(Normalize(text), Sentinel)
  {
    if Contains(Strip(text), Sentinel) {
      StripInfix(text, Sentinel);
      assert false;
    }
    ReplaceCharKeepsOut(Strip(text), '\n', ' ', Sentinel);
  }

  /** For a text without the sentinel, the decimal protection changes nothing: the reply
      is made of the stripped pieces of the plain split of the normalized text. */
  lemma FormatPlain(text: string)
    requires text != [] && !Contains(text, Sentinel)
    ensures Format(text)
      == JoinWith(Prefix(Long(StripEach(SplitSentences(Normalize(text)))), MaxSentences), '\n')
  {
    NormalizeKeepsOut(text);
    ProtectionTransparent(Normalize(text));
    assert CleanEach(Sentences(text)) == StripEach(SplitSentences(Normalize(text)));
  }

  function Spaces(n: nat): seq<string> {
    seq(n, _ => " ")
  }

  lemma {:induction false} JoinInterleave(cs: seq<string>)
    requires |cs| >= 1
    ensures JoinWith(cs, ' ') == Interleave(cs, Spaces(|cs| - 1))
    decreases |cs|
  {
    if |cs| > 1 {
      JoinInterleave(cs[1..]);
      assert Spaces(|cs| - 1)[1..] == Spaces(|cs| - 2);
    }
  }

  lemma {:induction false} JoinReplace(cs: seq<string>)
    requires forall k :: 0 <= k < |cs| ==> '\n' !in cs[k]
    ensures ReplaceAll(JoinWith(cs, '\n'), "\n", " ") == JoinWith(cs, ' ')
    decreases |cs|
  {
    if |cs| == 1 {
      ReplaceCharAbsent(cs[0], '\n', ' ');
    } else if |cs| > 1 {
      JoinReplace(cs[1..]);
      ReplaceCharConcat(cs[0], ['\n'] + JoinWith(cs[1..], '\n'), '\n', ' ');
      ReplaceCharConcat(['\n'], JoinWith(cs[1..], '\n'), '\n', ' ');
      ReplaceCharAbsent(cs[0], '\n', ' ');
      assert ReplaceAll(['\n'], ['\n'], [' ']) == [' '];
      assert cs[0] + ['\n'] + JoinWith(cs[1..], '\n') == cs[0] + (['\n'] + JoinWith(cs[1..], '\n'));
    }
  }

  /** Stripped, terminated sentences without split points, joined by single spaces,
      form a valid split. */
  lemma {:induction false} ValidFromChain(cs: seq<string>)
    requires |cs| >= 1 && EndsChain(cs)
    requires forall i :: 0 <= i < |cs| ==> NoSplitPoint(cs[i]) && cs[i] != [] && !IsSpace(cs[i][0])
    ensures ValidSplit(cs, Spaces(|cs| - 1))
    decreases |cs|
  {
    if |cs| > 1 {
      ValidFromChain(cs[1..]);
      assert Spaces(|cs| - 1)[1..] == Spaces(|cs| - 2);
      assert EndsSentence(cs[0]);
      assert AllSpace(" ");
    }
  }

  /** The lines a reply is made of, for a text without the sentinel. */
  function Kept(text: string): seq<string> {
    Prefix(Long(StripEach(SplitSentences(Normalize(text)))), MaxSentences)
  }

  /** A stripped piece of a one-line text without the sentinel has no whitespace at
      either end, no line break, no sentinel and no split point. */
  lemma StrippedPiece(t: string, i: nat)
    requires i < |SplitSentences(t)| && '\n' !in t && !Contains(t, Sentinel)
    ensures var c := Strip(SplitSentences(t)[i]);
      (c == [] || (!IsSpace(c[0]) && !IsSpace(c[|c| - 1]))) && Strip(c) == c
        && '\n' !in c && !Contains(c, Sentinel) && NoSplitPoint(c)
  {
    var p := SplitSentences(t)[i];
    var c := Strip(p);
    StripSpec(p);
    StrippedIsFixed(c);
    PieceChars(t, i, '\n');
    PieceKeepsOut(t, i, Sentinel);
    if '\n' in c {
      StripChars(p, '\n');
      assert false;
    }
    if Contains(c, Sentinel) {
      StripInfix(p, Sentinel);
      assert false;
    }
    SplitSpec(t);
    ValidSplitAt(SplitSentences(t), Gaps(t), i);
    NoSplitInfix(p, StripOffset(p), StripOffset(p) + |c|);
  }

  /** Each kept line is a long stripped piece of the normalized text. */
  lemma KeptSource(text: string, k: nat) returns (i: nat)
    requires k < |Kept(text)|
    ensures i < |SplitSentences(Normalize(text))|
    ensures Kept(text)[k] == Strip(SplitSentences(Normalize(text))[i]) && |Kept(text)[k]| > MinLength
  {
    var xs := StripEach(SplitSentences(Normalize(text)));
    LongMembers(xs);
    assert Kept(text)[k] in Long(xs);
    i :| 0 <= i < |xs| && xs[i] == Kept(text)[k];
  }

  /** Each kept line is a non-empty one-line stretch of a piece, with no whitespace at
      either end, no sentinel and no split point. */
  lemma KeptLine(text: string, k: nat)
    requires !Contains(text, Sentinel) && k < |Kept(text)|
    ensures var c := Kept(text)[k];
      c != [] && !IsSpace(c[0]) && !IsSpace(c[|c| - 1]) && Strip(c) == c && |c| > MinLength
        && '\n' !in c && !Contains(c, Sentinel) && NoSplitPoint(c)
  {
    var i := KeptSource(text, k);
    NormalizeOneLine(text);
    NormalizeKeepsOut(text);
    StrippedPiece(Normalize(text), i);
  }

  /** Every stripped piece but the last ends a sentence. */
  lemma PiecesChain(t: string)
    ensures EndsChain(StripEach(SplitSentences(t)))
  {
    var ps, gs := SplitSentences(t), Gaps(t);
    var xs := StripEach(ps);
    SplitSpec(t);
    forall i | 0 <= i < |xs| - 1 ensures EndsSentence(xs[i]) {
      ValidSplitAt(ps, gs, i);
      StripLast(ps[i]);
    }
  }

  /** Every kept line but the last ends a sentence. */
  lemma KeptChain(text: string)
    ensures EndsChain(Kept(text))
  {
    var xs := StripEach(SplitSentences(Normalize(text)));
    PiecesChain(Normalize(text));
    LongChain(xs);
    PrefixChain(Long(xs), MaxSentences);
  }

  /** A prefix of a chain is a chain. */
  lemma PrefixChain(xs: seq<string>, n: nat)
    requires EndsChain(xs)
    ensures EndsChain(Prefix(xs, n))
  {
  }

  /** The shape of every kept line. */
  lemma KeptLines(text: string)
    requires !Contains(text, Sentinel)
    ensures forall k :: 0 <= k < |Kept(text)| ==>
      Kept(text)[k] != [] && !IsSpace(Kept(text)[k][0]) && !IsSpace(Kept(text)[k][|Kept(text)[k]| - 1])
    ensures forall k :: 0 <= k < |Kept(text)| ==>
      Strip(Kept(text)[k]) == Kept(text)[k] && |Kept(text)[k]| > MinLength && '\n' !in Kept(text)[k]
    ensures forall k :: 0 <= k < |Kept(text)| ==>
      !Contains(Kept(text)[k], Sentinel) && NoSplitPoint(Kept(text)[k])
  {
    forall k | 0 <= k < |Kept(text)|
      ensures var c := Kept(text)[k];
        c != [] && !IsSpace(c[0]) && !IsSpace(c[|c| - 1]) && Strip(c) == c && |c| > MinLength
          && '\n' !in c && !Contains(c, Sentinel) && NoSplitPoint(c)
    {
      KeptLine(text, k);
    }
  }

  /** Formatting a reply again gives the same reply, for a text without the sentinel:
      every kept line but the last ends a sentence, so re-splitting the lines joined by
      spaces finds exactly the lines again. */
  lemma FormatIdempotent(text: string)
    requires !Contains(text, Sentinel)
    ensures Format(Format(text)) == Format(text)
  {
    if text != [] {
      var cs := Kept(text);
      FormatPlain(text);
      assert Format(text) == JoinWith(cs, '\n');
      if cs != [] {
        KeptLines(text);
        KeptChain(text);
        FormatAgain(cs);
      }
    }
  }

  /** Lines without line breaks, joined by line breaks, normalize to the same lines
      joined by single spaces. */
  lemma NormalizeJoined(cs: seq<string>)
    requires cs != []
    requires forall k :: 0 <= k < |cs| ==> cs[k] != [] && !IsSpace(cs[k][0]) && !IsSpace(cs[k][|cs[k]| - 1])
    requires forall k :: 0 <= k < |cs| ==> '\n' !in cs[k]
    ensures Normalize(JoinWith(cs, '\n')) == Interleave(cs, Spaces(|cs| - 1))
  {
    var f := JoinWith(cs, '\n');
    JoinEnds(cs, '\n');
    StrippedIsFixed(f);
    JoinReplace(cs);
    JoinInterleave(cs);
  }

  /** Stripped, long, terminated lines without split points or the sentinel, joined by
      line breaks, format to themselves. */
  lemma FormatAgain(cs: seq<string>)
    requires cs != [] && |cs| <= MaxSentences && EndsChain(cs)
    requires forall k :: 0 <= k < |cs| ==> cs[k] != [] && !IsSpace(cs[k][0]) && !IsSpace(cs[k][|cs[k]| - 1])
    requires forall k :: 0 <= k < |cs| ==> Strip(cs[k]) == cs[k] && |cs[k]| > MinLength && '\n' !in cs[k]
    requires forall k :: 0 <= k < |cs| ==> !Contains(cs[k], Sentinel) && NoSplitPoint(cs[k])
    ensures Format(JoinWith(cs, '\n')) == JoinWith(cs, '\n')
  {
    var f := JoinWith(cs, '\n');
    Resplit(cs);
    JoinKeepsOut(cs, '\n', Sentinel);
    JoinEnds(cs, '\n');
    FormatPlain(f);
    assert StripEach(cs) == cs;
    LongKeepsAll(cs);
  }

  /** Terminated lines without split points, joined by line breaks, split back into
      the same lines. */
  lemma Resplit(cs: seq<string>)
    requires cs != [] && EndsChain(cs)
    requires forall k :: 0 <= k < |cs| ==> cs[k] != [] && !IsSpace(cs[k][0]) && !IsSpace(cs[k][|cs[k]| - 1])
    requires forall k :: 0 <= k < |cs| ==> '\n' !in cs[k] && NoSplitPoint(cs[k])
    ensures SplitSentences(Normalize(JoinWith(cs, '\n'))) == cs
  {
    NormalizeJoined(cs);
    ValidFromChain(cs);
    SplitUnique(cs, Spaces(|cs| - 1));
  }
}
