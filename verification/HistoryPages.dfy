/** What paging promises: pages refine replay, and a walk over the pages sees every event once. */
module HistoryPages {
  import opened Prelude
  import opened History

  // ----- the page holds the shortest run of lines with enough messages -----

  lemma {:induction false} MessagesConcat(rd: Reader, xs: seq<Line>, ys: seq<Line>)
    ensures Messages(rd, xs + ys) == Messages(rd, xs) + Messages(rd, ys)
  {
    if ys == [] {
      assert xs + ys == xs;
    } else {
      assert (xs + ys)[..|xs + ys| - 1] == xs + ys[..|ys| - 1];
      MessagesConcat(rd, xs, ys[..|ys| - 1]);
    }
  }

  lemma {:induction false} CutHasEnough(rd: Reader, ls: seq<Line>, limit: int)
    ensures var k := Cut(rd, ls, limit); k == 0 || Messages(rd, ls[k..]) >= limit
  {
    if ls != [] {
      var n := CountMessages(LineEvents(rd, ls[|ls| - 1]));
      if n >= limit {
        MessagesOfSuffix(rd, ls, |ls| - 1);
      } else {
        var init := ls[..|ls| - 1];
        CutHasEnough(rd, init, limit - n);
        MessagesOfSuffix(rd, ls, Cut(rd, init, limit - n));
      }
    }
  }

  lemma {:induction false} LaterIsTooFew(rd: Reader, ls: seq<Line>, limit: int, j: nat)
    requires limit > 0 && Cut(rd, ls, limit) < j <= |ls|
    ensures Messages(rd, ls[j..]) < limit
  {
    if j < |ls| {
      var n := CountMessages(LineEvents(rd, ls[|ls| - 1]));
      LaterIsTooFew(rd, ls[..|ls| - 1], limit - n, j);
      MessagesOfSuffix(rd, ls, j);
    }
  }

  /** The page starts at the last line from which enough messages follow, or at the first line. */
  lemma CutIsShortestRun(rd: Reader, ls: seq<Line>, limit: nat)
    requires limit > 0
    ensures
      var k := Cut(rd, ls, limit);
      && (k == 0 || Messages(rd, ls[k..]) >= limit)
      && (forall j :: k < j <= |ls| ==> Messages(rd, ls[j..]) < limit)
  {
    CutHasEnough(rd, ls, limit);
    forall j | Cut(rd, ls, limit) < j <= |ls| ensures Messages(rd, ls[j..]) < limit {
      LaterIsTooFew(rd, ls, limit, j);
    }
  }

  lemma MessagesOfSuffix(rd: Reader, ls: seq<Line>, j: nat)
    requires j < |ls|
    ensures Messages(rd, ls[j..]) == Messages(rd, ls[..|ls| - 1][j..]) + CountMessages(LineEvents(rd, ls[|ls| - 1]))
  {
    assert ls[j..][..|ls[j..]| - 1] == ls[..|ls| - 1][j..];
  }

  // ----- a page against replay -----

  /** The transcript ends in a carriage return that no line feed follows. */
  predicate EndsInBareCr(f: seq<byte>) {
    f != [] && f[|f| - 1] == CR
  }

  /** The two readers see the same lines exactly when it does not. */
  lemma SameLinesIff(f: seq<byte>)
    ensures ReplayTexts(f) == Texts(Lines(f)) <==> !EndsInBareCr(f)
  {
    var ls := Lines(f);
    var last := ls[|ls| - 1].bytes;
    assert Texts(ls) == Texts(ls[..|ls| - 1]) + [StripCr(last)];
    LastLineEnds(f);
    if ReplayTexts(f) == Texts(ls) {
      assert last == ReplayTexts(f)[|ls| - 1] == Texts(ls)[|ls| - 1] == StripCr(last);
    }
  }

  lemma LastLineEnds(f: seq<byte>)
    ensures EndsInBareCr(f) <==> EndsInBareCr(Lines(f)[|Lines(f)| - 1].bytes)
  {
  }

  lemma {:induction false} ReplayConcat(rd: Reader, xs: seq<seq<byte>>, ys: seq<seq<byte>>)
    ensures ReplayEvents(rd, xs + ys) == ReplayEvents(rd, xs) + ReplayEvents(rd, ys)
  {
    if ys == [] {
      assert xs + ys == xs;
    } else {
      assert (xs + ys)[..|xs + ys| - 1] == xs + ys[..|ys| - 1];
      ReplayConcat(rd, xs, ys[..|ys| - 1]);
    }
  }

  lemma {:induction false} UntagReversed(offset: nat, evs: seq<ChatEvent>)
    ensures Untag(Reverse(Tag(offset, evs))) == Reverse(evs)
  {
    if evs != [] {
      UntagReversed(offset, evs[1..]);
      assert Tag(offset, evs)[1..] == Tag(offset, evs[1..]);
    }
  }

  ghost predicate Palindrome(evs: seq<ChatEvent>) {
    Reverse(evs) == evs
  }

  ghost predicate Palindromes(rd: Reader, ls: seq<Line>) {
    forall i :: 0 <= i < |ls| ==> Palindrome(LineEvents(rd, ls[i]))
  }

  lemma LastLineApart(rd: Reader, ls: seq<Line>)
    requires ls != []
    ensures
      var init, evs := ls[..|ls| - 1], LineEvents(rd, ls[|ls| - 1]);
      && Untag(PageEvents(rd, ls)) == Untag(PageEvents(rd, init)) + Reverse(evs)
      && ReplayEvents(rd, Texts(ls)) == ReplayEvents(rd, Texts(init)) + evs
  {
    var l := ls[|ls| - 1];
    UntagReversed(l.start, LineEvents(rd, l));
    assert Texts(ls)[..|ls| - 1] == Texts(ls[..|ls| - 1]);
  }

  lemma PalindromesLast(rd: Reader, ls: seq<Line>)
    requires ls != []
    ensures Palindromes(rd, ls) <==> Palindromes(rd, ls[..|ls| - 1]) && Palindrome(LineEvents(rd, ls[|ls| - 1]))
  {
    assert forall i :: 0 <= i < |ls| - 1 ==> ls[..|ls| - 1][i] == ls[i];
  }

  // Line by line, the page and the replay agree in length, and in content where a line's
  // events read the same both ways.
  lemma {:induction false} LinesAgreeIff(rd: Reader, ls: seq<Line>)
    ensures
      var page, all := Untag(PageEvents(rd, ls)), ReplayEvents(rd, Texts(ls));
      |page| == |all| && (page == all <==> Palindromes(rd, ls))
  {
    if ls != [] {
      var init, evs := ls[..|ls| - 1], LineEvents(rd, ls[|ls| - 1]);
      LinesAgreeIff(rd, init);
      LastLineApart(rd, ls);
      PalindromesLast(rd, ls);
      SplitEqual(Untag(PageEvents(rd, init)), Reverse(evs), ReplayEvents(rd, Texts(init)), evs);
    }
  }

  lemma SplitEqual<T>(a: seq<T>, x: seq<T>, b: seq<T>, y: seq<T>)
    requires |a| == |b|
    ensures a + x == b + y <==> a == b && x == y
  {
    if a + x == b + y {
      assert a == (a + x)[..|a|] && x == (a + x)[|a|..];
      assert b == (b + y)[..|b|] && y == (b + y)[|b|..];
    }
  }

  ghost function PageLines(rd: Reader, f: seq<byte>, limit: nat): seq<Line> {
    Lines(f)[Cut(rd, Lines(f), limit)..]
  }

  /** The replay of the lines a page stands for. */
  ghost function ReplayEnd(rd: Reader, f: seq<byte>, limit: nat): seq<ChatEvent> {
    ReplayEvents(rd, ReplayTexts(f)[Cut(rd, Lines(f), limit)..])
  }

  lemma ReplayEndIsSuffix(rd: Reader, f: seq<byte>, limit: nat)
    requires ReplayOf(rd, f).Ok?
    ensures
      var all, end := ReplayOf(rd, f).value, ReplayEnd(rd, f, limit);
      |end| <= |all| && all[|all| - |end|..] == end
  {
    var k, texts := Cut(rd, Lines(f), limit), ReplayTexts(f);
    assert texts == texts[..k] + texts[k..];
    ReplayConcat(rd, texts[..k], texts[k..]);
  }

  // The lines of a page that replay sees with their line feed, and the last line of the transcript.
  ghost function ClosedLines(rd: Reader, f: seq<byte>, limit: nat): (r: seq<Line>) {
    var ls := PageLines(rd, f, limit);
    if ls == [] then [] else ls[..|ls| - 1]
  }

  ghost function LastLineBytes(f: seq<byte>): seq<byte> {
    Lines(f)[|Lines(f)| - 1].bytes
  }

  lemma PageApart(rd: Reader, f: seq<byte>, limit: nat)
    requires limit > 0
    ensures PageLines(rd, f, limit) == ClosedLines(rd, f, limit) + [Lines(f)[|Lines(f)| - 1]]
    ensures PageOf(rd, f, limit).events ==
      Untag(PageEvents(rd, ClosedLines(rd, f, limit))) + Reverse(TextEvents(rd, StripCr(LastLineBytes(f))))
  {
    EventsOfPage(rd, f, limit);
    PageLinesApart(rd, f, limit);
    LastLineApart(rd, PageLines(rd, f, limit));
  }

  lemma EventsOfPage(rd: Reader, f: seq<byte>, limit: nat)
    requires limit > 0
    ensures PageOf(rd, f, limit).events == Untag(PageEvents(rd, PageLines(rd, f, limit)))
  {
  }

  lemma PageLinesApart(rd: Reader, f: seq<byte>, limit: nat)
    requires limit > 0
    ensures PageLines(rd, f, limit) == ClosedLines(rd, f, limit) + [Lines(f)[|Lines(f)| - 1]]
  {
  }

  lemma ReplayApart(rd: Reader, f: seq<byte>, limit: nat)
    requires limit > 0
    ensures ReplayEnd(rd, f, limit) ==
      ReplayEvents(rd, Texts(ClosedLines(rd, f, limit))) + TextEvents(rd, LastLineBytes(f))
  {
    TextsFrom(Lines(f), Cut(rd, Lines(f), limit));
    LastTextApart(rd, Texts(ClosedLines(rd, f, limit)), LastLineBytes(f));
  }

  lemma TextsFrom(ls: seq<Line>, k: nat)
    requires k < |ls|
    ensures
      var n, last := |ls| - 1, [ls[|ls| - 1].bytes];
      (Texts(ls[..n]) + last)[k..] == Texts(ls[k..][..n - k]) + last
  {
    var n := |ls| - 1;
    assert Texts(ls[..n])[k..] == Texts(ls[k..][..n - k]);
  }

  lemma LastTextApart(rd: Reader, texts: seq<seq<byte>>, last: seq<byte>)
    ensures ReplayEvents(rd, texts + [last]) == ReplayEvents(rd, texts) + TextEvents(rd, last)
  {
    assert (texts + [last])[..|texts|] == texts;
  }

  /** A page is what the replay of its lines gives, exactly when the events of each of its lines read
      the same both ways, and those of the last line, read backward, are those that replay sees in it
      with its carriage return. */
  lemma PageIsReplaySuffixIff(rd: Reader, f: seq<byte>, limit: nat)
    requires limit > 0 && ReplayOf(rd, f).Ok?
    ensures
      var all, end := ReplayOf(rd, f).value, ReplayEnd(rd, f, limit);
      |end| <= |all| && all[|all| - |end|..] == end
    ensures
      PageOf(rd, f, limit).events == ReplayEnd(rd, f, limit) <==>
        && Palindromes(rd, ClosedLines(rd, f, limit))
        && Reverse(TextEvents(rd, StripCr(LastLineBytes(f)))) == TextEvents(rd, LastLineBytes(f))
  {
    var init, last := ClosedLines(rd, f, limit), LastLineBytes(f);
    ReplayEndIsSuffix(rd, f, limit);
    PageApart(rd, f, limit);
    ReplayApart(rd, f, limit);
    LinesAgreeIff(rd, init);
    SplitEqual(Untag(PageEvents(rd, init)), Reverse(TextEvents(rd, StripCr(last))),
               ReplayEvents(rd, Texts(init)), TextEvents(rd, last));
  }

  /** Without a bare carriage return at the end, a page is as long as the end of the replay it stands
      for, and equal to it exactly when the events of each of its lines read the same both ways. */
  lemma ClosedPageIsReplaySuffixIff(rd: Reader, f: seq<byte>, limit: nat)
    requires limit > 0 && ReplayOf(rd, f).Ok? && !EndsInBareCr(f)
    ensures
      var all, page := ReplayOf(rd, f).value, PageOf(rd, f, limit).events;
      |page| <= |all| && (page == all[|all| - |page|..] <==> Palindromes(rd, PageLines(rd, f, limit)))
  {
    PageIsReplaySuffixIff(rd, f, limit);
    ClosedPageLength(rd, f, limit);
    ClosedPagePalindromes(rd, f, limit);
  }

  lemma ClosedPagePalindromes(rd: Reader, f: seq<byte>, limit: nat)
    requires limit > 0 && !EndsInBareCr(f)
    ensures Palindromes(rd, PageLines(rd, f, limit)) <==>
      && Palindromes(rd, ClosedLines(rd, f, limit))
      && Reverse(TextEvents(rd, StripCr(LastLineBytes(f)))) == TextEvents(rd, LastLineBytes(f))
  {
    LastLineEnds(f);
    var ls := PageLines(rd, f, limit);
    assert ls[|ls| - 1] == Lines(f)[|Lines(f)| - 1] && ls[..|ls| - 1] == ClosedLines(rd, f, limit);
    PalindromesLast(rd, ls);
  }

  lemma ClosedPageLength(rd: Reader, f: seq<byte>, limit: nat)
    requires limit > 0 && !EndsInBareCr(f)
    ensures PageLines(rd, f, limit) != []
    ensures |PageOf(rd, f, limit).events| == |ReplayEnd(rd, f, limit)|
  {
    PageApart(rd, f, limit);
    ReplayApart(rd, f, limit);
    LinesAgreeIff(rd, ClosedLines(rd, f, limit));
    LastLineEnds(f);
  }

  /** With at most one event to a line, a page is what the replay of its own lines gives, the end of the
      whole replay, exactly when the last line gives the same events with a bare carriage return as
      without. */
  lemma PageIsReplaySuffix(rd: Reader, f: seq<byte>, limit: nat)
    requires limit > 0 && ReplayOf(rd, f).Ok?
    requires forall l :: l in Lines(f) ==> |LineEvents(rd, l)| <= 1
    ensures
      var all, end := ReplayOf(rd, f).value, ReplayEnd(rd, f, limit);
      |end| <= |all| && all[|all| - |end|..] == end
    ensures
      var last := LastLineBytes(f);
      PageOf(rd, f, limit).events == ReplayEnd(rd, f, limit) <==> TextEvents(rd, StripCr(last)) == TextEvents(rd, last)
    ensures !EndsInBareCr(f) ==> PageOf(rd, f, limit).events == ReplayEnd(rd, f, limit)
  {
    PageIsReplaySuffixIff(rd, f, limit);
    OneEventReadsAlike(rd, f, limit);
    LastLineEnds(f);
  }

  lemma OneEventReadsAlike(rd: Reader, f: seq<byte>, limit: nat)
    requires limit > 0 && forall l :: l in Lines(f) ==> |LineEvents(rd, l)| <= 1
    ensures Palindromes(rd, ClosedLines(rd, f, limit))
    ensures Palindrome(TextEvents(rd, StripCr(LastLineBytes(f))))
  {
    var ls, k := Lines(f), Cut(rd, Lines(f), limit);
    var init := ClosedLines(rd, f, limit);
    forall i | 0 <= i < |init| ensures Palindrome(LineEvents(rd, init[i])) {
      assert init[i] == ls[k + i];
      ShortIsPalindrome(LineEvents(rd, ls[k + i]));
    }
    ShortIsPalindrome(LineEvents(rd, ls[|ls| - 1]));
  }

  lemma ShortIsPalindrome(evs: seq<ChatEvent>)
    requires |evs| <= 1
    ensures Palindrome(evs)
  {
  }

  /** A line with two events comes out of a page the wrong way round. */
  lemma TwoEventsAreSwapped()
    ensures
      var a, b := OtherEvent("user", ""), OtherEvent("tool", "");
      var rd := Reader(bytes => if bytes == [] then Some("") else Some("x"), s => [a, b]);
      rd.Valid() && ReplayOf(rd, [120]) == Ok([a, b]) && PageOf(rd, [120], 1).events == [b, a]
  {
    var a, b := OtherEvent("user", ""), OtherEvent("tool", "");
    var rd := Reader(bytes => if bytes == [] then Some("") else Some("x"), s => [a, b]);
    var f: seq<byte> := [120];
    OneLine(f);
    assert !IsBlank("x") by { assert 'x' in "x"; }
    assert TextEvents(rd, f) == [a, b];
    assert Texts([]) == [];
    assert ReplayTexts(f) == [f];
    assert ReplayEvents(rd, [f]) == [a, b];
    var l := Line(0, f);
    assert StripCr(f) == f && Reverse(Tag(0, [a, b])) == [(0, b), (0, a)];
    assert PageEvents(rd, [l]) == [(0, b), (0, a)];
    assert [l][0..] == [l];
    assert Cut(rd, [], 1) == 0;
  }

  /** After a bare carriage return at the end the two readers see different lines: replay passes it
      on to the parser, a page does not. */
  lemma BareCrIsReadTwoWays()
    ensures
      var rd := Reader(bytes => if bytes == [] then Some("") else if |bytes| == 1 then Some("a") else Some("b"),
                       s => [OtherEvent(s, "")]);
      && rd.Valid() && EndsInBareCr([120, CR])
      && ReplayOf(rd, [120, CR]) == Ok([OtherEvent("b", "")])
      && PageOf(rd, [120, CR], 1).events == [OtherEvent("a", "")]
  {
    var rd := Reader(bytes => if bytes == [] then Some("") else if |bytes| == 1 then Some("a") else Some("b"),
                     s => [OtherEvent(s, "")]);
    var f: seq<byte> := [120, CR];
    OneLine(f);
    assert !IsBlank("a") by { assert 'a' in "a"; }
    assert !IsBlank("b") by { assert 'b' in "b"; }
    assert TextEvents(rd, f) == [OtherEvent("b", "")];
    assert Texts([]) == [];
    assert ReplayTexts(f) == [f];
    assert ReplayEvents(rd, [f]) == [OtherEvent("b", "")];
    var l := Line(0, f);
    assert StripCr(f) == [120];
    assert LineEvents(rd, l) == [OtherEvent("a", "")];
    assert Reverse(Tag(0, [OtherEvent("a", "")])) == [(0, OtherEvent("a", ""))];
    assert PageEvents(rd, [l]) == [(0, OtherEvent("a", ""))];
    assert [l][0..] == [l];
    assert Cut(rd, [], 1) == 0;
  }

  lemma OneLine(f: seq<byte>)
    requires LF !in f
    ensures Lines(f) == [Line(0, f)]
  {
  }

  // ----- the walk over the pages -----

  /** Every event of the transcript, with its line's offset, as pages order them. */
  ghost function AllEvents(rd: Reader, f: seq<byte>): seq<Tagged> {
    PageEvents(rd, Lines(f))
  }

  lemma {:induction false} LineWithin(f: seq<byte>, j: nat)
    requires j < |Lines(f)|
    ensures Lines(f)[j].start + |Lines(f)[j].bytes| <= |f|
    ensures j > 0 ==> Lines(f)[j].start > 0
  {
    match RPosition(f, LF)
    case Some(p) => if j < |Lines(f)| - 1 { LineWithin(f[..p], j); }
    case None =>
  }

  // Cutting the file where a line starts leaves the lines before it, and an empty one.
  lemma {:induction false} LinesBelowStart(f: seq<byte>, j: nat)
    requires j < |Lines(f)|
    ensures Lines(f[..Lines(f)[j].start]) == Lines(f)[..j] + [Line(Lines(f)[j].start, [])]
  {
    match RPosition(f, LF)
    case None =>
    case Some(p) =>
      if j == |Lines(f)| - 1 {
        LinesUpToLf(f, p);
      } else {
        LinesBelowStart(f[..p], j);
        assert f[..p][..Lines(f)[j].start] == f[..Lines(f)[j].start];
      }
  }

  lemma LinesUpToLf(f: seq<byte>, p: nat)
    requires p < |f| && f[p] == LF
    ensures Lines(f[..p + 1]) == Lines(f[..p]) + [Line(p + 1, [])]
  {
    var g := f[..p + 1];
    RPositionIs(g, p);
    assert g[..p] == f[..p] && g[p + 1..] == [];
  }

  // Line j is the first from k on that has events: the events of the lines from k on are those from
  // line j on, and start with its.
  ghost predicate StartsAtLine(rd: Reader, ls: seq<Line>, k: nat, j: nat) {
    && k <= j < |ls| && LineEvents(rd, ls[j]) != [] && (forall i :: k <= i < j ==> LineEvents(rd, ls[i]) == [])
    && PageEvents(rd, ls[k..]) != [] && PageEvents(rd, ls[k..]) == PageEvents(rd, ls[j..])
    && PageEvents(rd, ls[k..])[0].0 == ls[j].start
  }

  lemma {:induction false} FirstLineFrom(rd: Reader, ls: seq<Line>, k: nat) returns (j: nat)
    requires k <= |ls| && PageEvents(rd, ls[k..]) != []
    ensures StartsAtLine(rd, ls, k, j)
    decreases |ls| - k
  {
    FrontLine(rd, ls, k);
    if LineEvents(rd, ls[k]) == [] {
      j := FirstLineFrom(rd, ls, k + 1);
    } else {
      j := k;
    }
  }

  lemma FrontLine(rd: Reader, ls: seq<Line>, k: nat)
    requires k <= |ls| && PageEvents(rd, ls[k..]) != []
    ensures k < |ls|
    ensures LineEvents(rd, ls[k]) == [] ==> PageEvents(rd, ls[k..]) == PageEvents(rd, ls[k + 1..])
    ensures LineEvents(rd, ls[k]) != [] ==> PageEvents(rd, ls[k..])[0].0 == ls[k].start
  {
    assert ls[k..] == [ls[k]] + ls[k + 1..];
    PageEventsFront(rd, ls[k], ls[k + 1..]);
    if LineEvents(rd, ls[k]) != [] {
      FirstReversedTag(ls[k].start, LineEvents(rd, ls[k]));
    }
  }

  lemma FirstReversedTag(offset: nat, evs: seq<ChatEvent>)
    requires evs != []
    ensures |Reverse(Tag(offset, evs))| > 0 && Reverse(Tag(offset, evs))[0].0 == offset
  {
    var n := |evs| - 1;
    var t := Tag(offset, evs);
    assert t == t[..n] + [t[n]];
    ReverseConcat(t[..n], [t[n]]);
  }

  /** A page that has events ends where the next one down starts: its cursor is below the bound,
      and what lies below the cursor is exactly what the page has not shown. */
  lemma CursorSplitsEvents(rd: Reader, f: seq<byte>, limit: nat)
    requires rd.Valid() && PageTagged(rd, f, limit) != []
    ensures
      var t := PageTagged(rd, f, limit);
      && t[0].0 < |f|
      && AllEvents(rd, f) == AllEvents(rd, f[..t[0].0]) + t
      && (t[0].0 == 0 ==> AllEvents(rd, f) == t)
  {
    var ls := Lines(f);
    var j := FirstLineFrom(rd, ls, Cut(rd, ls, limit));
    StartsInside(rd, f, j);
    SplitAtLine(rd, ls, j);
    EventsBelowLine(rd, f, j);
  }

  lemma StartsInside(rd: Reader, f: seq<byte>, j: nat)
    requires rd.Valid() && j < |Lines(f)| && LineEvents(rd, Lines(f)[j]) != []
    ensures Lines(f)[j].start < |f| && (Lines(f)[j].start == 0 ==> j == 0)
  {
    LineWithin(f, j);
    assert Lines(f)[j].bytes != [];
  }

  lemma EventsBelowLine(rd: Reader, f: seq<byte>, j: nat)
    requires rd.Valid() && j < |Lines(f)|
    ensures AllEvents(rd, f[..Lines(f)[j].start]) == PageEvents(rd, Lines(f)[..j])
  {
    LinesBelowStart(f, j);
    EmptyLine(rd, Lines(f)[..j], Lines(f)[j].start);
  }

  // Line j is the last of the lines from k on that has events.
  ghost predicate EndsAtLine(rd: Reader, ls: seq<Line>, k: nat, j: nat) {
    && k <= j < |ls| && LineEvents(rd, ls[j]) != []
    && (forall i :: j < i < |ls| ==> LineEvents(rd, ls[i]) == [])
    && PageEvents(rd, ls[k..]) != []
    && PageEvents(rd, ls[k..])[|PageEvents(rd, ls[k..])| - 1].0 == ls[j].start
  }

  lemma {:induction false} LastEventLine(rd: Reader, ls: seq<Line>, k: nat) returns (j: nat)
    requires k <= |ls| && PageEvents(rd, ls[k..]) != []
    ensures EndsAtLine(rd, ls, k, j)
  {
    LastLineOnly(rd, ls, k);
    j := |ls| - 1;
    if LineEvents(rd, ls[j]) == [] {
      j := LastEventLine(rd, ls[..|ls| - 1], k);
      StillLast(rd, ls, k, j);
    }
  }

  lemma StillLast(rd: Reader, ls: seq<Line>, k: nat, j: nat)
    requires ls != [] && LineEvents(rd, ls[|ls| - 1]) == [] && EndsAtLine(rd, ls[..|ls| - 1], k, j)
    requires PageEvents(rd, ls[k..]) == PageEvents(rd, ls[..|ls| - 1][k..])
    ensures EndsAtLine(rd, ls, k, j)
  {
    forall i | j < i < |ls| ensures LineEvents(rd, ls[i]) == [] {
      if i < |ls| - 1 {
        assert ls[..|ls| - 1][i] == ls[i];
      }
    }
    assert ls[..|ls| - 1][j] == ls[j];
  }

  // What the last line adds to the events from line k on.
  lemma LastLineOnly(rd: Reader, ls: seq<Line>, k: nat)
    requires k <= |ls| && PageEvents(rd, ls[k..]) != []
    ensures
      var n := |ls| - 1;
      var evs, before, all := LineEvents(rd, ls[n]), PageEvents(rd, ls[..n][k..]), PageEvents(rd, ls[k..]);
      && k <= n
      && (evs == [] ==> all == before)
      && (evs != [] ==> all[|all| - 1].0 == ls[n].start)
  {
    var n := |ls| - 1;
    assert ls[k..][..n - k] == ls[..n][k..] && ls[k..][n - k] == ls[n];
    ReversedTagOffsets(ls[n].start, LineEvents(rd, ls[n]));
  }

  /** A page's numbers, told from the lines alone: the first and the last offset are where the first and
      the last line with events start, every event lies between them, and there is more exactly when the
      first of them does not start the transcript. */
  lemma PageNumbers(rd: Reader, f: seq<byte>, limit: nat) returns (i: nat, j: nat)
    requires rd.Valid() && PageOf(rd, f, limit).events != []
    ensures
      var page, ls, k := PageOf(rd, f, limit), Lines(f), Cut(rd, Lines(f), limit);
      && k <= i <= j < |ls| && LineEvents(rd, ls[i]) != [] && LineEvents(rd, ls[j]) != []
      && (forall l :: k <= l < i || j < l < |ls| ==> LineEvents(rd, ls[l]) == [])
      && page.oldestSeq == ls[i].start && page.newestSeq == ls[j].start
      && (page.hasMore <==> ls[i].start > 0)
    ensures
      var page := PageOf(rd, f, limit);
      forall e :: e in PageTagged(rd, f, limit) ==> page.oldestSeq <= e.0 <= page.newestSeq
  {
    var ls, k := Lines(f), Cut(rd, Lines(f), limit);
    i := FirstLineFrom(rd, ls, k);
    j := LastEventLine(rd, ls, k);
    PageOffsets(rd, f, limit);
  }

  /** A page without events has no more to come and no offsets. */
  lemma EmptyPageNumbers(rd: Reader, f: seq<byte>, limit: nat)
    requires PageOf(rd, f, limit).events == []
    ensures
      var page := PageOf(rd, f, limit);
      !page.hasMore && page.oldestSeq == 0 && page.newestSeq == 0
  {
  }

  lemma SplitAtLine(rd: Reader, ls: seq<Line>, j: nat)
    requires j <= |ls|
    ensures PageEvents(rd, ls) == PageEvents(rd, ls[..j]) + PageEvents(rd, ls[j..])
    ensures j == 0 ==> PageEvents(rd, ls[..j]) == []
  {
    assert ls == ls[..j] + ls[j..];
    PageEventsConcat(rd, ls[..j], ls[j..]);
  }

  lemma EmptyLine(rd: Reader, ls: seq<Line>, start: nat)
    requires rd.Valid()
    ensures PageEvents(rd, ls + [Line(start, [])]) == PageEvents(rd, ls)
  {
    assert LineEvents(rd, Line(start, [])) == [];
    assert (ls + [Line(start, [])])[..|ls|] == ls;
  }

  lemma {:induction false} NoEventsNoMessages(rd: Reader, ls: seq<Line>)
    requires PageEvents(rd, ls) == []
    ensures Messages(rd, ls) == 0
  {
    if ls != [] {
      NoEventsNoMessages(rd, ls[..|ls| - 1]);
    }
  }

  /** has_more is false only when the page holds every event there is below the bound. */
  lemma NoMoreIsComplete(rd: Reader, f: seq<byte>, limit: nat)
    requires rd.Valid() && limit > 0 && !PageOf(rd, f, limit).hasMore
    ensures PageTagged(rd, f, limit) == AllEvents(rd, f)
  {
    if PageTagged(rd, f, limit) == [] {
      var ls := Lines(f);
      CutIsShortestRun(rd, ls, limit);
      NoEventsNoMessages(rd, PageLines(rd, f, limit));
      assert ls[0..] == ls;
    } else {
      CursorSplitsEvents(rd, f, limit);
    }
  }

  /** The pages met from the top of f down, oldest first: each cursor is fed back as the next
      bound until has_more is false. */
  ghost function Walk(rd: Reader, f: seq<byte>, limit: nat, olderLimit: nat): seq<seq<Tagged>>
    requires rd.Valid() && limit > 0 && olderLimit > 0
    decreases |f|
  {
    var t := PageTagged(rd, f, limit);
    if t != [] && t[0].0 > 0 then
      CursorSplitsEvents(rd, f, limit);
      Walk(rd, f[..t[0].0], olderLimit, olderLimit) + [t]
    else [t]
  }

  ghost function Flatten<T>(ss: seq<seq<T>>): seq<T> {
    if ss == [] then [] else Flatten(ss[..|ss| - 1]) + ss[|ss| - 1]
  }

  /** Paging shows every event of every line exactly once, in order. */
  lemma {:induction false} WalkIsExactlyOnce(rd: Reader, f: seq<byte>, limit: nat, olderLimit: nat)
    requires rd.Valid() && limit > 0 && olderLimit > 0
    ensures Flatten(Walk(rd, f, limit, olderLimit)) == AllEvents(rd, f)
    decreases |f|
  {
    var below, t := WalkApart(rd, f, limit, olderLimit);
    if below == [] {
      FlattenNext([], t);
      assert [] + [t] == [t] && [] + t == t;
    } else {
      WalkIsExactlyOnce(rd, below, olderLimit, olderLimit);
      FlattenNext(Walk(rd, below, olderLimit, olderLimit), t);
    }
  }

  lemma FlattenNext<T>(ss: seq<seq<T>>, s: seq<T>)
    ensures Flatten(ss + [s]) == Flatten(ss) + s
  {
    assert (ss + [s])[..|ss|] == ss;
  }

  /** A page's offsets ascend and stay below the bound it was asked for. */
  lemma PageOffsets(rd: Reader, f: seq<byte>, limit: nat)
    requires rd.Valid()
    ensures Ascending(PageTagged(rd, f, limit), |f|)
  {
    var ls := Lines(f);
    forall i | 0 <= i < |ls| ensures ls[i].start < |f| || LineEvents(rd, ls[i]) == [] {
      LineWithin(f, i);
      assert ls[i].start < |f| || ls[i].bytes == [];
    }
    LinesAscend(f);
    OffsetsAscend(rd, ls, |f|);
    var k := Cut(rd, ls, limit);
    assert ls == ls[..k] + ls[k..];
    PageEventsConcat(rd, ls[..k], ls[k..]);
    AscendingSuffix(PageEvents(rd, ls[..k]), PageTagged(rd, f, limit), |f|);
  }

  // Offsets stay below the bound, and every offset of a page is below every offset of a later one.
  ghost predicate Apart(pages: seq<seq<Tagged>>, bound: nat) {
    && (forall i, a :: 0 <= i < |pages| && a in pages[i] ==> a.0 < bound)
    && (forall i, j, a, b :: 0 <= i < j < |pages| && a in pages[i] && b in pages[j] ==> a.0 < b.0)
  }

  ghost predicate Within(t: seq<Tagged>, lo: nat, hi: nat) {
    forall b :: b in t ==> lo <= b.0 < hi
  }

  lemma ApartNext(pages: seq<seq<Tagged>>, t: seq<Tagged>, lo: nat, hi: nat)
    requires Apart(pages, lo) && lo <= hi && Within(t, lo, hi)
    ensures Apart(pages + [t], hi)
  {
    forall i, j, a, b | 0 <= i < j < |pages + [t]| && a in (pages + [t])[i] && b in (pages + [t])[j]
      ensures a.0 < b.0
    {
      if j == |pages| {
        assert a in pages[i] && b in t;
      } else {
        assert a in pages[i] && b in pages[j];
      }
    }
  }

  // The last page of a walk, and the walk below it.
  lemma WalkApart(rd: Reader, f: seq<byte>, limit: nat, olderLimit: nat) returns (below: seq<byte>, t: seq<Tagged>)
    requires rd.Valid() && limit > 0 && olderLimit > 0
    ensures |below| < |f| || below == []
    ensures Within(t, |below|, |f|)
    ensures Walk(rd, f, limit, olderLimit) ==
      if below == [] then [t] else Walk(rd, below, olderLimit, olderLimit) + [t]
    ensures AllEvents(rd, f) == if below == [] then t else AllEvents(rd, below) + t
  {
    t := PageTagged(rd, f, limit);
    PageOffsets(rd, f, limit);
    AscendingWithin(t, |f|);
    if t != [] {
      CursorSplitsEvents(rd, f, limit);
    } else {
      NoMoreIsComplete(rd, f, limit);
    }
    below := if t != [] then f[..t[0].0] else [];
  }

  /** No two pages of a walk share a line. */
  lemma {:induction false} WalkOffsets(rd: Reader, f: seq<byte>, limit: nat, olderLimit: nat)
    requires rd.Valid() && limit > 0 && olderLimit > 0
    ensures Apart(Walk(rd, f, limit, olderLimit), |f|)
    decreases |f|
  {
    var below, t := WalkApart(rd, f, limit, olderLimit);
    if below == [] {
      ApartNext([], t, 0, |f|);
      assert [] + [t] == [t];
    } else {
      WalkOffsets(rd, below, olderLimit, olderLimit);
      ApartNext(Walk(rd, below, olderLimit, olderLimit), t, |below|, |f|);
    }
  }

  lemma AscendingWithin(t: seq<Tagged>, bound: nat)
    requires Ascending(t, bound)
    ensures Within(t, if t == [] then 0 else t[0].0, bound)
  {
  }

  ghost predicate Ascending(t: seq<Tagged>, bound: nat) {
    forall i, j :: 0 <= i <= j < |t| ==> t[i].0 <= t[j].0 < bound
  }

  lemma AscendingSuffix(a: seq<Tagged>, b: seq<Tagged>, bound: nat)
    requires Ascending(a + b, bound)
    ensures Ascending(b, bound)
  {
    assert forall i :: 0 <= i < |b| ==> b[i] == (a + b)[|a| + i];
  }

  lemma AscendingConcat(a: seq<Tagged>, b: seq<Tagged>, last: nat, bound: nat)
    requires Ascending(a, bound) && (forall i :: 0 <= i < |a| ==> a[i].0 <= last)
    requires (forall i :: 0 <= i < |b| ==> b[i].0 == last) && (b == [] || last < bound)
    ensures Ascending(a + b, bound) && (forall i :: 0 <= i < |a + b| ==> (a + b)[i].0 <= last)
  {
  }

  lemma {:induction false} LinesAscend(f: seq<byte>)
    ensures forall i, j :: 0 <= i < j < |Lines(f)| ==> Lines(f)[i].start < Lines(f)[j].start
  {
    match RPosition(f, LF)
    case Some(p) => LinesAscend(f[..p]);
    case None =>
  }

  lemma {:induction false} OffsetsAscend(rd: Reader, ls: seq<Line>, bound: nat)
    requires forall i :: 0 <= i < |ls| ==> ls[i].start < bound || LineEvents(rd, ls[i]) == []
    requires forall i, j :: 0 <= i < j < |ls| ==> ls[i].start < ls[j].start
    ensures Ascending(PageEvents(rd, ls), bound)
    ensures forall i :: 0 <= i < |PageEvents(rd, ls)| ==> ls != [] && PageEvents(rd, ls)[i].0 <= ls[|ls| - 1].start
  {
    if ls != [] {
      var init, l := ls[..|ls| - 1], ls[|ls| - 1];
      OffsetsAscend(rd, init, bound);
      if init != [] {
        assert ls[|init| - 1].start < ls[|ls| - 1].start;
      }
      ReversedTagOffsets(l.start, LineEvents(rd, l));
      AscendingConcat(PageEvents(rd, init), Reverse(Tag(l.start, LineEvents(rd, l))), l.start, bound);
    }
  }

  lemma {:induction false} ReversedTagOffsets(offset: nat, evs: seq<ChatEvent>)
    ensures forall i :: 0 <= i < |evs| ==> Reverse(Tag(offset, evs))[i].0 == offset
  {
    if evs != [] {
      assert Tag(offset, evs)[1..] == Tag(offset, evs[1..]);
      ReversedTagOffsets(offset, evs[1..]);
    }
  }

  /** A page with fewer messages than asked for has reached the start: at most one more, empty
      page follows it. */
  lemma ShortPageIsLast(rd: Reader, f: seq<byte>, limit: nat)
    requires rd.Valid() && limit > 0 && Messages(rd, PageLines(rd, f, limit)) < limit
    ensures
      var t := PageTagged(rd, f, limit);
      && t == AllEvents(rd, f)
      && (t != [] ==> t[0].0 < |f| && AllEvents(rd, f[..t[0].0]) == [])
  {
    var ls := Lines(f);
    CutIsShortestRun(rd, ls, limit);
    assert ls[0..] == ls;
    if PageTagged(rd, f, limit) != [] {
      CursorSplitsEvents(rd, f, limit);
    }
  }

  /** What is appended above a page's bound cannot change the page. */
  lemma AppendKeepsPage(rd: Reader, f: seq<byte>, more: seq<byte>, before: nat, limit: nat)
    requires before <= |f|
    ensures
      var longer := f + more;
      PageOf(rd, longer[..Upper(longer, Some(before))], limit) == PageOf(rd, f[..Upper(f, Some(before))], limit)
  {
    assert (f + more)[..before] == f[..before];
  }

  // Loaded so far: the page below bound, and everything above that page.
  ghost predicate Loaded(rd: Reader, file: seq<byte>, bound: seq<byte>, limit: nat, page: HistoryPage,
                         above: seq<Tagged>, events: seq<ChatEvent>)
  {
    && bound <= file && limit > 0 && page == PageOf(rd, bound, limit)
    && AllEvents(rd, file) == AllEvents(rd, bound) + above
    && events == page.events + Untag(above)
  }

  /** What each request of a loading loop finds in a transcript that is only ever appended to. */
  ghost predicate OnlyGrows(files: nat -> seq<byte>) {
    forall i: nat :: files(i) <= files(i + 1)
  }

  lemma {:induction false} GrewFromFirst(files: nat -> seq<byte>, n: nat)
    requires OnlyGrows(files)
    ensures files(0) <= files(n)
  {
    if n > 0 {
      GrewFromFirst(files, n - 1);
      assert files(n - 1) <= files(n - 1 + 1);
    }
  }

  lemma LaterPage(rd: Reader, files: nat -> seq<byte>, n: nat, before: nat, limit: nat)
    requires OnlyGrows(files) && before <= |files(0)|
    ensures
      PageOf(rd, files(n)[..Upper(files(n), Some(before))], limit) ==
      PageOf(rd, files(0)[..Upper(files(0), Some(before))], limit)
  {
    GrewFromFirst(files, n);
    AppendKeepsPage(rd, files(0), files(n)[|files(0)|..], before, limit);
    assert files(n) == files(0) + files(n)[|files(0)|..];
  }

  // One turn of the front end's loop: the cursor of the page below bound is the next bound.
  lemma LoadStep(rd: Reader, file: seq<byte>, bound: seq<byte>, limit: nat, page: HistoryPage,
                 above: seq<Tagged>, events: seq<ChatEvent>)
    returns (bound': seq<byte>, above': seq<Tagged>)
    requires rd.Valid() && Loaded(rd, file, bound, limit, page, above, events) && page.hasMore
    ensures |bound'| < |bound| && page.oldestSeq <= |file| && bound' == file[..Upper(file, Some(page.oldestSeq))]
    ensures bound' <= file && AllEvents(rd, file) == AllEvents(rd, bound') + above' && events == Untag(above')
  {
    var t := PageBelow(rd, bound, limit);
    bound', above' := bound[..page.oldestSeq], t + above;
    PrefixOfPrefix(file, bound, page.oldestSeq);
    ConcatAssociative(AllEvents(rd, bound'), t, above);
    UntagConcat(t, above);
  }

  // A page that is not the last: its events, its cursor, and what is left below it.
  lemma PageBelow(rd: Reader, f: seq<byte>, limit: nat) returns (t: seq<Tagged>)
    requires rd.Valid() && PageOf(rd, f, limit).hasMore
    ensures
      var page := PageOf(rd, f, limit);
      && page.events == Untag(t) && page.oldestSeq < |f|
      && AllEvents(rd, f) == AllEvents(rd, f[..page.oldestSeq]) + t
  {
    t := PageTagged(rd, f, limit);
    CursorSplitsEvents(rd, f, limit);
  }

  lemma PrefixOfPrefix(file: seq<byte>, bound: seq<byte>, n: nat)
    requires bound <= file && n <= |bound|
    ensures bound[..n] == file[..n] && bound[..n] <= file && n <= |file| && Upper(file, Some(n)) == n
  {
  }

  lemma UntagConcat(s: seq<Tagged>, t: seq<Tagged>)
    ensures Untag(s + t) == Untag(s) + Untag(t)
  {
  }

  lemma LoadDone(rd: Reader, file: seq<byte>, bound: seq<byte>, limit: nat, page: HistoryPage,
                 above: seq<Tagged>, events: seq<ChatEvent>)
    requires rd.Valid() && Loaded(rd, file, bound, limit, page, above, events) && !page.hasMore
    ensures events == Untag(AllEvents(rd, file))
  {
    NoMoreIsComplete(rd, bound, limit);
    UntagConcat(AllEvents(rd, bound), above);
  }

  /** The front end's loading loop (src/shared/chat/event-store.ts loadInitial, loadOlder): each
      page is put before what was already loaded. Whatever is appended to the transcript between the
      requests, what is loaded is the transcript as the first request found it. */
  method LoadWhole(rd: Reader, files: nat -> seq<byte>, limit: nat, olderLimit: nat, chunkSize: nat := CHUNK)
    returns (events: seq<ChatEvent>)
    requires rd.Valid() && OnlyGrows(files) && limit > 0 && olderLimit > 0 && chunkSize >= 1
    ensures events == Untag(AllEvents(rd, files(0)))
  {
    var page := ReadPage(rd, files(0), None, limit, chunkSize);
    ghost var file := files(0);
    assert file[..|file|] == file;
    ghost var bound, n, above: seq<Tagged> := file, limit, [];
    var request: nat := 1;
    events := page.events;
    while page.hasMore
      invariant Loaded(rd, file, bound, n, page, above, events)
      decreases |bound|
    {
      bound, above := LoadStep(rd, file, bound, n, page, above, events);
      n := olderLimit;
      LaterPage(rd, files, request, page.oldestSeq, olderLimit);
      page := ReadPage(rd, files(request), Some(page.oldestSeq), olderLimit, chunkSize);
      events := page.events + events;
      request := request + 1;
    }
    LoadDone(rd, file, bound, n, page, above, events);
  }
}
