/** LocalAgreement-2: what two consecutive transcriptions agree on is committed
    (stt-sidecar/whisper_online.py, HypothesisBuffer). */
module Hypothesis {
  import opened Prelude

  datatype Word = Word(beg: real, end: real, text: string)

  const MAX_ECHO: nat := 5

  function Texts(ws: seq<Word>): (r: seq<string>)
    ensures |r| == |ws|
  {
    seq(|ws|, i requires 0 <= i < |ws| => ws[i].text)
  }

  function Join(sep: string, ts: seq<string>): string {
    if ts == [] then []
    else if |ts| == 1 then ts[0]
    else ts[0] + sep + Join(sep, ts[1..])
  }

  // ----- what insert and flush must do -----

  function Shift(ws: seq<Word>, offset: real): (r: seq<Word>)
    ensures |r| == |ws|
  {
    seq(|ws|, i requires 0 <= i < |ws| => Word(ws[i].beg + offset, ws[i].end + offset, ws[i].text))
  }

  /** The words that start later than a tenth of a second before time. */
  function Recent(ws: seq<Word>, time: real): seq<Word> {
    if ws == [] then []
    else
      var init, w := ws[..|ws| - 1], ws[|ws| - 1];
      Recent(init, time) + if w.beg > time - 0.1 then [w] else []
  }

  lemma {:induction false} RecentMember(ws: seq<Word>, time: real, w: Word)
    requires w in Recent(ws, time)
    ensures w in ws && w.beg > time - 0.1
  {
    if ws != [] {
      var init, last := ws[..|ws| - 1], ws[|ws| - 1];
      assert ws == init + [last];
      if w in Recent(init, time) {
        RecentMember(init, time, w);
      }
    }
  }

  /** Where the words are that count as recent once they are moved by offset: all of them, in order. */
  ghost predicate RecentAt(words: seq<Word>, offset: real, time: real, at: seq<nat>) {
    && (forall k :: 0 <= k < |at| ==> at[k] < |words| && words[at[k]].beg + offset > time - 0.1)
    && (forall k, l :: 0 <= k < l < |at| ==> at[k] < at[l])
    && (forall i {:trigger i in at} :: 0 <= i < |words| && words[i].beg + offset > time - 0.1 ==> i in at)
  }

  /** The words at these places, with both times moved. */
  ghost predicate MovedWords(words: seq<Word>, offset: real, at: seq<nat>, moved: seq<Word>) {
    && |moved| == |at|
    && (forall k :: 0 <= k < |at| ==> at[k] < |words|)
    && (forall k :: 0 <= k < |at| ==> moved[k].beg == words[at[k]].beg + offset)
    && (forall k :: 0 <= k < |at| ==> moved[k].end == words[at[k]].end + offset)
    && (forall k :: 0 <= k < |at| ==> moved[k].text == words[at[k]].text)
  }

  lemma {:induction false} RecentIs(words: seq<Word>, offset: real, time: real) returns (at: seq<nat>)
    ensures RecentAt(words, offset, time, at)
    ensures MovedWords(words, offset, at, Recent(Shift(words, offset), time))
  {
    if words == [] {
      at := [];
    } else {
      var init, w := words[..|words| - 1], words[|words| - 1];
      at := RecentIs(init, offset, time);
      RecentNext(init, w, offset, time);
      at := OneMoreAt(init, w, offset, time, at, Recent(Shift(init, offset), time));
      assert words == init + [w];
    }
  }

  lemma OneMoreAt(init: seq<Word>, w: Word, offset: real, time: real, at: seq<nat>, moved: seq<Word>)
    returns (at': seq<nat>)
    requires RecentAt(init, offset, time, at) && MovedWords(init, offset, at, moved)
    ensures RecentAt(init + [w], offset, time, at')
    ensures MovedWords(init + [w], offset, at', moved +
              if w.beg + offset > time - 0.1 then [Word(w.beg + offset, w.end + offset, w.text)] else [])
  {
    RecentAtNext(init, w, offset, time, at);
    MovedStill(init, w, offset, at, moved);
    at' := at;
    if w.beg + offset > time - 0.1 {
      MovedMore(init, w, offset, at, moved);
      at' := at + [|init|];
    } else {
      assert moved + [] == moved;
    }
  }

  lemma RecentAtNext(init: seq<Word>, w: Word, offset: real, time: real, at: seq<nat>)
    requires RecentAt(init, offset, time, at)
    ensures RecentAt(init + [w], offset, time, if w.beg + offset > time - 0.1 then at + [|init|] else at)
  {
    var at' := if w.beg + offset > time - 0.1 then at + [|init|] else at;
    forall i | 0 <= i <= |init| && (init + [w])[i].beg + offset > time - 0.1 ensures i in at' {
      if i < |init| {
        assert (init + [w])[i] == init[i];
        assert i in at;
      }
    }
  }

  lemma RecentNext(init: seq<Word>, w: Word, offset: real, time: real)
    ensures Recent(Shift(init + [w], offset), time) == Recent(Shift(init, offset), time) +
      if w.beg + offset > time - 0.1 then [Word(w.beg + offset, w.end + offset, w.text)] else []
  {
    assert Shift(init + [w], offset)[..|init|] == Shift(init, offset);
  }

  lemma MovedStill(init: seq<Word>, w: Word, offset: real, at: seq<nat>, moved: seq<Word>)
    requires MovedWords(init, offset, at, moved)
    ensures MovedWords(init + [w], offset, at, moved)
  {
  }

  lemma MovedMore(init: seq<Word>, w: Word, offset: real, at: seq<nat>, moved: seq<Word>)
    requires MovedWords(init + [w], offset, at, moved)
    ensures MovedWords(init + [w], offset, at + [|init|], moved + [Word(w.beg + offset, w.end + offset, w.text)])
  {
  }

  /** The last i committed words read like the first i new ones. */
  predicate Echoes(commited: seq<Word>, new_: seq<Word>, i: nat) {
    1 <= i <= MAX_ECHO && ReadAlike(commited, new_, i)
  }

  predicate ReadAlike(commited: seq<Word>, new_: seq<Word>, i: nat) {
    && i <= |commited| && i <= |new_|
    && Join(" ", Texts(commited[|commited| - i..])) == Join(" ", Texts(new_[..i]))
  }

  /** How many words the de-echo drops: the fewest that read alike, or none. */
  function EchoLength(commited: seq<Word>, new_: seq<Word>): (n: nat)
    ensures n == 0 || Echoes(commited, new_, n)
    ensures forall i :: 1 <= i && (n == 0 || i < n) ==> !Echoes(commited, new_, i)
  {
    EchoFrom(commited, new_, 1)
  }

  function EchoFrom(commited: seq<Word>, new_: seq<Word>, from: nat): (n: nat)
    requires from >= 1
    ensures n == 0 || (n >= from && Echoes(commited, new_, n))
    ensures forall i :: from <= i && (n == 0 || i < n) ==> !Echoes(commited, new_, i)
    decreases MAX_ECHO + 1 - from
  {
    if from > MAX_ECHO then 0
    else if Echoes(commited, new_, from) then from
    else EchoFrom(commited, new_, from + 1)
  }

  /** How many words of two hypotheses agree, from the start. */
  function AgreedLength(a: seq<Word>, b: seq<Word>): (n: nat)
    ensures AgreeUpTo(a, b, n)
    ensures n == |a| || n == |b| || a[n].text != b[n].text
  {
    if a == [] || b == [] || a[0].text != b[0].text then 0
    else
      var n := AgreedLength(a[1..], b[1..]);
      assert forall i :: 1 <= i < n + 1 ==> a[i] == a[1..][i - 1] && b[i] == b[1..][i - 1];
      n + 1
  }

  ghost predicate AgreeUpTo(a: seq<Word>, b: seq<Word>, n: nat) {
    n <= |a| && n <= |b| && forall i :: 0 <= i < n ==> a[i].text == b[i].text
  }

  /** commitedInBuffer: committed words whose audio is still held. buffer: the words of the last
      hypothesis that are not committed yet. */
  datatype State = State(commitedInBuffer: seq<Word>, buffer: seq<Word>,
                         lastCommitedTime: real, lastCommitedWord: Option<string>)

  /** The part of a new hypothesis that insert keeps: recent words, less an echo of committed ones. */
  function Heard(s: State, words: seq<Word>, offset: real): seq<Word> {
    var recent := Recent(Shift(words, offset), s.lastCommitedTime);
    recent[EchoLength(s.commitedInBuffer, recent)..]
  }

  /** What insert must leave of a hypothesis: its recent words, each moved, in order and once, less the
      start that echoes. */
  ghost predicate HeardAt(s: State, words: seq<Word>, offset: real, heard: seq<Word>, at: seq<nat>, moved: seq<Word>) {
    && RecentAt(words, offset, s.lastCommitedTime, at)
    && MovedWords(words, offset, at, moved)
    && heard == moved[EchoLength(s.commitedInBuffer, moved)..]
  }

  lemma HeardIs(s: State, words: seq<Word>, offset: real) returns (at: seq<nat>, moved: seq<Word>)
    ensures HeardAt(s, words, offset, Heard(s, words, offset), at, moved)
  {
    at := RecentIs(words, offset, s.lastCommitedTime);
    moved := Recent(Shift(words, offset), s.lastCommitedTime);
  }

  /** What flush commits: the words the last two hypotheses agree on, as the new one timed them. */
  function Commit(s: State, heard: seq<Word>): seq<Word> {
    heard[..AgreedLength(s.buffer, heard)]
  }

  function Flushed(s: State, heard: seq<Word>): State {
    var commit := Commit(s, heard);
    State(s.commitedInBuffer + commit, heard[|commit|..],
          if commit == [] then s.lastCommitedTime else commit[|commit| - 1].end,
          if commit == [] then s.lastCommitedWord else Some(commit[|commit| - 1].text))
  }

  /** The committed words from the first one that ends after time on. */
  function DropUntil(ws: seq<Word>, time: real): seq<Word> {
    if ws != [] && ws[0].end <= time then DropUntil(ws[1..], time) else ws
  }

  /** What is dropped is the longest start whose words all end by then. */
  lemma {:induction false} DropsLongestStart(ws: seq<Word>, time: real) returns (n: nat)
    ensures n <= |ws| && DropUntil(ws, time) == ws[n..]
    ensures forall i :: 0 <= i < n ==> ws[i].end <= time
    ensures n < |ws| ==> ws[n].end > time
  {
    n := 0;
    if ws != [] && ws[0].end <= time {
      n := DropsLongestStart(ws[1..], time);
      n := n + 1;
    }
  }

  // ----- the program -----

  /** The loop of insert over the n-grams: the first that echoes is dropped. */
  method DropEcho(commited: seq<Word>, recent: seq<Word>) returns (kept: seq<Word>)
    ensures kept == recent[EchoLength(commited, recent)..]
  {
    var cn, nn := |commited|, |recent|;
    var least := if cn < nn then cn else nn;
    var last := if least < MAX_ECHO then least else MAX_ECHO;
    var i: nat := 1;
    while i <= last
      invariant 1 <= i <= last + 1
      invariant EchoLength(commited, recent) == EchoFrom(commited, recent, i)
    {
      var c := Join(" ", Texts(commited[cn - i..]));
      var tail := Join(" ", Texts(recent[..i]));
      EchoStep(commited, recent, i);
      if c == tail {
        return recent[i..];
      }
      i := i + 1;
    }
    NoEchoBeyond(commited, recent, i);
    assert recent[0..] == recent;
    return recent;
  }

  lemma AgreedLengthIs(a: seq<Word>, b: seq<Word>, n: nat)
    requires AgreeUpTo(a, b, n) && (n == |a| || n == |b| || a[n].text != b[n].text)
    ensures n == AgreedLength(a, b)
  {
  }

  // One more word agrees.
  lemma CommitNext(s: State, heard: seq<Word>, n: nat)
    requires AgreeUpTo(s.buffer, heard, n) && n < |s.buffer| && n < |heard| && s.buffer[n].text == heard[n].text
    ensures AgreeUpTo(s.buffer, heard, n + 1)
    ensures heard[..n + 1] == heard[..n] + [heard[n]]
    ensures heard[n..][1..] == heard[n + 1..] && s.buffer[n..][1..] == s.buffer[n + 1..]
  {
  }

  lemma EchoStep(commited: seq<Word>, recent: seq<Word>, i: nat)
    requires 1 <= i <= MAX_ECHO && i <= |commited| && i <= |recent|
    ensures EchoFrom(commited, recent, i) ==
      if Join(" ", Texts(commited[|commited| - i..])) == Join(" ", Texts(recent[..i])) then i
      else EchoFrom(commited, recent, i + 1)
  {
  }

  lemma NoEchoBeyond(commited: seq<Word>, recent: seq<Word>, i: nat)
    requires i >= 1 && (i > MAX_ECHO || i > |commited| || i > |recent|)
    ensures EchoFrom(commited, recent, i) == 0
  {
    assert !Echoes(commited, recent, EchoFrom(commited, recent, i));
  }

  class HypothesisBuffer {
    var commitedInBuffer: seq<Word>
    var buffer: seq<Word>
    var new_: seq<Word>
    var lastCommitedTime: real
    var lastCommitedWord: Option<string>

    ghost function Abs(): State
      reads this
    {
      State(commitedInBuffer, buffer, lastCommitedTime, lastCommitedWord)
    }

    constructor (time: real)
      ensures Abs() == State([], [], time, None) && new_ == []
    {
      commitedInBuffer, buffer, new_ := [], [], [];
      lastCommitedTime, lastCommitedWord := time, None;
    }

    method Insert(words: seq<Word>, offset: real)
      modifies this`new_
      ensures new_ == Heard(old(Abs()), words, offset)
      ensures exists at, moved :: HeardAt(old(Abs()), words, offset, new_, at, moved)
    {
      new_ := Recent(Shift(words, offset), lastCommitedTime);
      if |new_| >= 1 && commitedInBuffer != [] {
        new_ := DropEcho(commitedInBuffer, new_);
      }
      ghost var at, moved := HeardIs(Abs(), words, offset);
    }

    method Flush() returns (commit: seq<Word>)
      modifies this
      ensures commit == Commit(old(Abs()), old(new_))
      ensures Abs() == Flushed(old(Abs()), old(new_)) && new_ == []
    {
      commit := [];
      ghost var s, heard := Abs(), new_;
      ghost var n: nat := 0;
      while new_ != []
        invariant AgreeUpTo(s.buffer, heard, n)
        invariant commit == heard[..n] && new_ == heard[n..] && buffer == s.buffer[n..]
        invariant commitedInBuffer == s.commitedInBuffer
        invariant lastCommitedTime == if commit == [] then s.lastCommitedTime else commit[|commit| - 1].end
        invariant lastCommitedWord == if commit == [] then s.lastCommitedWord else Some(commit[|commit| - 1].text)
      {
        var w := new_[0];
        if buffer == [] {
          break;
        }
        if w.text == buffer[0].text {
          CommitNext(s, heard, n);
          commit := commit + [w];
          lastCommitedWord := Some(w.text);
          lastCommitedTime := w.end;
          buffer := buffer[1..];
          new_ := new_[1..];
          n := n + 1;
        } else {
          break;
        }
      }
      AgreedLengthIs(s.buffer, heard, n);
      buffer := new_;
      new_ := [];
      commitedInBuffer := commitedInBuffer + commit;
    }

    method PopCommited(time: real)
      modifies this`commitedInBuffer
      ensures commitedInBuffer == DropUntil(old(commitedInBuffer), time)
    {
      while commitedInBuffer != [] && commitedInBuffer[0].end <= time
        invariant DropUntil(commitedInBuffer, time) == DropUntil(old(commitedInBuffer), time)
      {
        commitedInBuffer := commitedInBuffer[1..];
      }
    }

    function Complete(): seq<Word>
      reads this
    {
      buffer
    }
  }

  // ----- main results -----

  ghost predicate WellTimed(ws: seq<Word>) {
    forall w :: w in ws ==> w.beg <= w.end
  }

  /** One step of LocalAgreement: the committed words are the longest common start, by text, of the
      old tail and what was heard, timed as heard; the new tail is the rest of what was heard. */
  lemma CommitIsLongestCommonStart(s: State, heard: seq<Word>)
    ensures
      var commit, s' := Commit(s, heard), Flushed(s, heard);
      && commit + s'.buffer == heard
      && s'.commitedInBuffer == s.commitedInBuffer + commit
      && (commit == [] ==> s'.lastCommitedTime == s.lastCommitedTime && s'.lastCommitedWord == s.lastCommitedWord)
      && (commit != [] ==>
            var w := heard[|commit| - 1];
            s'.lastCommitedTime == w.end && s'.lastCommitedWord == Some(w.text))
      && AgreeUpTo(s.buffer, heard, |commit|)
      && forall n: nat :: AgreeUpTo(s.buffer, heard, n) ==> n <= |commit|
  {
  }

  /** What is heard is the recent words, less at most five at the start that read like the end of
      the committed ones. */
  lemma EchoIsShortAndCommitted(s: State, words: seq<Word>, offset: real)
    ensures
      var recent, heard := Recent(Shift(words, offset), s.lastCommitedTime), Heard(s, words, offset);
      var n := |recent| - |heard|;
      0 <= n <= 5 && ReadAlike(s.commitedInBuffer, recent, n) && heard == recent[n..]
  {
    var recent := Recent(Shift(words, offset), s.lastCommitedTime);
    EchoReadsAlike(s.commitedInBuffer, recent);
  }

  lemma EchoReadsAlike(commited: seq<Word>, recent: seq<Word>)
    ensures EchoLength(commited, recent) <= 5 && ReadAlike(commited, recent, EchoLength(commited, recent))
  {
    if EchoLength(commited, recent) == 0 {
      assert commited[|commited|..] == [] == recent[..0];
    }
  }

  /** The committed time falls by less than a tenth of a second, whatever the model times. */
  lemma CommitedTimeBarelyFalls(s: State, words: seq<Word>, offset: real)
    requires WellTimed(words)
    ensures Flushed(s, Heard(s, words, offset)).lastCommitedTime > s.lastCommitedTime - 0.1
  {
    var heard := Heard(s, words, offset);
    var commit := Commit(s, heard);
    if commit != [] {
      var w := commit[|commit| - 1];
      assert w == heard[|commit| - 1];
      RecentEndsLate(words, offset, s.lastCommitedTime, w);
    }
  }

  lemma RecentEndsLate(words: seq<Word>, offset: real, time: real, w: Word)
    requires WellTimed(words) && w in Recent(Shift(words, offset), time)
    ensures w.end > time - 0.1
  {
    RecentMember(Shift(words, offset), time, w);
    var i :| 0 <= i < |words| && w == Shift(words, offset)[i];
    assert words[i] in words;
  }

  ghost predicate SameLengths(ts: seq<string>, us: seq<string>)
    requires |ts| == |us|
  {
    forall k :: 0 <= k < |ts| ==> |ts[k]| == |us[k]|
  }

  /** Lists of as many words that read alike are the same words, one by one, exactly when the words
      are as long, one by one. */
  lemma {:induction false} JoinedAlikeIff(ts: seq<string>, us: seq<string>)
    requires |ts| == |us| && Join(" ", ts) == Join(" ", us)
    ensures ts == us <==> SameLengths(ts, us)
  {
    if |ts| > 1 && SameLengths(ts, us) {
      SameStart(ts[0], us[0], Join(" ", ts[1..]), Join(" ", us[1..]));
      JoinedAlikeIff(ts[1..], us[1..]);
      assert ts == [ts[0]] + ts[1..] && us == [us[0]] + us[1..];
    }
  }

  lemma SameStart(t: string, u: string, r: string, q: string)
    requires |t| == |u| && t + " " + r == u + " " + q
    ensures t == u && r == q
  {
    var a, b := t + " " + r, u + " " + q;
    assert t == a[..|t|] && u == b[..|u|] && r == a[|t| + 1..] && q == b[|u| + 1..];
  }

  /** The words dropped as an echo are committed ones, word for word, exactly when they are as long
      as those, word by word. */
  lemma EchoIsLiteralIff(commited: seq<Word>, new_: seq<Word>)
    ensures
      var n := EchoLength(commited, new_);
      var tail, head := Texts(commited[|commited| - n..]), Texts(new_[..n]);
      tail == head <==> SameLengths(tail, head)
  {
    var n := EchoLength(commited, new_);
    if n > 0 {
      JoinedAlikeIff(Texts(commited[|commited| - n..]), Texts(new_[..n]));
    }
  }

  // A word as Whisper writes it: not empty, and with a space at most at its start.
  predicate Spoken(t: string) {
    t != "" && ' ' !in t[1..]
  }

  lemma FirstWordsAsLong(t: string, u: string, r: string, q: string)
    requires Spoken(t) && Spoken(u) && t + " " + r == u + " " + q
    ensures |t| == |u|
  {
    var a, b := t + " " + r, u + " " + q;
    assert a[|t|] == ' ' && b[|u|] == ' ';
    SpokenChars(t);
    SpokenChars(u);
    assert (forall k :: 0 <= k < |t| ==> a[k] == t[k]) && (forall k :: 0 <= k < |u| ==> b[k] == u[k]);
  }

  lemma SpokenChars(t: string)
    requires Spoken(t)
    ensures forall k :: 1 <= k < |t| ==> t[k] != ' '
  {
    assert forall k :: 1 <= k < |t| ==> t[k] in t[1..];
  }

  lemma {:induction false} SpokenLengths(ts: seq<string>, us: seq<string>)
    requires |ts| == |us| && (forall t :: t in ts ==> Spoken(t)) && (forall u :: u in us ==> Spoken(u))
    requires Join(" ", ts) == Join(" ", us)
    ensures SameLengths(ts, us)
  {
    if |ts| > 1 {
      FirstWordsAsLong(ts[0], us[0], Join(" ", ts[1..]), Join(" ", us[1..]));
      SameStart(ts[0], us[0], Join(" ", ts[1..]), Join(" ", us[1..]));
      SpokenLengths(ts[1..], us[1..]);
      assert ts == [ts[0]] + ts[1..] && us == [us[0]] + us[1..];
    }
  }

  /** Words as Whisper writes them read alike only when they are the same, one by one. */
  lemma JoinedAlikeIsEqual(ts: seq<string>, us: seq<string>)
    requires |ts| == |us| && (forall t :: t in ts ==> Spoken(t)) && (forall u :: u in us ==> Spoken(u))
    requires Join(" ", ts) == Join(" ", us)
    ensures ts == us
  {
    SpokenLengths(ts, us);
    JoinedAlikeIff(ts, us);
  }

  /** With spaces inside words the de-echo drops words that were never said before. */
  lemma SpacedWordsAreDropped() returns (commited: seq<Word>, new_: seq<Word>)
    ensures Texts(commited) == ["a b", "c"] && Texts(new_) == ["a", "b c"]
    ensures EchoLength(commited, new_) == 2
    ensures Heard(State(commited, [], 0.0, None), new_, 0.0) == []
  {
    var a, b := Word(0.0, 0.0, "a"), Word(0.0, 0.0, "b c");
    var c, d := Word(0.0, 0.0, "a b"), Word(0.0, 0.0, "c");
    commited, new_ := [c, d], [a, b];
    TextsOfTwo(c, d);
    TextsOfTwo(a, b);
    SpacedWordsEcho(commited, new_);
    BothRecent(a, b);
    HeardIsRest(State(commited, [], 0.0, None), new_);
  }

  lemma TextsOfTwo(v: Word, w: Word)
    ensures Texts([v, w]) == [v.text, w.text]
  {
  }

  lemma BothRecent(v: Word, w: Word)
    requires v.beg == v.end == w.beg == w.end == 0.0
    ensures Recent(Shift([v, w], 0.0), 0.0) == [v, w]
  {
    assert Shift([v, w], 0.0) == [v, w] == [] + [v] + [w];
    OneMoreRecent([], v, 0.0);
    OneMoreRecent([v], w, 0.0);
  }

  lemma OneMoreRecent(init: seq<Word>, w: Word, time: real)
    requires w.beg > time - 0.1
    ensures Recent(init + [w], time) == Recent(init, time) + [w]
  {
    assert (init + [w])[..|init|] == init;
  }

  // A hypothesis whose words are all recent and all an echo is dropped whole.
  lemma HeardIsRest(s: State, words: seq<Word>)
    requires Recent(Shift(words, 0.0), s.lastCommitedTime) == words
    requires EchoLength(s.commitedInBuffer, words) == |words|
    ensures Heard(s, words, 0.0) == []
  {
  }

  lemma SpacedWordsEcho(commited: seq<Word>, new_: seq<Word>)
    requires Texts(commited) == ["a b", "c"] && Texts(new_) == ["a", "b c"]
    ensures EchoLength(commited, new_) == 2
  {
    assert commited[0..] == commited && new_[..2] == new_;
    assert ["a b", "c"][1..] == ["c"] && ["a", "b c"][1..] == ["b c"];
    assert Join(" ", ["a b", "c"]) == "a b c" == Join(" ", ["a", "b c"]);
    assert Echoes(commited, new_, 2);
    assert Texts(commited[1..]) == Texts(commited)[1..] == ["c"] && Texts(new_[..1]) == Texts(new_)[..1] == ["a"];
    assert Join(" ", ["c"]) == "c" && Join(" ", ["a"]) == "a";
    assert "c"[0] != "a"[0];
    assert !Echoes(commited, new_, 1);
  }
}
