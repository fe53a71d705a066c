/** Reading a chat transcript: forward replay, and pages read backward from the end
    (src-tauri/src/chat/history.rs). */
module History {
  import opened Prelude

  const LF: byte := 10
  const CR: byte := 13
  const CHUNK: nat := 64 * 1024

  datatype ChatEvent =
    | AssistantMessage(content: string)
    | OtherEvent(kind: string, content: string)

  predicate IsMessageEvent(ev: ChatEvent) {
    ev.AssistantMessage?
  }

  /** What lies outside this file: UTF-8 decoding, and the line parser. */
  datatype Reader = Reader(decode: seq<byte> -> Option<string>, parse: string -> seq<ChatEvent>) {
    ghost predicate Valid() {
      decode([]) == Some("")
    }
  }

  datatype HistoryPage = HistoryPage(events: seq<ChatEvent>, oldestSeq: nat, newestSeq: nat, hasMore: bool)

  const EMPTY_PAGE := HistoryPage([], 0, 0, false)

  datatype Result<+T> = Ok(value: T) | Err

  // An event with the byte offset of the line it came from.
  type Tagged = (nat, ChatEvent)

  // ----- lines of a file -----

  datatype Line = Line(start: nat, bytes: seq<byte>)

  function RPosition(buf: seq<byte>, b: byte): (r: Option<nat>)
    ensures r.Some? ==> r.value < |buf| && buf[r.value] == b && b !in buf[r.value + 1..]
    ensures r.None? ==> b !in buf
  {
    if buf == [] then None
    else if buf[|buf| - 1] == b then Some(|buf| - 1)
    else RPosition(buf[..|buf| - 1], b)
  }

  /** The lines of f with their byte offsets. The last one is what follows the last line feed,
      and may be empty. */
  ghost function Lines(f: seq<byte>): (ls: seq<Line>)
    ensures |ls| > 0
    ensures forall i :: 0 <= i < |ls| ==> ls[i].start <= |f|
  {
    match RPosition(f, LF)
    case None => [Line(0, f)]
    case Some(p) => Lines(f[..p]) + [Line(p + 1, f[p + 1..])]
  }

  function StripCr(bytes: seq<byte>): seq<byte> {
    if bytes != [] && bytes[|bytes| - 1] == CR then bytes[..|bytes| - 1] else bytes
  }

  // ----- the events of a line -----

  function TextEvents(rd: Reader, bytes: seq<byte>): seq<ChatEvent> {
    var s := GetOr(rd.decode(bytes), "");
    if IsBlank(s) then [] else rd.parse(s)
  }

  function Tag(offset: nat, evs: seq<ChatEvent>): (r: seq<Tagged>)
    ensures |r| == |evs|
  {
    seq(|evs|, i requires 0 <= i < |evs| => (offset, evs[i]))
  }

  function Untag(ts: seq<Tagged>): (r: seq<ChatEvent>)
    ensures |r| == |ts|
  {
    seq(|ts|, i requires 0 <= i < |ts| => ts[i].1)
  }

  function CountMessages(evs: seq<ChatEvent>): nat {
    if evs == [] then 0
    else CountMessages(evs[..|evs| - 1]) + (if IsMessageEvent(evs[|evs| - 1]) then 1 else 0)
  }

  /** Only assistant messages count. */
  lemma {:induction false} CountsAssistantMessages(evs: seq<ChatEvent>)
    ensures CountMessages(evs) == |set i | 0 <= i < |evs| && evs[i].AssistantMessage?|
  {
    var counted := set i | 0 <= i < |evs| && evs[i].AssistantMessage?;
    if evs == [] {
      assert counted == {};
    } else {
      var n := |evs| - 1;
      CountsAssistantMessages(evs[..n]);
      var before := set i | 0 <= i < |evs[..n]| && evs[..n][i].AssistantMessage?;
      assert counted == before + if evs[n].AssistantMessage? then {n} else {};
    }
  }

  function LineEvents(rd: Reader, l: Line): seq<ChatEvent> {
    TextEvents(rd, StripCr(l.bytes))
  }

  // ----- what a page must be -----

  /** The lines' events in line order, each line's own events reversed. */
  ghost function PageEvents(rd: Reader, ls: seq<Line>): seq<Tagged> {
    if ls == [] then []
    else
      var l := ls[|ls| - 1];
      PageEvents(rd, ls[..|ls| - 1]) + Reverse(Tag(l.start, LineEvents(rd, l)))
  }

  ghost function Messages(rd: Reader, ls: seq<Line>): nat {
    if ls == [] then 0
    else Messages(rd, ls[..|ls| - 1]) + CountMessages(LineEvents(rd, ls[|ls| - 1]))
  }

  /** Where the page starts: the last line from which enough messages follow, or the first line. */
  ghost function Cut(rd: Reader, ls: seq<Line>, limit: int): (k: nat)
    ensures k <= |ls|
  {
    if ls == [] then 0
    else
      var n := CountMessages(LineEvents(rd, ls[|ls| - 1]));
      if n >= limit then |ls| - 1 else Cut(rd, ls[..|ls| - 1], limit - n)
  }

  ghost function PageTagged(rd: Reader, f: seq<byte>, limit: nat): seq<Tagged> {
    var ls := Lines(f);
    PageEvents(rd, ls[Cut(rd, ls, limit)..])
  }

  function AsPage(ts: seq<Tagged>): HistoryPage {
    if ts == [] then EMPTY_PAGE
    else HistoryPage(Untag(ts), ts[0].0, ts[|ts| - 1].0, ts[0].0 > 0)
  }

  ghost function PageOf(rd: Reader, f: seq<byte>, limit: nat): HistoryPage {
    if limit == 0 then EMPTY_PAGE else AsPage(PageTagged(rd, f, limit))
  }

  // ----- what a replay must be -----

  // BufRead::lines drops a carriage return only before a line feed, so the last line keeps it.
  ghost function ReplayTexts(f: seq<byte>): seq<seq<byte>> {
    var ls := Lines(f);
    Texts(ls[..|ls| - 1]) + [ls[|ls| - 1].bytes]
  }

  ghost function Texts(ls: seq<Line>): (r: seq<seq<byte>>)
    ensures |r| == |ls|
  {
    seq(|ls|, i requires 0 <= i < |ls| => StripCr(ls[i].bytes))
  }

  ghost function ReplayEvents(rd: Reader, texts: seq<seq<byte>>): seq<ChatEvent> {
    if texts == [] then []
    else ReplayEvents(rd, texts[..|texts| - 1]) + TextEvents(rd, texts[|texts| - 1])
  }

  ghost predicate Decodable(rd: Reader, texts: seq<seq<byte>>) {
    forall t :: t in texts ==> rd.decode(t).Some?
  }

  ghost function ReplayOf(rd: Reader, f: seq<byte>): Result<seq<ChatEvent>> {
    var texts := ReplayTexts(f);
    if Decodable(rd, texts) then Ok(ReplayEvents(rd, texts)) else Err
  }

  // ----- the programs -----

  /** src-tauri/src/chat/history.rs read_page, with the chunk size as a parameter. The page is
      a function of the bytes below the cursor, so neither the chunk size nor anything appended
      above the cursor can change it. */
  method ReadPage(rd: Reader, file: seq<byte>, beforeSeq: Option<nat>, messageLimit: nat, chunkSize: nat := CHUNK)
    returns (page: HistoryPage)
    requires rd.Valid() && chunkSize >= 1
    ensures page == PageOf(rd, file[..Upper(file, beforeSeq)], messageLimit)
  {
    if messageLimit == 0 || beforeSeq == Some(0) {
      EmptyPrefix(rd, messageLimit);
      return EMPTY_PAGE;
    }
    var upper := Upper(file, beforeSeq);
    if upper == 0 {
      EmptyPrefix(rd, messageLimit);
      return EMPTY_PAGE;
    }
    var events := CollectBackward(rd, file, upper, messageLimit, chunkSize);
    events := Reverse(events);
    var oldestSeq := if events == [] then 0 else events[0].0;
    var newestSeq := if events == [] then 0 else events[|events| - 1].0;
    return HistoryPage(Untag(events), oldestSeq, newestSeq, oldestSeq > 0 && events != []);
  }

  /** The loop: lines are taken off the end until the limit is met or the file starts. */
  method CollectBackward(rd: Reader, file: seq<byte>, upper: nat, messageLimit: nat, chunkSize: nat)
    returns (events: seq<Tagged>)
    requires chunkSize >= 1 && upper <= |file| && messageLimit > 0
    ensures Reverse(events) == PageTagged(rd, file[..upper], messageLimit)
  {
    var tail: seq<byte> := [];
    var windowStart: nat := upper;
    events := [];
    var messages: nat := 0;
    var reachedStart := false;
    ghost var ls := Lines(file[..upper]);
    ghost var below, unread, read := file[..upper], ls, [];
    while true
      invariant below <= file && unread == Lines(below) && Window(below, tail, windowStart)
      invariant Gathered(rd, ls, messageLimit, unread, read, events, messages)
      invariant messages < messageLimit && !reachedStart
      decreases |below| + windowStart
    {
      tail, windowStart := Refill(file, tail, windowStart, chunkSize, below);
      if RPosition(tail, LF).None? && windowStart > 0 {
        continue;
      }
      ghost var tail0, events0, messages0 := tail, events, messages;
      tail, events, messages, reachedStart := TakeLine(rd, tail, windowStart, events, messages);
      below, unread := CollectStep(rd, ls, messageLimit, below, unread, read, tail0, windowStart,
                                   events0, messages0, events, messages);
      read := [LastLineOf(tail0, windowStart)] + read;
      if messages >= messageLimit {
        break;
      }
      if reachedStart && tail == [] {
        break;
      }
    }
    GatheredIsPage(rd, file[..upper], messageLimit, ls, unread, read);
  }

  lemma GatheredIsPage(rd: Reader, f: seq<byte>, limit: nat, ls: seq<Line>, unread: seq<Line>, read: seq<Line>)
    requires ls == Lines(f) && ls == unread + read && Cut(rd, ls, limit) == |unread|
    ensures PageTagged(rd, f, limit) == PageEvents(rd, read)
  {
    assert ls[|unread|..] == read;
  }

  // tail holds the bytes from windowStart up to the end of what is still unread.
  ghost predicate Window(below: seq<byte>, tail: seq<byte>, windowStart: nat) {
    windowStart + |tail| == |below| && tail == below[windowStart..]
  }

  // The lines read so far are the page's, and the unread ones still owe the rest of the limit.
  ghost predicate Gathered(rd: Reader, ls: seq<Line>, limit: nat, unread: seq<Line>, read: seq<Line>,
                           events: seq<Tagged>, messages: nat)
  {
    && ls == unread + read
    && Reverse(events) == PageEvents(rd, read)
    && Cut(rd, ls, limit) == Cut(rd, unread, limit - messages)
  }

  // The same, also when the limit has just been met.
  ghost predicate Progress(rd: Reader, ls: seq<Line>, limit: nat, unread: seq<Line>, read: seq<Line>,
                           events: seq<Tagged>, messages: nat)
  {
    && ls == unread + read
    && Reverse(events) == PageEvents(rd, read)
    && Cut(rd, ls, limit) == if messages < limit then Cut(rd, unread, limit - messages) else |unread|
  }

  /** The first step of the loop: another chunk is read when the buffer holds no line feed. */
  method Refill(file: seq<byte>, tail0: seq<byte>, windowStart0: nat, chunkSize: nat, ghost below: seq<byte>)
    returns (tail: seq<byte>, windowStart: nat)
    requires chunkSize >= 1 && below <= file && Window(below, tail0, windowStart0)
    ensures Window(below, tail, windowStart) && windowStart <= windowStart0
    ensures RPosition(tail, LF).None? && windowStart > 0 ==> windowStart < windowStart0
  {
    tail, windowStart := tail0, windowStart0;
    var needMore := windowStart > 0 && RPosition(tail, LF).None?;
    if needMore {
      var readSize := if chunkSize < windowStart then chunkSize else windowStart;
      var readStart := windowStart - readSize;
      var chunk := file[readStart..windowStart];
      tail := chunk + tail;
      windowStart := readStart;
    }
  }

  /** The rest of the loop body: the buffer's last line is parsed and cut off. */
  method TakeLine(rd: Reader, tail0: seq<byte>, windowStart: nat, events0: seq<Tagged>, messages0: nat)
    returns (tail: seq<byte>, events: seq<Tagged>, messages: nat, reachedStart: bool)
    requires RPosition(tail0, LF).Some? || windowStart == 0
    ensures
      var l := LastLineOf(tail0, windowStart);
      && Reverse(events) == Reverse(Tag(l.start, LineEvents(rd, l))) + Reverse(events0)
      && messages == messages0 + CountMessages(LineEvents(rd, l))
    ensures reachedStart == RPosition(tail0, LF).None?
    ensures tail == if reachedStart then [] else tail0[..RPosition(tail0, LF).value]
  {
    var newlinePos := RPosition(tail0, LF);
    reachedStart := newlinePos.None?;
    var lineStart := if newlinePos.Some? then newlinePos.value + 1 else 0;
    events, messages := ParseLine(rd, Line(windowStart + lineStart, tail0[lineStart..]), events0, messages0);
    tail := if newlinePos.Some? then tail0[..newlinePos.value] else [];
  }

  function LastLineOf(tail: seq<byte>, windowStart: nat): (l: Line)
    ensures LF !in l.bytes
  {
    match RPosition(tail, LF)
    case Some(p) => Line(windowStart + p + 1, tail[p + 1..])
    case None => Line(windowStart, tail)
  }

  /** One line of the loop: its terminators dropped, its events pushed and counted. */
  method ParseLine(rd: Reader, l: Line, events0: seq<Tagged>, messages0: nat)
    returns (events: seq<Tagged>, messages: nat)
    ensures LF !in l.bytes ==>
      && Reverse(events) == Reverse(Tag(l.start, LineEvents(rd, l))) + Reverse(events0)
      && messages == messages0 + CountMessages(LineEvents(rd, l))
  {
    events, messages := events0, messages0;
    var lineBytes := l.bytes;
    if lineBytes != [] && lineBytes[|lineBytes| - 1] == LF {
      lineBytes := lineBytes[..|lineBytes| - 1];
    }
    if lineBytes != [] && lineBytes[|lineBytes| - 1] == CR {
      lineBytes := lineBytes[..|lineBytes| - 1];
    }
    var s := GetOr(rd.decode(lineBytes), "");
    var evs := [];
    if !IsBlank(s) {
      evs := rd.parse(s);
      for i := 0 to |evs|
        invariant events == events0 + Tag(l.start, evs[..i])
        invariant messages == messages0 + CountMessages(evs[..i])
      {
        assert evs[..i + 1][..i] == evs[..i];
        events := events + [(l.start, evs[i])];
        if IsMessageEvent(evs[i]) {
          messages := messages + 1;
        }
      }
    }
    assert evs[..|evs|] == evs;
    ReverseConcat(events0, Tag(l.start, evs));
    assert events == events0 + Tag(l.start, evs);
  }

  function Upper(file: seq<byte>, beforeSeq: Option<nat>): (r: nat)
    ensures r <= |file|
  {
    var b := GetOr(beforeSeq, |file|);
    if b < |file| then b else |file|
  }

  // ----- lemmas about lines -----

  lemma EmptyPrefix(rd: Reader, limit: nat)
    requires rd.Valid()
    ensures PageOf(rd, [], limit) == EMPTY_PAGE
  {
    var ls := Lines([]);
    assert ls == [Line(0, [])];
    assert LineEvents(rd, ls[0]) == [];
    forall k | 0 <= k <= 1 ensures PageEvents(rd, ls[k..]) == [] { }
  }

  // One turn of the loop, on the ghost account of it.
  lemma CollectStep(rd: Reader, ls: seq<Line>, limit: nat, below: seq<byte>, unread: seq<Line>, read: seq<Line>,
                    tail: seq<byte>, lo: nat, events: seq<Tagged>, messages: nat, events': seq<Tagged>, messages': nat)
    returns (below': seq<byte>, rest: seq<Line>)
    requires unread == Lines(below) && Window(below, tail, lo) && (RPosition(tail, LF).None? ==> lo == 0)
    requires messages < limit && Gathered(rd, ls, limit, unread, read, events, messages)
    requires var l := LastLineOf(tail, lo);
      && Reverse(events') == Reverse(Tag(l.start, LineEvents(rd, l))) + Reverse(events)
      && messages' == messages + CountMessages(LineEvents(rd, l))
    ensures OneLineLess(below, tail, lo, below', rest)
    ensures Progress(rd, ls, limit, rest, [LastLineOf(tail, lo)] + read, events', messages')
  {
    below', rest := LastLine(below, tail, lo);
    LineStep(rd, ls, limit, rest, read, LastLineOf(tail, lo), events, messages, events', messages');
  }

  // The lines below the cursor once the window's last line is gone: none, or those of below'.
  ghost predicate OneLineLess(below: seq<byte>, tail: seq<byte>, lo: nat, below': seq<byte>, rest: seq<Line>) {
    && below' <= below
    && match RPosition(tail, LF)
       case Some(p) => |below'| < |below| && rest == Lines(below') && Window(below', tail[..p], lo)
       case None => rest == []
  }

  // The window's own last line is the last line of everything below the cursor.
  lemma LastLine(below: seq<byte>, tail: seq<byte>, lo: nat) returns (below': seq<byte>, rest: seq<Line>)
    requires Window(below, tail, lo) && (RPosition(tail, LF).None? ==> lo == 0)
    ensures Lines(below) == rest + [LastLineOf(tail, lo)]
    ensures OneLineLess(below, tail, lo, below', rest)
  {
    match RPosition(tail, LF)
    case Some(p) =>
      assert below[lo + p + 1..] == tail[p + 1..];
      RPositionIs(below, lo + p);
      WindowCut(below, tail, lo, p);
      below', rest := below[..lo + p], Lines(below[..lo + p]);
    case None =>
      below', rest := below, [];
  }

  // What is left of the window when its last line and the line feed before it are gone.
  lemma WindowCut(below: seq<byte>, tail: seq<byte>, lo: nat, p: nat)
    requires Window(below, tail, lo) && p <= |tail|
    ensures Window(below[..lo + p], tail[..p], lo) && below[..lo + p] <= below
  {
  }

  // One more line at the front of the page.
  lemma LineStep(rd: Reader, ls: seq<Line>, limit: nat, rest: seq<Line>, read: seq<Line>, l: Line,
                 events: seq<Tagged>, messages: nat, events': seq<Tagged>, messages': nat)
    requires messages < limit && Gathered(rd, ls, limit, rest + [l], read, events, messages)
    requires Reverse(events') == Reverse(Tag(l.start, LineEvents(rd, l))) + Reverse(events)
    requires messages' == messages + CountMessages(LineEvents(rd, l))
    ensures Progress(rd, ls, limit, rest, [l] + read, events', messages')
  {
    PageEventsFront(rd, l, read);
    assert Reverse(events') == PageEvents(rd, [l] + read);
    ConcatAssociative(rest, [l], read);
    CutLast(rd, rest, l, limit - messages);
  }

  lemma CutLast(rd: Reader, rest: seq<Line>, l: Line, limit: int)
    ensures
      var n := CountMessages(LineEvents(rd, l));
      Cut(rd, rest + [l], limit) == if n >= limit then |rest| else Cut(rd, rest, limit - n)
  {
    assert (rest + [l])[..|rest|] == rest;
  }

  lemma PageEventsFront(rd: Reader, l: Line, ls: seq<Line>)
    ensures PageEvents(rd, [l] + ls) == Reverse(Tag(l.start, LineEvents(rd, l))) + PageEvents(rd, ls)
  {
    PageEventsConcat(rd, [l], ls);
    assert [l][..0] == [];
  }

  lemma {:induction false} RPositionIs(buf: seq<byte>, p: nat)
    requires p < |buf| && buf[p] == LF && LF !in buf[p + 1..]
    ensures RPosition(buf, LF) == Some(p)
  {
    var n := |buf| - 1;
    if p < n {
      assert buf[n] in buf[p + 1..];
      assert buf[..n][p + 1..] == buf[p + 1..][..n - p - 1];
      RPositionIs(buf[..n], p);
    }
  }

  lemma {:induction false} PageEventsConcat(rd: Reader, xs: seq<Line>, ys: seq<Line>)
    ensures PageEvents(rd, xs + ys) == PageEvents(rd, xs) + PageEvents(rd, ys)
  {
    if ys == [] {
      assert xs + ys == xs;
    } else {
      InitConcat(xs, ys);
      PageEventsConcat(rd, xs, ys[..|ys| - 1]);
      var last := Reverse(Tag(ys[|ys| - 1].start, LineEvents(rd, ys[|ys| - 1])));
      ConcatAssociative(PageEvents(rd, xs), PageEvents(rd, ys[..|ys| - 1]), last);
    }
  }

  // ----- forward replay -----

  function NextLf(f: seq<byte>, pos: nat): (r: nat)
    requires pos <= |f|
    ensures pos <= r <= |f| && LF !in f[pos..r] && (r < |f| ==> f[r] == LF)
    decreases |f| - pos
  {
    if pos == |f| || f[pos] == LF then pos else NextLf(f, pos + 1)
  }

  /** src-tauri/src/chat/history.rs replay: every line, from the start. */
  method Replay(rd: Reader, file: seq<byte>) returns (r: Result<seq<ChatEvent>>)
    requires rd.Valid()
    ensures r == ReplayOf(rd, file)
  {
    var ok, events := ReplayLines(rd, file, ReplayTexts(file));
    return if ok then Ok(events) else Err;
  }

  /** The loop over the lines: each goes up to the next line feed, and loses a carriage return before
      it. The first that does not decode ends it. */
  method ReplayLines(rd: Reader, file: seq<byte>, ghost texts: seq<seq<byte>>)
    returns (ok: bool, events: seq<ChatEvent>)
    requires rd.Valid() && texts == ReplayTexts(file)
    ensures ok <==> Decodable(rd, texts)
    ensures ok ==> events == ReplayEvents(rd, texts)
  {
    events := [];
    var pos: nat := 0;
    ghost var k: nat := 0;
    FirstLineStarts(file);
    while pos < |file|
      invariant StartsAt(file, k, pos) && k < |texts|
      invariant ReadUpTo(rd, texts, k, events)
    {
      var end := NextLf(file, pos);
      var line := if end < |file| then StripCr(file[pos..end]) else file[pos..end];
      NextText(file, k, pos, end);
      ghost var events0 := events;
      ok, events := ReplayLine(rd, line, events);
      if !ok {
        return;
      }
      ReadNext(rd, texts, k, events0, events);
      k := k + 1;
      if end == |file| {
        AllRead(rd, texts, events);
        return;
      }
      pos := end + 1;
    }
    NextText(file, k, pos, pos);
    ReadNext(rd, texts, k, events, events);
    AllRead(rd, texts, events);
    ok := true;
  }

  /** One line: refused if it does not decode, skipped if it is blank. */
  method ReplayLine(rd: Reader, line: seq<byte>, events0: seq<ChatEvent>) returns (ok: bool, events: seq<ChatEvent>)
    ensures ok <==> rd.decode(line).Some?
    ensures ok ==> events == events0 + TextEvents(rd, line)
  {
    events := events0;
    var s := rd.decode(line);
    if s.None? {
      return false, events;
    }
    if !IsBlank(s.value) {
      events := events + rd.parse(s.value);
    }
    return true, events;
  }

  // The first k lines decode, and gave these events.
  ghost predicate ReadUpTo(rd: Reader, texts: seq<seq<byte>>, k: nat, events: seq<ChatEvent>) {
    k <= |texts| && Decodable(rd, texts[..k]) && events == ReplayEvents(rd, texts[..k])
  }

  lemma ReadNext(rd: Reader, texts: seq<seq<byte>>, k: nat, events: seq<ChatEvent>, events': seq<ChatEvent>)
    requires ReadUpTo(rd, texts, k, events) && k < |texts| && rd.decode(texts[k]).Some?
    requires events' == events + TextEvents(rd, texts[k])
    ensures ReadUpTo(rd, texts, k + 1, events')
  {
    assert texts[..k + 1] == texts[..k] + [texts[k]];
    assert texts[..k + 1][..k] == texts[..k];
  }

  lemma AllRead(rd: Reader, texts: seq<seq<byte>>, events: seq<ChatEvent>)
    requires ReadUpTo(rd, texts, |texts|, events)
    ensures Decodable(rd, texts) && events == ReplayEvents(rd, texts)
  {
    assert texts[..|texts|] == texts;
  }

  ghost predicate StartsAt(f: seq<byte>, k: nat, pos: nat) {
    k < |Lines(f)| && Lines(f)[k].start == pos <= |f|
  }

  lemma {:induction false} FirstLineStarts(f: seq<byte>)
    ensures StartsAt(f, 0, 0)
    decreases |f|
  {
    match RPosition(f, LF)
    case Some(p) => FirstLineStarts(f[..p]);
    case None =>
  }

  // The line that starts at pos ends at the next line feed, where the next one starts.
  lemma {:induction false} LineFrom(f: seq<byte>, k: nat, pos: nat, end: nat)
    requires StartsAt(f, k, pos)
    requires pos <= end <= |f| && LF !in f[pos..end] && (end < |f| ==> f[end] == LF)
    ensures Lines(f)[k].bytes == f[pos..end]
    ensures if end < |f| then StartsAt(f, k + 1, end + 1) else k + 1 == |Lines(f)|
    decreases |f|
  {
    match RPosition(f, LF)
    case None =>
      assert f[pos..end] == f;
    case Some(p) =>
      if k < |Lines(f)| - 1 {
        if p < end {
          LfWithin(f, pos, end, p);
        }
        assert f[..p][pos..end] == f[pos..end];
        LineFrom(f[..p], k, pos, end);
      }
  }

  lemma LfWithin(f: seq<byte>, pos: nat, end: nat, p: nat)
    requires pos <= p < end <= |f| && f[p] == LF
    ensures LF in f[pos..end]
  {
    assert f[pos..end][p - pos] == LF;
  }

  lemma NextText(f: seq<byte>, k: nat, pos: nat, end: nat)
    requires StartsAt(f, k, pos)
    requires pos <= end <= |f| && LF !in f[pos..end] && (end < |f| ==> f[end] == LF)
    ensures |ReplayTexts(f)| == |Lines(f)|
    ensures ReplayTexts(f)[k] == if end < |f| then StripCr(f[pos..end]) else f[pos..end]
    ensures if end < |f| then StartsAt(f, k + 1, end + 1) else k + 1 == |Lines(f)|
  {
    LineFrom(f, k, pos, end);
  }
}
