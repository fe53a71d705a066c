/** Batching samples and emitting text (stt-sidecar/engine.py, StreamingEngine, without
    corrections). */
module Engine {
  import opened Prelude
  import opened Hypothesis
  import opened OnlineAsr
  import opened StreamingRuns

  const MIN_ITER_SAMPLES: nat := 16000

  /** Raw 16-bit little-endian samples; a torn sample is an error. */
  function DecodePcm(pcm: seq<byte>): (r: Option<seq<real>>)
    ensures r.Some? <==> |pcm| % 2 == 0
    ensures r.Some? ==> |r.value| == |pcm| / 2
  {
    if |pcm| % 2 != 0 then None
    else Some(seq(|pcm| / 2, i requires 0 <= i < |pcm| / 2 => Sample(pcm[2 * i], pcm[2 * i + 1])))
  }

  function Sample(lo: byte, hi: byte): real {
    var n := lo as int + 256 * hi as int;
    (if n < 0x8000 then n else n - 0x1_0000) as real / 32768.0
  }

  // ----- writing samples -----

  function LowByte(n: int): byte { (n % 256) as byte }

  function HighByte(n: int): byte { (n / 256 % 256) as byte }

  /** Numbers as 16-bit two's complement, the low byte first. */
  function PcmOf(ns: seq<int>): (r: seq<byte>)
    ensures |r| == 2 * |ns|
  {
    if ns == [] then [] else PcmOf(ns[..|ns| - 1]) + [LowByte(ns[|ns| - 1]), HighByte(ns[|ns| - 1])]
  }

  function Fractions(ns: seq<int>): (r: seq<real>)
    ensures |r| == |ns|
  {
    seq(|ns|, i requires 0 <= i < |ns| => ns[i] as real / 32768.0)
  }

  /** Decoding gives back every number written that way, as a fraction of 32768. */
  lemma {:induction false} DecodePcmOf(ns: seq<int>)
    requires forall i :: 0 <= i < |ns| ==> -32768 <= ns[i] < 32768
    ensures DecodePcm(PcmOf(ns)) == Some(Fractions(ns))
  {
    if ns == [] {
      assert Fractions(ns) == [] == DecodePcm([]).value;
    } else {
      var init, n := ns[..|ns| - 1], ns[|ns| - 1];
      DecodePcmOf(init);
      DecodeNext(PcmOf(init), LowByte(n), HighByte(n));
      SampleOf(n);
      assert Fractions(ns) == Fractions(init) + [n as real / 32768.0];
    }
  }

  lemma DecodeNext(pcm: seq<byte>, lo: byte, hi: byte)
    requires |pcm| % 2 == 0
    ensures DecodePcm(pcm + [lo, hi]) == Some(DecodePcm(pcm).value + [Sample(lo, hi)])
  {
    var longer, n := pcm + [lo, hi], |pcm| / 2;
    assert longer[2 * n] == lo && longer[2 * n + 1] == hi;
    var a, b := DecodePcm(longer).value, DecodePcm(pcm).value + [Sample(lo, hi)];
    forall i | 0 <= i < n + 1 ensures a[i] == b[i] {
      assert a[i] == Sample(longer[2 * i], longer[2 * i + 1]);
    }
    assert a == b;
  }

  lemma SampleOf(n: int)
    requires -32768 <= n < 32768
    ensures Sample(LowByte(n), HighByte(n)) == n as real / 32768.0
  {
    assert n == 256 * (n / 256) + n % 256 && -128 <= n / 256 < 128;
    HighByteIs(n / 256);
  }

  lemma HighByteIs(h: int)
    requires -128 <= h < 128
    ensures h % 256 == if h < 0 then h + 256 else h
  {
  }

  /** What Python's str.strip takes off. */
  predicate IsPySpace(c: char) {
    IsWhitespace(c) || '\U{001C}' <= c <= '\U{001F}'
  }

  function Strip(s: string): (r: string) {
    if s == [] then []
    else if IsPySpace(s[0]) then Strip(s[1..])
    else if IsPySpace(s[|s| - 1]) then Strip(s[..|s| - 1])
    else s
  }

  // What is left of s from i to j, with only white space around it.
  ghost predicate Surrounded(s: string, i: nat, j: nat) {
    i <= j <= |s| && forall k :: 0 <= k < i || j <= k < |s| ==> IsPySpace(s[k])
  }

  /** White space is taken off both ends, all of it, and nothing else. */
  lemma {:induction false} StripTakesWhiteSpace(s: string) returns (i: nat, j: nat)
    ensures Surrounded(s, i, j) && Strip(s) == s[i..j]
    ensures i < j ==> !IsPySpace(s[i]) && !IsPySpace(s[j - 1])
    decreases |s|
  {
    i, j := 0, |s|;
    if s == [] {
    } else if IsPySpace(s[0]) {
      i, j := StripTakesWhiteSpace(s[1..]);
      SpaceInFront(s, i, j);
      i, j := i + 1, j + 1;
    } else if IsPySpace(s[|s| - 1]) {
      i, j := StripTakesWhiteSpace(s[..|s| - 1]);
      SpaceBehind(s, i, j);
    }
  }

  lemma SpaceInFront(s: string, i: nat, j: nat)
    requires s != [] && IsPySpace(s[0]) && Surrounded(s[1..], i, j)
    ensures Surrounded(s, i + 1, j + 1) && s[1..][i..j] == s[i + 1..j + 1]
  {
    assert forall k :: 1 <= k < |s| ==> s[k] == s[1..][k - 1];
  }

  lemma SpaceBehind(s: string, i: nat, j: nat)
    requires s != [] && IsPySpace(s[|s| - 1]) && Surrounded(s[..|s| - 1], i, j)
    ensures Surrounded(s, i, j) && s[..|s| - 1][i..j] == s[i..j]
  {
  }

  /** The words run together, as their own spaces part them. */
  function Speech(ws: seq<Word>): string {
    Join(SEP, Texts(ws))
  }

  lemma {:induction false} SpeechConcat(a: seq<Word>, b: seq<Word>)
    ensures Speech(a + b) == Speech(a) + Speech(b)
  {
    if a == [] {
      assert a + b == b;
    } else {
      SpeechConcat(a[1..], b);
      assert (a + b)[1..] == a[1..] + b;
      SpeechCons(a);
      SpeechCons(a + b);
    }
  }

  lemma SpeechCons(a: seq<Word>)
    requires a != []
    ensures Speech(a) == a[0].text + Speech(a[1..])
  {
    assert Texts(a)[1..] == Texts(a[1..]);
  }

  datatype Output = Output(final: string, partial: string)

  datatype Reply = Reply(output: Output) | BadPcm

  class StreamingEngine {
    var online: OnlineASRProcessor?
    var samplesSinceIter: nat
    ghost var emitted: string  // everything returned as final since the utterance began

    ghost predicate Valid()
      reads this
    {
      samplesSinceIter < MIN_ITER_SAMPLES
    }

    /** Before finish, what was emitted is what was committed. */
    ghost predicate InStep()
      reads this, online
    {
      online != null && emitted == Speech(online.commited)
    }

    constructor ()
      ensures Valid() && online == null && emitted == ""
    {
      online, samplesSinceIter, emitted := null, 0, "";
    }

    method Reset()
      modifies this
      ensures Valid() && InStep() && fresh(online) && fresh(online.transcriptBuffer) && online.Abs() == FRESH
    {
      online := new OnlineASRProcessor();
      samplesSinceIter := 0;
      emitted := "";
    }

    /** res is what the model makes of the audio held, if it is asked. */
    method AcceptPcm(pcm: seq<byte>, res: Transcript) returns (reply: Reply)
      requires Valid()
      requires online != null && DecodePcm(pcm).Some? ==> Timed(res, |online.audioBuffer| + |pcm| / 2)
      modifies this`samplesSinceIter, this`emitted, online, if online == null then {} else {online.transcriptBuffer}
      ensures Valid() && (old(InStep()) ==> InStep())
      ensures online != null ==> online.transcriptBuffer == old(online.transcriptBuffer)
      ensures reply.BadPcm? <==> online != null && |pcm| % 2 != 0
      ensures reply.BadPcm? ==> online.Abs() == old(online.Abs()) && samplesSinceIter == old(samplesSinceIter)
      ensures emitted == old(emitted) + (if reply.Reply? then reply.output.final else "")
      ensures online == null ==> reply == Reply(Output("", ""))
      ensures online != null && reply.Reply? ==>
        var q := old(online.Abs()).(audio := old(online.audioBuffer) + DecodePcm(pcm).value);
        if old(samplesSinceIter) + |pcm| / 2 < 16000 then
          && online.Abs() == q && reply == Reply(Output("", ""))
          && samplesSinceIter == old(samplesSinceIter) + |pcm| / 2
        else
          && online.Abs() == Process(q, res) && samplesSinceIter == 0
          && old(online.commited) <= online.commited
          && reply.output.final == Speech(online.commited[|old(online.commited)|..])
          && reply.output.partial == Strip(Join(" ", Texts(online.transcriptBuffer.buffer)))
    {
      if online == null {
        return Reply(Output("", ""));
      }
      var audio := DecodePcm(pcm);
      if audio.None? {
        return BadPcm;
      }
      online.InsertAudioChunk(audio.value);
      samplesSinceIter := samplesSinceIter + |audio.value|;
      if samplesSinceIter < MIN_ITER_SAMPLES {
        return Reply(Output("", ""));
      }
      samplesSinceIter := 0;
      ghost var before := online.commited;
      var o := online.ProcessIter(res);
      var final := Speech(o);
      SpeechConcat(before, o);
      emitted := emitted + final;
      var partial := "";
      if online.transcriptBuffer.buffer != [] {
        partial := Strip(Join(" ", Texts(online.transcriptBuffer.buffer)));
      }
      return Reply(Output(final, partial));
    }

    /** The trailing text. It stays in the buffer: asking twice gives it twice. */
    method Finish() returns (text: string)
      requires Valid()
      modifies this`emitted, if online == null then {} else {online}
      ensures Valid() && emitted == old(emitted) + text
      ensures online == null ==> text == ""
      ensures online != null ==>
        && text == Speech(online.transcriptBuffer.buffer)
        && online.Abs() == EndOf(old(online.Abs()))
        && (old(InStep()) ==> emitted == Speech(online.commited + online.transcriptBuffer.buffer))
    {
      if online == null {
        return "";
      }
      var o := online.Finish();
      text := Speech(o);
      emitted := emitted + text;
      SpeechConcat(online.commited, o);
    }

    /** One utterance: the chunks, then the end. Everything returned as final, run together, is the
        committed words and then the unconfirmed ones, each once. What the processor has been through is
        a run from a fresh start that took in the chunks' samples, so what holds of every such run holds
        of it: the words held are the last committed ones, the audio held is the latest that came in, and
        its end is accounted for to less than a sample for every cut. model(i, audio) is what the model
        makes of the audio held at chunk i. */
    method Utterance(chunks: seq<seq<byte>>, model: (nat, seq<real>) -> Transcript)
      returns (text: string, ghost run: seq<Input>)
      requires forall i, audio :: Timed(model(i, audio), |audio|)
      modifies this
      ensures Valid() && online != null
      ensures text == emitted == Speech(online.commited + online.transcriptBuffer.buffer)
      ensures Legal(FRESH, run) && Inserted(run) == SamplesOf(chunks)
      ensures Sound(online.Abs()) && online.Abs() == EndOf(After(FRESH, run))
      ensures SuffixOf(online.audioBuffer, SamplesOf(chunks))
      ensures Accounted(online.bufferTimeOffset, |SamplesOf(chunks)|, Trims(FRESH, run))
    {
      Reset();
      text, run := FeedAll(chunks, model);
      EndIsSound(run, chunks);
      var tail := Finish();
      text := text + tail;
    }

    /** The chunks, one after the other. */
    method FeedAll(chunks: seq<seq<byte>>, model: (nat, seq<real>) -> Transcript)
      returns (text: string, ghost run: seq<Input>)
      requires forall i, audio :: Timed(model(i, audio), |audio|)
      requires Valid() && InStep() && Ran([]) && emitted == ""
      modifies this`samplesSinceIter, this`emitted, online, online.transcriptBuffer
      ensures Valid() && InStep() && Ran(run) && TookIn(run, chunks, |chunks|) && text == emitted
      ensures online.transcriptBuffer == old(online.transcriptBuffer)
    {
      text, run := "", [];
      for i := 0 to |chunks|
        invariant Valid() && InStep() && text == emitted
        invariant online.transcriptBuffer == old(online.transcriptBuffer)
        invariant Ran(run) && TookIn(run, chunks, i)
      {
        var held := online.audioBuffer + GetOr(DecodePcm(chunks[i]), []);
        ghost var run0 := run;
        var final;
        final, run := Feed(chunks[i], model(i, held), run);
        text := text + final;
        TookInNext(run0, run, chunks, i);
      }
    }

    /** The run has led to where the processor is. */
    ghost predicate Ran(run: seq<Input>)
      reads this, online, if online == null then {} else {online.transcriptBuffer}
    {
      online != null && Legal(FRESH, run) && online.Abs() == After(FRESH, run)
    }

    /** One chunk of an utterance, and what it adds to the run. */
    method Feed(pcm: seq<byte>, res: Transcript, ghost run: seq<Input>) returns (final: string, ghost run': seq<Input>)
      requires Valid() && InStep() && Ran(run)
      requires DecodePcm(pcm).Some? ==> Timed(res, |online.audioBuffer| + |pcm| / 2)
      modifies this`samplesSinceIter, this`emitted, online, online.transcriptBuffer
      ensures Valid() && InStep() && Ran(run') && online.transcriptBuffer == old(online.transcriptBuffer)
      ensures emitted == old(emitted) + final
      ensures Inserted(run') == Inserted(run) + GetOr(DecodePcm(pcm), [])
    {
      ghost var waiting := samplesSinceIter;
      run' := ChunkRun(run, DecodePcm(pcm), waiting, res);
      var reply := AcceptPcm(pcm, res);
      final := if reply.Reply? then reply.output.final else "";
    }
  }

  /** Where the processor is once it has finished. */
  function EndOf(p: Processor): Processor {
    p.(offset := p.offset + |p.audio| as real / 16000.0)
  }

  // The run has taken in the samples of the first n chunks.
  ghost predicate TookIn(run: seq<Input>, chunks: seq<seq<byte>>, n: nat) {
    n <= |chunks| && Inserted(run) == SamplesOf(chunks[..n])
  }

  lemma TookInNext(run: seq<Input>, run': seq<Input>, chunks: seq<seq<byte>>, i: nat)
    requires TookIn(run, chunks, i) && i < |chunks|
    requires Inserted(run') == Inserted(run) + GetOr(DecodePcm(chunks[i]), [])
    ensures TookIn(run', chunks, i + 1)
  {
    assert chunks[..i + 1][..i] == chunks[..i];
  }

  lemma EndIsSound(run: seq<Input>, chunks: seq<seq<byte>>)
    requires Legal(FRESH, run) && TookIn(run, chunks, |chunks|)
    ensures Inserted(run) == SamplesOf(chunks)
    ensures
      var end := EndOf(After(FRESH, run));
      && Sound(end) && SuffixOf(end.audio, SamplesOf(chunks))
      && Accounted(end.offset, |SamplesOf(chunks)|, Trims(FRESH, run))
  {
    assert chunks[..|chunks|] == chunks;
    RunIsSound(run);
    HeldIsLatest(run);
    SamplesAreAccounted(run);
    EndDrift(After(FRESH, run), |Inserted(run)|);
  }

  lemma EndDrift(p: Processor, inserted: nat)
    ensures EndOf(p).offset * 16000.0 - inserted as real == Drift(p, inserted)
  {
  }

  /** The samples of the chunks that are not torn, in order. */
  ghost function SamplesOf(chunks: seq<seq<byte>>): seq<real> {
    if chunks == [] then []
    else SamplesOf(chunks[..|chunks| - 1]) + GetOr(DecodePcm(chunks[|chunks| - 1]), [])
  }

  /** A time at the end of the audio, after so many samples and cuts. */
  ghost predicate Accounted(end: real, samples: nat, trims: nat) {
    var drift := end * 16000.0 - samples as real;
    0.0 <= drift && if trims == 0 then drift == 0.0 else drift < trims as real
  }

  // What a chunk adds to the run: its samples, and a step once enough of them wait.
  lemma ChunkRun(run: seq<Input>, audio: Option<seq<real>>, waiting: nat, res: Transcript) returns (run': seq<Input>)
    requires Legal(FRESH, run)
    requires audio.Some? ==> Timed(res, |After(FRESH, run).audio| + |audio.value|)
    ensures Legal(FRESH, run') && Inserted(run') == Inserted(run) + GetOr(audio, [])
    ensures
      var p := After(FRESH, run);
      After(FRESH, run') ==
        if audio.None? then p
        else
          var q := p.(audio := p.audio + audio.value);
          if waiting + |audio.value| < MIN_ITER_SAMPLES then q else Process(q, res)
  {
    run' := run;
    if audio.Some? {
      run' := OneMore(run, Audio(audio.value));
      if waiting + |audio.value| >= MIN_ITER_SAMPLES {
        run' := OneMore(run', Iterate(res));
      }
    }
  }

  lemma OneMore(run: seq<Input>, i: Input) returns (run': seq<Input>)
    requires Legal(FRESH, run) && Accepts(After(FRESH, run), i)
    ensures run' == run + [i] && Legal(FRESH, run') && After(FRESH, run') == Next(After(FRESH, run), i)
    ensures Inserted(run') == Inserted(run) + if i.Audio? then i.samples else []
  {
    run' := run + [i];
    LastInput(run, i);
  }

  lemma LastInput(run: seq<Input>, i: Input)
    ensures (run + [i])[..|run|] == run && (run + [i])[|run|] == i
  {
  }
}
