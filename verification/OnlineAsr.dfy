/** Streaming transcription over a growing audio buffer, trimmed behind the committed words
    (stt-sidecar/whisper_online.py, OnlineASRProcessor with the ("segment", 15) trimming that
    FasterWhisperASR is run with). */
module OnlineAsr {
  import opened Prelude
  import opened Hypothesis

  const TRIM_SECONDS := 15.0
  const PROMPT_SIZE: nat := 200

  /** What the speech model makes of the audio it is given: timed words, and where segments end. */
  datatype Transcript = Transcript(words: seq<Word>, ends: seq<real>)

  /** The model's times are those of the audio it was given. */
  ghost predicate Timed(res: Transcript, samples: nat) {
    && WellTimed(res.words)
    && forall e :: e in res.ends ==> 0.0 <= e <= samples as real / 16000.0
  }

  // ----- what a step must do -----

  datatype Processor = Processor(audio: seq<real>, hyp: State, offset: real, commited: seq<Word>)

  const FRESH := Processor([], State([], [], 0.0, None), 0.0, [])

  /** The last segment but one or earlier that ends, in stream time, by t. */
  function TrimPoint(ends: seq<real>, offset: real, t: real, n: nat): (r: Option<nat>)
    requires n < |ends|
    ensures r.Some? ==> r.value < n && ends[r.value] + offset <= t
    ensures forall j :: (if r.Some? then r.value + 1 else 0) <= j < n ==> ends[j] + offset > t
  {
    if n == 0 then None
    else if ends[n - 1] + offset <= t then Some(n - 1)
    else TrimPoint(ends, offset, t, n - 1)
  }

  /** How many samples, at 16 kHz, lie in so many seconds; a part of a sample does not count. */
  function SamplesIn(seconds: real): int {
    (seconds * 16000.0).Floor
  }

  function ChunkAt(p: Processor, time: real): Processor
    requires 0 <= SamplesIn(time - p.offset) <= |p.audio|
  {
    Trimmed(p, time, SamplesIn(time - p.offset))
  }

  // The audio without its first cut samples, taken to start at time.
  function Trimmed(p: Processor, time: real, cut: int): Processor
    requires 0 <= cut <= |p.audio|
  {
    Processor(p.audio[cut..], p.hyp.(commitedInBuffer := DropUntil(p.hyp.commitedInBuffer, time)), time, p.commited)
  }

  /** Where the audio is cut after a step, if it is. */
  function CutTime(p: Processor, ends: seq<real>): Option<real> {
    if |p.audio| as real / 16000.0 <= TRIM_SECONDS || p.commited == [] || |ends| <= 1 then None
    else
      match TrimPoint(ends, p.offset, p.commited[|p.commited| - 1].end, |ends| - 1)
      case None => None
      case Some(j) => Some(ends[j] + p.offset)
  }

  // The last segment but one or earlier that ends, in stream time, by t.
  ghost predicate LastFitting(ends: seq<real>, offset: real, t: real, j: nat) {
    && j < |ends| - 1 && ends[j] + offset <= t
    && forall l :: j < l < |ends| - 1 ==> ends[l] + offset > t
  }

  /** The audio is cut exactly when more than 15 seconds of it are held and some segment but the last
      ends by the end of the last committed word, and then where the last of these ends. */
  lemma CutTimeIff(p: Processor, ends: seq<real>, time: real)
    ensures CutTime(p, ends) == Some(time) <==>
      && |p.audio| > 240000 && p.commited != []
      && exists j: nat :: LastFitting(ends, p.offset, p.commited[|p.commited| - 1].end, j) && time == ends[j] + p.offset
  {
    if p.commited != [] && |ends| > 1 {
      var t := p.commited[|p.commited| - 1].end;
      var r := TrimPoint(ends, p.offset, t, |ends| - 1);
      if r.Some? {
        assert LastFitting(ends, p.offset, t, r.value);
      }
      forall j: nat | LastFitting(ends, p.offset, t, j) ensures r == Some(j) {
      }
    }
  }

  lemma CutTimeFits(p: Processor, res: Transcript)
    requires Timed(res, |p.audio|)
    ensures CutTime(p, res.ends).Some? ==>
      var time := CutTime(p, res.ends).value;
      && p.offset <= time <= p.commited[|p.commited| - 1].end
      && 0 <= SamplesIn(time - p.offset) <= |p.audio|
  {
    if CutTime(p, res.ends).Some? {
      var j := TrimPoint(res.ends, p.offset, p.commited[|p.commited| - 1].end, |res.ends| - 1).value;
      var e := res.ends[j];
      assert e in res.ends;
      SamplesWithin(e, |p.audio|);
    }
  }

  lemma SamplesWithin(seconds: real, samples: nat)
    requires 0.0 <= seconds <= samples as real / 16000.0
    ensures 0 <= SamplesIn(seconds) <= samples
  {
    assert 0.0 <= seconds * 16000.0 <= samples as real;
  }

  /** The transcript's words through LocalAgreement. */
  function Listen(p: Processor, res: Transcript): Processor {
    var heard := Heard(p.hyp, res.words, p.offset);
    p.(hyp := Flushed(p.hyp, heard), commited := p.commited + Commit(p.hyp, heard))
  }

  function Process(p: Processor, res: Transcript): Processor
    requires Timed(res, |p.audio|)
  {
    var q := Listen(p, res);
    match CutTime(q, res.ends)
    case None => q
    case Some(time) =>
      CutTimeFits(q, res);
      ChunkAt(q, time)
  }

  // ----- the prompt -----

  // Characters of the words and one separator each.
  function PromptLength(ws: seq<Word>): nat {
    if ws == [] then 0 else |ws[0].text| + 1 + PromptLength(ws[1..])
  }

  /** As long as the words run together, and one more for each. */
  lemma {:induction false} PromptLengthIs(ws: seq<Word>)
    ensures PromptLength(ws) == |Join("", Texts(ws))| + |ws|
  {
    if ws != [] {
      PromptLengthIs(ws[1..]);
      assert Texts(ws)[1..] == Texts(ws[1..]);
    }
  }

  /** FasterWhisperASR.sep: its words bring their own spaces. */
  const SEP := ""

  /** Words k to n are the context, those from j to k the prompt: k is the last place, short of the
      last word, before which words end inside what was trimmed, and j the last from which the prompt
      is long enough. */
  ghost predicate PromptSplit(commited: seq<Word>, offset: real, j: nat, k: nat) {
    && j <= k <= |commited|
    && (k == 0 || (k < |commited| && commited[k - 1].end <= offset))
    && (forall i :: k <= i < |commited| - 1 ==> commited[i].end > offset)
    && (j == 0 || PromptLength(commited[j..k]) >= 200)
    && (j < k ==> PromptLength(commited[j + 1..k]) < 200)
  }

  // ----- the program -----

  class OnlineASRProcessor {
    var audioBuffer: seq<real>
    var transcriptBuffer: HypothesisBuffer
    var bufferTimeOffset: real
    var commited: seq<Word>

    ghost function Abs(): Processor
      reads this, transcriptBuffer
    {
      Processor(audioBuffer, transcriptBuffer.Abs(), bufferTimeOffset, commited)
    }

    constructor ()
      ensures Abs() == FRESH && fresh(transcriptBuffer)
    {
      audioBuffer, bufferTimeOffset, commited := [], 0.0, [];
      transcriptBuffer := new HypothesisBuffer(0.0);
    }

    method InsertAudioChunk(audio: seq<real>)
      modifies this`audioBuffer
      ensures Abs() == old(Abs()).(audio := old(audioBuffer) + audio)
    {
      audioBuffer := audioBuffer + audio;
    }

    method Prompt() returns (prompt: string, context: string)
      ensures exists j: nat, k: nat ::
        PromptSplit(commited, bufferTimeOffset, j, k)
        && prompt == Join(SEP, Texts(commited[j..k])) && context == Join(SEP, Texts(commited[k..]))
    {
      var k: nat := if |commited| == 0 then 0 else |commited| - 1;
      while k > 0 && commited[k - 1].end > bufferTimeOffset
        invariant k <= |commited| && (k > 0 ==> k < |commited|)
        invariant forall i :: k <= i < |commited| - 1 ==> commited[i].end > bufferTimeOffset
      {
        k := k - 1;
      }
      var j: nat := k;
      var l: nat := 0;
      while j > 0 && l < PROMPT_SIZE
        invariant j <= k && l == PromptLength(commited[j..k])
        invariant j < k ==> PromptLength(commited[j + 1..k]) < PROMPT_SIZE
      {
        j := j - 1;
        assert commited[j..k][1..] == commited[j + 1..k];
        l := l + |commited[j].text| + 1;
      }
      prompt := Join(SEP, Texts(commited[j..k]));
      context := Join(SEP, Texts(commited[k..]));
      assert PromptSplit(commited, bufferTimeOffset, j, k);
    }

    /** The words this step commits, given what the model made of the audio. */
    method ProcessIter(res: Transcript) returns (o: seq<Word>)
      requires Timed(res, |audioBuffer|)
      modifies this, transcriptBuffer
      ensures transcriptBuffer == old(transcriptBuffer)
      ensures Abs() == Process(old(Abs()), res)
      ensures commited == old(commited) + o
    {
      var prompt, context := Prompt();  // goes to the model, whose answer is res
      transcriptBuffer.Insert(res.words, bufferTimeOffset);
      o := transcriptBuffer.Flush();
      commited := commited + o;
      assert Abs() == Listen(old(Abs()), res);
      if |audioBuffer| as real / 16000.0 > TRIM_SECONDS {
        ChunkCompletedSegment(res);
      }
    }

    method ChunkCompletedSegment(res: Transcript)
      requires Timed(res, |audioBuffer|) && |audioBuffer| as real / 16000.0 > TRIM_SECONDS
      modifies this, transcriptBuffer
      ensures transcriptBuffer == old(transcriptBuffer) && commited == old(commited)
      ensures
        var p := old(Abs());
        match CutTime(p, res.ends)
        case None => Abs() == p
        case Some(time) => 0 <= SamplesIn(time - p.offset) <= |p.audio| && Abs() == ChunkAt(p, time)
    {
      if commited == [] {
        return;
      }
      var ends := res.ends;
      var t := commited[|commited| - 1].end;
      if |ends| > 1 {
        var n := PopUncommited(ends, t);
        var e := ends[n - 2] + bufferTimeOffset;
        CutTimeFound(Abs(), ends, n - 2);
        if e <= t {
          CutTimeFits(Abs(), res);
          ChunkAtTime(e);
        }
      }
    }

    /** The loop over the segments: how many are left when the last but one ends by t, or is the first. */
    method PopUncommited(ends0: seq<real>, t: real) returns (n: nat)
      requires |ends0| > 1
      ensures 2 <= n <= |ends0| && (n == 2 || ends0[n - 2] + bufferTimeOffset <= t)
      ensures forall j :: n - 2 < j < |ends0| - 1 ==> ends0[j] + bufferTimeOffset > t
    {
      var ends := ends0;
      var e := ends[|ends| - 2] + bufferTimeOffset;
      while |ends| > 2 && e > t
        invariant |ends| >= 2 && ends <= ends0 && e == ends[|ends| - 2] + bufferTimeOffset
        invariant forall j :: |ends| - 2 < j < |ends0| - 1 ==> ends0[j] + bufferTimeOffset > t
      {
        ends := ends[..|ends| - 1];
        e := ends[|ends| - 2] + bufferTimeOffset;
      }
      n := |ends|;
    }

    method ChunkAtTime(time: real)
      requires 0 <= SamplesIn(time - bufferTimeOffset) <= |audioBuffer|
      modifies this`audioBuffer, this`bufferTimeOffset, transcriptBuffer`commitedInBuffer
      ensures Abs() == ChunkAt(old(Abs()), time)
    {
      var cutSeconds := time - bufferTimeOffset;
      Trim(time, SamplesIn(cutSeconds));
    }

    method Trim(time: real, cut: int)
      requires 0 <= cut <= |audioBuffer|
      modifies this`audioBuffer, this`bufferTimeOffset, transcriptBuffer`commitedInBuffer
      ensures Abs() == Trimmed(old(Abs()), time, cut)
    {
      transcriptBuffer.PopCommited(time);
      audioBuffer := audioBuffer[cut..];
      bufferTimeOffset := time;
    }

    /** The words that were never confirmed. */
    method Finish() returns (o: seq<Word>)
      modifies this`bufferTimeOffset
      ensures o == transcriptBuffer.buffer
      ensures Abs() == old(Abs()).(offset := old(bufferTimeOffset) + |audioBuffer| as real / 16000.0)
    {
      o := transcriptBuffer.Complete();
      bufferTimeOffset := bufferTimeOffset + |audioBuffer| as real / 16000.0;
    }
  }

  // The loop over the segments stops at the cut, or at the first segment.
  lemma CutTimeFound(p: Processor, ends: seq<real>, i: nat)
    requires p.commited != [] && i < |ends| - 1
    requires var t := p.commited[|p.commited| - 1].end;
      && (forall j :: i < j < |ends| - 1 ==> ends[j] + p.offset > t)
      && (i == 0 || ends[i] + p.offset <= t)
    ensures |p.audio| as real / 16000.0 > TRIM_SECONDS ==>
      var t := p.commited[|p.commited| - 1].end;
      CutTime(p, ends) == if ends[i] + p.offset <= t then Some(ends[i] + p.offset) else None
  {
    var t := p.commited[|p.commited| - 1].end;
    var r := TrimPoint(ends, p.offset, t, |ends| - 1);
    assert r == if ends[i] + p.offset <= t then Some(i) else None;
  }
}
