/** What transcription keeps over whole runs: the committed words only grow, the audio trimmed away is
    behind them, and no sample is lost count of. */
module StreamingRuns {
  import opened Prelude
  import opened Hypothesis
  import opened OnlineAsr

  datatype Input = Audio(samples: seq<real>) | Iterate(res: Transcript)

  ghost predicate Accepts(p: Processor, i: Input) {
    i.Iterate? ==> Timed(i.res, |p.audio|)
  }

  ghost function Next(p: Processor, i: Input): Processor
    requires Accepts(p, i)
  {
    match i
    case Audio(samples) => p.(audio := p.audio + samples)
    case Iterate(res) => Process(p, res)
  }

  ghost predicate Legal(p: Processor, run: seq<Input>)
    decreases |run|, 0
  {
    run == [] || (Legal(p, run[..|run| - 1]) && Accepts(After(p, run[..|run| - 1]), run[|run| - 1]))
  }

  ghost function After(p: Processor, run: seq<Input>): Processor
    requires Legal(p, run)
    decreases |run|, 1
  {
    if run == [] then p else Next(After(p, run[..|run| - 1]), run[|run| - 1])
  }

  /** The samples that came in, in order. */
  ghost function Inserted(run: seq<Input>): seq<real> {
    if run == [] then []
    else Inserted(run[..|run| - 1]) + if run[|run| - 1].Audio? then run[|run| - 1].samples else []
  }

  /** Steps of the run that cut the audio. */
  ghost function Trims(p: Processor, run: seq<Input>): nat
    requires Legal(p, run)
  {
    if run == [] then 0
    else
      var before, i := After(p, run[..|run| - 1]), run[|run| - 1];
      Trims(p, run[..|run| - 1]) + if i.Iterate? && CutTime(Listen(before, i.res), i.res.ends).Some? then 1 else 0
  }

  // ----- one step -----

  ghost predicate SuffixOf<T>(a: seq<T>, b: seq<T>) {
    |a| <= |b| && a == b[|b| - |a|..]
  }

  /** The words still held are the last committed ones, and the committed time is the last one's end. */
  ghost predicate Sound(p: Processor) {
    && SuffixOf(p.hyp.commitedInBuffer, p.commited)
    && (p.commited != [] ==> p.hyp.lastCommitedTime == p.commited[|p.commited| - 1].end)
  }

  lemma ListenKeepsSound(p: Processor, res: Transcript)
    requires Sound(p)
    ensures Sound(Listen(p, res)) && Listen(p, res).audio == p.audio && Listen(p, res).offset == p.offset
  {
    var commit := Commit(p.hyp, Heard(p.hyp, res.words, p.offset));
    SuffixGrows(p.hyp.commitedInBuffer, p.commited, commit);
  }

  lemma SuffixGrows<T>(a: seq<T>, b: seq<T>, more: seq<T>)
    requires SuffixOf(a, b)
    ensures SuffixOf(a + more, b + more)
  {
    var n := |b| - |a|;
    assert (b + more)[n..] == b[n..] + more;
  }

  lemma ChunkKeepsSound(p: Processor, time: real)
    requires Sound(p) && 0 <= SamplesIn(time - p.offset) <= |p.audio|
    ensures Sound(ChunkAt(p, time))
  {
    var held := p.hyp.commitedInBuffer;
    var n := DropsLongestStart(held, time);
    assert held[n..] == p.commited[|p.commited| - (|held| - n)..];
  }

  lemma StepKeepsSound(p: Processor, res: Transcript)
    requires Sound(p) && Timed(res, |p.audio|)
    ensures Sound(Process(p, res))
  {
    var q := Listen(p, res);
    ListenKeepsSound(p, res);
    if CutTime(q, res.ends).Some? {
      CutTimeFits(q, res);
      ChunkKeepsSound(q, CutTime(q, res.ends).value);
    }
  }

  lemma StepMoves(p: Processor, res: Transcript)
    requires Timed(res, |p.audio|)
    ensures
      var q, r := Listen(p, res), Process(p, res);
      r.commited == q.commited && r.offset == GetOr(CutTime(q, res.ends), p.offset)
  {
  }

  /** A step keeps all that; it commits at the end only, moves the audio's start forward or not at
      all, and then not past the end of the last committed word. */
  lemma StepIsSafe(p: Processor, res: Transcript)
    requires Sound(p) && Timed(res, |p.audio|)
    ensures
      var q := Process(p, res);
      && Sound(q)
      && p.commited <= q.commited
      && q.offset >= p.offset
      && (q.offset > p.offset ==> q.commited != [] && q.offset <= q.commited[|q.commited| - 1].end)
  {
    StepKeepsSound(p, res);
    StepMoves(p, res);
    var q := Listen(p, res);
    if CutTime(q, res.ends).Some? {
      CutTimeFits(q, res);
    }
  }

  // ----- whole runs -----

  lemma {:induction false} RunIsSound(run: seq<Input>)
    requires Legal(FRESH, run)
    ensures Sound(After(FRESH, run))
  {
    if run != [] {
      RunIsSound(run[..|run| - 1]);
      var p, i := After(FRESH, run[..|run| - 1]), run[|run| - 1];
      if i.Iterate? {
        StepIsSafe(p, i.res);
      }
    }
  }

  /** What is committed stays committed, whatever comes later; the audio's start never moves back. */
  lemma {:induction false} CommittedIsFinal(p: Processor, run: seq<Input>)
    requires Sound(p) && Legal(p, run)
    ensures Sound(After(p, run)) && p.commited <= After(p, run).commited && p.offset <= After(p, run).offset
  {
    if run != [] {
      var init, i := run[..|run| - 1], run[|run| - 1];
      CommittedIsFinal(p, init);
      if i.Iterate? {
        StepIsSafe(After(p, init), i.res);
      }
    }
  }

  /** A step drops samples at the front only: as many as whole ones lie in the time the start moves. */
  lemma ProcessCuts(p: Processor, res: Transcript) returns (n: nat)
    requires Timed(res, |p.audio|)
    ensures n <= |p.audio| && Process(p, res).audio == p.audio[n..]
    ensures n as real <= (Process(p, res).offset - p.offset) * 16000.0 < n as real + 1.0
  {
    var q := Listen(p, res);
    n := 0;
    if CutTime(q, res.ends).Some? {
      CutTimeFits(q, res);
      n := SamplesIn(CutTime(q, res.ends).value - q.offset);
    }
  }

  lemma SuffixOfSuffix<T>(a: seq<T>, b: seq<T>, n: nat)
    requires SuffixOf(a, b) && n <= |a|
    ensures SuffixOf(a[n..], b)
  {
  }

  /** The audio held is always the latest that came in, in order: only old samples are ever dropped. */
  lemma {:induction false} HeldIsLatest(run: seq<Input>)
    requires Legal(FRESH, run)
    ensures SuffixOf(After(FRESH, run).audio, Inserted(run))
  {
    if run != [] {
      var init := run[..|run| - 1];
      HeldIsLatest(init);
      HeldStaysLatest(After(FRESH, init), run[|run| - 1], Inserted(init));
    }
  }

  lemma HeldStaysLatest(p: Processor, i: Input, all: seq<real>)
    requires SuffixOf(p.audio, all) && Accepts(p, i)
    ensures SuffixOf(Next(p, i).audio, all + if i.Audio? then i.samples else [])
  {
    match i
    case Audio(samples) => SuffixGrows(p.audio, all, samples);
    case Iterate(res) =>
      var n := ProcessCuts(p, res);
      SuffixOfSuffix(p.audio, all, n);
      assert all + [] == all;
  }

  /** How far ahead of the samples that came in the buffer's end is believed to be. */
  ghost function Drift(p: Processor, inserted: nat): real {
    p.offset * 16000.0 + |p.audio| as real - inserted as real
  }

  lemma ChunkDrift(p: Processor, time: real, inserted: nat)
    requires 0 <= SamplesIn(time - p.offset) <= |p.audio|
    ensures Drift(p, inserted) <= Drift(ChunkAt(p, time), inserted) < Drift(p, inserted) + 1.0
  {
    var x := (time - p.offset) * 16000.0;
    assert x.Floor as real <= x < x.Floor as real + 1.0;
    assert x == time * 16000.0 - p.offset * 16000.0;
  }

  /** Every cut rounds down by less than a sample, so over a run the count is never short, and over
      by less than the number of cuts; without cuts it is exact. */
  lemma {:induction false} SamplesAreAccounted(run: seq<Input>)
    requires Legal(FRESH, run)
    ensures
      var drift, trims := Drift(After(FRESH, run), |Inserted(run)|), Trims(FRESH, run);
      0.0 <= drift && if trims == 0 then drift == 0.0 else drift < trims as real
  {
    if run != [] {
      var init, i := run[..|run| - 1], run[|run| - 1];
      SamplesAreAccounted(init);
      if i.Iterate? {
        StepDrift(After(FRESH, init), i.res, |Inserted(init)|);
      }
    }
  }

  lemma StepDrift(p: Processor, res: Transcript, inserted: nat)
    requires Timed(res, |p.audio|)
    ensures
      var a, b := Drift(p, inserted), Drift(Process(p, res), inserted);
      if CutTime(Listen(p, res), res.ends).Some? then a <= b < a + 1.0 else b == a
  {
    var q := Listen(p, res);
    if CutTime(q, res.ends).Some? {
      CutTimeFits(q, res);
      ChunkDrift(q, CutTime(q, res.ends).value, inserted);
    }
  }
}
