/** The capped per-call recorder of inbound audio frames. */
module CallRecording {
  import opened Prelude
  import WavEncoder

  const SAMPLE_RATE := 16000
  const MAX_RECORD_SAMPLES := SAMPLE_RATE * 60 * 10

  type Frame = seq<real>
  type CallId = string

  datatype Record = Record(frames: seq<Frame>, samples: nat, capped: bool)

  /** A saved recording. */
  datatype Output = Output(call: CallId, pcm: seq<real>)

  /**
   * `outputs` is the history of the flushes; a call's file, named after the
   * call, holds what was written to it last.
   */
  datatype State = State(recordings: map<CallId, Record>, outputs: seq<Output>, files: map<CallId, seq<real>>)

  datatype Event = Inbound(call: CallId, pcm: Frame) | Flush(call: CallId)

  function RecordOf(s: State, call: CallId): (r: Record) {
    if call in s.recordings then s.recordings[call] else Record([], 0, false)
  }

  function Step(s: State, e: Event): (t: State) {
    match e
    case Inbound(call, pcm) =>
      var rec := RecordOf(s, call);
      s.(recordings := s.recordings[call :=
        if rec.samples >= MAX_RECORD_SAMPLES then rec.(capped := true)
        else rec.(frames := rec.frames + [pcm], samples := rec.samples + |pcm|)])
    case Flush(call) =>
      var rec := RecordOf(s, call);
      var rest := s.(recordings := s.recordings - {call});
      if rec.samples == 0 then rest
      else
        var pcm := Concat(rec.frames);
        rest.(outputs := s.outputs + [Output(call, pcm)], files := s.files[call := pcm])
  }

  const START := State(map[], [], map[])

  function Run(es: seq<Event>): (t: State) {
    if es == [] then START else Step(Run(es[..|es| - 1]), es[|es| - 1])
  }

  /** `samples` is the total length of the frames, and stays below the cap until the last frame. */
  predicate Consistent(rec: Record) {
    && rec.samples == |Concat(rec.frames)|
    && (rec.frames != [] ==> |Concat(rec.frames[..|rec.frames| - 1])| < MAX_RECORD_SAMPLES)
    && (rec.capped ==> rec.samples >= MAX_RECORD_SAMPLES)
  }

  predicate AllConsistent(s: State) {
    forall call | call in s.recordings :: Consistent(s.recordings[call])
  }

  class Recorder {
    var recordings: map<CallId, Record>
    ghost var outputs: seq<Output>
    var files: map<CallId, seq<real>>

    ghost function Snapshot(): (s: State)
      reads this
    {
      State(recordings, outputs, files)
    }

    ghost predicate Valid()
      reads this
    {
      AllConsistent(Snapshot())
    }

    constructor ()
      ensures Valid() && Snapshot() == START
    {
      recordings, outputs, files := map[], [], map[];
    }

    method RecordInbound(call: CallId, pcm: Frame)
      requires Valid()
      modifies this
      ensures Snapshot() == Step(old(Snapshot()), Inbound(call, pcm))
      ensures Valid()
    {
      hide AllConsistent;
      StepConsistent(Snapshot(), Inbound(call, pcm));
      var rec := Record([], 0, false);
      if call in recordings {
        rec := recordings[call];
      } else {
        recordings := recordings[call := rec];
      }
      if rec.samples >= MAX_RECORD_SAMPLES {
        recordings := recordings[call := rec.(capped := true)];
        assert Snapshot() == Step(old(Snapshot()), Inbound(call, pcm));
        return;
      }
      recordings := recordings[call := rec.(frames := rec.frames + [pcm], samples := rec.samples + |pcm|)];
      assert Snapshot() == Step(old(Snapshot()), Inbound(call, pcm));
    }

    /** The buffer is allocated from `samples` alone; the copy fills it exactly. */
    method FlushRecording(call: CallId)
      requires Valid()
      modifies this
      ensures Snapshot() == Step(old(Snapshot()), Flush(call))
      ensures Valid()
    {
      StepConsistent(Snapshot(), Flush(call));
      var rec := Record([], 0, false);
      if call in recordings {
        rec := recordings[call];
      }
      recordings := recordings - {call};
      if rec.samples == 0 {
        return;
      }
      var pcm := FillBuffer(rec);
      outputs := outputs + [Output(call, pcm)];
      files := files[call := pcm];
    }

    method FillBuffer(rec: Record) returns (pcm: seq<real>)
      requires Consistent(rec)
      ensures pcm == Concat(rec.frames)
    {
      var buffer := new real[rec.samples];
      var offset := 0;
      var i := 0;
      while i < |rec.frames|
        invariant 0 <= i <= |rec.frames|
        invariant offset == |Concat(rec.frames[..i])| <= buffer.Length
        invariant buffer[..offset] == Concat(rec.frames[..i])
      {
        var frame := rec.frames[i];
        assert rec.frames[..i + 1][..i] == rec.frames[..i];
        ConcatPrefix(rec.frames, i + 1);
        assert offset + |frame| <= buffer.Length;
        forall k | 0 <= k < |frame| {
          buffer[offset + k] := frame[k];
        }
        assert buffer[..offset + |frame|] == Concat(rec.frames[..i]) + frame;
        offset := offset + |frame|;
        i := i + 1;
      }
      assert rec.frames[..i] == rec.frames;
      pcm := buffer[..];
    }
  }

  lemma {:induction false} ConcatPrefix(frames: seq<Frame>, n: nat)
    requires n <= |frames|
    ensures |Concat(frames[..n])| <= |Concat(frames)|
    decreases |frames|
  {
    if n < |frames| {
      var front := frames[..|frames| - 1];
      ConcatPrefix(front, n);
      assert front[..n] == frames[..n];
    } else {
      assert frames[..n] == frames;
    }
  }

  lemma StepConsistent(s: State, e: Event)
    requires AllConsistent(s)
    ensures AllConsistent(Step(s, e))
  {
    if e.Inbound? {
      var rec := RecordOf(s, e.call);
      assert Consistent(rec);
      if rec.samples < MAX_RECORD_SAMPLES {
        assert (rec.frames + [e.pcm])[..|rec.frames|] == rec.frames;
      }
    }
  }

  /** Every record of every run is consistent. */
  lemma {:induction false} RunConsistent(es: seq<Event>)
    ensures AllConsistent(Run(es))
  {
    if es != [] {
      RunConsistent(es[..|es| - 1]);
      StepConsistent(Run(es[..|es| - 1]), es[|es| - 1]);
    }
  }

  predicate FramesAtMost(es: seq<Event>, longest: nat) {
    forall i | 0 <= i < |es| :: es[i].Inbound? ==> |es[i].pcm| <= longest
  }

  /** A recording, buffered or saved, exceeds the cap by less than one frame. */
  predicate Bounded(s: State, longest: nat) {
    && (forall call | call in s.recordings :: s.recordings[call].samples < MAX_RECORD_SAMPLES + longest)
    && (forall i | 0 <= i < |s.outputs| :: 0 < |s.outputs[i].pcm| < MAX_RECORD_SAMPLES + longest)
  }

  lemma StepBounded(s: State, e: Event, longest: nat)
    requires AllConsistent(s) && Bounded(s, longest) && (e.Inbound? ==> |e.pcm| <= longest)
    ensures Bounded(Step(s, e), longest)
  {
    hide Concat;
    if e.Flush? && e.call in s.recordings {
      assert Consistent(s.recordings[e.call]);
    }
  }

  lemma {:induction false} RunBounded(es: seq<Event>, longest: nat)
    requires FramesAtMost(es, longest)
    ensures Bounded(Run(es), longest)
  {
    if es != [] {
      var before := es[..|es| - 1];
      RunBounded(before, longest);
      RunConsistent(before);
      StepBounded(Run(before), es[|es| - 1], longest);
    }
  }

  /**
   * The cap keeps the 32-bit sizes of a saved file from wrapping: for frames up
   * to two billion samples long, every file of every run reads back as the
   * quantised recording.
   */
  lemma SavedFileReadsBack(es: seq<Event>, longest: nat, i: nat)
    requires FramesAtMost(es, longest) && i < |Run(es).outputs|
    requires 36 + 2 * (MAX_RECORD_SAMPLES + longest) < 0x1_0000_0000
    ensures var pcm := Run(es).outputs[i].pcm;
      WavEncoder.ParseWav(WavEncoder.WavFile(pcm, SAMPLE_RATE))
        == Some(WavEncoder.Wav(SAMPLE_RATE, WavEncoder.Quantized(pcm)))
  {
    hide Run, WavEncoder.ParseWav, WavEncoder.WavFile, WavEncoder.Quantized;
    RunBounded(es, longest);
    WavEncoder.WavRoundTrip(Run(es).outputs[i].pcm, SAMPLE_RATE);
  }

  // ------------------------------------------------------------ conservation

  /** What one inbound frame adds to `call`. */
  function Share(s: State, e: Event, call: CallId): (pcm: seq<real>) {
    if e.Inbound? && e.call == call && RecordOf(s, call).samples < MAX_RECORD_SAMPLES then e.pcm else []
  }

  /** The audio of `call` that was accepted, in arrival order. */
  function Accepted(es: seq<Event>, call: CallId): (pcm: seq<real>) {
    if es == [] then []
    else
      var before, e := es[..|es| - 1], es[|es| - 1];
      Accepted(before, call) + Share(Run(before), e, call)
  }

  /** The audio saved for `call`, in the order of its flushes. */
  function Saved(outputs: seq<Output>, call: CallId): (pcm: seq<real>) {
    if outputs == [] then []
    else Saved(outputs[..|outputs| - 1], call)
         + if outputs[|outputs| - 1].call == call then outputs[|outputs| - 1].pcm else []
  }

  lemma InboundConserves(s: State, e: Event, call: CallId)
    requires e.Inbound?
    ensures Step(s, e).outputs == s.outputs
    ensures Concat(RecordOf(Step(s, e), call).frames) == Concat(RecordOf(s, call).frames) + Share(s, e, call)
  {
    var frames, after := RecordOf(s, call).frames, RecordOf(Step(s, e), call).frames;
    if e.call == call && RecordOf(s, call).samples < MAX_RECORD_SAMPLES {
      assert after == frames + [e.pcm];
      assert after[..|frames|] == frames;
    } else {
      assert after == frames;
    }
  }

  /**
   * For every interleaving of frames and flushes of any calls, what a call's
   * flushes have saved followed by what it still buffers is exactly its
   * accepted audio: nothing is lost, doubled, reordered or given to another call.
   */
  lemma {:induction false} RecordingConserves(es: seq<Event>, call: CallId)
    ensures Saved(Run(es).outputs, call) + Concat(RecordOf(Run(es), call).frames) == Accepted(es, call)
    decreases |es|
  {
    hide Step, RecordOf, Concat, Saved, Share, AllConsistent;
    if es != [] {
      var before, e := es[..|es| - 1], es[|es| - 1];
      RecordingConserves(before, call);
      StepConserves(before, e, call);
    } else {
      NothingRecorded(call);
    }
  }

  lemma NothingRecorded(call: CallId)
    ensures Saved(START.outputs, call) == [] && Concat(RecordOf(START, call).frames) == []
  {
  }

  lemma StepConserves(before: seq<Event>, e: Event, call: CallId)
    ensures var s, t := Run(before), Step(Run(before), e);
      Saved(t.outputs, call) + Concat(RecordOf(t, call).frames)
      == Saved(s.outputs, call) + Concat(RecordOf(s, call).frames) + Share(s, e, call)
  {
    hide Step, RecordOf, Concat, Saved, AllConsistent, Run;
    var s := Run(before);
    if e.Inbound? {
      InboundConserves(s, e, call);
    } else {
      RunConsistent(before);
      FlushConserves(s, e.call, call);
      assert e == Flush(e.call);
    }
  }

  lemma FlushConserves(s: State, flushed: CallId, call: CallId)
    requires AllConsistent(s)
    ensures var t := Step(s, Flush(flushed));
      Saved(t.outputs, call) + Concat(RecordOf(t, call).frames)
        == Saved(s.outputs, call) + Concat(RecordOf(s, call).frames)
  {
    var rec, t := RecordOf(s, flushed), Step(s, Flush(flushed));
    assert Consistent(rec);
    if rec.samples == 0 {
      assert t.outputs == s.outputs;
    } else {
      assert t.outputs[..|s.outputs|] == s.outputs;
    }
    if call == flushed {
      assert RecordOf(t, call).frames == [];
    } else {
      assert RecordOf(t, call) == RecordOf(s, call);
    }
  }

  /**
   * In every run: a frame is kept exactly while less than ten minutes at 16 kHz
   * are buffered for its call, and a flush saves exactly what is buffered,
   * unless that is nothing. Neither touches another call.
   */
  lemma KeptAndSavedExactly(es: seq<Event>, call: CallId, pcm: Frame, other: CallId)
    ensures var s, heard, flushed := Run(es), Run(es + [Inbound(call, pcm)]), Run(es + [Flush(call)]);
      var buffered := Concat(RecordOf(s, call).frames);
      && Concat(RecordOf(heard, call).frames) == (if |buffered| < 9_600_000 then buffered + pcm else buffered)
      && heard.outputs == s.outputs && heard.files == s.files
      && flushed.outputs == (if buffered == [] then s.outputs else s.outputs + [Output(call, buffered)])
      && Concat(RecordOf(flushed, call).frames) == []
      && (other != call ==>
            RecordOf(heard, other) == RecordOf(flushed, other) == RecordOf(s, other)
            && FileOf(flushed, other) == FileOf(s, other))
  {
    hide Concat, Run;
    RunConsistent(es);
    var s := Run(es);
    RunNext(es, Inbound(call, pcm));
    RunNext(es, Flush(call));
    NothingRecorded(call);
    assert Consistent(RecordOf(s, call));
    InboundConserves(s, Inbound(call, pcm), call);
    assert Concat(RecordOf(s, call).frames) + [] == Concat(RecordOf(s, call).frames);
  }

  lemma RunNext(es: seq<Event>, e: Event)
    ensures Run(es + [e]) == Step(Run(es), e)
  {
    assert (es + [e])[..|es|] == es;
  }

  // ------------------------------------------------------- the files written

  function FlushesOf(outputs: seq<Output>, call: CallId): (n: nat) {
    if outputs == [] then 0
    else FlushesOf(outputs[..|outputs| - 1], call) + if outputs[|outputs| - 1].call == call then 1 else 0
  }

  /** The audio of the call's last flush. */
  function LastSaved(outputs: seq<Output>, call: CallId): (pcm: Option<seq<real>>) {
    if outputs == [] then None
    else if outputs[|outputs| - 1].call == call then Some(outputs[|outputs| - 1].pcm)
    else LastSaved(outputs[..|outputs| - 1], call)
  }

  function FileOf(s: State, call: CallId): (pcm: Option<seq<real>>) {
    if call in s.files then Some(s.files[call]) else None
  }

  lemma FileStep(s: State, e: Event, call: CallId)
    requires AllConsistent(s) && FileOf(s, call) == LastSaved(s.outputs, call)
    requires forall i | 0 <= i < |s.outputs| :: s.outputs[i].pcm != []
    ensures FileOf(Step(s, e), call) == LastSaved(Step(s, e).outputs, call)
    ensures forall i | 0 <= i < |Step(s, e).outputs| :: Step(s, e).outputs[i].pcm != []
  {
    hide Concat;
    var t := Step(s, e);
    if t.outputs != s.outputs {
      assert Consistent(RecordOf(s, e.call));
      assert t.outputs[..|s.outputs|] == s.outputs;
    }
  }

  /** In every run a call's file is its last non-empty flush; an earlier one has been overwritten. */
  lemma {:induction false} FileIsLastFlush(es: seq<Event>, call: CallId)
    ensures FileOf(Run(es), call) == LastSaved(Run(es).outputs, call)
    ensures forall i | 0 <= i < |Run(es).outputs| :: Run(es).outputs[i].pcm != []
    decreases |es|
  {
    hide Step, AllConsistent;
    if es != [] {
      FileIsLastFlush(es[..|es| - 1], call);
      RunConsistent(es[..|es| - 1]);
      FileStep(Run(es[..|es| - 1]), es[|es| - 1], call);
    }
  }

  /** What the flushes saved is what the last one saved if and only if there was at most one. */
  lemma {:induction false} SavedByLast(outputs: seq<Output>, call: CallId)
    requires forall i | 0 <= i < |outputs| :: outputs[i].pcm != []
    ensures Saved(outputs, call) == [] <==> FlushesOf(outputs, call) == 0
    ensures LastSaved(outputs, call).None? <==> FlushesOf(outputs, call) == 0
    ensures Saved(outputs, call) == OrElse(LastSaved(outputs, call), Some([])).value <==> FlushesOf(outputs, call) <= 1
  {
    if outputs != [] {
      var front, last := outputs[..|outputs| - 1], outputs[|outputs| - 1];
      SavedByLast(front, call);
      if last.call == call && Saved(front, call) != [] {
        assert |Saved(outputs, call)| > |last.pcm|;
      }
    }
  }

  /**
   * Over every interleaving, a call's file followed by what it still buffers
   * is its accepted audio if and only if the call was flushed with audio at
   * most once: a call that ends and comes in again loses its first recording.
   */
  lemma FileConservesExactly(es: seq<Event>, call: CallId)
    ensures var s := Run(es);
      var file := if call in s.files then s.files[call] else [];
      file + Concat(RecordOf(s, call).frames) == Accepted(es, call) <==> FlushesOf(s.outputs, call) <= 1
  {
    hide Run, Concat, Accepted, RecordOf, Saved;
    FileIsLastFlush(es, call);
    RecordingConserves(es, call);
    var s := Run(es);
    SavedByLast(s.outputs, call);
    var file := if call in s.files then s.files[call] else [];
    SameFront(file, Saved(s.outputs, call), Concat(RecordOf(s, call).frames));
  }

  lemma SameFront(a: seq<real>, b: seq<real>, c: seq<real>)
    ensures a + c == b + c <==> a == b
  {
    if a + c == b + c {
      assert |a| == |b|;
      assert a == (a + c)[..|a|] && b == (b + c)[..|a|];
    }
  }
}
