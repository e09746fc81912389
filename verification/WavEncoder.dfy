/** The 16-bit mono PCM WAV encoder, over exact reals. */
module WavEncoder {
  import opened Prelude
  import opened ByteOrder

  const HEADER_SIZE := 44
  const RIFF: Bytes := [0x52, 0x49, 0x46, 0x46]
  const WAVE: Bytes := [0x57, 0x41, 0x56, 0x45]
  const FMT: Bytes := [0x66, 0x6d, 0x74, 0x20]
  const DATA: Bytes := [0x64, 0x61, 0x74, 0x61]

  // ------------------------------------------------------------ quantisation

  function Clamp(x: real): (c: real)
    ensures -1.0 <= c <= 1.0 && (-1.0 <= x <= 1.0 ==> c == x)
  {
    var low := if x < 1.0 then x else 1.0;
    if low > -1.0 then low else -1.0
  }

  /** Conversion of a number to an integer drops its fraction. */
  function Truncate(x: real): (n: int)
    ensures x >= 0.0 ==> n as real <= x < n as real + 1.0
    ensures x <= 0.0 ==> n as real - 1.0 < x <= n as real
  {
    if x >= 0.0 then x.Floor else -((-x).Floor)
  }

  function Scaled(x: real): (y: real) {
    var c := Clamp(x);
    if c < 0.0 then c * 32768.0 else c * 32767.0
  }

  /** The sample as a signed integer. */
  function Quantize(x: real): (q: int) {
    Truncate(Scaled(x))
  }

  /** Every sample fits sixteen bits, so storing it never wraps. */
  lemma QuantizeRange(x: real)
    ensures -32768 <= Quantize(x) <= 32767
  {
    var c := Clamp(x);
    if c < 0.0 {
      assert -32768.0 <= c * 32768.0 <= 0.0;
    } else {
      assert 0.0 <= c * 32767.0 <= 32767.0;
    }
  }

  lemma TruncateMonotone(x: real, y: real)
    requires x <= y
    ensures Truncate(x) <= Truncate(y)
  {
  }

  lemma QuantizeMonotone(x: real, y: real)
    requires x <= y
    ensures Quantize(x) <= Quantize(y)
  {
    var c, d := Clamp(x), Clamp(y);
    assert c <= d;
    assert Scaled(x) <= Scaled(y) by {
      if d < 0.0 {
        assert c * 32768.0 <= d * 32768.0;
      } else if c < 0.0 {
        assert c * 32768.0 <= 0.0 <= d * 32767.0;
      } else {
        assert c * 32767.0 <= d * 32767.0;
      }
    }
    TruncateMonotone(Scaled(x), Scaled(y));
  }

  /** The player's inverse of the scaling. */
  function Amplitude(q: int): (x: real) {
    if q < 0 then q as real / 32768.0 else q as real / 32767.0
  }

  /** The played amplitude is within one step of the clamped sample, and never louder. */
  lemma QuantizeError(x: real)
    ensures Clamp(x) >= 0.0 ==> 0.0 <= Amplitude(Quantize(x)) <= Clamp(x) < Amplitude(Quantize(x)) + 1.0 / 32767.0
    ensures Clamp(x) <= 0.0 ==> Amplitude(Quantize(x)) - 1.0 / 32768.0 < Clamp(x) <= Amplitude(Quantize(x)) <= 0.0
  {
    var c, q := Clamp(x), Quantize(x);
    if c >= 0.0 {
      assert q as real <= c * 32767.0 < q as real + 1.0;
      assert q >= 0;
      assert Amplitude(q) * 32767.0 == q as real;
    } else {
      assert q as real - 1.0 < c * 32768.0 <= q as real;
      assert q <= 0;
      if q == 0 {
        assert Amplitude(q) == 0.0;
      } else {
        assert Amplitude(q) * 32768.0 == q as real;
      }
    }
  }

  // ----------------------------------------------------------------- file form

  /** Two's complement of a sixteen-bit sample. */
  function Word(q: int): (n: nat)
    ensures n < 0x1_0000
  {
    q % 0x1_0000
  }

  function SignedWord(n: nat): (q: int) {
    if n < 0x8000 then n else n - 0x1_0000
  }

  /** `setUint32` keeps the number modulo 2^32. */
  function Uint32(n: nat): (s: Bytes)
    ensures |s| == 4
  {
    ToLittleEndian(n % 0x1_0000_0000, 4)
  }

  function Uint16(n: nat): (s: Bytes)
    ensures |s| == 2
  {
    ToLittleEndian(n % 0x1_0000, 2)
  }

  function RiffHead(n: nat): (s: Bytes)
    ensures |s| == 12
  {
    RIFF + Uint32(36 + 2 * n) + WAVE
  }

  function FormatChunk(sampleRate: nat): (s: Bytes)
    ensures |s| == 24
  {
    FMT + Uint32(16) + Uint16(1) + Uint16(1) + Uint32(sampleRate) + Uint32(sampleRate * 2) + Uint16(2) + Uint16(16)
  }

  function DataHead(n: nat): (s: Bytes)
    ensures |s| == 8
  {
    DATA + Uint32(2 * n)
  }

  function Header(n: nat, sampleRate: nat): (s: Bytes)
    ensures |s| == HEADER_SIZE
  {
    RiffHead(n) + FormatChunk(sampleRate) + DataHead(n)
  }

  function Body(pcm: seq<real>): (s: Bytes)
    ensures |s| == 2 * |pcm|
  {
    if pcm == [] then [] else Body(pcm[..|pcm| - 1]) + Uint16(Word(Quantize(pcm[|pcm| - 1])))
  }

  function WavFile(pcm: seq<real>, sampleRate: nat): (s: Bytes) {
    Header(|pcm|, sampleRate) + Body(pcm)
  }

  method PutBytes(buffer: array<byte>, at: nat, s: Bytes)
    requires at + |s| <= buffer.Length
    modifies buffer
    ensures buffer[..at + |s|] == old(buffer[..at]) + s
  {
    forall k | 0 <= k < |s| {
      buffer[at + k] := s[k];
    }
  }

  lemma BodyOfNone(pcm: seq<real>)
    ensures Body(pcm[..0]) == []
  {
  }

  lemma BodyStep(pcm: seq<real>, i: nat, value: int)
    requires i < |pcm|
    requires var sample := Clamp(pcm[i]); value == Truncate(if sample < 0.0 then sample * 32768.0 else sample * 32767.0)
    ensures Body(pcm[..i + 1]) == Body(pcm[..i]) + Uint16(Word(value))
  {
    hide Uint16, Word, Truncate, Clamp;
    assert pcm[..i + 1][..i] == pcm[..i];
  }

  method EncodeWav(pcm: seq<real>, sampleRate: nat) returns (buffer: array<byte>)
    ensures fresh(buffer) && buffer[..] == WavFile(pcm, sampleRate)
  {
    hide Header, Uint16, Word, Quantize, Truncate, Scaled, Clamp, Body;
    BodyOfNone(pcm);
    var dataSize := |pcm| * 2;
    buffer := new byte[HEADER_SIZE + dataSize];
    WriteHeader(buffer, |pcm|, sampleRate);
    var offset := HEADER_SIZE;
    var i := 0;
    while i < |pcm|
      invariant 0 <= i <= |pcm| && offset == HEADER_SIZE + 2 * i
      invariant buffer[..offset] == Header(|pcm|, sampleRate) + Body(pcm[..i])
    {
      var sample := Clamp(pcm[i]);
      var value := Truncate(if sample < 0.0 then sample * 32768.0 else sample * 32767.0);
      BodyStep(pcm, i, value);
      PutBytes(buffer, offset, Uint16(Word(value)));
      offset := offset + 2;
      i := i + 1;
    }
    assert pcm[..i] == pcm;
    assert buffer[..offset] == buffer[..];
  }

  method WriteHeader(buffer: array<byte>, n: nat, sampleRate: nat)
    requires buffer.Length >= HEADER_SIZE
    modifies buffer
    ensures buffer[..HEADER_SIZE] == Header(n, sampleRate)
  {
    hide Uint32, Uint16, FormatChunk;
    PutBytes(buffer, 0, RIFF);
    PutBytes(buffer, 4, Uint32(36 + 2 * n));
    PutBytes(buffer, 8, WAVE);
    assert buffer[..12] == RiffHead(n);
    WriteFormat(buffer, sampleRate);
    PutBytes(buffer, 36, DATA);
    PutBytes(buffer, 40, Uint32(2 * n));
    assert DATA + Uint32(2 * n) == DataHead(n);
  }

  method WriteFormat(buffer: array<byte>, sampleRate: nat)
    requires buffer.Length >= 36
    modifies buffer
    ensures buffer[..36] == old(buffer[..12]) + FormatChunk(sampleRate)
  {
    hide Uint32, Uint16;
    PutBytes(buffer, 12, FMT);
    PutBytes(buffer, 16, Uint32(16));
    PutBytes(buffer, 20, Uint16(1));
    PutBytes(buffer, 22, Uint16(1));
    PutBytes(buffer, 24, Uint32(sampleRate));
    PutBytes(buffer, 28, Uint32(sampleRate * 2));
    PutBytes(buffer, 32, Uint16(2));
    PutBytes(buffer, 34, Uint16(16));
  }

  // ------------------------------------------------------------------ reading

  datatype Wav = Wav(sampleRate: nat, samples: seq<int>)

  predicate RiffOk(head: Bytes, size: nat)
    requires |head| == 12
  {
    head[..4] == RIFF && LittleEndian(head[4..8]) == size && head[8..] == WAVE
  }

  predicate FormatOk(chunk: Bytes, sampleRate: nat)
    requires |chunk| == 24
  {
    && chunk[..4] == FMT && LittleEndian(chunk[4..8]) == 16
    && LittleEndian(chunk[8..10]) == 1 && LittleEndian(chunk[10..12]) == 1
    && LittleEndian(chunk[12..16]) == sampleRate && LittleEndian(chunk[16..20]) == sampleRate * 2
    && LittleEndian(chunk[20..22]) == 2 && LittleEndian(chunk[22..]) == 16
  }

  predicate DataOk(head: Bytes, size: nat)
    requires |head| == 8
  {
    head[..4] == DATA && LittleEndian(head[4..]) == size
  }

  function Samples(body: Bytes): (samples: seq<int>)
    requires |body| % 2 == 0
  {
    if body == [] then []
    else Samples(body[..|body| - 2]) + [SignedWord(LittleEndian(body[|body| - 2..]))]
  }

  /**
   * A reader that trusts nothing: every identifier, both sizes, the format and
   * the byte rate must be what a file of this length and rate carries.
   */
  function ParseWav(s: Bytes): (w: Option<Wav>) {
    if |s| < HEADER_SIZE || |s| % 2 != 0 then None
    else
      var sampleRate := LittleEndian(s[24..28]);
      if RiffOk(s[..12], |s| - 8) && FormatOk(s[12..36], sampleRate) && DataOk(s[36..44], |s| - 44) then
        Some(Wav(sampleRate, Samples(s[44..])))
      else None
  }

  function Quantized(pcm: seq<real>): (samples: seq<int>) {
    seq(|pcm|, i requires 0 <= i < |pcm| => Quantize(pcm[i]))
  }

  function Played(samples: seq<int>): (pcm: seq<real>) {
    seq(|samples|, i requires 0 <= i < |samples| => Amplitude(samples[i]))
  }

  lemma FieldWidths()
    ensures Power256(2) == 0x1_0000 && Power256(4) == 0x1_0000_0000
  {
    assert Power256(1) == 256 && Power256(3) == 0x100_0000;
  }

  lemma ReadUint32(n: nat)
    ensures LittleEndian(Uint32(n)) == n % 0x1_0000_0000
  {
    hide ToLittleEndian, LittleEndian, Power256;
    FieldWidths();
    LittleEndianInverse(n % 0x1_0000_0000, 4);
  }

  lemma ReadUint16(n: nat)
    ensures LittleEndian(Uint16(n)) == n % 0x1_0000
  {
    hide ToLittleEndian, LittleEndian, Power256;
    FieldWidths();
    LittleEndianInverse(n % 0x1_0000, 2);
  }

  lemma WriteUint32(s: Bytes)
    requires |s| == 4
    ensures LittleEndian(s) < 0x1_0000_0000 && Uint32(LittleEndian(s)) == s
  {
    hide ToLittleEndian, LittleEndian, Power256;
    FieldWidths();
    LittleEndianInverseBytes(s);
  }

  lemma WriteUint16(s: Bytes)
    requires |s| == 2
    ensures LittleEndian(s) < 0x1_0000 && Uint16(LittleEndian(s)) == s
  {
    hide ToLittleEndian, LittleEndian, Power256;
    FieldWidths();
    LittleEndianInverseBytes(s);
  }

  /** Each head is accepted exactly when its numbers fit their fields, and only the written bytes are accepted. */
  lemma RiffExact(n: nat)
    ensures RiffOk(RiffHead(n), 36 + 2 * n) <==> 36 + 2 * n < 0x1_0000_0000
  {
    var head := RiffHead(n);
    assert head[4..8] == Uint32(36 + 2 * n);
    ReadUint32(36 + 2 * n);
    assert head[..4] == RIFF && head[8..] == WAVE;
  }

  lemma DataExact(n: nat)
    ensures DataOk(DataHead(n), 2 * n) <==> 2 * n < 0x1_0000_0000
  {
    var head := DataHead(n);
    assert head[4..] == Uint32(2 * n);
    ReadUint32(2 * n);
    assert head[..4] == DATA;
  }

  lemma FormatSlices(sampleRate: nat)
    ensures var chunk := FormatChunk(sampleRate);
      && chunk[..4] == FMT && chunk[4..8] == Uint32(16) && chunk[8..10] == Uint16(1) && chunk[10..12] == Uint16(1)
      && chunk[12..16] == Uint32(sampleRate) && chunk[16..20] == Uint32(sampleRate * 2)
      && chunk[20..22] == Uint16(2) && chunk[22..] == Uint16(16)
  {
    hide Uint32, Uint16;
  }

  lemma FormatExact(sampleRate: nat)
    ensures LittleEndian(FormatChunk(sampleRate)[12..16]) == sampleRate % 0x1_0000_0000
    ensures FormatOk(FormatChunk(sampleRate), sampleRate) <==> sampleRate * 2 < 0x1_0000_0000
  {
    hide Uint32, Uint16, FormatChunk, LittleEndian;
    FormatSlices(sampleRate);
    ReadUint32(16);
    ReadUint32(sampleRate);
    ReadUint32(sampleRate * 2);
    ReadUint16(1);
    ReadUint16(2);
    ReadUint16(16);
  }

  lemma SignedWordOfWord(q: int)
    requires -32768 <= q <= 32767
    ensures SignedWord(Word(q)) == q
  {
  }

  lemma SamplesAppend(body: Bytes, word: Bytes)
    requires |body| % 2 == 0 && |word| == 2
    ensures Samples(body + word) == Samples(body) + [SignedWord(LittleEndian(word))]
  {
    hide SignedWord, LittleEndian;
    var whole := body + word;
    assert whole[..|whole| - 2] == body && whole[|whole| - 2..] == word;
  }

  lemma ReadSample(q: int)
    requires -32768 <= q <= 32767
    ensures SignedWord(LittleEndian(Uint16(Word(q)))) == q
  {
    hide LittleEndian, Uint16;
    ReadUint16(Word(q));
    SignedWordOfWord(q);
  }

  lemma QuantizedAppend(pcm: seq<real>, x: real)
    ensures Quantized(pcm + [x]) == Quantized(pcm) + [Quantize(x)]
  {
    hide Quantize;
  }

  lemma BodyAppend(pcm: seq<real>, x: real)
    ensures Body(pcm + [x]) == Body(pcm) + Uint16(Word(Quantize(x)))
  {
    hide Quantize, Uint16, Word;
    assert (pcm + [x])[..|pcm|] == pcm;
  }

  lemma SamplesOfNothing()
    ensures Body([]) == [] && Samples([]) == Quantized([])
  {
  }

  lemma {:induction false} SamplesOfBody(pcm: seq<real>)
    ensures Samples(Body(pcm)) == Quantized(pcm)
  {
    hide *;
    if pcm == [] {
      SamplesOfNothing();
    } else {
      var front, last := pcm[..|pcm| - 1], pcm[|pcm| - 1];
      SamplesOfBody(front);
      QuantizeRange(last);
      ReadSample(Quantize(last));
      BodyAppend(front, last);
      SamplesAppend(Body(front), Uint16(Word(Quantize(last))));
      QuantizedAppend(front, last);
      assert pcm == front + [last];
    }
  }

  lemma FileSlices(pcm: seq<real>, sampleRate: nat)
    ensures var s := WavFile(pcm, sampleRate);
      && s[..12] == RiffHead(|pcm|) && s[12..36] == FormatChunk(sampleRate) && s[36..44] == DataHead(|pcm|)
      && s[44..] == Body(pcm) && |s| == 44 + 2 * |pcm| && s[24..28] == FormatChunk(sampleRate)[12..16]
  {
    hide RiffHead, FormatChunk, DataHead, Body;
    var s := WavFile(pcm, sampleRate);
    assert s == RiffHead(|pcm|) + FormatChunk(sampleRate) + DataHead(|pcm|) + Body(pcm);
    assert s[24..28] == s[12..36][12..16];
  }

  /**
   * The written file reads back as the quantised samples at the given rate
   * exactly when the 32-bit size and byte-rate fields do not wrap.
   */
  lemma WavRoundTrip(pcm: seq<real>, sampleRate: nat)
    ensures ParseWav(WavFile(pcm, sampleRate)) == Some(Wav(sampleRate, Quantized(pcm)))
       <==> 36 + 2 * |pcm| < 0x1_0000_0000 && 2 * sampleRate < 0x1_0000_0000
  {
    hide RiffOk, FormatOk, DataOk, RiffHead, FormatChunk, DataHead, Body, Samples, Quantized, WavFile, LittleEndian;
    FileSlices(pcm, sampleRate);
    RiffExact(|pcm|);
    DataExact(|pcm|);
    FormatExact(sampleRate);
    SamplesOfBody(pcm);
  }

  /** Playing a stored sample and recording it again stores the same sample. */
  lemma QuantizeAmplitude(q: int)
    requires -32768 <= q <= 32767
    ensures Quantize(Amplitude(q)) == q
  {
    var x := Amplitude(q);
    if q < 0 {
      assert x * 32768.0 == q as real;
      assert -1.0 <= x < 0.0;
    } else {
      assert x * 32767.0 == q as real;
      assert 0.0 <= x <= 1.0;
    }
    assert Scaled(x) == q as real;
  }

  lemma WordOfSignedWord(n: nat)
    requires n < 0x1_0000
    ensures -32768 <= SignedWord(n) <= 32767 && Word(SignedWord(n)) == n
  {
  }

  lemma {:induction false} BodyOfSamples(body: Bytes)
    requires |body| % 2 == 0
    ensures Body(Played(Samples(body))) == body
  {
    if body != [] {
      hide Amplitude, Quantize, Uint16, Word, SignedWord, LittleEndian;
      var front, word := body[..|body| - 2], body[|body| - 2..];
      BodyOfSamples(front);
      var q := SignedWord(LittleEndian(word));
      WriteUint16(word);
      WordOfSignedWord(LittleEndian(word));
      QuantizeAmplitude(q);
      PlayedAppend(Samples(front), q);
      BodyAppend(Played(Samples(front)), Amplitude(q));
      assert body == front + word;
    }
  }

  lemma PlayedAppend(samples: seq<int>, q: int)
    ensures Played(samples + [q]) == Played(samples) + [Amplitude(q)]
  {
    hide Amplitude;
  }

  lemma RiffWritten(head: Bytes, n: nat)
    requires |head| == 12 && RiffOk(head, 36 + 2 * n)
    ensures head == RiffHead(n)
  {
    hide Uint32, LittleEndian;
    WriteUint32(head[4..8]);
    assert head == head[..4] + head[4..8] + head[8..];
  }

  lemma DataWritten(head: Bytes, n: nat)
    requires |head| == 8 && DataOk(head, 2 * n)
    ensures head == DataHead(n)
  {
    hide Uint32, LittleEndian;
    WriteUint32(head[4..]);
    assert head == head[..4] + head[4..];
  }

  lemma FormatWritten(chunk: Bytes, sampleRate: nat)
    requires |chunk| == 24 && FormatOk(chunk, sampleRate)
    ensures chunk == FormatChunk(sampleRate)
  {
    hide Uint32, Uint16, LittleEndian;
    WriteUint32(chunk[4..8]);
    WriteUint16(chunk[8..10]);
    WriteUint16(chunk[10..12]);
    WriteUint32(chunk[12..16]);
    WriteUint32(chunk[16..20]);
    WriteUint16(chunk[20..22]);
    WriteUint16(chunk[22..]);
    assert chunk == chunk[..4] + chunk[4..8] + chunk[8..10] + chunk[10..12] + chunk[12..16]
                 + chunk[16..20] + chunk[20..22] + chunk[22..];
  }

  lemma {:induction false} SampleCount(body: Bytes)
    requires |body| % 2 == 0
    ensures |Samples(body)| == |body| / 2
  {
    if body != [] {
      SampleCount(body[..|body| - 2]);
    }
  }

  lemma ParsedParts(s: Bytes, w: Wav)
    requires ParseWav(s) == Some(w)
    ensures |s| >= 44 && |s| % 2 == 0 && w.samples == Samples(s[44..])
    ensures RiffOk(s[..12], |s| - 8) && FormatOk(s[12..36], w.sampleRate) && DataOk(s[36..44], |s| - 44)
  {
    hide RiffOk, FormatOk, DataOk, Samples, LittleEndian;
  }

  /** Every file the reader accepts is what the encoder writes for the audio it plays. */
  lemma ParsedIsWritten(s: Bytes, w: Wav)
    requires ParseWav(s) == Some(w)
    ensures WavFile(Played(w.samples), w.sampleRate) == s
  {
    hide *;
    ParsedParts(s, w);
    var n := (|s| - 44) / 2;
    assert |s| == 44 + 2 * n;
    RiffWritten(s[..12], n);
    FormatWritten(s[12..36], w.sampleRate);
    DataWritten(s[36..44], n);
    BodyOfSamples(s[44..]);
    SampleCount(s[44..]);
    FileParts(Played(w.samples), w.sampleRate);
    PlayedLength(w.samples);
    assert s == s[..12] + s[12..36] + s[36..44] + s[44..];
  }

  lemma PlayedLength(samples: seq<int>)
    ensures |Played(samples)| == |samples|
  {
  }

  lemma FileParts(pcm: seq<real>, sampleRate: nat)
    ensures WavFile(pcm, sampleRate) == RiffHead(|pcm|) + FormatChunk(sampleRate) + DataHead(|pcm|) + Body(pcm)
  {
    hide RiffHead, FormatChunk, DataHead, Body;
  }

  // ---------------------------------------------------------- literal bytes

  lemma FourBytes(n: nat)
    requires n < 0x1_0000_0000
    ensures Uint32(n) == [(n % 0x100) as byte, (n / 0x100 % 0x100) as byte, (n / 0x1_0000 % 0x100) as byte,
                          (n / 0x100_0000) as byte]
  {
    var s := ToLittleEndian(n, 4);
    assert n / 0x100 / 0x100 == n / 0x1_0000 && n / 0x1_0000 / 0x100 == n / 0x100_0000;
    assert ToLittleEndian(n / 0x100_0000, 1) == [(n / 0x100_0000 % 0x100) as byte];
    assert ToLittleEndian(n / 0x1_0000, 2) == [(n / 0x1_0000 % 0x100) as byte, (n / 0x100_0000 % 0x100) as byte];
    assert ToLittleEndian(n / 0x100, 3)
        == [(n / 0x100 % 0x100) as byte, (n / 0x1_0000 % 0x100) as byte, (n / 0x100_0000 % 0x100) as byte];
  }

  lemma TwoBytes(n: nat)
    requires n < 0x1_0000
    ensures Uint16(n) == [(n % 0x100) as byte, (n / 0x100) as byte]
  {
    assert n / 0x100 < 0x100;
    assert ToLittleEndian(n, 2) == [(n % 0x100) as byte] + ToLittleEndian(n / 0x100, 1);
    hide ToLittleEndian;
    OneLeft(n / 0x100);
  }

  lemma OneLeft(n: nat)
    requires n < 0x100
    ensures ToLittleEndian(n, 1) == [n as byte]
  {
    assert n / 256 == 0 && n % 256 == n;
    assert ToLittleEndian(0, 0) == [];
  }

  /**
   * The header of a file of `n` samples, byte by byte: "RIFF", the size of what
   * follows, "WAVE"; "fmt ", sixteen bytes of format (PCM, one channel, the
   * rate, the byte rate, two bytes a sample, sixteen bits); "data", the size of the samples.
   */
  lemma HeaderBytes(n: nat, sampleRate: nat)
    ensures RiffHead(n) == [0x52, 0x49, 0x46, 0x46] + Uint32(36 + 2 * n) + [0x57, 0x41, 0x56, 0x45]
    ensures FormatChunk(sampleRate)
         == [0x66, 0x6D, 0x74, 0x20] + [16, 0, 0, 0] + [1, 0] + [1, 0] + Uint32(sampleRate) + Uint32(sampleRate * 2)
            + [2, 0] + [16, 0]
    ensures DataHead(n) == [0x64, 0x61, 0x74, 0x61] + Uint32(2 * n)
  {
    FourBytes(16);
    TwoBytes(1);
    TwoBytes(2);
    TwoBytes(16);
    hide ToLittleEndian, Uint32, Uint16;
  }

  /** Full scale up, full scale down and silence. */
  const THREE_SAMPLES := [1.0, -1.0, 0.0]

  lemma ThreeSampleBytes()
    ensures Body(THREE_SAMPLES) == [0xFF, 0x7F] + [0x00, 0x80] + [0, 0]
  {
    var one, two, three := [1.0], [1.0, -1.0], THREE_SAMPLES;
    assert three[..2] == two && two[..1] == one && one[..0] == [];
    QuantizeScale();
    TwoBytes(0x7FFF);
    TwoBytes(0x8000);
    TwoBytes(0);
    hide Quantize, Uint16;
    assert Body([]) == [];
    assert Body(one) == [] + Uint16(Word(32767));
    assert Body(two) == Body(one) + Uint16(Word(-32768));
    assert Body(three) == Body(two) + Uint16(Word(0));
  }

  /** A whole file at 16 kHz, byte by byte. */
  lemma SmallFile()
    ensures WavFile(THREE_SAMPLES, 16000) == RiffHead(3) + FormatChunk(16000) + DataHead(3) + Body(THREE_SAMPLES)
    ensures RiffHead(3) == [0x52, 0x49, 0x46, 0x46] + [42, 0, 0, 0] + [0x57, 0x41, 0x56, 0x45]
    ensures FormatChunk(16000)
         == [0x66, 0x6D, 0x74, 0x20] + [16, 0, 0, 0] + [1, 0] + [1, 0] + [0x80, 0x3E, 0, 0] + [0, 0x7D, 0, 0]
            + [2, 0] + [16, 0]
    ensures DataHead(3) == [0x64, 0x61, 0x74, 0x61] + [6, 0, 0, 0]
    ensures Body(THREE_SAMPLES) == [0xFF, 0x7F] + [0x00, 0x80] + [0, 0]
  {
    hide *;
    HeaderBytes(3, 16000);
    SmallNumbers();
    ThreeSampleBytes();
    ThreeSamples();
    FileParts(THREE_SAMPLES, 16000);
  }

  lemma SmallNumbers()
    ensures Uint32(42) == [42, 0, 0, 0] && Uint32(6) == [6, 0, 0, 0]
    ensures Uint32(16000) == [0x80, 0x3E, 0, 0] && Uint32(32000) == [0, 0x7D, 0, 0]
  {
    FourBytes(42);
    FourBytes(6);
    FourBytes(16000);
    FourBytes(32000);
    hide Uint32;
  }

  lemma ThreeSamples()
    ensures |THREE_SAMPLES| == 3
  {
  }

  /** Full scale is 32767 up and 32768 down, and what lies beyond is cut to it. */
  lemma QuantizeScale()
    ensures Quantize(1.0) == 32767 && Quantize(-1.0) == -32768 && Quantize(0.0) == 0
    ensures forall x: real :: (x >= 1.0 ==> Quantize(x) == 32767) && (x <= -1.0 ==> Quantize(x) == -32768)
  {
  }
}
