/** The download job's copy loop in `Main`: decompressed bytes are read into a buffer of
    `min(size, 1 << 24)` bytes, which is written out each time it fills, and once more,
    partially, at end of stream. */
module Transfer {
  import opened Wrappers
  import opened Bytes
  import opened Http

  /** The largest buffer a job allocates: 16 MiB. */
  const MaxBuffer: nat := 0x100_0000

  /** `new byte[Math.min(size, 1 << 24)]` throws for a negative manifest size. */
  datatype AllocError = NegativeArraySize

  function BufferLength(size: Int32): (r: Result<nat, AllocError>)
    ensures r.Failure? <==> size < 0
    ensures r.Success? ==> r.value <= MaxBuffer && r.value <= size
    ensures r.Success? ==> r.value == size || r.value == MaxBuffer
  {
    var n := if size < MaxBuffer then size as int else MaxBuffer;
    if n < 0 then Failure(NegativeArraySize) else Success(n)
  }

  /** The buffer length with the zero-size case repaired: at least one byte, so that every
      read can make progress. It agrees with `BufferLength` for every positive size. */
  function FixedBufferLength(size: Int32): (r: Result<nat, AllocError>)
    ensures r.Failure? <==> size < 0
    ensures r.Success? ==> 1 <= r.value <= MaxBuffer
    ensures size > 0 ==> r == BufferLength(size)
    ensures size == 0 ==> r == Success(1)
  {
    match BufferLength(size)
    case Failure(e) => Failure(e)
    case Success(n) => if n == 0 then Success(1) else Success(n)
  }

  /** `input.read(buffer, off, len)` with `len > 0` on a stream with `remaining` unread
      bytes: -1 at end of stream, otherwise between 1 and `len` bytes. How many the stream
      hands over is its own choice, given here by `hint`. */
  function StreamRead(remaining: nat, len: nat, hint: nat): (r: int)
    requires len > 0
    ensures remaining == 0 <==> r == -1
    ensures remaining > 0 ==> 1 <= r <= len && r <= remaining
  {
    if remaining == 0 then -1
    else
      var k := if hint < 1 then 1 else hint;
      var k' := if k < len then k else len;
      if k' < remaining then k' else remaining
  }

  /** The concatenation of the writes, in order. */
  function Flatten(writes: seq<seq<Octet>>): seq<Octet>
  {
    if writes == [] then [] else Flatten(writes[..|writes| - 1]) + writes[|writes| - 1]
  }

  lemma FlattenAppend(writes: seq<seq<Octet>>, w: seq<Octet>)
    ensures Flatten(writes + [w]) == Flatten(writes) + w
  {
    assert (writes + [w])[..|writes|] == writes;
  }

  /** `InputStream.read(b, off, len)` as the Java contract has it, `len == 0` included:
      then nothing is read and 0 is returned, even at end of stream. */
  function JavaRead(remaining: nat, len: nat, hint: nat): (r: int)
    ensures len == 0 ==> r == 0
    ensures len > 0 ==> (r == -1 <==> remaining == 0)
    ensures len > 0 && remaining > 0 ==> r >= 1
    ensures r >= 0 ==> r <= len && r <= remaining
  {
    if len == 0 then 0 else StreamRead(remaining, len, hint)
  }

  /** The copy loop's variables between iterations; writes are recorded by their length. */
  datatype LoopState = LoopState(pos: nat, consumed: nat, writeLengths: seq<nat>, done: bool)

  predicate InRange(s: LoopState, n: nat, total: nat) {
    s.pos <= n && s.consumed <= total && (n > 0 ==> s.pos < n)
  }

  /** One iteration of the loop exactly as written: read into `buffer[pos..n]`, stop on -1,
      otherwise advance `pos` and flush when it reaches `buffer.length`. */
  function StepAsWritten(total: nat, n: nat, s: LoopState, hint: nat): (t: LoopState)
    requires InRange(s, n, total)
    ensures InRange(t, n, total)
    ensures t.consumed >= s.consumed
  {
    if s.done then s
    else
      var r := JavaRead(total - s.consumed, n - s.pos, hint);
      if r < 0 then s.(done := true)
      else
        var pos := s.pos + r;
        if pos == n then LoopState(0, s.consumed + r, s.writeLengths + [pos], false)
        else LoopState(pos, s.consumed + r, s.writeLengths, false)
  }

  /** The loop as written after `k` iterations, the i-th read handing over `chunk(i)`. */
  function RunAsWritten(total: nat, n: nat, chunk: nat -> nat, k: nat): (s: LoopState)
    ensures InRange(s, n, total)
  {
    if k == 0 then LoopState(0, 0, [], false)
    else StepAsWritten(total, n, RunAsWritten(total, n, chunk, k - 1), chunk(k - 1))
  }

  /** With a manifest size of 0 the buffer is empty, every read asks for 0 bytes and gets 0,
      and the loop spins for ever: after any number of iterations it has read nothing, is
      still running, and has made one empty write per iteration. */
  lemma {:induction false} ZeroSizeCopyNeverEnds(total: nat, chunk: nat -> nat, k: nat)
    ensures BufferLength(0) == Success(0)
    ensures var s := RunAsWritten(total, 0, chunk, k);
      !s.done && s.consumed == 0 && s.pos == 0 && |s.writeLengths| == k
    decreases k
  {
    if k > 0 {
      ZeroSizeCopyNeverEnds(total, chunk, k - 1);
    }
  }

  /** Why a download job's copy fails: the buffer cannot be allocated, or a `read` of the
      decompressed stream throws (the final error of a segmented stream, a decoding error). */
  datatype CopyError = AllocFailed(AllocError) | ReadFailed(IOError)

  /** The whole input was written: whole buffers, then one non-empty partial buffer. */
  predicate Complete(input: seq<Octet>, writes: seq<seq<Octet>>, n: nat) {
    && Flatten(writes) == input
    && (forall i :: 0 <= i < |writes| - 1 ==> |writes[i]| == n)
    && (|writes| > 0 ==> 0 < |writes[|writes| - 1]| <= n)
    && (|writes| == 0 <==> |input| == 0)
  }

  /** The copy was cut short after the input: only whole buffers were written, as many as
      the input fills, and the bytes of the last partial buffer were never written. */
  predicate Truncated(input: seq<Octet>, writes: seq<seq<Octet>>, n: nat) {
    && (forall i :: 0 <= i < |writes| ==> |writes[i]| == n)
    && |writes| * n <= |input| < |writes| * n + n
    && Flatten(writes) == input[..|writes| * n]
  }

  /** The copy loop of a download job, returning the `output.write` calls it makes and how
      the job ends. The decompressed stream delivers `input` and then either ends (`ending`
      is `None`) or throws. The k-th read hands over `chunk(k)` bytes, clipped to what the
      stream and the buffer allow. A negative manifest size fails the buffer allocation
      before anything is read. */
  method Copy(input: seq<Octet>, ending: Option<IOError>, size: Int32, chunk: nat -> nat)
    returns (writes: seq<seq<Octet>>, r: Result<(), CopyError>)
    ensures size < 0 ==> writes == [] && r == Failure(AllocFailed(NegativeArraySize))
    ensures size >= 0 && ending.None? ==> r.Success? && Complete(input, writes, FixedBufferLength(size).value)
    ensures size >= 0 && ending.Some? ==>
      r == Failure(ReadFailed(ending.value)) && Truncated(input, writes, FixedBufferLength(size).value)
  {
    match FixedBufferLength(size)
    case Failure(e) =>
      writes := [];
      r := Failure(AllocFailed(e));
    case Success(n) =>
      var failure;
      writes, failure := CopyThrough(input, ending, n, chunk);
      if failure.Some? {
        r := Failure(ReadFailed(failure.value));
      } else {
        r := Success(());
      }
  }

  /** `read` placing `r` input bytes after the `pos` already buffered. */
  method Fill(buffer: array<Octet>, pos: nat, input: seq<Octet>, consumed: nat, r: nat)
    requires pos + r <= buffer.Length && consumed + r <= |input|
    modifies buffer
    ensures buffer[..pos + r] == old(buffer[..pos]) + input[consumed..consumed + r]
  {
    forall i | 0 <= i < r {
      buffer[pos + i] := input[consumed + i];
    }
  }

  /** Writes of `n` bytes each flatten to `n` bytes per write. */
  lemma {:induction false} FlattenLength(writes: seq<seq<Octet>>, n: nat)
    requires forall i :: 0 <= i < |writes| ==> |writes[i]| == n
    ensures |Flatten(writes)| == |writes| * n
    decreases |writes|
  {
    if writes != [] {
      var init := writes[..|writes| - 1];
      FlattenLength(init, n);
      assert |Flatten(writes)| == |init| * n + n;
    }
  }

  /** The loop itself, over a buffer of `n` bytes; `failure` is the exception that ends it,
      if any. */
  method CopyThrough(input: seq<Octet>, ending: Option<IOError>, n: nat, chunk: nat -> nat)
    returns (writes: seq<seq<Octet>>, failure: Option<IOError>)
    requires n >= 1
    ensures failure == ending
    ensures ending.None? ==> Complete(input, writes, n)
    ensures ending.Some? ==> Truncated(input, writes, n)
  {
    var buffer := new Octet[n];
    var pos := 0;
    var consumed := 0;
    var calls := 0;
    writes := [];
    var r := StreamRead(|input| - consumed, n - pos, chunk(calls));
    while r >= 0
      invariant 0 <= pos < n
      invariant consumed <= |input|
      invariant r == StreamRead(|input| - consumed, n - pos, chunk(calls))
      invariant Flatten(writes) + buffer[..pos] == input[..consumed]
      invariant forall i :: 0 <= i < |writes| ==> |writes[i]| == n
      invariant |writes| == 0 ==> pos == consumed
      decreases |input| - consumed
    {
      Fill(buffer, pos, input, consumed, r);
      assert input[..consumed] + input[consumed..consumed + r] == input[..consumed + r];
      consumed := consumed + r;
      pos := pos + r;
      if pos == n {
        FlattenAppend(writes, buffer[..pos]);
        writes := writes + [buffer[..pos]];
        pos := 0;
        assert buffer[..pos] == [];
      }
      calls := calls + 1;
      r := StreamRead(|input| - consumed, n - pos, chunk(calls));
    }
    assert consumed == |input| && input[..consumed] == input;
    failure := ending;
    if ending.Some? {
      FlattenLength(writes, n);
      assert Flatten(writes) == input[..|writes| * n];
      return;
    }
    if pos != 0 {
      FlattenAppend(writes, buffer[..pos]);
      writes := writes + [buffer[..pos]];
    }
  }
}
