/** Hashing a buffer a bounded number of blocks at a time. */
module Sha1Stream {
  import opened Arithmetic
  import opened Sha1Spec
  import opened Sha1
  import opened Sha1Transform

  datatype Option<+T> = None | Some(value: T)

  /** Bytes per call: the block count, at least one, times 64, in 64-bit arithmetic. */
  function StepBytes(blockStep: nat): (n: nat)
    ensures n % 64 == 0
  {
    64 * (if blockStep == 0 then 1 else blockStep) % TWO_TO_THE_64
  }

  /** Below 2^58 blocks the step is 64 bytes a block, and no blocks count as one. */
  lemma StepIs(blockStep: nat)
    ensures blockStep < 0x400_0000_0000_0000 ==> StepBytes(blockStep) == if blockStep == 0 then 64 else 64 * blockStep
    ensures blockStep > 0 ==> StepBytes(blockStep + 0x400_0000_0000_0000) == StepBytes(blockStep)
  {
    if blockStep > 0 {
      AddModulus(64 * blockStep, TWO_TO_THE_64);
    }
  }

  /** The position after one call. */
  function Next(processed: nat, size: nat, blockStep: nat): nat
    requires processed <= size
  {
    processed + Min(StepBytes(blockStep), size - processed)
  }

  /** The position after n calls on a fresh stream. */
  function After(size: nat, blockStep: nat, n: nat): (p: nat)
    ensures p <= size
  {
    if n == 0 then 0 else Next(After(size, blockStep, n - 1), size, blockStep)
  }

  lemma {:induction false} AfterIs(size: nat, blockStep: nat, n: nat)
    ensures After(size, blockStep, n) == Min(n * StepBytes(blockStep), size)
  {
    hide StepBytes;
    var step := StepBytes(blockStep);
    if n > 0 {
      AfterIs(size, blockStep, n - 1);
      assert n * step == (n - 1) * step + step;
      assert (n - 1) * step >= 0;
    }
  }

  /** The call that reaches the end of the buffer. */
  predicate Completes(size: nat, blockStep: nat, call: nat) {
    call > 0 && After(size, blockStep, call - 1) < size && After(size, blockStep, call) == size
  }

  /** A step that is not zero in 64-bit arithmetic makes progress on every call up to the ceil(size / step)-th,
      which completes; a step of zero never moves. */
  lemma CompletesOnce(size: nat, blockStep: nat, call: nat)
    requires 0 < size
    ensures Completes(size, blockStep, call) <==>
            StepBytes(blockStep) > 0 && call == CeilDiv(size, StepBytes(blockStep))
    ensures call > 0 && After(size, blockStep, call - 1) < size && StepBytes(blockStep) > 0 ==>
            After(size, blockStep, call - 1) < After(size, blockStep, call)
    ensures StepBytes(blockStep) == 0 ==> After(size, blockStep, call) == 0
  {
    AfterIs(size, blockStep, call);
    hide StepBytes;
    if call > 0 {
      AfterIs(size, blockStep, call - 1);
      if StepBytes(blockStep) > 0 {
        CeilDivIs(size, StepBytes(blockStep), call);
      }
    } else if StepBytes(blockStep) > 0 {
      CeilDivIs(size, StepBytes(blockStep), 1);
      CeilDivPositive(size, StepBytes(blockStep));
    }
  }

  /** Blocks asked for per call, as the caller sees it, with no wrap-around. */
  function AskedBytes(blockStep: nat): nat {
    64 * (if blockStep == 0 then 1 else blockStep)
  }

  /** Whether the completing call is the one a caller would compute from the step. */
  ghost predicate AsAsked(size: nat, blockStep: nat) {
    forall call: nat :: Completes(size, blockStep, call) <==> call == CeilDiv(size, AskedBytes(blockStep))
  }

  lemma AsAskedWhenItFits(size: nat, blockStep: nat)
    requires 0 < size && AskedBytes(blockStep) < TWO_TO_THE_64
    ensures AsAsked(size, blockStep)
  {
    StepIsAsked(blockStep);
    hide StepBytes, AskedBytes, Completes, CeilDiv;
    forall call: nat {
      CompletesOnce(size, blockStep, call);
    }
  }

  lemma AsAskedWhenItWraps(size: nat, blockStep: nat)
    requires 0 < size < TWO_TO_THE_64 <= AskedBytes(blockStep)
    ensures AsAsked(size, blockStep) <==> StepBytes(blockStep) >= size
  {
    var step := StepBytes(blockStep);
    CoveredAtOnce(size, AskedBytes(blockStep));
    if step > 0 {
      CoveredAtOnce(size, step);
    }
    hide StepBytes, AskedBytes, Completes, CeilDiv;
    CompletesOnce(size, blockStep, 1);
    if step >= size {
      forall call: nat {
        CompletesOnce(size, blockStep, call);
      }
    }
  }

  lemma CoveredAtOnce(size: nat, step: nat)
    requires 0 < size && 0 < step
    ensures CeilDiv(size, step) == 1 <==> step >= size
  {
    CeilDivIs(size, step, 1);
    hide CeilDiv;
  }

  /** The stream completes on the call a caller would compute from the step exactly when the step's byte
      count fits 64 bits, or what is left of it after wrapping still covers the buffer. */
  lemma CompletesAsAsked(size: nat, blockStep: nat)
    requires 0 < size < TWO_TO_THE_64
    ensures (forall call: nat :: Completes(size, blockStep, call) <==> call == CeilDiv(size, AskedBytes(blockStep)))
            <==> AskedBytes(blockStep) < TWO_TO_THE_64 || StepBytes(blockStep) >= size
  {
    hide StepBytes, AskedBytes, Completes, CeilDiv;
    if AskedBytes(blockStep) < TWO_TO_THE_64 {
      AsAskedWhenItFits(size, blockStep);
    } else {
      AsAskedWhenItWraps(size, blockStep);
    }
  }

  lemma StepIsAsked(blockStep: nat)
    ensures AskedBytes(blockStep) > 0
    ensures AskedBytes(blockStep) < TWO_TO_THE_64 ==> StepBytes(blockStep) == AskedBytes(blockStep)
  {
  }

  class Sha1Stream {
    const sha: Sha1
    var dataSize: nat
    var processed: nat

    ghost predicate Valid()
      reads this, sha, sha.buffer, sha.digest
    {
      sha.Valid() && processed <= dataSize < TWO_TO_THE_64 &&
      (processed < dataSize ==> |sha.msg| == processed && processed % 64 == 0) &&
      (processed == 0 ==> sha.tailSize == 0 && StateOf(sha.digest) == INITIAL)
    }

    /** The hash state is that of the part of this buffer read so far. */
    ghost predicate Reading(data: seq<Byte>)
      reads this, sha
    {
      |data| == dataSize && (processed < dataSize ==> sha.msg == data[..Min(processed, dataSize)])
    }

    constructor (hardware: bool, size: nat)
      requires size < TWO_TO_THE_64
      ensures Valid() && dataSize == size && processed == 0 && sha.hardware == hardware && sha.exact
      ensures forall data: seq<Byte> | |data| == size :: Reading(data)
      ensures fresh(sha) && fresh(sha.buffer) && fresh(sha.digest)
    {
      sha := new Sha1(hardware);
      dataSize, processed := size, 0;
    }

    /** One step: nothing while bytes remain or once all have been read, the digest text on the last one. Its whole
        blocks go through one transform, on either path. */
    method Advance(data: seq<Byte>, blockStep: nat) returns (r: Option<string>)
      requires Valid() && Reading(data)
      modifies this, sha, sha.buffer, sha.digest
      ensures Valid() && Reading(data) && dataSize == old(dataSize)
      ensures processed == Next(old(processed), dataSize, blockStep)
      ensures r.Some? <==> old(processed) < dataSize == processed
      ensures processed < dataSize ==>
        StateOf(sha.digest) ==
        Transformed(sha.hardware, old(StateOf(sha.digest)), Whole(data[old(processed)..processed]))
      ensures r.Some? ==>
        r.value ==
        Hex(Absorb(Transformed(sha.hardware, old(StateOf(sha.digest)), Whole(data[old(processed)..processed])),
                   PadTail(data)))
      ensures old(sha.exact) && (sha.hardware || processed - old(processed) < 128) ==>
              sha.exact && (r.Some? ==> r.value == HexDigest(data))
    {
      hide HexDigest, StepBytes, Holds, Absorb, StateOf, Fed, Transformed, PadTail, Hex, Whole;
      if processed >= dataSize {
        return None;
      }
      var length := Min(StepBytes(blockStep), dataSize - processed);
      ghost var part := data[processed..processed + length];
      assert data[..processed] + part == data[..processed + length];
      sha.MessageTail();
      FedFresh(sha.hardware, StateOf(sha.digest), part);
      assert sha.buffer[..sha.tailSize] == [];
      sha.Update(data[processed..processed + length]);
      processed := processed + length;
      if processed >= dataSize {
        assert data[..processed] == data;
        var text := sha.Final();
        return Some(text);
      } else {
        sha.MessageTail();
        return None;
      }
    }

    method Reset()
      requires Valid()
      modifies this, sha, sha.buffer, sha.digest
      ensures Valid() && processed == 0 && dataSize == old(dataSize) && sha.exact
      ensures forall data: seq<Byte> | |data| == dataSize :: Reading(data)
    {
      processed := 0;
      sha.Reset();
    }

    method Setup(size: nat)
      requires Valid() && size < TWO_TO_THE_64
      modifies this, sha, sha.buffer, sha.digest
      ensures Valid() && processed == 0 && dataSize == size && sha.exact
      ensures forall data: seq<Byte> | |data| == size :: Reading(data)
    {
      dataSize := size;
      processed := 0;
      sha.Reset();
    }
  }

  /** The digest words of a fresh stream after n calls, all transforms included. */
  function StreamState(hardware: bool, data: seq<Byte>, blockStep: nat, n: nat): State {
    if n == 0 then INITIAL
    else
      var from, to := After(|data|, blockStep, n - 1), After(|data|, blockStep, n);
      AfterGrows(|data|, blockStep, n);
      Transformed(hardware, StreamState(hardware, data, blockStep, n - 1), Whole(data[from..to]))
  }

  lemma BlocksAdd(a: nat, b: nat)
    ensures a % 64 == 0 && b % 64 == 0 ==> (a + b) % 64 == 0
  {
  }

  lemma AfterGrows(size: nat, blockStep: nat, n: nat)
    ensures n > 0 ==> After(size, blockStep, n - 1) <= After(size, blockStep, n)
    ensures After(size, blockStep, n) == size || After(size, blockStep, n) % 64 == 0
  {
    hide StepBytes;
    if n > 0 {
      AfterGrows(size, blockStep, n - 1);
      BlocksAdd(After(size, blockStep, n - 1), StepBytes(blockStep));
    }
  }

  /** The text a stream returns in the end. */
  function StreamResult(hardware: bool, data: seq<Byte>, blockStep: nat): string
    requires StepBytes(blockStep) > 0
  {
    Hex(Absorb(StreamState(hardware, data, blockStep, CeilDiv(|data|, StepBytes(blockStep))), PadTail(data)))
  }

  lemma PartIsExact(hardware: bool, data: seq<Byte>, from: nat, to: nat)
    requires from <= to <= |data| && (from == to || from % 64 == 0) && (hardware || to - from < 128)
    ensures Transformed(hardware, Absorb(INITIAL, Whole(data[..from])), Whole(data[from..to])) ==
            Absorb(INITIAL, Whole(data[..to]))
  {
    hide Transformed, Absorb;
    var part := data[from..to];
    assert data[..to] == data[..from] + part;
    TransformIsExact(hardware, Absorb(INITIAL, Whole(data[..from])), Whole(part));
    if from == to {
      assert Whole(part) == [];
      AbsorbNothing(Absorb(INITIAL, Whole(data[..from])));
    } else {
      WholeOfBoth(data[..from], part);
      AbsorbConcat(INITIAL, data[..from], Whole(part));
    }
    hide Whole;
  }

  /** As long as no call hands two blocks to one transform, the words are those of the bytes read. */
  lemma {:induction false} StreamIsExact(hardware: bool, data: seq<Byte>, blockStep: nat, n: nat)
    requires hardware || StepBytes(blockStep) < 128 || |data| < 128
    ensures StreamState(hardware, data, blockStep, n) == Absorb(INITIAL, Whole(data[..After(|data|, blockStep, n)]))
  {
    hide StepBytes, Transformed, Absorb, Whole, After;
    if n == 0 {
      FirstPosition(|data|, blockStep);
      WholeOfNothing();
    } else {
      StreamIsExact(hardware, data, blockStep, n - 1);
      CallCompletes(|data|, blockStep, n - 1);
      AfterGrows(|data|, blockStep, n - 1);
      PartIsExact(hardware, data, After(|data|, blockStep, n - 1), After(|data|, blockStep, n));
    }
  }

  lemma WholeOfNothing()
    ensures Absorb(INITIAL, Whole([])) == INITIAL
  {
    assert Whole([]) == [];
  }

  lemma AbsorbNothing(s: State)
    ensures Absorb(s, []) == s
  {
  }

  lemma AfterLast(size: nat, blockStep: nat)
    requires StepBytes(blockStep) > 0 && size > 0
    ensures After(size, blockStep, CeilDiv(size, StepBytes(blockStep))) == size
  {
    CompletesOnce(size, blockStep, CeilDiv(size, StepBytes(blockStep)));
    hide StepBytes, After, CeilDiv;
  }

  /** Streaming is right with hardware support, and without it for steps of one block or buffers below two. */
  lemma StreamIsDigest(hardware: bool, data: seq<Byte>, blockStep: nat)
    requires StepBytes(blockStep) > 0 && data != []
    requires hardware || StepBytes(blockStep) < 128 || |data| < 128
    ensures StreamResult(hardware, data, blockStep) == HexDigest(data)
  {
    var n := CeilDiv(|data|, StepBytes(blockStep));
    AfterLast(|data|, blockStep);
    StreamIsExact(hardware, data, blockStep, n);
    assert data[..|data|] == data;
    DigestByTail(data);
    hide StepBytes, After, CeilDiv, Absorb, Hex, PadTail, Whole, Digest, StreamState;
  }

  lemma OneCall(size: nat, blockStep: nat)
    requires size > 0 && StepBytes(blockStep) >= size
    ensures CeilDiv(size, StepBytes(blockStep)) == 1
    ensures After(size, blockStep, 0) == 0 && After(size, blockStep, 1) == size
  {
    CeilDivIs(size, StepBytes(blockStep), 1);
    AfterIs(size, blockStep, 0);
    AfterIs(size, blockStep, 1);
    hide StepBytes, CeilDiv, After;
  }

  /** A stream whose step covers the buffer is one-shot hashing. */
  lemma OneCallResult(hardware: bool, data: seq<Byte>, blockStep: nat)
    requires data != [] && StepBytes(blockStep) >= |data|
    ensures StreamResult(hardware, data, blockStep) == FromResult(hardware, data)
  {
    OneCall(|data|, blockStep);
    FirstState(hardware, data, blockStep);
    NextState(hardware, data, blockStep, 0);
    assert data[0..|data|] == data;
    hide StepBytes, CeilDiv, After, StreamState, Absorb, Hex, PadTail, Whole, Transformed;
  }

  lemma SecondCall(size: nat, blockStep: nat)
    requires 0 < StepBytes(blockStep) < size < StepBytes(blockStep) + 64
    ensures CeilDiv(size, StepBytes(blockStep)) == 2
    ensures After(size, blockStep, 1) == StepBytes(blockStep) && After(size, blockStep, 2) == size
  {
    CeilDivIs(size, StepBytes(blockStep), 2);
    AfterIs(size, blockStep, 1);
    AfterIs(size, blockStep, 2);
    hide StepBytes, CeilDiv, After;
  }

  lemma RestHasNoBlock(data: seq<Byte>, step: nat)
    requires step <= |data| < step + 64 && step % 64 == 0
    ensures Whole(data[0..step]) == Whole(data) && Whole(data[step..|data|]) == []
  {
    assert |data| % 64 == |data| - step;
  }

  /** Streaming returns what one-shot hashing returns, with hardware support always, and without it when the first
      call takes all whole blocks. */
  lemma StreamIsFrom(hardware: bool, data: seq<Byte>, blockStep: nat)
    requires StepBytes(blockStep) > 0 && data != []
    requires hardware || |data| < StepBytes(blockStep) + 64
    ensures StreamResult(hardware, data, blockStep) == FromResult(hardware, data)
  {
    if hardware {
      hide StreamResult, FromResult, StepBytes;
      StreamIsDigest(hardware, data, blockStep);
      FromIsDigest(hardware, data);
    } else if |data| <= StepBytes(blockStep) {
      OneCallResult(hardware, data, blockStep);
    } else {
      hide StepBytes, CeilDiv, After, StreamState, Absorb, Hex, PadTail, Whole, Transformed;
      FirstPosition(|data|, blockStep);
      SecondCall(|data|, blockStep);
      FirstState(hardware, data, blockStep);
      NextState(hardware, data, blockStep, 0);
      NextState(hardware, data, blockStep, 1);
      RestHasNoBlock(data, StepBytes(blockStep));
      TransformedNothing(hardware, StreamState(hardware, data, blockStep, 1));
    }
  }

  /** The step is zero bytes exactly for the positive multiples of 2^58 blocks. */
  lemma StepIsZeroExactly(blockStep: nat)
    ensures StepBytes(blockStep) == 0 <==> blockStep > 0 && blockStep % 0x400_0000_0000_0000 == 0
  {
    var q, r := blockStep / 0x400_0000_0000_0000, blockStep % 0x400_0000_0000_0000;
    assert 64 * blockStep == q * TWO_TO_THE_64 + 64 * r;
    DivUnique(64 * blockStep, q, 64 * r, TWO_TO_THE_64);
  }

  /** A buffer hashed by repeated calls: exactly the ceil(size / step)-th call returns a text, and a step of zero bytes
      never returns anything. The text is stated for either path; it is that of the digest of the whole buffer when
      the transforms are exact. */
  method AdvanceRepeatedly(hardware: bool, data: seq<Byte>, blockStep: nat, calls: nat)
    returns (results: seq<Option<string>>)
    requires 0 < |data| < TWO_TO_THE_64
    ensures |results| == calls
    ensures forall n: nat | n < calls ::
      results[n].Some? <==> StepBytes(blockStep) > 0 && n + 1 == CeilDiv(|data|, StepBytes(blockStep))
    ensures StepBytes(blockStep) > 0 ==>
      forall n: nat | n < calls && results[n].Some? :: results[n].value == StreamResult(hardware, data, blockStep)
    ensures hardware || StepBytes(blockStep) < 128 || |data| < 128 ==>
      forall n: nat | n < calls && results[n].Some? :: results[n].value == HexDigest(data)
  {
    hide HexDigest, StepBytes, CeilDiv, Holds, Absorb, StateOf, Transformed, PadTail, Hex, Whole, After, StreamState,
         StreamResult, Completes;
    FirstPosition(|data|, blockStep);
    FirstState(hardware, data, blockStep);
    var stream := new Sha1Stream(hardware, |data|);
    results := [];
    for n := 0 to calls
      invariant |results| == n && stream.Valid() && stream.Reading(data) && stream.dataSize == |data|
      invariant stream.sha.hardware == hardware && stream.processed == After(|data|, blockStep, n)
      invariant fresh(stream) && fresh(stream.sha) && fresh(stream.sha.buffer) && fresh(stream.sha.digest)
      invariant stream.processed < |data| ==> StateOf(stream.sha.digest) == StreamState(hardware, data, blockStep, n)
      invariant forall i: nat | i < n :: results[i].Some? <==> Completes(|data|, blockStep, i + 1)
      invariant forall i: nat | i < n && results[i].Some? ::
        results[i].value == Hex(Absorb(StreamState(hardware, data, blockStep, i + 1), PadTail(data)))
    {
      CallCompletes(|data|, blockStep, n);
      NextState(hardware, data, blockStep, n);
      var r := stream.Advance(data, blockStep);
      results := results + [r];
    }
    forall n: nat | n < calls
      ensures results[n].Some? <==> StepBytes(blockStep) > 0 && n + 1 == CeilDiv(|data|, StepBytes(blockStep))
      ensures results[n].Some? ==> results[n].value == StreamResult(hardware, data, blockStep)
    {
      CompletesOnce(|data|, blockStep, n + 1);
      if results[n].Some? {
        ResultOfCall(hardware, data, blockStep, n + 1);
      }
    }
    if StepBytes(blockStep) > 0 && (hardware || StepBytes(blockStep) < 128 || |data| < 128) {
      StreamIsDigest(hardware, data, blockStep);
    }
  }

  lemma FirstPosition(size: nat, blockStep: nat)
    ensures After(size, blockStep, 0) == 0
  {
  }

  lemma FirstState(hardware: bool, data: seq<Byte>, blockStep: nat)
    ensures StreamState(hardware, data, blockStep, 0) == INITIAL
  {
  }

  lemma CallCompletes(size: nat, blockStep: nat, n: nat)
    ensures After(size, blockStep, n + 1) == Next(After(size, blockStep, n), size, blockStep)
    ensures Completes(size, blockStep, n + 1) <==> After(size, blockStep, n) < size == After(size, blockStep, n + 1)
  {
    hide StepBytes;
  }

  lemma NextState(hardware: bool, data: seq<Byte>, blockStep: nat, n: nat)
    ensures After(|data|, blockStep, n) <= After(|data|, blockStep, n + 1)
    ensures StreamState(hardware, data, blockStep, n + 1) ==
            Transformed(hardware, StreamState(hardware, data, blockStep, n),
                        Whole(data[After(|data|, blockStep, n)..After(|data|, blockStep, n + 1)]))
  {
    AfterGrows(|data|, blockStep, n + 1);
    hide StepBytes, Transformed, Whole, After;
  }

  lemma ResultOfCall(hardware: bool, data: seq<Byte>, blockStep: nat, n: nat)
    requires StepBytes(blockStep) > 0 && n == CeilDiv(|data|, StepBytes(blockStep))
    ensures StreamResult(hardware, data, blockStep) ==
            Hex(Absorb(StreamState(hardware, data, blockStep, n), PadTail(data)))
  {
    hide Absorb, StreamState, Hex, PadTail, StepBytes, CeilDiv;
  }
}
