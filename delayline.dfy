/**
 * The system23 feedback delay line (`delayline.c`): a ring of `size`
 * `fract32` samples in SDRAM and a read/write index that walks round it.
 * Each sample period reads the slot under the index, overwrites it with the
 * input plus the scaled delayed sample, steps the index and mixes the dry
 * input with the delayed sample.
 *
 * The fractional multiply `mult_fr1x32x32` is a DSP built-in whose rounding
 * is not part of this model: it is a parameter `mul` of the operations.
 * The saturating add and subtract (`add_fr1x32`, `sub_fr1x32`) clamp to the
 * `fract32` range and are written out.
 */
module DelayLine {
  import opened Common

  const FR32_MAX: int := 0x7fff_ffff
  const FR32_MIN: int := -0x8000_0000

  predicate IsFract32(x: int) {
    FR32_MIN <= x <= FR32_MAX
  }

  /** Clamp a mathematical result to the `fract32` range. */
  function Saturate(x: int): (r: int)
    ensures IsFract32(r)
    ensures IsFract32(x) ==> r == x
    ensures x > FR32_MAX ==> r == FR32_MAX
    ensures x < FR32_MIN ==> r == FR32_MIN
  {
    if x > FR32_MAX then FR32_MAX else if x < FR32_MIN then FR32_MIN else x
  }

  /** `add_fr1x32`: saturating addition. */
  function AddSat(a: int, b: int): (r: int)
    ensures IsFract32(r)
    ensures IsFract32(a + b) ==> r == a + b
    ensures a + b > FR32_MAX ==> r == FR32_MAX
    ensures a + b < FR32_MIN ==> r == FR32_MIN
  {
    Saturate(a + b)
  }

  /** `sub_fr1x32`: saturating subtraction. */
  function SubSat(a: int, b: int): (r: int)
    ensures IsFract32(r)
    ensures IsFract32(a - b) ==> r == a - b
    ensures a - b > FR32_MAX ==> r == FR32_MAX
    ensures a - b < FR32_MIN ==> r == FR32_MIN
  {
    Saturate(a - b)
  }

  /**
   * `1 - mix` as `delayline_init` computes it: exact for a mix in [0, 1),
   * clamped to the largest gain for a negative mix.
   */
  lemma DryGain(mix: int)
    requires IsFract32(mix)
    ensures SubSat(FR32_MAX, mix) == if mix < 0 then FR32_MAX else FR32_MAX - mix
    ensures IsFract32(mix) && 0 <= mix ==> SubSat(FR32_MAX, mix) + mix == FR32_MAX
  {
  }

  /**
   * The value stored into the slot: a plain `int` addition, which wraps
   * round on the 32-bit DSP.
   */
  function Feedback(input: int, delayed: int, feedback: int, mul: (int, int) -> int): (w: int)
    ensures IsFract32(w)
    ensures IsFract32(input + mul(delayed, feedback)) ==> w == input + mul(delayed, feedback)
  {
    ToInt32(U32(input + mul(delayed, feedback)))
  }

  /** The ring after one sample period writes `input` at `index`. */
  function Tap(buf: seq<int>, index: nat, input: int, feedback: int, mul: (int, int) -> int): (buf': seq<int>)
    requires index < |buf|
    ensures |buf'| == |buf| && buf'[index] == Feedback(input, buf[index], feedback, mul)
    ensures forall k :: 0 <= k < |buf| && k != index ==> buf'[k] == buf[k]
  {
    buf[index := Feedback(input, buf[index], feedback, mul)]
  }

  /** The index after one sample period. */
  function Advance(index: nat, size: nat): (next: nat)
    requires index < size
    ensures next < size
    ensures next == if index + 1 == size then 0 else index + 1
  {
    (index + 1) % size
  }

  /** The ring and its index. */
  datatype Ring = Ring(buf: seq<int>, index: nat)

  /** The ring after one sample period per input, in order. */
  function Run(r: Ring, size: nat, feedback: int, mul: (int, int) -> int, inputs: seq<int>): (r': Ring)
    requires r.index < size <= |r.buf|
    ensures |r'.buf| == |r.buf| && r'.index < size
    decreases |inputs|
  {
    if inputs == [] then r
    else Run(Ring(Tap(r.buf, r.index, inputs[0], feedback, mul), Advance(r.index, size)), size, feedback, mul, inputs[1..])
  }

  /**
   * Running two input runs in turn is running their concatenation, so the
   * single periods of successive `Process` calls add up to one `Run`.
   */
  lemma {:induction false} RunAppend(r: Ring, size: nat, feedback: int, mul: (int, int) -> int, a: seq<int>, b: seq<int>)
    requires r.index < size <= |r.buf|
    ensures Run(r, size, feedback, mul, a + b) == Run(Run(r, size, feedback, mul, a), size, feedback, mul, b)
    decreases |a|
  {
    if a == [] {
      assert a + b == b;
    } else {
      var next := Ring(Tap(r.buf, r.index, a[0], feedback, mul), Advance(r.index, size));
      assert (a + b)[0] == a[0] && (a + b)[1..] == a[1..] + b;
      RunAppend(next, size, feedback, mul, a[1..], b);
    }
  }

  /** The slot j periods after slot i. */
  function Slot(i: nat, j: nat, n: nat): (s: nat)
    requires n > 0
    ensures s < n
    ensures i + j < n ==> s == i + j
  {
    (i + j) % n
  }

  /** Stepping past a whole turn changes nothing modulo the size. */
  lemma ModShift(i: nat, j: nat, n: nat)
    requires n > 0
    ensures Slot((i + 1) % n, j, n) == Slot(i, j + 1, n)
  {
    var x := (i + 1) % n + j;
    DivAddMultiple(x, n, (i + 1) / n);
  }

  /** After k sample periods the index has moved k slots round the ring. */
  lemma {:induction false} RunIndex(r: Ring, size: nat, feedback: int, mul: (int, int) -> int, inputs: seq<int>)
    requires r.index < size <= |r.buf|
    ensures Run(r, size, feedback, mul, inputs).index == Slot(r.index, |inputs|, size)
    decreases |inputs|
  {
    if inputs == [] {
      DivUnique(r.index, size, 0, r.index);
    } else {
      var next := Ring(Tap(r.buf, r.index, inputs[0], feedback, mul), Advance(r.index, size));
      assert Run(r, size, feedback, mul, inputs) == Run(next, size, feedback, mul, inputs[1..]);
      RunIndex(next, size, feedback, mul, inputs[1..]);
      ModShift(r.index, |inputs| - 1, size);
    }
  }

  /** A slot the index does not pass over keeps its sample. */
  lemma {:induction false} RunUntouched(r: Ring, size: nat, feedback: int, mul: (int, int) -> int, inputs: seq<int>, slot: nat)
    requires r.index < size <= |r.buf| && slot < |r.buf|
    requires forall j :: 0 <= j < |inputs| ==> Slot(r.index, j, size) != slot
    ensures Run(r, size, feedback, mul, inputs).buf[slot] == r.buf[slot]
    decreases |inputs|
  {
    if inputs != [] {
      assert Slot(r.index, 0, size) != slot;
      var next := Ring(Tap(r.buf, r.index, inputs[0], feedback, mul), Advance(r.index, size));
      forall j | 0 <= j < |inputs| - 1
        ensures Slot(next.index, j, size) != slot
      {
        ModShift(r.index, j, size);
        assert Slot(r.index, j + 1, size) != slot;
      }
      assert Run(r, size, feedback, mul, inputs) == Run(next, size, feedback, mul, inputs[1..]);
      RunUntouched(next, size, feedback, mul, inputs[1..], slot);
    }
  }

  /** Moving fewer than a whole turn never comes back to the start. */
  lemma NotBackYet(i: nat, d: nat, n: nat)
    requires i < n && 0 < d < n
    ensures (i + d) % n != i
  {
    if i + d < n {
      DivUnique(i + d, n, 0, i + d);
    } else {
      DivUnique(i + d, n, 1, i + d - n);
    }
  }

  /**
   * The delay is exactly `size` sample periods: after `size` periods the
   * index is back at the slot the first one wrote, and that slot still holds
   * what was written there, so the next period reads it as its delayed sample.
   */
  lemma ReadBackAfterSize(r: Ring, size: nat, feedback: int, mul: (int, int) -> int, inputs: seq<int>)
    requires r.index < size <= |r.buf| && |inputs| == size
    ensures Run(r, size, feedback, mul, inputs).index == r.index
    ensures Run(r, size, feedback, mul, inputs).buf[r.index] == Feedback(inputs[0], r.buf[r.index], feedback, mul)
  {
    RunIndex(r, size, feedback, mul, inputs);
    DivUnique(r.index + size, size, 1, r.index);
    assert Slot(r.index, size, size) == r.index;
    var next := Ring(Tap(r.buf, r.index, inputs[0], feedback, mul), Advance(r.index, size));
    forall j | 0 <= j < |inputs| - 1
      ensures Slot(next.index, j, size) != r.index
    {
      ModShift(r.index, j, size);
      NotBackYet(r.index, j + 1, size);
    }
    assert Run(r, size, feedback, mul, inputs) == Run(next, size, feedback, mul, inputs[1..]);
    RunUntouched(next, size, feedback, mul, inputs[1..], r.index);
  }

  /** `t_delayline`. */
  class Delay {
    /** The SDRAM region the ring lives in. */
    const buffer: array<int>
    var index: nat
    var size: nat
    var feedback: int
    var mix: int
    var oneMinusMix: int

    /** The index stays inside the ring and the ring inside the memory. */
    predicate Valid()
      reads this
    {
      index < size <= buffer.Length
    }

    /**
     * `delayline_init`: clears the first `samples` slots of the memory,
     * starts at slot 0 and derives the dry gain from the mix.
     */
    constructor (sdram: array<int>, samples: nat, feedback: int, mix: int)
      requires samples <= sdram.Length
      modifies sdram
      ensures buffer == sdram && index == 0 && size == samples
      ensures this.feedback == feedback && this.mix == mix
      ensures oneMinusMix == SubSat(FR32_MAX, mix)
      ensures forall k :: 0 <= k < samples ==> buffer[k] == 0
      ensures forall k :: samples <= k < sdram.Length ==> buffer[k] == old(sdram[k])
      ensures samples > 0 ==> Valid()
    {
      buffer := sdram;
      index := 0;
      size := samples;
      this.feedback := feedback;
      this.mix := mix;
      oneMinusMix := SubSat(FR32_MAX, mix);
      new;
      forall k | 0 <= k < samples {
        sdram[k] := 0;
      }
    }

    /** The ring as a value: the first `size` slots and the index. */
    function Contents(): Ring
      reads this, buffer
      requires Valid()
    {
      Ring(buffer[..size], index)
    }

    /**
     * `delayline_process`: the output mixes the input with the sample read
     * before that slot is overwritten; the ring advances by one period.
     */
    method Process(input: int, mul: (int, int) -> int) returns (output: int)
      requires Valid()
      modifies this, buffer
      ensures Valid() && size == old(size) && feedback == old(feedback)
      ensures mix == old(mix) && oneMinusMix == old(oneMinusMix)
      ensures buffer[..] == Tap(old(buffer[..]), old(index), input, feedback, mul)
      ensures index == Advance(old(index), size)
      ensures Contents() == Run(old(Contents()), size, feedback, mul, [input])
      ensures output == AddSat(mul(input, oneMinusMix), mul(old(buffer[index]), mix))
    {
      var delayed := buffer[index];
      buffer[index] := Feedback(input, delayed, feedback, mul);
      index := (index + 1) % size;
      output := AddSat(mul(input, oneMinusMix), mul(delayed, mix));
      assert [input][1..] == [];
    }
  }
}
