/** `getGpioSuffix` (src/image_utils.cpp): the digital I/O state of an image
    as `_<out>_<in>`, one '0'/'1' per output line and per input line. */
module Gpio {

  /** An unsigned 32-bit protobuf field. */
  type Mask = m: int | 0 <= m < 0x1_0000_0000

  /** The three 32-bit masks of an image's GPIO message. */
  datatype Gpios = Gpios(outputs: Mask, inputs: Mask, values: Mask)

  const LineCount: nat := 32

  /** `(m >> i) & 0x1`: bit i of m. */
  predicate Bit(m: nat, i: nat) {
    if i == 0 then m % 2 == 1 else Bit(m / 2, i - 1)
  }

  /** Line i is set in the mask. */
  predicate LineSet(mask: Mask, i: nat)
    requires i < LineCount
  {
    Bit(mask, i)
  }

  /** `std::to_string((values >> i) & 0x1)`. */
  function LineDigit(values: Mask, i: nat): char
    requires i < LineCount
  {
    if LineSet(values, i) then '1' else '0'
  }

  /** Reference: the lines below `hi` set in `mask`, highest first. */
  function SetLines(mask: Mask, hi: nat): (ls: seq<nat>)
    requires hi <= LineCount
    ensures forall j :: 0 <= j < |ls| ==> ls[j] < hi && LineSet(mask, ls[j])
    ensures forall j, k :: 0 <= j < k < |ls| ==> ls[j] > ls[k]
    ensures forall i :: 0 <= i < hi && LineSet(mask, i) ==> i in ls
  {
    if hi == 0 then []
    else if LineSet(mask, hi - 1) then [hi - 1] + SetLines(mask, hi - 1)
    else SetLines(mask, hi - 1)
  }

  /** The number of lines set in a mask. */
  ghost function PopCount(mask: Mask): nat {
    |set i: nat | i < LineCount && LineSet(mask, i)|
  }

  /** The scan of the loop `for (i = 31; i >= 0; i--)` restricted to lines
      below `hi`: one digit of `values` for each line set in `mask`. */
  function Scan(mask: Mask, values: Mask, hi: nat): (s: string)
    requires hi <= LineCount
    ensures |s| == |SetLines(mask, hi)|
    ensures forall j :: 0 <= j < |s| ==> s[j] == LineDigit(values, SetLines(mask, hi)[j])
  {
    if hi == 0 then ""
    else
      var rest := Scan(mask, values, hi - 1);
      if LineSet(mask, hi - 1) then
        assert SetLines(mask, hi) == [hi - 1] + SetLines(mask, hi - 1);
        [LineDigit(values, hi - 1)] + rest
      else
        rest
  }

  /** `getGpioSuffix(image)`: the j-th output digit is the value of the j-th
      highest output line, and the inputs follow the second underscore in
      the same way. */
  function GpioSuffix(g: Gpios): (r: string)
    ensures var outs := SetLines(g.outputs, LineCount);
            var ins := SetLines(g.inputs, LineCount);
            && |r| == 2 + |outs| + |ins|
            && r[0] == '_' && r[1 + |outs|] == '_'
            && (forall j :: 0 <= j < |outs| ==> r[1 + j] == LineDigit(g.values, outs[j]))
            && (forall j :: 0 <= j < |ins| ==> r[2 + |outs| + j] == LineDigit(g.values, ins[j]))
  {
    "_" + Scan(g.outputs, g.values, LineCount) + "_" + Scan(g.inputs, g.values, LineCount)
  }

  /** The lines set below `hi`, as a set. */
  ghost function SetBelow(mask: Mask, hi: nat): set<nat>
    requires hi <= LineCount
  {
    set i: nat | i < hi && LineSet(mask, i)
  }

  lemma SetBelowStep(mask: Mask, hi: nat)
    requires 0 < hi <= LineCount
    ensures SetBelow(mask, hi) == SetBelow(mask, hi - 1) + (if LineSet(mask, hi - 1) then {hi - 1} else {})
    ensures hi - 1 !in SetBelow(mask, hi - 1)
  {
  }

  lemma {:induction false} SetLinesCount(mask: Mask, hi: nat)
    requires hi <= LineCount
    ensures |SetLines(mask, hi)| == |SetBelow(mask, hi)|
  {
    if hi > 0 {
      SetLinesCount(mask, hi - 1);
      SetBelowStep(mask, hi);
    } else {
      assert SetBelow(mask, 0) == {};
    }
  }

  /** The reference list holds as many lines as the mask has bits set. */
  lemma PopCountIsSetLines(mask: Mask)
    ensures |SetLines(mask, LineCount)| == PopCount(mask)
  {
    SetLinesCount(mask, LineCount);
    assert SetBelow(mask, LineCount) == set i: nat | i < LineCount && LineSet(mask, i);
  }

  /** Every character between and after the underscores is a digit '0' or '1'. */
  lemma SuffixDigitsBinary(g: Gpios)
    ensures var r := GpioSuffix(g);
            var n := |SetLines(g.outputs, LineCount)|;
            forall j :: 0 < j < |r| && j != 1 + n ==> r[j] == '0' || r[j] == '1'
  {
    var r := GpioSuffix(g);
    var outs := SetLines(g.outputs, LineCount);
    var ins := SetLines(g.inputs, LineCount);
    forall j | 0 < j < |r| && j != 1 + |outs| ensures r[j] == '0' || r[j] == '1' {
      if j <= |outs| {
        assert r[1 + (j - 1)] == LineDigit(g.values, outs[j - 1]);
      } else {
        assert r[2 + |outs| + (j - 2 - |outs|)] == LineDigit(g.values, ins[j - 2 - |outs|]);
      }
    }
  }

  /** The suffix has one digit per set output line and one per set input
      line, between two underscores, and nothing but '0' and '1' besides them. */
  lemma GpioSuffixShape(g: Gpios)
    ensures var r := GpioSuffix(g);
            && |r| == 2 + PopCount(g.outputs) + PopCount(g.inputs)
            && r[0] == '_' && r[1 + PopCount(g.outputs)] == '_'
            && forall j :: 0 < j < |r| && j != 1 + PopCount(g.outputs) ==> r[j] == '0' || r[j] == '1'
  {
    PopCountIsSetLines(g.outputs);
    PopCountIsSetLines(g.inputs);
    SuffixDigitsBinary(g);
  }

  lemma BitOfZero(i: nat)
    ensures !Bit(0, i)
  {
  }

  /** No output and no input lines give "__". */
  lemma NoLinesSuffix(values: Mask)
    ensures GpioSuffix(Gpios(0, 0, values)) == "__"
  {
    forall i | 0 <= i < LineCount ensures !LineSet(0, i) {
      BitOfZero(i);
    }
    SetLinesGap(0, 0, LineCount);
  }

  /** Where line i stands in the reference list of a mask that has it set. */
  lemma PositionOfLine(mask: Mask, i: nat) returns (j: nat)
    requires i < LineCount && LineSet(mask, i)
    ensures j < |SetLines(mask, LineCount)| && SetLines(mask, LineCount)[j] == i
  {
    var ls := SetLines(mask, LineCount);
    assert i in ls;
    j :| 0 <= j < |ls| && ls[j] == i;
  }

  /** A line configured both as output and as input shows its value in both
      parts: at position j of the output digits and k of the input digits. */
  lemma LineInBothParts(g: Gpios, i: nat) returns (j: nat, k: nat)
    requires i < LineCount && LineSet(g.outputs, i) && LineSet(g.inputs, i)
    ensures j < |SetLines(g.outputs, LineCount)| && SetLines(g.outputs, LineCount)[j] == i
    ensures k < |SetLines(g.inputs, LineCount)| && SetLines(g.inputs, LineCount)[k] == i
    ensures GpioSuffix(g)[1 + j] == LineDigit(g.values, i)
    ensures GpioSuffix(g)[2 + |SetLines(g.outputs, LineCount)| + k] == LineDigit(g.values, i)
  {
    j := PositionOfLine(g.outputs, i);
    k := PositionOfLine(g.inputs, i);
  }

  /** Lines in [lo, hi) that are not set add nothing to the reference list. */
  lemma {:induction false} SetLinesGap(mask: Mask, lo: nat, hi: nat)
    requires lo <= hi <= LineCount
    requires forall i :: lo <= i < hi ==> !LineSet(mask, i)
    ensures SetLines(mask, hi) == SetLines(mask, lo)
    decreases hi
  {
    if lo < hi {
      SetLinesGap(mask, lo, hi - 1);
    }
  }

  /** A suffix with exactly one output line (0) and one input line (1). */
  lemma SingleLinesSuffix(g: Gpios)
    requires SetLines(g.outputs, LineCount) == [0] && SetLines(g.inputs, LineCount) == [1]
    ensures GpioSuffix(g) == ['_', LineDigit(g.values, 0), '_', LineDigit(g.values, 1)]
  {
    var r := GpioSuffix(g);
    assert r[1 + 0] == LineDigit(g.values, 0);
    assert r[2 + 1 + 0] == LineDigit(g.values, 1);
  }

  lemma LinesOfOne()
    ensures SetLines(1, LineCount) == [0]
  {
    forall i | 1 <= i < LineCount ensures !LineSet(1, i) {
      assert Bit(1, i) == Bit(0, i - 1);
      BitOfZero(i - 1);
    }
    SetLinesGap(1, 1, LineCount);
  }

  lemma LinesOfTwo()
    ensures SetLines(2, LineCount) == [1]
  {
    forall i | 2 <= i < LineCount ensures !LineSet(2, i) {
      assert Bit(2, i) == Bit(1, i - 1) == Bit(0, i - 2);
      BitOfZero(i - 2);
    }
    SetLinesGap(2, 2, LineCount);
  }

  /** Output line 0 high, input line 1 low: "_1_0". */
  lemma OneOutOneInSuffix()
    ensures GpioSuffix(Gpios(1, 2, 1)) == "_1_0"
  {
    LinesOfOne();
    LinesOfTwo();
    SingleLinesSuffix(Gpios(1, 2, 1));
  }
}
