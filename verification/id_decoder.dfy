/**
  Turning a finished Wiegand frame into the credential string the door
  lock looks up: the frame minus its trailing bit is read as binary,
  printed with `hex()`, upper-cased, and stripped of "0X" and of the
  leading hexadecimal digit.
 */
module IdDecoder {
  import opened PyBuiltins

  /** The frame with its last bit dropped, as the slice `bit_string[:-1]`. */
  function Payload(bits: seq<BitChar>): seq<BitChar>
    requires |bits| >= 1
  {
    bits[..|bits| - 1]
  }

  /**
    The credential a frame decodes to. `int('', 2)` fails, so at least one
    bit must remain after dropping the last one.

    The contract pins the result down completely (see DecodeIdUnique): it
    is upper-case hexadecimal, it has one digit fewer than the shortest
    numeral for the payload value v, and it denotes v with that leading
    digit removed, i.e. v modulo 16 to its length.
   */
  function DecodeId(bits: seq<BitChar>): (id: string)
    requires |bits| >= 2
    ensures AllUpperHex(id)
    ensures BinValue(Payload(bits)) < Pow16(|id| + 1)
    ensures |id| > 0 ==> Pow16(|id|) <= BinValue(Payload(bits))
    ensures HexValue(id) == BinValue(Payload(bits)) % Pow16(|id|)
    ensures id == "" <==> BinValue(Payload(bits)) < 16
  {
    var v := BinValue(Payload(bits));
    var printed := Upper(Hex(v));
    DecodedDigits(v);
    printed[3..]
  }

  /** `hex(v).upper()[3:]` is the shortest upper-case numeral for v minus its first digit. */
  lemma DecodedDigits(v: nat)
    ensures var id := Upper(Hex(v))[3..];
      && AllUpperHex(id)
      && v < Pow16(|id| + 1)
      && (|id| > 0 ==> Pow16(|id|) <= v)
      && HexValue(id) == v % Pow16(|id|)
      && (id == "" <==> v < 16)
  {
    var u := Upper(LowerHexDigits(v));
    UpperConcat("0x", LowerHexDigits(v));
    assert Upper("0x") == "0X";
    assert Upper(Hex(v)) == "0X" + u;
    var id := Upper(Hex(v))[3..];
    assert id == u[1..];
    UpperHexDigits(v);
    HexValueLeading(u);
    HexValueBound(id);
    ModOfDecomposition(v, DigitValue(u[0]), Pow16(|id|), HexValue(id));
  }

  /** The trailing bit of a frame never influences the credential. */
  lemma DecodeIgnoresLastBit(bits: seq<BitChar>, other: seq<BitChar>)
    requires |bits| >= 2 && |other| == |bits|
    requires Payload(bits) == Payload(other)
    ensures DecodeId(bits) == DecodeId(other)
  {
  }

  lemma {:induction false} HexValueInjective(a: string, b: string)
    requires AllUpperHex(a) && AllUpperHex(b) && |a| == |b|
    requires HexValue(a) == HexValue(b)
    ensures a == b
  {
    if |a| > 0 {
      var pa, pb := a[..|a| - 1], b[..|b| - 1];
      HexValueBound(pa);
      HexValueBound(pb);
      DigitsAgree(HexValue(pa), HexValue(pb), DigitValue(a[|a| - 1]), DigitValue(b[|b| - 1]));
      HexValueInjective(pa, pb);
      assert DigitValue(a[|a| - 1]) == DigitValue(b[|b| - 1]);
      assert a == pa + [a[|a| - 1]] && b == pb + [b[|b| - 1]];
    }
  }

  lemma DigitsAgree(x: nat, y: nat, c: nat, d: nat)
    requires c < 16 && d < 16 && 16 * x + c == 16 * y + d
    ensures x == y && c == d
  {
  }

  lemma {:induction false} Pow16Monotone(m: nat, n: nat)
    requires m < n
    ensures Pow16(m + 1) <= Pow16(n)
    decreases n
  {
    if m + 1 < n {
      Pow16Monotone(m, n - 1);
    }
  }

  /**
    The contract of DecodeId admits exactly one string, so it is a complete
    reference description of `hex(int(bits[:-1], 2)).upper()[3:]`.
   */
  lemma DecodeIdUnique(bits: seq<BitChar>, id: string)
    requires |bits| >= 2
    requires AllUpperHex(id)
    requires BinValue(Payload(bits)) < Pow16(|id| + 1)
    requires |id| > 0 ==> Pow16(|id|) <= BinValue(Payload(bits))
    requires HexValue(id) == BinValue(Payload(bits)) % Pow16(|id|)
    requires id == "" <==> BinValue(Payload(bits)) < 16
    ensures id == DecodeId(bits)
  {
    var v := BinValue(Payload(bits));
    var d := DecodeId(bits);
    if |id| < |d| {
      Pow16Monotone(|id|, |d|);
      assert false;
    } else if |d| < |id| {
      Pow16Monotone(|d|, |id|);
      assert false;
    }
    HexValueInjective(id, d);
  }
}
