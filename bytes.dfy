/**
 * Fixed-width integers and the `from_le_bytes` / `from_be_bytes` /
 * `to_le_bytes` / `to_be_bytes` conversions, plus `chunks_exact` grouping of
 * a byte slice into 16- and 32-bit code units. `le` selects the byte order
 * everywhere (the source passes the matching std conversion as a closure).
 */
module Bytes {

  type byte = x: int | 0 <= x < 0x100
  type u16 = x: int | 0 <= x < 0x1_0000
  type u32 = x: int | 0 <= x < 0x1_0000_0000

  function U16From(b0: byte, b1: byte, le: bool): (u: u16)
  {
    if le then b0 + 0x100 * b1 else 0x100 * b0 + b1
  }

  function U16Bytes(u: u16, le: bool): (r: seq<byte>)
    ensures |r| == 2
    ensures U16From(r[0], r[1], le) == u
  {
    if le then [u % 0x100, u / 0x100] else [u / 0x100, u % 0x100]
  }

  lemma U16BytesOfFrom(b0: byte, b1: byte, le: bool)
    ensures U16Bytes(U16From(b0, b1, le), le) == [b0, b1]
  {
    var u := U16From(b0, b1, le);
    if le {
      assert u / 0x100 == b1 && u % 0x100 == b0;
    } else {
      assert u / 0x100 == b0 && u % 0x100 == b1;
    }
  }

  function U32From(b0: byte, b1: byte, b2: byte, b3: byte, le: bool): (u: u32)
  {
    if le then b0 + 0x100 * b1 + 0x1_0000 * b2 + 0x100_0000 * b3
    else 0x100_0000 * b0 + 0x1_0000 * b1 + 0x100 * b2 + b3
  }

  function U32Bytes(u: u32, le: bool): (r: seq<byte>)
    ensures |r| == 4
    ensures U32From(r[0], r[1], r[2], r[3], le) == u
  {
    var b0, b1, b2, b3 := u % 0x100, (u / 0x100) % 0x100, (u / 0x1_0000) % 0x100, u / 0x100_0000;
    Split32(u);
    if le then [b0, b1, b2, b3] else [b3, b2, b1, b0]
  }

  lemma Split32(u: u32)
    ensures u == u % 0x100 + 0x100 * ((u / 0x100) % 0x100)
               + 0x1_0000 * ((u / 0x1_0000) % 0x100) + 0x100_0000 * (u / 0x100_0000)
    ensures u / 0x100_0000 < 0x100
  {
    var q1 := u / 0x100;
    var q2 := q1 / 0x100;
    var q3 := q2 / 0x100;
    assert u == u % 0x100 + 0x100 * q1;
    assert q1 == q1 % 0x100 + 0x100 * q2;
    assert q2 == q2 % 0x100 + 0x100 * q3;
    assert q2 == u / 0x1_0000;
    assert q3 == u / 0x100_0000;
  }

  lemma U32BytesOfFrom(b0: byte, b1: byte, b2: byte, b3: byte, le: bool)
    ensures U32Bytes(U32From(b0, b1, b2, b3, le), le) == [b0, b1, b2, b3]
  {
    var x0, x1, x2, x3 := if le then b0 else b3, if le then b1 else b2, if le then b2 else b1, if le then b3 else b0;
    var u := x0 + 0x100 * x1 + 0x1_0000 * x2 + 0x100_0000 * x3;
    assert U32From(b0, b1, b2, b3, le) == u;
    assert u % 0x100 == x0;
    assert u / 0x100 == x1 + 0x100 * x2 + 0x1_0000 * x3;
    assert (u / 0x100) % 0x100 == x1;
    assert u / 0x1_0000 == x2 + 0x100 * x3;
    assert (u / 0x1_0000) % 0x100 == x2;
    assert u / 0x100_0000 == x3;
  }

  /** `input.chunks_exact(2).map(bytes_to_num)`: the trailing odd byte, if any, is not a unit. */
  function Units16(input: seq<byte>, le: bool): (r: seq<u16>)
    ensures |r| == |input| / 2
    ensures forall i :: 0 <= i < |r| ==> r[i] == U16From(input[2 * i], input[2 * i + 1], le)
  {
    if |input| < 2 then []
    else [U16From(input[0], input[1], le)] + Units16(input[2..], le)
  }

  /** `input.chunks_exact(4).map(bytes_to_num)`: a trailing partial chunk is not a unit. */
  function Units32(input: seq<byte>, le: bool): (r: seq<u32>)
    ensures |r| == |input| / 4
    ensures forall i :: 0 <= i < |r| ==>
      r[i] == U32From(input[4 * i], input[4 * i + 1], input[4 * i + 2], input[4 * i + 3], le)
  {
    if |input| < 4 then []
    else [U32From(input[0], input[1], input[2], input[3], le)] + Units32(input[4..], le)
  }

  /** `units.iter().flat_map(to_xx_bytes)`. */
  function Bytes16(units: seq<u16>, le: bool): (r: seq<byte>)
    ensures |r| == 2 * |units|
  {
    if units == [] then [] else U16Bytes(units[0], le) + Bytes16(units[1..], le)
  }

  function Bytes32(units: seq<u32>, le: bool): (r: seq<byte>)
    ensures |r| == 4 * |units|
  {
    if units == [] then [] else U32Bytes(units[0], le) + Bytes32(units[1..], le)
  }

  lemma {:induction false} Bytes16Append(a: seq<u16>, b: seq<u16>, le: bool)
    ensures Bytes16(a + b, le) == Bytes16(a, le) + Bytes16(b, le)
  {
    if a != [] {
      assert (a + b)[1..] == a[1..] + b;
      Bytes16Append(a[1..], b, le);
      calc {
        Bytes16(a + b, le);
        U16Bytes(a[0], le) + Bytes16(a[1..] + b, le);
        U16Bytes(a[0], le) + (Bytes16(a[1..], le) + Bytes16(b, le));
        (U16Bytes(a[0], le) + Bytes16(a[1..], le)) + Bytes16(b, le);
      }
    } else {
      assert a + b == b;
    }
  }

  lemma {:induction false} Bytes32Append(a: seq<u32>, b: seq<u32>, le: bool)
    ensures Bytes32(a + b, le) == Bytes32(a, le) + Bytes32(b, le)
  {
    if a != [] {
      assert (a + b)[1..] == a[1..] + b;
      Bytes32Append(a[1..], b, le);
      calc {
        Bytes32(a + b, le);
        U32Bytes(a[0], le) + Bytes32(a[1..] + b, le);
        U32Bytes(a[0], le) + (Bytes32(a[1..], le) + Bytes32(b, le));
        (U32Bytes(a[0], le) + Bytes32(a[1..], le)) + Bytes32(b, le);
      }
    } else {
      assert a + b == b;
    }
  }

  /** Serializing units and grouping the bytes again gives back the units. */
  lemma {:induction false} Units16OfBytes16(units: seq<u16>, le: bool)
    ensures Units16(Bytes16(units, le), le) == units
  {
    if units != [] {
      var b := Bytes16(units, le);
      assert b[2..] == Bytes16(units[1..], le);
      Units16OfBytes16(units[1..], le);
    }
  }

  lemma {:induction false} Units32OfBytes32(units: seq<u32>, le: bool)
    ensures Units32(Bytes32(units, le), le) == units
  {
    if units != [] {
      var b := Bytes32(units, le);
      assert b[4..] == Bytes32(units[1..], le);
      Units32OfBytes32(units[1..], le);
    }
  }

  /** After an even number of bytes, grouping restarts on a unit boundary. */
  lemma {:induction false} Units16Append(x: seq<byte>, y: seq<byte>, le: bool)
    requires |x| % 2 == 0
    ensures Units16(x + y, le) == Units16(x, le) + Units16(y, le)
    decreases |x|
  {
    if |x| >= 2 {
      assert (x + y)[2..] == x[2..] + y;
      assert (x + y)[0] == x[0] && (x + y)[1] == x[1];
      Units16Append(x[2..], y, le);
    } else {
      assert x + y == y;
    }
  }

  /** Grouping bytes into units and serializing them again loses only the odd tail byte. */
  lemma {:induction false} Bytes16OfUnits16(input: seq<byte>, le: bool)
    ensures Bytes16(Units16(input, le), le) == input[..|input| / 2 * 2]
  {
    if |input| >= 2 {
      U16BytesOfFrom(input[0], input[1], le);
      Bytes16OfUnits16(input[2..], le);
      assert input[..|input| / 2 * 2] == input[..2] + input[2..][..|input[2..]| / 2 * 2];
    }
  }

  lemma {:induction false} Bytes32OfUnits32(input: seq<byte>, le: bool)
    ensures Bytes32(Units32(input, le), le) == input[..|input| / 4 * 4]
  {
    if |input| >= 4 {
      U32BytesOfFrom(input[0], input[1], input[2], input[3], le);
      Bytes32OfUnits32(input[4..], le);
      assert input[..|input| / 4 * 4] == input[..4] + input[4..][..|input[4..]| / 4 * 4];
    }
  }
}
