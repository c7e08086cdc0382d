/**
 * The share code of a grid: the armed states packed eight to a byte, most significant bit
 * first, the bytes base64-encoded and the base64 text passed through encodeURIComponent.
 * Both grid classes run the same loops; they are defined here once.
 *
 * The '0'/'1' text the source builds with `toString(2).padStart(8, '0')` and reads back with
 * `parseInt(str, 2)` and `str[i] === '1'` is modelled as a sequence of booleans.
 */
module Savestate {
  import opened Common
  import opened Timeline
  import Base64
  import Uri
  import Util

  /** parseInt(str, 2): the binary value of a bit string, most significant bit first. */
  function ByteValue(bits: seq<bool>): nat
  {
    if bits == [] then 0
    else 2 * ByteValue(bits[..|bits| - 1]) + (if bits[|bits| - 1] then 1 else 0)
  }

  /** k bits have a value below 2^k: eight bits make a byte. */
  lemma {:induction false} ByteValueBound(bits: seq<bool>)
    ensures ByteValue(bits) < Pow2(|bits|)
  {
    if bits != [] {
      ByteValueBound(bits[..|bits| - 1]);
    }
  }

  /** v.toString(2).padStart(k, '0'), read as one boolean per digit. */
  function BinaryDigits(v: nat, k: nat): (d: seq<bool>)
    ensures |d| == k
  {
    if k == 0 then [] else BinaryDigits(v / 2, k - 1) + [v % 2 == 1]
  }

  /** The digits of a bit string's value, padded to its length, are the bit string again. */
  lemma {:induction false} DigitsOfValue(bits: seq<bool>)
    ensures BinaryDigits(ByteValue(bits), |bits|) == bits
  {
    if bits != [] {
      var init := bits[..|bits| - 1];
      var v := ByteValue(bits);
      Util.DivUnique(v, 2, ByteValue(init), if bits[|bits| - 1] then 1 else 0);
      DigitsOfValue(init);
      assert init + [bits[|bits| - 1]] == bits;
    }
  }

  /** Bit k of v, counting from the least significant bit. */
  function Bit(v: nat, k: nat): bool
  {
    (v / Pow2(k)) % 2 == 1
  }

  lemma DivDiv(v: nat, a: nat, b: nat)
    requires a > 0 && b > 0
    ensures v / a / b == v / (a * b)
  {
    var q, r := v / a, v % a;
    var q2, r2 := q / b, q % b;
    assert v == a * q + r;
    assert q == b * q2 + r2;
    MulSpread(a, b, q2, r2);
    assert v == (a * b) * q2 + (a * r2 + r);
    RemainderBelowProduct(a, b, r2, r);
    Util.DivUnique(v, a * b, q2, a * r2 + r);
  }

  lemma MulSpread(a: int, b: int, q: int, r: int)
    ensures a * (b * q + r) == (a * b) * q + a * r
  {
  }

  lemma RemainderBelowProduct(a: nat, b: nat, r2: nat, r: nat)
    requires r2 < b && r < a
    ensures a * r2 + r < a * b
  {
    assert a * r2 <= a * (b - 1);
  }

  /** Digit j of the k-digit binary text of v is bit k-1-j of v: the most significant comes first. */
  lemma {:induction false} DigitIsBit(v: nat, k: nat, j: nat)
    requires j < k
    ensures BinaryDigits(v, k)[j] == Bit(v, k - 1 - j)
  {
    if j == k - 1 {
      assert Pow2(0) == 1;
    } else {
      DigitIsBit(v / 2, k - 1, j);
      var m := k - 2 - j;
      DivDiv(v, 2, Pow2(m));
      assert Pow2(m + 1) == 2 * Pow2(m);
    }
  }

  /** The eight bits of one byte, the first as the most significant bit. */
  function PackByte(bits: seq<bool>): (b: byte)
    requires |bits| == 8
    ensures forall j :: 0 <= j < 8 ==> Bit(b as nat, 7 - j) == bits[j]
  {
    ByteValueBound(bits);
    assert Pow2(8) == 256;
    DigitsOfValue(bits);
    assert forall j :: 0 <= j < 8 ==> Bit(ByteValue(bits), 7 - j) == bits[j] by {
      forall j | 0 <= j < 8 ensures Bit(ByteValue(bits), 7 - j) == bits[j] {
        DigitIsBit(ByteValue(bits), 8, j);
      }
    }
    ByteValue(bits)
  }

  /** Byte i holds cells 8i .. 8i+7. */
  function PackBits(s: seq<bool>): (bytes: seq<byte>)
    requires |s| % 8 == 0
    ensures |bytes| == |s| / 8
  {
    seq(|s| / 8, i requires 0 <= i < |s| / 8 => PackByte(s[8 * i..8 * i + 8]))
  }

  lemma ChunkInRange(n: nat, i: nat, j: nat)
    requires n % 8 == 0 && i < n / 8 && j < 8
    ensures 8 * i + j < n && 8 * i + 8 <= n
  {
  }

  /** Bit 7-j of byte i is the armed state of cell 8i+j. */
  lemma PackedBitLayout(s: seq<bool>, i: nat, j: nat)
    requires |s| % 8 == 0 && i < |s| / 8 && j < 8
    ensures 8 * i + j < |s|
    ensures Bit(PackBits(s)[i], 7 - j) == s[8 * i + j]
  {
    ChunkInRange(|s|, i, j);
    var chunk := s[8 * i..8 * i + 8];
    assert PackBits(s)[i] == PackByte(chunk);
    assert chunk[j] == s[8 * i + j];
  }

  predicate AnyArmed(s: seq<bool>)
  {
    exists i :: 0 <= i < |s| && s[i]
  }

  lemma BtoaIsAscii(b: seq<byte>)
    ensures Uri.IsAscii(Base64.Btoa(b))
  {
    var q := Base64.Sextets(b);
    var s := Base64.Btoa(b);
    forall i | 0 <= i < |s| ensures s[i] as int < 128 {
      if i < |q| {
        assert s[i] == Base64.CharOf(q[i]);
      } else {
        assert s[i] == Base64.Padding(|b|)[i - |q|];
      }
    }
  }

  /** The share code: empty when no tile is armed, else the escaped base64 of the packed bytes. */
  function ShareCode(s: seq<bool>): string
    requires |s| % 8 == 0
  {
    if !AnyArmed(s) then ""
    else
      BtoaIsAscii(PackBits(s));
      Uri.EncodeURIComponent(Base64.Btoa(PackBits(s)))
  }

  /**
   * The bits fromBase64 reads: cell k takes digit k mod 8 of the 8-digit text of byte k div 8.
   * Past the end of the decoded bytes `charCodeAt` gives NaN, whose text "00000NaN" holds no '1'.
   */
  function Unpack(bin: seq<byte>, n: nat): (s: seq<bool>)
    ensures |s| == n
  {
    seq(n, k requires 0 <= k < n => k / 8 < |bin| && BinaryDigits(bin[k / 8], 8)[k % 8])
  }

  /** The armed states a share code loads, or None where decodeURIComponent or atob throws. */
  function LoadBits(code: string, n: nat): (r: Option<seq<bool>>)
    ensures r.Some? ==> |r.value| == n
  {
    match Uri.DecodeURIComponent(code)
    case None => None
    case Some(text) =>
      match Base64.Atob(text)
      case None => None
      case Some(bin) => Some(Unpack(bin, n))
  }

  lemma UnpackPack(s: seq<bool>)
    requires |s| % 8 == 0
    ensures Unpack(PackBits(s), |s|) == s
  {
    var u := Unpack(PackBits(s), |s|);
    forall k | 0 <= k < |s| ensures u[k] == s[k] {
      var i, j := k / 8, k % 8;
      ChunkInRange(|s|, i, j);
      var chunk := s[8 * i..8 * i + 8];
      DigitsOfValue(chunk);
      assert chunk[j] == s[k];
    }
  }

  /** The empty share code loads an all-unarmed grid. */
  lemma LoadEmptyCode(n: nat)
    ensures LoadBits("", n) == Some(seq(n, k => false))
  {
    assert Uri.DecodeURIComponent("") == Some("");
    assert Base64.StripPadding(Base64.StripWhitespace("")) == "";
    assert Base64.Atob("") == Some([]);
    assert Unpack([], n) == seq(n, k => false);
  }

  /** A share code loads back exactly the armed states it was made from. */
  lemma LoadShareCode(s: seq<bool>)
    requires |s| % 8 == 0
    ensures LoadBits(ShareCode(s), |s|) == Some(s)
  {
    if AnyArmed(s) {
      var b := PackBits(s);
      BtoaIsAscii(b);
      Uri.DecodeEncodeURIComponent(Base64.Btoa(b));
      Base64.AtobBtoa(b);
      UnpackPack(s);
    } else {
      LoadEmptyCode(|s|);
      assert seq(|s|, k => false) == s;
    }
  }

  /** The share code is empty exactly when no tile is armed. */
  lemma ShareCodeEmpty(s: seq<bool>)
    requires |s| % 8 == 0
    ensures ShareCode(s) == "" <==> !AnyArmed(s)
  {
    if AnyArmed(s) {
      var i :| 0 <= i < |s| && s[i];
      assert |PackBits(s)| > 0;
    }
  }

  /** The share code of a grid's cells is empty exactly when no cell holds an event. */
  lemma CellsShareCodeEmpty(data: seq<Cell>)
    requires |data| % 8 == 0
    ensures ShareCode(ArmedStates(data)) == "" <==> forall i :: 0 <= i < |data| ==> !data[i].Armed?
  {
    var s := ArmedStates(data);
    assert forall i :: 0 <= i < |data| ==> s[i] == data[i].Armed?;
    ShareCodeEmpty(s);
  }

  /** A code that is not percent-encoding loads nothing. */
  lemma LoadMalformedCode(n: nat)
    ensures LoadBits("%%%invalid%%%", n) == None
  {
  }

  /** A code of a single base64 character is not base64 and loads nothing. */
  lemma LoadTruncatedCode(n: nat)
    ensures LoadBits("Q", n) == None
  {
    assert "Q"[0] == 'Q' && "Q"[1..] == "";
    assert Uri.DecodeURIComponent("") == Some("");
    assert ['Q'] + "" == "Q";
    assert Uri.DecodeURIComponent("Q") == Some("Q");
    assert Base64.StripWhitespace("Q") == "Q";
  }

  // ---------------------------------------------------------------------------------------
  // The loops of toBase64 and of the first half of fromBase64

  /**
   * toBase64's loops: build the eight-digit text of each byte from the cells, note whether any
   * cell is armed, then encode. Turning the bytes into a binary string is the identity here.
   */
  method EncodeCells(data: seq<Cell>) returns (code: string)
    requires |data| % 8 == 0
    ensures code == ShareCode(ArmedStates(data))
  {
    ghost var s := ArmedStates(data);
    assert forall k :: 0 <= k < |data| ==> s[k] == data[k].Armed?;
    var dataflag := false;
    var bytes: seq<byte> := [];
    var i := 0;
    while i < |data| / 8
      invariant 0 <= i <= |data| / 8
      invariant |bytes| == i
      invariant forall k :: 0 <= k < i ==> bytes[k] == PackBits(s)[k]
      invariant dataflag <==> exists k :: 0 <= k < 8 * i && s[k]
    {
      ChunkInRange(|data|, i, 7);
      var str, armed := ReadChunk(data, i);
      dataflag := dataflag || armed;
      bytes := bytes + [PackByte(str)];
      i := i + 1;
    }
    if !dataflag {
      code := "";
      return;
    }
    assert bytes == PackBits(s);
    BtoaIsAscii(bytes);
    code := Uri.EncodeURIComponent(Base64.Btoa(bytes));
  }

  /** The inner loop of toBase64: the armed states of cells 8i .. 8i+7, and whether any is armed. */
  method ReadChunk(data: seq<Cell>, i: nat) returns (str: seq<bool>, armed: bool)
    requires 8 * i + 8 <= |data|
    ensures str == ArmedStates(data)[8 * i..8 * i + 8]
    ensures armed <==> exists k :: 8 * i <= k < 8 * i + 8 && data[k].Armed?
  {
    ghost var s := ArmedStates(data);
    str := [];
    armed := false;
    var j := 0;
    while j < 8
      invariant 0 <= j <= 8
      invariant str == s[8 * i..8 * i + j]
      invariant armed <==> exists k :: 8 * i <= k < 8 * i + j && data[k].Armed?
    {
      var tile := IsArmedAt(data, 8 * i + j);
      str := str + [tile];
      if tile {
        armed := true;
      }
      j := j + 1;
    }
  }

  /** fromBase64's first loop: the digits of `binary.charCodeAt(i)` for each of the n/8 bytes. */
  method DecodeBits(bin: seq<byte>, n: nat) returns (str: seq<bool>)
    requires n % 8 == 0
    ensures str == Unpack(bin, n)
  {
    str := [];
    var i := 0;
    while i < n / 8
      invariant 0 <= i <= n / 8
      invariant str == Unpack(bin, 8 * i)
    {
      var bits := if i < |bin| then BinaryDigits(bin[i], 8) else seq(8, k => false);
      ghost var previous := str;
      str := str + bits;
      forall k | 0 <= k < 8 * (i + 1) ensures str[k] == Unpack(bin, 8 * (i + 1))[k] {
        if k >= 8 * i {
          assert k / 8 == i && k % 8 == k - 8 * i;
        } else {
          assert str[k] == previous[k];
        }
      }
      i := i + 1;
    }
  }
}
