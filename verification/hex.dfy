/** `Util.parseHexBinary` and `Util.hexToBin`: decoding the manifest's hex digests. */
module Hex {
  import opened Wrappers
  import opened Bytes

  /** Why `parseHexBinary` throws `IllegalArgumentException`. */
  datatype HexError = OddLength | IllegalCharacter

  predicate IsHexChar(c: char) {
    '0' <= c <= '9' || 'A' <= c <= 'F' || 'a' <= c <= 'f'
  }

  predicate AllHex(s: string) {
    forall i :: 0 <= i < |s| ==> IsHexChar(s[i])
  }

  /** `hexToBin(ch)`: the value of a hex digit of either case, -1 for anything else. */
  function HexToBin(c: char): (v: int)
    ensures -1 <= v < 16
    ensures v == -1 <==> !IsHexChar(c)
  {
    if '0' <= c <= '9' then c as int - '0' as int
    else if 'A' <= c <= 'F' then c as int - 'A' as int + 10
    else if 'a' <= c <= 'f' then c as int - 'a' as int + 10
    else -1
  }

  /** The digit an encoder writes for `d`, in upper or lower case. */
  function HexDigit(d: int, upper: bool): (c: char)
    requires 0 <= d < 16
    ensures IsHexChar(c)
  {
    if d < 10 then ('0' as int + d) as char
    else if upper then ('A' as int + d - 10) as char
    else ('a' as int + d - 10) as char
  }

  /** `hexToBin` inverts the digit encoding in both cases. */
  lemma HexToBinOfHexDigit(d: int, upper: bool)
    requires 0 <= d < 16
    ensures HexToBin(HexDigit(d, upper)) == d
  {
  }

  /** Upper-case hex letters folded to lower case; every other character unchanged. */
  function FoldHexCase(c: char): (f: char)
    ensures IsHexChar(f) <==> IsHexChar(c)
  {
    if 'A' <= c <= 'F' then (c as int - 'A' as int + 'a' as int) as char else c
  }

  /** The byte a pair of digits stands for: `(byte) (h * 16 + l)`. */
  function PairByte(s: string, k: nat): JByte
    requires 2 * k + 1 < |s| && IsHexChar(s[2 * k]) && IsHexChar(s[2 * k + 1])
  {
    ToJByte(HexToBin(s[2 * k]) * 16 + HexToBin(s[2 * k + 1]))
  }

  /** The pairs of an even-length string, left to right, stopping at the first bad pair. */
  function DecodePairs(s: string): (r: Result<seq<JByte>, HexError>)
    requires |s| % 2 == 0
    ensures r.Success? <==> AllHex(s)
    ensures r.Failure? ==> r.error == IllegalCharacter
    ensures r.Success? ==> |r.value| == |s| / 2
    ensures r.Success? ==> forall k :: 0 <= k < |s| / 2 ==> r.value[k] == PairByte(s, k)
    decreases |s|
  {
    if s == [] then Success([])
    else
      var h := HexToBin(s[0]);
      var l := HexToBin(s[1]);
      if h == -1 || l == -1 then Failure(IllegalCharacter)
      else
        match DecodePairs(s[2..])
        case Failure(e) => Failure(e)
        case Success(rest) => Success([ToJByte(h * 16 + l)] + rest)
  }

  /** The reference decoding: odd lengths are refused before any character is looked at. */
  function HexBinary(s: string): (r: Result<seq<JByte>, HexError>)
    ensures r == Failure(OddLength) <==> |s| % 2 != 0
    ensures r == Failure(IllegalCharacter) <==> |s| % 2 == 0 && !AllHex(s)
    ensures r.Success? <==> |s| % 2 == 0 && AllHex(s)
    ensures r.Success? ==> |r.value| == |s| / 2
    ensures r.Success? ==> forall k :: 0 <= k < |s| / 2 ==> r.value[k] == PairByte(s, k)
  {
    if |s| % 2 != 0 then Failure(OddLength) else DecodePairs(s)
  }

  /** `Util.parseHexBinary(s)`: the loop of the source, filling an array two characters at
      a time and throwing on the first pair with a non-hex character. */
  method ParseHexBinary(s: string) returns (r: Result<seq<JByte>, HexError>)
    ensures r == HexBinary(s)
    ensures r.Success? ==> |r.value| == |s| / 2
  {
    var len := |s|;
    if len % 2 != 0 {
      return Failure(OddLength);
    }
    var out := new JByte[len / 2];
    var i := 0;
    while i < len
      invariant 0 <= i <= len && i % 2 == 0
      invariant forall j :: 0 <= j < i ==> IsHexChar(s[j])
      invariant forall k :: 0 <= k < i / 2 ==> out[k] == PairByte(s, k)
    {
      var h := HexToBin(s[i]);
      var l := HexToBin(s[i + 1]);
      if h == -1 || l == -1 {
        return Failure(IllegalCharacter);
      }
      out[i / 2] := ToJByte(h * 16 + l);
      i := i + 2;
    }
    assert AllHex(s);
    assert out[..] == HexBinary(s).value;
    r := Success(out[..]);
  }

  /** Letter case does not matter: two strings that agree once 'A'..'F' are folded to
      'a'..'f' decode to the same bytes, or fail the same way. */
  lemma CaseInsensitive(s: string, t: string)
    requires |s| == |t|
    requires forall i :: 0 <= i < |s| ==> FoldHexCase(s[i]) == FoldHexCase(t[i])
    ensures HexBinary(s) == HexBinary(t)
  {
    forall i | 0 <= i < |s|
      ensures HexToBin(s[i]) == HexToBin(t[i])
    {
      FoldKeepsValue(s[i]);
      FoldKeepsValue(t[i]);
    }
    assert AllHex(s) <==> AllHex(t) by {
      forall i | 0 <= i < |s|
        ensures IsHexChar(s[i]) <==> IsHexChar(t[i])
      {
        assert IsHexChar(FoldHexCase(s[i])) <==> IsHexChar(s[i]);
      }
    }
    if HexBinary(s).Success? {
      var a := HexBinary(s).value;
      var b := HexBinary(t).value;
      assert |a| == |b|;
      forall k | 0 <= k < |a|
        ensures a[k] == b[k]
      {
        assert a[k] == PairByte(s, k);
        assert b[k] == PairByte(t, k);
      }
      assert a == b;
    }
  }

  lemma FoldKeepsValue(c: char)
    ensures HexToBin(FoldHexCase(c)) == HexToBin(c)
  {
  }

  /** Hex text for bytes, two digits per byte, as the service writes the digests. */
  function ToHex(bytes: seq<JByte>, upper: bool): (s: string)
    ensures |s| == 2 * |bytes|
    ensures AllHex(s)
  {
    if bytes == [] then []
    else
      var u := (bytes[0] as int) % 256;
      [HexDigit(u / 16, upper), HexDigit(u % 16, upper)] + ToHex(bytes[1..], upper)
  }

  /** Round trip: decoding the hex text of any bytes, in either case, gives the bytes back. */
  lemma {:induction false} HexBinaryOfToHex(bytes: seq<JByte>, upper: bool)
    ensures HexBinary(ToHex(bytes, upper)) == Success(bytes)
    decreases |bytes|
  {
    var s := ToHex(bytes, upper);
    if bytes != [] {
      var rest := ToHex(bytes[1..], upper);
      assert s[2..] == rest;
      HexBinaryOfToHex(bytes[1..], upper);
      FirstPair(bytes, upper);
      var decoded := HexBinary(s).value;
      forall k | 0 <= k < |bytes|
        ensures decoded[k] == bytes[k]
      {
        if k > 0 {
          assert s[2 * k] == rest[2 * (k - 1)] && s[2 * k + 1] == rest[2 * (k - 1) + 1];
          assert PairByte(s, k) == PairByte(rest, k - 1);
        }
      }
      assert decoded == bytes;
    }
  }

  lemma FirstPair(bytes: seq<JByte>, upper: bool)
    requires bytes != []
    ensures PairByte(ToHex(bytes, upper), 0) == bytes[0]
  {
    var u := (bytes[0] as int) % 256;
    HexToBinOfHexDigit(u / 16, upper);
    HexToBinOfHexDigit(u % 16, upper);
    assert (u / 16) * 16 + u % 16 == u;
  }
}
