/** Hex printing and parsing of big numbers: src/electionguard/convert.hpp and the toHex/fromHex of group.cpp. */
module Hex {
  import opened Arith
  import opened ElementQ

  type Byte = n: int | 0 <= n < 256

  const LEADING_CHARS := "0 \n\r\t\U{0C}\U{0B}"

  // ------------------------------------------------------------- specification

  function HexDigit(d: int): (c: char)
    requires 0 <= d < 16
    ensures IsHexDigit(c) && DigitValue(c) == d
  {
    if d < 10 then '0' + d as char else 'A' + (d - 10) as char
  }

  lemma UpperCaseDigits(d: int)
    requires 0 <= d < 16
    ensures HexDigit(d) == "0123456789ABCDEF"[d]
  {
  }

  predicate IsHexDigit(c: char) {
    '0' <= c <= '9' || 'A' <= c <= 'F' || 'a' <= c <= 'f'
  }

  function DigitValue(c: char): (d: nat)
    requires IsHexDigit(c)
    ensures d < 16
  {
    if c <= '9' then c as int - '0' as int
    else if c <= 'F' then c as int - 'A' as int + 10
    else c as int - 'a' as int + 10
  }

  function HexPair(b: Byte): string {
    [HexDigit(b / 16), HexDigit(b % 16)]
  }

  /** Two upper-case digits per byte, most significant byte first and never zero. */
  function HexPairs(n: nat): string {
    if n == 0 then "" else HexPairs(n / 256) + HexPair(n % 256)
  }

  /** What toHex prints for a number, whatever the width it is stored in. */
  function ToHex(n: nat): string {
    if n == 0 then "00" else HexPairs(n)
  }

  predicate AllHex(s: string) {
    forall i :: 0 <= i < |s| ==> IsHexDigit(s[i])
  }

  function HexValue(s: string): nat
    requires AllHex(s)
  {
    if s == "" then 0 else HexValue(s[..|s| - 1]) * 16 + DigitValue(s[|s| - 1])
  }

  /** Big-endian value of a byte string. */
  function Value(bytes: seq<Byte>): nat {
    if bytes == [] then 0 else Value(bytes[..|bytes| - 1]) * 256 + bytes[|bytes| - 1]
  }

  /** `size` bytes of n, most significant first. */
  function BigEndian(n: nat, size: nat): seq<Byte> {
    if size == 0 then [] else BigEndian(n / 256, size - 1) + [n % 256]
  }

  /** `size` bytes of n, least significant first: how a limb array lies in memory. */
  function LittleEndian(n: nat, size: nat): seq<Byte> {
    if size == 0 then [] else [n % 256] + LittleEndian(n / 256, size - 1)
  }

  function LittleValue(bytes: seq<Byte>): nat {
    if bytes == [] then 0 else bytes[0] + 256 * LittleValue(bytes[1..])
  }

  // --------------------------------------------------------------------- facts

  lemma HexAppend(s: string, c: char)
    requires AllHex(s) && IsHexDigit(c)
    ensures AllHex(s + [c]) && HexValue(s + [c]) == HexValue(s) * 16 + DigitValue(c)
  {
    assert (s + [c])[..|s|] == s;
  }

  lemma HexPrefixStep(hex: string, i: nat)
    requires AllHex(hex) && i + 2 <= |hex|
    ensures HexValue(hex[..i + 2]) == HexValue(hex[..i]) * 256 + DigitValue(hex[i]) * 16 + DigitValue(hex[i + 1])
  {
    assert hex[..i + 1] == hex[..i] + [hex[i]];
    assert hex[..i + 2] == hex[..i + 1] + [hex[i + 1]];
    HexAppend(hex[..i], hex[i]);
    HexAppend(hex[..i + 1], hex[i + 1]);
  }

  /** The first byte printed is not zero. */
  lemma {:induction false} HexPairsHead(n: nat)
    requires n > 0
    ensures AllHex(HexPairs(n)) && 2 <= |HexPairs(n)| && |HexPairs(n)| % 2 == 0
    ensures DigitValue(HexPairs(n)[0]) * 16 + DigitValue(HexPairs(n)[1]) > 0
  {
    if n >= 256 {
      HexPairsHead(n / 256);
    } else {
      assert HexPairs(n / 256) == "";
    }
  }

  lemma {:induction false} HexPairsValue(n: nat)
    ensures AllHex(HexPairs(n)) && HexValue(HexPairs(n)) == n
  {
    if n == 0 {
    } else {
      var front, high, low := HexPairs(n / 256), HexDigit(n % 256 / 16), HexDigit(n % 256 % 16);
      HexPairsValue(n / 256);
      assert HexPairs(n) == (front + [high]) + [low];
      HexAppend(front, high);
      HexAppend(front + [high], low);
    }
  }

  lemma HexPairsStep(v: nat, b: Byte)
    requires v * 256 + b > 0
    ensures HexPairs(v * 256 + b) == HexPairs(v) + HexPair(b)
  {
    ModIs(v * 256 + b, v, b, 256);
  }

  /** `toHex` is injective. */
  lemma ToHexInjective(m: nat, n: nat)
    ensures ToHex(m) == ToHex(n) <==> m == n
  {
    HexPairsValue(m);
    HexPairsValue(n);
    assert HexValue("00") == 0 by {
      assert "00"[..1] == "0" && "0"[..0] == "";
    }
  }

  lemma {:induction false} BigEndianValue(n: nat, size: nat)
    requires n < Pow(256, size)
    ensures |BigEndian(n, size)| == size && Value(BigEndian(n, size)) == n
  {
    if size == 0 {
    } else {
      BigEndianValue(n / 256, size - 1);
    }
  }

  lemma {:induction false} ValueBound(bytes: seq<Byte>)
    ensures Value(bytes) < Pow(256, |bytes|)
  {
    if bytes == [] {
    } else {
      ValueBound(bytes[..|bytes| - 1]);
    }
  }

  lemma {:induction false} LittleEndianSize(n: nat, size: nat)
    ensures |LittleEndian(n, size)| == size
  {
    if size == 0 {
    } else {
      LittleEndianSize(n / 256, size - 1);
    }
  }

  /** Copying the low `size` bytes of a longer limb array into a zeroed one keeps any value below 256^size. */
  lemma {:induction false} PartialCopy(n: nat, size: nat, room: nat, zeros: seq<Byte>)
    requires size <= room && n < Pow(256, size)
    requires forall i :: 0 <= i < |zeros| ==> zeros[i] == 0
    ensures |LittleEndian(n, room)| == room
    ensures LittleValue(LittleEndian(n, room)[..size] + zeros) == n
  {
    LittleEndianSize(n, room);
    if size == 0 {
      ZerosValue(zeros);
      assert LittleEndian(n, room)[..0] + zeros == zeros;
    } else {
      PartialCopy(n / 256, size - 1, room - 1, zeros);
      var copied := LittleEndian(n, room)[..size] + zeros;
      assert copied[1..] == LittleEndian(n / 256, room - 1)[..size - 1] + zeros;
    }
  }

  lemma {:induction false} ZerosValue(zeros: seq<Byte>)
    requires forall i :: 0 <= i < |zeros| ==> zeros[i] == 0
    ensures LittleValue(zeros) == 0
  {
    if zeros == [] {
    } else {
      ZerosValue(zeros[1..]);
    }
  }

  // ------------------------------------------------------------------ the code

  /** Prints the bytes, skipping those before the first non-zero one. */
  method BytesToHex(bytes: seq<Byte>) returns (hex: string)
    ensures hex == ToHex(Value(bytes))
  {
    var detectedFirstNonZeroByte := false;
    var stream := "";
    for i := 0 to |bytes|
      invariant detectedFirstNonZeroByte <==> Value(bytes[..i]) > 0
      invariant stream == HexPairs(Value(bytes[..i]))
    {
      assert bytes[..i + 1][..i] == bytes[..i];
      assert Value(bytes[..i + 1]) == Value(bytes[..i]) * 256 + bytes[i];
      if Value(bytes[..i + 1]) > 0 {
        HexPairsStep(Value(bytes[..i]), bytes[i]);
      }
      if !detectedFirstNonZeroByte && bytes[i] != 0 {
        detectedFirstNonZeroByte := true;
      }
      if detectedFirstNonZeroByte {
        stream := stream + HexPair(bytes[i]);
      }
    }
    assert bytes[..|bytes|] == bytes;
    hex := if detectedFirstNonZeroByte then stream else "00";
  }

  method ElementToHex(element: nat, size: nat) returns (hex: string)
    requires element < Pow(256, size)
    ensures hex == ToHex(element)
  {
    BigEndianValue(element, size);
    hex := BytesToHex(BigEndian(element, size));
  }

  /** The text without its leading zeros and blanks. */
  function Trimmed(s: string): string {
    if s != "" && s[0] in LEADING_CHARS then Trimmed(s[1..]) else s
  }

  /** What is cut off is the longest front of zeros and blanks. */
  lemma {:induction false} TrimmedIs(s: string) returns (front: string)
    ensures s == front + Trimmed(s) && forall i :: 0 <= i < |front| ==> front[i] in "0 \n\r\t\U{0C}\U{0B}"
    ensures Trimmed(s) != "" ==> Trimmed(s)[0] !in "0 \n\r\t\U{0C}\U{0B}"
  {
    if s != "" && s[0] in LEADING_CHARS {
      front := TrimmedIs(s[1..]);
      front := [s[0]] + front;
    } else {
      front := "";
    }
  }

  function UpperCase(c: char): char {
    if 'a' <= c <= 'f' then 'A' + (c - 'a') else c
  }

  /** Digits are read alike in either case. */
  lemma {:induction false} CaseDoesNotMatter(s: string, t: string)
    requires AllHex(s) && |s| == |t| && forall i :: 0 <= i < |s| ==> t[i] == UpperCase(s[i])
    ensures AllHex(t) && HexValue(s) == HexValue(t)
  {
    if s == "" {
    } else {
      CaseDoesNotMatter(s[..|s| - 1], t[..|t| - 1]);
    }
  }

  method SanitizeHexString(hexString: string) returns (result: Result<string>)
    ensures result.Err? <==> Trimmed(hexString) == ""
    ensures result.Ok? ==> |result.value| % 2 == 0
    ensures result.Ok? ==> result.value == Trimmed(hexString) || result.value == "0" + Trimmed(hexString)
  {
    var first := 0;
    while first < |hexString| && hexString[first] in LEADING_CHARS
      invariant 0 <= first <= |hexString|
      invariant Trimmed(hexString[first..]) == Trimmed(hexString)
    {
      assert hexString[first..][1..] == hexString[first + 1..];
      first := first + 1;
    }
    if first == |hexString| {
      return Err("substr: position out of range");
    }
    var leftTrimmed := hexString[first..];
    result := Ok(if |leftTrimmed| % 2 != 0 then "0" + leftTrimmed else leftTrimmed);
  }

  /** stoi in base 16 on two characters, cut down to a byte; Err where it finds no digit and throws. */
  function PairByte(a: char, b: char): (r: Result<Byte>)
    ensures IsHexDigit(a) && IsHexDigit(b) ==> r == Ok(DigitValue(a) * 16 + DigitValue(b))
  {
    if IsHexDigit(a) then Ok(if IsHexDigit(b) then DigitValue(a) * 16 + DigitValue(b) else DigitValue(a))
    else if !IsHexDigit(b) then Err("stoi")
    else if a in "+ \n\r\t\U{0C}\U{0B}" then Ok(DigitValue(b))
    else if a == '-' then Ok((256 - DigitValue(b)) % 256)
    else Err("stoi")
  }

  lemma EmptyValues()
    ensures Value([]) == 0 && HexValue("") == 0
  {
  }

  lemma PairStep(hex: string, i: nat, bytes: seq<Byte>)
    requires AllHex(hex) && i + 2 <= |hex|
    ensures var byte := PairByte(hex[i], hex[i + 1]);
            byte.Ok? && (Value(bytes) == HexValue(hex[..i]) ==> Value(bytes + [byte.value]) == HexValue(hex[..i + 2]))
  {
    var byte := PairByte(hex[i], hex[i + 1]);
    assert (bytes + [byte.value])[..|bytes|] == bytes;
    HexPrefixStep(hex, i);
  }

  method HexToBytes(hex: string) returns (result: Result<seq<Byte>>)
    requires |hex| % 2 == 0
    ensures result.Err? <==> exists i :: 0 <= i < |hex| / 2 && PairByte(hex[2 * i], hex[2 * i + 1]).Err?
    ensures result.Ok? ==> |result.value| == |hex| / 2
    ensures result.Ok? ==> forall i :: 0 <= i < |hex| / 2 ==>
                             PairByte(hex[2 * i], hex[2 * i + 1]) == Ok(result.value[i])
    ensures AllHex(hex) ==> result.Ok? && Value(result.value) == HexValue(hex)
  {
    hide PairByte, Value, HexValue;
    var bytes := [];
    var i := 0;
    EmptyValues();
    while i < |hex|
      invariant i <= |hex| && i % 2 == 0
      invariant |bytes| == i / 2
      invariant forall j :: 0 <= j < |bytes| ==> PairByte(hex[2 * j], hex[2 * j + 1]) == Ok(bytes[j])
      invariant AllHex(hex) ==> Value(bytes) == HexValue(hex[..i])
    {
      if AllHex(hex) {
        PairStep(hex, i, bytes);
      }
      var byte := PairByte(hex[i], hex[i + 1]);
      if byte.Err? {
        assert i == 2 * (i / 2);
        return Err("stoi");
      }
      bytes := bytes + [byte.value];
      i := i + 2;
    }
    assert hex[..|hex|] == hex;
    return Ok(bytes);
  }

  /** `bytes_to_q` and `bytes_to_p`: a byte string of at most maxSize bytes, checked against the modulus. */
  method BytesToElement(bytes: seq<Byte>, maxSize: nat, limit: nat, unchecked: bool) returns (result: Result<nat>)
    ensures result == if |bytes| > maxSize || (!unchecked && limit < Value(bytes))
                      then Err("out of range") else Ok(Value(bytes))
  {
    if |bytes| > maxSize {
      return Err("out of range");
    }
    var room := 8 * ((|bytes| + 7) / 8);
    ValueBound(bytes);
    PartialCopy(Value(bytes), |bytes|, room, seq(maxSize - |bytes|, i => 0));
    var bigNum := LittleEndian(Value(bytes), room);
    var element := LittleValue(bigNum[..|bytes|] + seq(maxSize - |bytes|, i => 0));
    if !unchecked && limit < element {
      return Err("out of range");
    }
    return Ok(element);
  }

  /** fromHex for both element types; `limit` is the modulus, which itself is accepted. */
  method FromHex(representation: string, maxSize: nat, limit: nat, unchecked: bool) returns (result: Result<nat>)
    ensures AllHex(Trimmed(representation)) ==> result == ParsedHex(representation, maxSize, limit, unchecked)
    ensures result.Ok? ==> unchecked || result.value <= limit
  {
    var sanitized := SanitizeHexString(representation);
    if sanitized.Err? {
      return Err("out of range");
    }
    if AllHex(Trimmed(representation)) {
      LeadingZero(Trimmed(representation));
    }
    var bytes := HexToBytes(sanitized.value);
    if bytes.Err? {
      return Err("stoi");
    }
    result := BytesToElement(bytes.value, maxSize, limit, unchecked);
  }

  lemma {:induction false} LeadingZero(s: string)
    requires AllHex(s)
    ensures AllHex("0" + s) && HexValue("0" + s) == HexValue(s)
  {
    if s != "" {
      LeadingZero(s[..|s| - 1]);
      assert ("0" + s)[..|s|] == "0" + s[..|s| - 1];
    } else {
      assert "0"[..0] == "";
    }
  }

  /** What fromHex accepts, and the number it returns. */
  function ParsedHex(s: string, maxSize: nat, limit: nat, unchecked: bool): Result<nat>
    requires AllHex(Trimmed(s))
  {
    var t := Trimmed(s);
    if t == "" || (|t| + 1) / 2 > maxSize || (!unchecked && limit < HexValue(t))
    then Err("out of range") else Ok(HexValue(t))
  }

  /** Stripping the leading zero of a printed number does not change its value. */
  lemma TrimmedHex(n: nat)
    requires n > 0
    ensures AllHex(Trimmed(ToHex(n))) && Trimmed(ToHex(n)) != ""
    ensures HexValue(Trimmed(ToHex(n))) == n
    ensures (|Trimmed(ToHex(n))| + 1) / 2 == |ToHex(n)| / 2
  {
    var s := ToHex(n);
    HexPairsValue(n);
    HexPairsHead(n);
    if s[0] == '0' {
      assert Trimmed(s) == Trimmed(s[1..]) == s[1..];
      assert s == "0" + s[1..];
      LeadingZero(s[1..]);
    }
  }

  lemma {:induction false} HexLength(n: nat, size: nat)
    requires n < Pow(256, size)
    ensures |HexPairs(n)| <= 2 * size
  {
    if n == 0 || size == 0 {
    } else {
      HexLength(n / 256, size - 1);
    }
  }

  /** Parsing what was printed returns the number exactly when it is not zero; "00" has nothing left to parse. */
  lemma HexRoundTrip(n: nat, maxSize: nat, limit: nat)
    requires n <= limit < Pow(256, maxSize)
    ensures AllHex(Trimmed(ToHex(n)))
    ensures ParsedHex(ToHex(n), maxSize, limit, false) == Ok(n) <==> n > 0
  {
    if n > 0 {
      TrimmedHex(n);
      HexLength(n, maxSize);
    } else {
      assert Trimmed("00") == Trimmed("0") == Trimmed("") by {
        assert "00"[1..] == "0" && "0"[1..] == "";
      }
    }
  }
}
