/**
  The printed form of bytes and data lines: the device writes hex, both sides read it
  back.
 */
module LineText {
  import opened Bits
  import opened Wrappers
  import opened Session

  // ---------- hex digits ----------

  function Digit(v: nat): char
    requires v < 16
  {
    if v < 10 then ('0' as int + v) as char else ('a' as int + v - 10) as char
  }

  /** The value of a hex digit of either case: isxdigit, and what scanf or int reads. */
  function Value(c: char): (v: Option<nat>)
    ensures v.Some? ==> v.value < 16
  {
    if '0' <= c <= '9' then Some(c as int - '0' as int)
    else if 'a' <= c <= 'f' then Some(c as int - 'a' as int + 10)
    else if 'A' <= c <= 'F' then Some(c as int - 'A' as int + 10)
    else None
  }

  const LOWER: string := "0123456789abcdef"
  const UPPER: string := "0123456789ABCDEF"

  /** The sixteen digits, written in lower case and read in either. */
  lemma DigitsListed(v: nat, c: char)
    requires v < 16
    ensures Digit(v) == LOWER[v]
    ensures Value(c) == Some(v) <==> c == LOWER[v] || c == UPPER[v]
  {
  }

  predicate AllHex(text: string) {
    forall i | 0 <= i < |text| :: Value(text[i]).Some?
  }

  // ---------- bytes ----------

  /** Character k: the upper or the lower half of byte k / 2. */
  function HexAt(bytes: seq<byte>, k: nat): char
    requires k < 2 * |bytes|
  {
    if k % 2 == 0 then Digit(bytes[k / 2] / 16) else Digit(bytes[k / 2] % 16)
  }

  /** "%02x" for each byte. */
  function ToHex(bytes: seq<byte>): (text: string)
    ensures |text| == 2 * |bytes| && forall k | 0 <= k < |text| :: text[k] == HexAt(bytes, k)
  {
    seq(2 * |bytes|, k requires 0 <= k < 2 * |bytes| => HexAt(bytes, k))
  }

  lemma HexPair(bytes: seq<byte>, i: nat)
    requires i < |bytes|
    ensures HexAt(bytes, 2 * i) == Digit(bytes[i] / 16) && HexAt(bytes, 2 * i + 1) == Digit(bytes[i] % 16)
  {
  }

  /** The two digits of byte i, the upper half first. */
  lemma HexListed(bytes: seq<byte>, i: nat)
    requires i < |bytes|
    ensures ToHex(bytes)[2 * i] == LOWER[bytes[i] / 16] && ToHex(bytes)[2 * i + 1] == LOWER[bytes[i] % 16]
  {
    HexPair(bytes, i);
    DigitsListed(bytes[i] / 16, ToHex(bytes)[2 * i]);
    DigitsListed(bytes[i] % 16, ToHex(bytes)[2 * i + 1]);
  }

  function ByteAt(text: string, i: nat): byte
    requires 2 * i + 1 < |text| && AllHex(text)
  {
    16 * Value(text[2 * i]).value + Value(text[2 * i + 1]).value
  }

  function HexBytes(text: string): (bytes: seq<byte>)
    requires |text| % 2 == 0 && AllHex(text)
    ensures |bytes| == |text| / 2 && forall i | 0 <= i < |bytes| :: bytes[i] == ByteAt(text, i)
  {
    seq(|text| / 2, i requires 0 <= i < |text| / 2 => ByteAt(text, i))
  }

  lemma HexDigits(bytes: seq<byte>)
    ensures AllHex(ToHex(bytes))
  {
  }

  /** Reading back printed bytes gives the bytes. */
  lemma HexRoundTrip(bytes: seq<byte>)
    ensures AllHex(ToHex(bytes)) && HexBytes(ToHex(bytes)) == bytes
  {
    HexDigits(bytes);
    forall i | 0 <= i < |bytes|
      ensures ByteAt(ToHex(bytes), i) == bytes[i]
    {
      HexPair(bytes, i);
    }
  }

  /** to_hex: sprintf at 2 i also ends the string after each byte. */
  method FillHex(bytes: seq<byte>, out: array<char>)
    requires 2 * |bytes| < out.Length
    modifies out
    ensures out[..2 * |bytes|] == ToHex(bytes)
    ensures |bytes| > 0 ==> out[2 * |bytes|] == '\0'
    ensures out[2 * |bytes| + 1..] == old(out[2 * |bytes| + 1..])
  {
    for i := 0 to |bytes|
      invariant forall k | 0 <= k < 2 * i :: out[k] == HexAt(bytes, k)
      invariant i > 0 ==> out[2 * i] == '\0'
      invariant out[2 * |bytes| + 1..] == old(out[2 * |bytes| + 1..])
    {
      HexPair(bytes, i);
      out[2 * i] := Digit(bytes[i] / 16);
      out[2 * i + 1] := Digit(bytes[i] % 16);
      out[2 * i + 2] := '\0';
    }
  }

  /** from_hex: 0 exactly for the hex of len bytes, which then fill out; otherwise out is
      untouched. */
  method ReadHex(text: string, out: array<byte>, len: nat) returns (ret: int)
    requires len <= out.Length
    modifies out
    ensures ret == if |text| == 2 * len && AllHex(text) then 0 else -1
    ensures ret == 0 ==> out[..len] == HexBytes(text)
    ensures ret == -1 ==> out[..] == old(out[..])
    ensures out[len..] == old(out[len..])
  {
    if |text| != 2 * len {
      return -1;
    }
    for i := 0 to 2 * len
      invariant forall k | 0 <= k < i :: Value(text[k]).Some?
    {
      if Value(text[i]) == None {
        return -1;
      }
    }
    for i := 0 to len
      invariant forall k | 0 <= k < i :: out[k] == ByteAt(text, k)
      invariant out[len..] == old(out[len..])
    {
      out[i] := ByteAt(text, i);
    }
    ret := 0;
  }

  /** bytes.fromhex on a word, which holds no blanks. */
  function Unhex(word: string): Option<seq<byte>> {
    if |word| % 2 == 0 && AllHex(word) then Some(HexBytes(word)) else None
  }

  // ---------- numbers ----------

  /** The k low hex digits of v, highest first. */
  function Digits(v: nat, k: nat): (text: string)
    ensures |text| == k
    decreases k
  {
    if k == 0 then "" else Digits(v / 16, k - 1) + [Digit(v % 16)]
  }

  /** int(.., 16) on hex digits. */
  function Number(text: string): nat
    requires AllHex(text)
  {
    if text == "" then 0 else 16 * Number(text[..|text| - 1]) + Value(text[|text| - 1]).value
  }

  function Pow16(k: nat): nat {
    if k == 0 then 1 else 16 * Pow16(k - 1)
  }

  /** Enough digits hold the whole number. */
  lemma {:induction false} NumberRoundTrip(v: nat, k: nat)
    requires v < Pow16(k)
    ensures AllHex(Digits(v, k)) && Number(Digits(v, k)) == v
    decreases k
  {
    if k > 0 {
      NumberRoundTrip(v / 16, k - 1);
      assert Digits(v, k)[..k - 1] == Digits(v / 16, k - 1);
    }
  }

  /** The eight digits of a sequence number are the hex of its four bytes. */
  lemma NumberIsHexOfBytes(q: nat)
    requires q < SEQ_LIMIT
    ensures Digits(q, 8) == ToHex(Be32(q))
  {
    var a, b, c := Upper(Upper(Upper(q))), Upper(Upper(q)), Upper(q);
    assert Digits(a, 0) == "" && ToHex([]) == "";
    NextByte([], a, 0);
    NextByte([a], b, 2);
    NextByte([a, b % 256], c, 4);
    NextByte([a, b % 256, c % 256], q, 6);
  }

  /** One byte more is two digits more. */
  lemma NextByte(s: seq<byte>, v: nat, k: nat)
    requires Digits(Upper(v), k) == ToHex(s)
    ensures Digits(v, k + 2) == ToHex(s + [v % 256])
  {
    var x, t := v % 256, s + [v % 256];
    assert v / 16 / 16 == Upper(v) && v / 16 % 16 == x / 16 && v % 16 == x % 16;
    assert Digits(v, k + 2) == Digits(v / 16, k + 1) + [Digit(v % 16)];
    assert Digits(v / 16, k + 1) == Digits(Upper(v), k) + [Digit(x / 16)];
    HexPair(t, |s|);
    assert forall i | 0 <= i < 2 * |s| :: HexAt(t, i) == HexAt(s, i);
    assert ToHex(t) == ToHex(s) + [Digit(x / 16), Digit(x % 16)];
  }

  lemma {:induction false} NumberBelow(text: string)
    requires AllHex(text)
    ensures Number(text) < Pow16(|text|)
  {
    if text != "" {
      NumberBelow(text[..|text| - 1]);
    }
  }

  // ---------- lines ----------

  /** The blanks of ASCII, which split takes words apart at. */
  predicate Blank(c: char) {
    c == ' ' || '\t' <= c <= '\r' || '\U{1c}' <= c <= '\U{1f}'
  }

  predicate NoBlank(word: string) {
    forall i | 0 <= i < |word| :: !Blank(word[i])
  }

  /** How many characters come before the first blank. */
  function WordLength(text: string): (k: nat)
    ensures k <= |text| && NoBlank(text[..k]) && (k < |text| ==> Blank(text[k]))
  {
    if text == "" || Blank(text[0]) then 0
    else
      var k := WordLength(text[1..]);
      assert text[..k + 1] == [text[0]] + text[1..][..k];
      k + 1
  }

  /** str.split() */
  function Words(text: string): seq<string>
    decreases |text|
  {
    if text == "" then []
    else if Blank(text[0]) then Words(text[1..])
    else
      var k := WordLength(text);
      [text[..k]] + Words(text[k..])
  }

  lemma {:induction false} WordLengthIs(word: string, rest: string)
    requires NoBlank(word) && (rest == "" || Blank(rest[0]))
    ensures WordLength(word + rest) == |word|
  {
    if word != "" {
      assert (word + rest)[1..] == word[1..] + rest;
      WordLengthIs(word[1..], rest);
    } else {
      assert word + rest == rest;
    }
  }

  lemma FirstWord(word: string, rest: string)
    requires word != "" && NoBlank(word) && (rest == "" || Blank(rest[0]))
    ensures Words(word + rest) == [word] + Words(rest)
  {
    WordLengthIs(word, rest);
    assert (word + rest)[..|word|] == word && (word + rest)[|word|..] == rest;
  }

  predicate AllBlank(text: string) {
    forall i | 0 <= i < |text| :: Blank(text[i])
  }

  /** The words with these blanks before each and after the last. */
  function Spread(words: seq<string>, blanks: seq<string>): string
    requires |blanks| == |words| + 1
  {
    if words == [] then blanks[0] else blanks[0] + (words[0] + Spread(words[1..], blanks[1..]))
  }

  lemma {:induction false} BlanksSkipped(blanks: string, rest: string)
    requires AllBlank(blanks)
    ensures Words(blanks + rest) == Words(rest)
  {
    if blanks == "" {
      assert blanks + rest == rest;
    } else {
      assert (blanks + rest)[1..] == blanks[1..] + rest;
      BlanksSkipped(blanks[1..], rest);
    }
  }

  /** split gives back any words put apart by blanks, however many, and blanks around them. */
  lemma {:induction false} WordsOfSpread(words: seq<string>, blanks: seq<string>)
    requires |blanks| == |words| + 1 && forall i | 0 <= i < |blanks| :: AllBlank(blanks[i])
    requires forall i | 0 < i < |words| :: blanks[i] != ""
    requires forall i | 0 <= i < |words| :: words[i] != "" && NoBlank(words[i])
    ensures Words(Spread(words, blanks)) == words
  {
    if words == [] {
      BlanksSkipped(blanks[0], "");
      assert blanks[0] + "" == blanks[0];
    } else {
      var rest := Spread(words[1..], blanks[1..]);
      BlanksSkipped(blanks[0], words[0] + rest);
      WordsOfSpread(words[1..], blanks[1..]);
      SpreadStarts(words[1..], blanks[1..]);
      FirstWord(words[0], rest);
    }
  }

  lemma SpreadStarts(words: seq<string>, blanks: seq<string>)
    requires |blanks| == |words| + 1 && AllBlank(blanks[0]) && (words != [] ==> blanks[0] != "")
    ensures var text := Spread(words, blanks); text == "" || Blank(text[0])
  {
  }

  lemma HexHasNoBlank(text: string)
    requires AllHex(text)
    ensures NoBlank(text)
  {
    forall i | 0 <= i < |text|
      ensures !Blank(text[i])
    {
      assert Value(text[i]).Some?;
    }
  }

  /** "DATA %08x %s" */
  function DataText(q: nat, ct: seq<byte>): string {
    "DATA" + (" " + (Digits(q, 8) + (" " + ToHex(ct))))
  }

  /** What open_data makes of a line, for every line whose eight characters are hex digits
      or that has no eight characters; None where the number is of another form. */
  function ParseLine(text: string): Option<Line> {
    var parts := Words(text);
    if |parts| != 3 || parts[0] != "DATA" || |parts[1]| != 8 then Some(Malformed)
    else if AllHex(parts[1]) then Some(Data(Number(parts[1]), Unhex(parts[2])))
    else None
  }

  lemma WordsOfData(number: string, hex: string)
    requires AllHex(number) && AllHex(hex) && number != "" && hex != ""
    ensures Words("DATA" + (" " + (number + (" " + hex)))) == ["DATA", number, hex]
  {
    HexHasNoBlank(number);
    HexHasNoBlank(hex);
    var tail := number + (" " + hex);
    FirstWord(hex, "");
    assert hex + "" == hex;
    BlanksSkipped(" ", hex);
    FirstWord(number, " " + hex);
    BlanksSkipped(" ", tail);
    FirstWord("DATA", " " + tail);
  }

  /** Every line the device prints is read back as the number and the bytes it was printed
      from. */
  lemma PrintedLineParses(q: nat, ct: seq<byte>)
    requires q < SEQ_LIMIT && ct != []
    ensures ParseLine(DataText(q, ct)) == Some(Data(q, Some(ct)))
  {
    NumberFits(q, 8);
    NumberRoundTrip(q, 8);
    HexRoundTrip(ct);
    WordsOfData(Digits(q, 8), ToHex(ct));
  }

  lemma NumberFits(q: nat, k: nat)
    requires q < SEQ_LIMIT && k == 8
    ensures q < Pow16(k)
  {
    assert Pow16(4) == 65536;
    assert Pow16(k) == 65536 * Pow16(4);
  }

  /** A line is data exactly when its words are DATA, eight characters and one more; then
      the number has at most 32 bits. */
  lemma ParsedLineOk(text: string)
    requires ParseLine(text).Some?
    ensures LineOk(ParseLine(text).value)
    ensures ParseLine(text).value.Data? <==>
            exists number, hex :: Words(text) == ["DATA", number, hex] && |number| == 8
    ensures ParseLine(text).value.Data? ==>
            (ParseLine(text).value.ct.Some? <==> |Words(text)[2]| % 2 == 0 && AllHex(Words(text)[2]))
  {
    var parts := Words(text);
    assert ParseLine(text).value.Data? ==> parts == ["DATA", parts[1], parts[2]];
    if |parts| == 3 && |parts[1]| == 8 && AllHex(parts[1]) {
      NumberBelow(parts[1]);
      assert Pow16(4) == 65536;
      assert Pow16(8) == 65536 * Pow16(4);
    }
  }
}
