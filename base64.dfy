/** Base64 as write_file and read_file use it: `base64.b64encode` with the
    standard alphabet and `=` padding (section 4 of RFC 4648), and the strict
    decoding of `base64.b64decode(s, validate=True)`. */
module Base64 {
  import opened Outcomes

  newtype byte = x: int | 0 <= x < 256

  /** One of the 64 digits of the standard alphabet. */
  predicate IsDigit(c: char) {
    'A' <= c <= 'Z' || 'a' <= c <= 'z' || '0' <= c <= '9' || c == '+' || c == '/'
  }

  /** The value a digit stands for. */
  function Value(c: char): (v: int)
    requires IsDigit(c)
    ensures 0 <= v < 64
  {
    if 'A' <= c <= 'Z' then c as int - 'A' as int
    else if 'a' <= c <= 'z' then c as int - 'a' as int + 26
    else if '0' <= c <= '9' then c as int - '0' as int + 52
    else if c == '+' then 62
    else 63
  }

  /** The digit for a 6-bit value; inverse of `Value`. */
  function Digit(v: int): (c: char)
    requires 0 <= v < 64
    ensures IsDigit(c) && Value(c) == v
  {
    if v < 26 then ('A' as int + v) as char
    else if v < 52 then ('a' as int + (v - 26)) as char
    else if v < 62 then ('0' as int + (v - 52)) as char
    else if v == 62 then '+'
    else '/'
  }

  /** The digits in value order. */
  function Alphabet(): (s: string)
    ensures |s| == 64 && forall v :: 0 <= v < 64 ==> s[v] == Digit(v)
  {
    seq(64, v requires 0 <= v < 64 => Digit(v))
  }

  /** The characters write_file accepts in a binary payload: the alphabet and `=`. */
  function PayloadChars(): string {
    Alphabet() + "="
  }

  lemma DigitOfValue(c: char)
    requires IsDigit(c)
    ensures Digit(Value(c)) == c
  {
  }

  /** A character is in the payload set exactly when it is a digit or `=`. */
  lemma AlphabetIsStandard(c: char)
    ensures c in PayloadChars() <==> IsDigit(c) || c == '='
  {
    if IsDigit(c) {
      DigitOfValue(c);
      assert Alphabet()[Value(c)] == c;
    }
    if c in Alphabet() {
      var v :| 0 <= v < 64 && Alphabet()[v] == c;
    }
  }

  /** `base64.b64encode`: three bytes to four digits, the last group padded with `=`. */
  function Encode(b: seq<byte>): (s: string)
    ensures |s| == (|b| + 2) / 3 * 4
    decreases |b|
  {
    if |b| == 0 then ""
    else if |b| == 1 then
      var x := b[0] as int;
      [Digit(x / 4), Digit(x % 4 * 16), '=', '=']
    else if |b| == 2 then
      var x, y := b[0] as int, b[1] as int;
      [Digit(x / 4), Digit(x % 4 * 16 + y / 16), Digit(y % 16 * 4), '=']
    else
      var x, y, z := b[0] as int, b[1] as int, b[2] as int;
      GroupsStep(|b|);
      [Digit(x / 4), Digit(x % 4 * 16 + y / 16), Digit(y % 16 * 4 + z / 64), Digit(z % 64)]
        + Encode(b[3..])
  }

  lemma GroupsStep(n: int)
    requires n >= 3
    ensures (n + 2) / 3 * 4 == 4 + (n - 3 + 2) / 3 * 4
  {
  }

  /** The bytes of a group of digits `a b c d`. */
  function Byte0(a: int, b: int): byte
    requires 0 <= a < 64 && 0 <= b < 64
  {
    (a * 4 + b / 16) as byte
  }

  function Byte1(b: int, c: int): byte
    requires 0 <= b < 64 && 0 <= c < 64
  {
    (b % 16 * 16 + c / 4) as byte
  }

  function Byte2(c: int, d: int): byte
    requires 0 <= c < 64 && 0 <= d < 64
  {
    (c % 4 * 64 + d) as byte
  }

  /** Strict decoding: groups of four digits, the last of which may be
      "dd==" (one byte) or "ddd=" (two bytes), with nothing after padding.
      Unused low bits of the last digit are not checked. None where the
      decoder raises. */
  function DecodeStrict(s: string): Option<seq<byte>>
    decreases |s|
  {
    if |s| == 0 then Some([])
    else if |s| < 4 || !IsDigit(s[0]) || !IsDigit(s[1]) then None
    else
      var a, b := Value(s[0]), Value(s[1]);
      if |s| == 4 && s[2] == '=' && s[3] == '=' then Some([Byte0(a, b)])
      else if !IsDigit(s[2]) then None
      else
        var c := Value(s[2]);
        if |s| == 4 && s[3] == '=' then Some([Byte0(a, b), Byte1(b, c)])
        else if !IsDigit(s[3]) then None
        else
          var d := Value(s[3]);
          match DecodeStrict(s[4..])
          case None => None
          case Some(rest) => Some([Byte0(a, b), Byte1(b, c), Byte2(c, d)] + rest)
  }

  /** The character test of write_file: every character other than a newline
      is in the alphabet or is `=`. */
  predicate OnlyPayloadChars(content: string) {
    forall i :: 0 <= i < |content| && content[i] != '\n' ==> content[i] in PayloadChars()
  }

  /** write_file's binary test: the bytes to write when the content is taken
      as base64, None when it is written as text. */
  function DetectBinary(content: string): (r: Option<seq<byte>>)
    ensures r.Some? <==> |content| > 0 && DecodeStrict(content).Some?
    ensures r.Some? ==> r == DecodeStrict(content)
    ensures '\n' in content ==> r.None?
  {
    DecodedHasNoNewline(content);
    if |content| > 0 && OnlyPayloadChars(content) then DecodeStrict(content) else None
  }

  /** Whatever decodes strictly is made of digits and `=` only. */
  lemma {:induction false} DecodedIsPayload(s: string)
    requires DecodeStrict(s).Some?
    ensures forall i :: 0 <= i < |s| ==> IsDigit(s[i]) || s[i] == '='
    ensures OnlyPayloadChars(s)
    decreases |s|
  {
    if |s| > 4 {
      DecodedIsPayload(s[4..]);
      forall i | 0 <= i < |s| ensures IsDigit(s[i]) || s[i] == '=' {
        if i >= 4 { assert s[i] == s[4..][i - 4]; }
      }
    }
    forall i | 0 <= i < |s| ensures s[i] in PayloadChars() {
      AlphabetIsStandard(s[i]);
    }
  }

  lemma DecodedHasNoNewline(s: string)
    ensures DecodeStrict(s).Some? ==> OnlyPayloadChars(s) && '\n' !in s
  {
    if DecodeStrict(s).Some? {
      DecodedIsPayload(s);
      assert forall i :: 0 <= i < |s| ==> s[i] != '\n';
    }
  }

  /** The digit values `b64encode` computes give back the bytes they came from. */
  lemma EncodeGroup(x: int, y: int, z: int)
    requires 0 <= x < 256 && 0 <= y < 256 && 0 <= z < 256
    ensures Byte0(x / 4, x % 4 * 16 + y / 16) as int == x
    ensures Byte1(x % 4 * 16 + y / 16, y % 16 * 4 + z / 64) as int == y
    ensures Byte2(y % 16 * 4 + z / 64, z % 64) as int == z
    ensures Byte1(x % 4 * 16 + y / 16, y % 16 * 4) as int == y
  {
  }

  /** Decoding what was encoded gives back the bytes. */
  lemma {:induction false} DecodeEncode(b: seq<byte>)
    ensures DecodeStrict(Encode(b)) == Some(b)
    decreases |b|
  {
    if |b| == 1 {
      DecodeEncodeOne(b);
    } else if |b| == 2 {
      DecodeEncodeTwo(b);
    } else if |b| >= 3 {
      SplitThree(b);
      DecodeEncode(b[3..]);
      DecodeEncodeGroup(b);
    }
  }

  lemma SplitThree(b: seq<byte>)
    requires |b| >= 3
    ensures [b[0], b[1], b[2]] + b[3..] == b
  {
  }

  lemma DecodeEncodeOne(b: seq<byte>)
    requires |b| == 1
    ensures DecodeStrict(Encode(b)) == Some(b)
  {
    var s := Encode(b);
    var x := b[0] as int;
    EncodeGroup(x, 0, 0);
    assert Value(s[0]) == x / 4 && Value(s[1]) == x % 4 * 16;
    assert [b[0]] == b;
  }

  lemma DecodeEncodeTwo(b: seq<byte>)
    requires |b| == 2
    ensures DecodeStrict(Encode(b)) == Some(b)
  {
    var s := Encode(b);
    var x, y := b[0] as int, b[1] as int;
    EncodeGroup(x, y, 0);
    assert Value(s[0]) == x / 4 && Value(s[1]) == x % 4 * 16 + y / 16 && Value(s[2]) == y % 16 * 4;
    assert s[2] != '=';
    assert [b[0], b[1]] == b;
  }

  /** The first four digits decode to the first three bytes. */
  lemma DecodeEncodeGroup(b: seq<byte>)
    requires |b| >= 3
    ensures DecodeStrict(Encode(b)) ==
      match DecodeStrict(Encode(b[3..]))
      case None => None
      case Some(rest) => Some([b[0], b[1], b[2]] + rest)
  {
    EncodeHead(b);
    DecodeGroup(Encode(b), b[0] as int, b[1] as int, b[2] as int);
  }

  /** Four digits carrying the values `b64encode` gives three bytes decode to those bytes. */
  lemma DecodeGroup(s: string, x: int, y: int, z: int)
    requires 0 <= x < 256 && 0 <= y < 256 && 0 <= z < 256
    requires |s| >= 4 && IsDigit(s[0]) && IsDigit(s[1]) && IsDigit(s[2]) && IsDigit(s[3])
    requires Value(s[0]) == x / 4 && Value(s[1]) == x % 4 * 16 + y / 16
    requires Value(s[2]) == y % 16 * 4 + z / 64 && Value(s[3]) == z % 64
    ensures DecodeStrict(s) ==
      match DecodeStrict(s[4..])
      case None => None
      case Some(rest) => Some([x as byte, y as byte, z as byte] + rest)
  {
    DecodeQuad(s);
    EncodeGroup(x, y, z);
  }

  /** The first four digits `b64encode` writes for three or more bytes. */
  lemma EncodeHead(b: seq<byte>)
    requires |b| >= 3
    ensures var s := Encode(b);
      && |s| >= 4 && s[4..] == Encode(b[3..])
      && IsDigit(s[0]) && IsDigit(s[1]) && IsDigit(s[2]) && IsDigit(s[3])
      && Value(s[0]) == b[0] as int / 4 && Value(s[1]) == b[0] as int % 4 * 16 + b[1] as int / 16
      && Value(s[2]) == b[1] as int % 16 * 4 + b[2] as int / 64 && Value(s[3]) == b[2] as int % 64
  {
  }

  /** Four digits in front decode to three bytes in front. */
  lemma DecodeQuad(s: string)
    requires |s| >= 4 && IsDigit(s[0]) && IsDigit(s[1]) && IsDigit(s[2]) && IsDigit(s[3])
    ensures DecodeStrict(s) ==
      match DecodeStrict(s[4..])
      case None => None
      case Some(rest) =>
        Some([Byte0(Value(s[0]), Value(s[1])), Byte1(Value(s[1]), Value(s[2])), Byte2(Value(s[2]), Value(s[3]))] + rest)
  {
  }

  /** Writing back the content of a binary read restores the same bytes:
      a non-empty encoding is always taken as binary by write_file. */
  lemma BinaryWriteBack(b: seq<byte>)
    requires |b| > 0
    ensures DetectBinary(Encode(b)) == Some(b)
  {
    DecodeEncode(b);
  }

  /** Strict decoding accepts digits with unused low bits set, so a valid
      payload need not come back unchanged: "QR==" is written as the byte 65,
      which reads back as "QQ==". */
  lemma NonCanonicalPayload()
    ensures DetectBinary("QR==") == Some([65])
    ensures Encode([65]) == "QQ==" != "QR=="
  {
    assert Value('Q') == 16 && Value('R') == 17;
    assert DecodeStrict("QR==") == Some([65]);
    assert Digit(16) == 'Q';
  }

  /** The payload test also catches ordinary words: any text of a multiple of
      four letters decodes, so the word "test" is stored as three bytes. */
  lemma PlainWordIsPayload()
    ensures DetectBinary("test") == Some([181, 235, 45])
  {
    var s := "test";
    assert IsDigit(s[0]) && IsDigit(s[1]) && IsDigit(s[2]) && IsDigit(s[3]);
    assert Value(s[0]) == 45 && Value(s[1]) == 30 && Value(s[2]) == 44 && Value(s[3]) == 45;
    assert DecodeStrict(s[4..]) == Some([]);
    assert [181 as byte, 235, 45] + [] == [181, 235, 45];
    assert DecodeStrict(s) == Some([181, 235, 45]);
  }
}
