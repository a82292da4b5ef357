/**
 * The base64 encoding of section 4 of RFC 4648 (standard alphabet, `=` padding),
 * as produced by Node's `Buffer.prototype.toString('base64')`, together with a
 * strict decoder that accepts exactly the canonical encodings.
 */
module Base64 {
  import opened Wrappers
  import opened Bytes

  /** Characters of the alphabet of section 4 of RFC 4648. */
  predicate IsBase64Char(c: char) {
    ('A' <= c <= 'Z') || ('a' <= c <= 'z') || ('0' <= c <= '9') || c == '+' || c == '/'
  }

  /** The alphabet character that stands for the 6-bit value `i`. */
  function CharOf(i: nat): (c: char)
    requires i < 64
    ensures IsBase64Char(c)
  {
    if i < 26 then ('A' as int + i) as char
    else if i < 52 then ('a' as int + (i - 26)) as char
    else if i < 62 then ('0' as int + (i - 52)) as char
    else if i == 62 then '+'
    else '/'
  }

  /** The 6-bit value an alphabet character stands for. */
  function IndexOf(c: char): (i: nat)
    requires IsBase64Char(c)
    ensures i < 64 && CharOf(i) == c
  {
    if 'A' <= c <= 'Z' then c as int - 'A' as int
    else if 'a' <= c <= 'z' then c as int - 'a' as int + 26
    else if '0' <= c <= '9' then c as int - '0' as int + 52
    else if c == '+' then 62
    else 63
  }

  /** Distinct 6-bit values get distinct characters. */
  lemma IndexOfCharOf(i: nat)
    requires i < 64
    ensures IndexOf(CharOf(i)) == i
  {
    var j := IndexOf(CharOf(i));
    assert CharOf(j) == CharOf(i);
  }

  /** Three octets as four characters. */
  function EncodeTriple(a: byte, b: byte, c: byte): (s: string)
    ensures |s| == 4 && forall i :: 0 <= i < 4 ==> IsBase64Char(s[i])
  {
    var x, y, z := a as int, b as int, c as int;
    [CharOf(x / 4), CharOf((x % 4) * 16 + y / 16), CharOf((y % 16) * 4 + z / 64), CharOf(z % 64)]
  }

  /** A final group of two octets: three characters and one `=`. */
  function EncodePair(a: byte, b: byte): string {
    var x, y := a as int, b as int;
    [CharOf(x / 4), CharOf((x % 4) * 16 + y / 16), CharOf((y % 16) * 4), '=']
  }

  /** A final group of one octet: two characters and `==`. */
  function EncodeSingle(a: byte): string {
    var x := a as int;
    [CharOf(x / 4), CharOf((x % 4) * 16), '=', '=']
  }

  /** The base64 text of `data`: one group of four characters per three octets, the last group padded. */
  function Encode(data: seq<byte>): (s: string)
    ensures |s| == 4 * ((|data| + 2) / 3)
    decreases |data|
  {
    if |data| == 0 then ""
    else if |data| == 1 then EncodeSingle(data[0])
    else if |data| == 2 then EncodePair(data[0], data[1])
    else EncodeTriple(data[0], data[1], data[2]) + Encode(data[3..])
  }

  /**
   * Encoded text uses only the alphabet and `=`; `=` appears only in the last
   * group, and not at all when the length of the data is a multiple of three.
   */
  lemma {:induction false} EncodeAlphabet(data: seq<byte>)
    ensures forall i :: 0 <= i < |Encode(data)| ==> IsBase64Char(Encode(data)[i]) || Encode(data)[i] == '='
    ensures forall i :: 0 <= i < |Encode(data)| - 4 ==> IsBase64Char(Encode(data)[i])
    ensures |data| % 3 == 0 ==> forall i :: 0 <= i < |Encode(data)| ==> IsBase64Char(Encode(data)[i])
    decreases |data|
  {
    if |data| > 3 {
      EncodeAlphabet(data[3..]);
      var head, rest := EncodeTriple(data[0], data[1], data[2]), Encode(data[3..]);
      assert Encode(data) == head + rest;
      assert |data[3..]| % 3 == |data| % 3;
      assert |rest| >= 4;
      AlphabetCons(head, rest, |data| % 3 == 0);
    }
  }

  lemma AlphabetCons(head: string, rest: string, whole: bool)
    requires |head| == 4 && forall i :: 0 <= i < 4 ==> IsBase64Char(head[i])
    requires |rest| >= 4
    requires forall i :: 0 <= i < |rest| ==> IsBase64Char(rest[i]) || rest[i] == '='
    requires forall i :: 0 <= i < |rest| - 4 ==> IsBase64Char(rest[i])
    requires whole ==> forall i :: 0 <= i < |rest| ==> IsBase64Char(rest[i])
    ensures var s := head + rest;
      && (forall i :: 0 <= i < |s| ==> IsBase64Char(s[i]) || s[i] == '=')
      && (forall i :: 0 <= i < |s| - 4 ==> IsBase64Char(s[i]))
      && (whole ==> forall i :: 0 <= i < |s| ==> IsBase64Char(s[i]))
  {
    var s := head + rest;
    forall i | 4 <= i < |s| ensures s[i] == rest[i - 4] {
    }
  }

  /** A group of four alphabet characters as three octets. */
  function DecodeTriple(s: string): Option<seq<byte>>
    requires |s| == 4
  {
    if IsBase64Char(s[0]) && IsBase64Char(s[1]) && IsBase64Char(s[2]) && IsBase64Char(s[3]) then
      var i, j, k, l := IndexOf(s[0]), IndexOf(s[1]), IndexOf(s[2]), IndexOf(s[3]);
      Some([(i * 4 + j / 16) as byte, ((j % 16) * 16 + k / 4) as byte, ((k % 4) * 64 + l) as byte])
    else None
  }

  /**
   * The last group of four characters, which may carry one or two `=`; the bits
   * a padded group does not use must be zero, so that only canonical text decodes.
   */
  function DecodeLast(s: string): Option<seq<byte>>
    requires |s| == 4
  {
    if s[2] == '=' && s[3] == '=' then
      if IsBase64Char(s[0]) && IsBase64Char(s[1]) && IndexOf(s[1]) % 16 == 0 then
        Some([(IndexOf(s[0]) * 4 + IndexOf(s[1]) / 16) as byte])
      else None
    else if s[3] == '=' then
      if IsBase64Char(s[0]) && IsBase64Char(s[1]) && IsBase64Char(s[2]) && IndexOf(s[2]) % 4 == 0 then
        var i, j, k := IndexOf(s[0]), IndexOf(s[1]), IndexOf(s[2]);
        Some([(i * 4 + j / 16) as byte, ((j % 16) * 16 + k / 4) as byte])
      else None
    else DecodeTriple(s)
  }

  /** Strict decoding of base64 text; `None` for anything that is not the encoding of some octets. */
  function Decode(s: string): (r: Option<seq<byte>>)
    decreases |s|
  {
    if |s| == 0 then Some([])
    else if |s| < 4 then None
    else if |s| == 4 then DecodeLast(s)
    else
      match DecodeTriple(s[..4])
      case None => None
      case Some(head) =>
        match Decode(s[4..])
        case None => None
        case Some(tail) => Some(head + tail)
  }

  /** Regrouping three octets into four 6-bit values and back is lossless. */
  lemma SplitTriple(x: int, y: int, z: int)
    requires 0 <= x < 256 && 0 <= y < 256 && 0 <= z < 256
    ensures var i, j, k, l := x / 4, (x % 4) * 16 + y / 16, (y % 16) * 4 + z / 64, z % 64;
      && 0 <= i < 64 && 0 <= j < 64 && 0 <= k < 64 && 0 <= l < 64
      && i * 4 + j / 16 == x && (j % 16) * 16 + k / 4 == y && (k % 4) * 64 + l == z
  {
  }

  /** Regrouping four 6-bit values into three octets and back is lossless. */
  lemma JoinTriple(i: int, j: int, k: int, l: int)
    requires 0 <= i < 64 && 0 <= j < 64 && 0 <= k < 64 && 0 <= l < 64
    ensures var x, y, z := i * 4 + j / 16, (j % 16) * 16 + k / 4, (k % 4) * 64 + l;
      && 0 <= x < 256 && 0 <= y < 256 && 0 <= z < 256
      && x / 4 == i && (x % 4) * 16 + y / 16 == j && (y % 16) * 4 + z / 64 == k && z % 64 == l
  {
  }

  lemma TripleRoundTrip(a: byte, b: byte, c: byte)
    ensures DecodeTriple(EncodeTriple(a, b, c)) == Some([a, b, c])
    ensures DecodeLast(EncodeTriple(a, b, c)) == Some([a, b, c])
  {
    var x, y, z := a as int, b as int, c as int;
    SplitTriple(x, y, z);
    var i, j, k, l := x / 4, (x % 4) * 16 + y / 16, (y % 16) * 4 + z / 64, z % 64;
    IndexOfCharOf(i);
    IndexOfCharOf(j);
    IndexOfCharOf(k);
    IndexOfCharOf(l);
    var s := EncodeTriple(a, b, c);
    assert s == [CharOf(i), CharOf(j), CharOf(k), CharOf(l)];
    assert IndexOf(s[0]) == i && IndexOf(s[1]) == j && IndexOf(s[2]) == k && IndexOf(s[3]) == l;
  }

  lemma PairRoundTrip(a: byte, b: byte)
    ensures DecodeLast(EncodePair(a, b)) == Some([a, b])
  {
    var x, y := a as int, b as int;
    SplitTriple(x, y, 0);
    var i, j, k := x / 4, (x % 4) * 16 + y / 16, (y % 16) * 4;
    IndexOfCharOf(i);
    IndexOfCharOf(j);
    IndexOfCharOf(k);
    var s := EncodePair(a, b);
    assert s == [CharOf(i), CharOf(j), CharOf(k), '='];
    assert IndexOf(s[0]) == i && IndexOf(s[1]) == j && IndexOf(s[2]) == k;
  }

  lemma SingleRoundTrip(a: byte)
    ensures DecodeLast(EncodeSingle(a)) == Some([a])
  {
    var x := a as int;
    SplitTriple(x, 0, 0);
    var i, j := x / 4, (x % 4) * 16;
    IndexOfCharOf(i);
    IndexOfCharOf(j);
    var s := EncodeSingle(a);
    assert s == [CharOf(i), CharOf(j), '=', '='];
    assert IndexOf(s[0]) == i && IndexOf(s[1]) == j;
  }

  /** A full group in front of further groups decodes on its own. */
  lemma DecodeCons(head: string, rest: string)
    requires |head| == 4 && DecodeTriple(head).Some?
    requires |rest| > 0 && Decode(rest).Some?
    ensures Decode(head + rest) == Some(DecodeTriple(head).value + Decode(rest).value)
  {
    var s := head + rest;
    assert s[..4] == head && s[4..] == rest;
  }

  lemma DecodeEncodeTriple(data: seq<byte>)
    requires |data| == 3
    ensures Decode(Encode(data)) == Some(data)
  {
    TripleRoundTrip(data[0], data[1], data[2]);
    assert Encode(data[3..]) == "";
    assert Encode(data) == EncodeTriple(data[0], data[1], data[2]);
    assert data == [data[0], data[1], data[2]];
  }

  lemma SplitFront(data: seq<byte>)
    requires |data| >= 3
    ensures data == [data[0], data[1], data[2]] + data[3..]
  {
  }

  lemma DecodeEncodeStep(data: seq<byte>)
    requires |data| > 3 && Decode(Encode(data[3..])) == Some(data[3..])
    ensures Decode(Encode(data)) == Some(data)
  {
    SplitFront(data);
    var head, rest := EncodeTriple(data[0], data[1], data[2]), Encode(data[3..]);
    assert Encode(data) == head + rest;
    TripleRoundTrip(data[0], data[1], data[2]);
    DecodeCons(head, rest);
  }

  /** Decoding gives back every encoded octet sequence. */
  lemma {:induction false} DecodeEncode(data: seq<byte>)
    ensures Decode(Encode(data)) == Some(data)
    decreases |data|
  {
    if |data| == 0 {
    } else if |data| == 1 {
      SingleRoundTrip(data[0]);
      assert data == [data[0]];
    } else if |data| == 2 {
      PairRoundTrip(data[0], data[1]);
      assert data == [data[0], data[1]];
    } else if |data| == 3 {
      DecodeEncodeTriple(data);
    } else {
      DecodeEncode(data[3..]);
      DecodeEncodeStep(data);
    }
  }

  lemma TripleCanonical(s: string)
    requires |s| == 4 && DecodeTriple(s).Some?
    ensures var d := DecodeTriple(s).value; |d| == 3 && EncodeTriple(d[0], d[1], d[2]) == s
  {
    var i, j, k, l := IndexOf(s[0]), IndexOf(s[1]), IndexOf(s[2]), IndexOf(s[3]);
    JoinTriple(i, j, k, l);
    var d := DecodeTriple(s).value;
    var x, y, z := d[0] as int, d[1] as int, d[2] as int;
    assert x == i * 4 + j / 16 && y == (j % 16) * 16 + k / 4 && z == (k % 4) * 64 + l;
    assert x / 4 == i && (x % 4) * 16 + y / 16 == j && (y % 16) * 4 + z / 64 == k && z % 64 == l;
    assert EncodeTriple(d[0], d[1], d[2]) == [CharOf(i), CharOf(j), CharOf(k), CharOf(l)];
    assert s == [s[0], s[1], s[2], s[3]];
  }

  lemma PairCanonical(s: string)
    requires |s| == 4 && s[3] == '=' && s[2] != '=' && DecodeLast(s).Some?
    ensures var d := DecodeLast(s).value; |d| == 2 && EncodePair(d[0], d[1]) == s
  {
    var i, j, k := IndexOf(s[0]), IndexOf(s[1]), IndexOf(s[2]);
    JoinTriple(i, j, k, 0);
    var d := DecodeLast(s).value;
    assert d[0] as int == i * 4 + j / 16 && d[1] as int == (j % 16) * 16 + k / 4;
    assert (d[1] as int % 16) * 4 == k;
    assert EncodePair(d[0], d[1]) == [CharOf(i), CharOf(j), CharOf(k), '='];
  }

  lemma SingleCanonical(s: string)
    requires |s| == 4 && s[2] == '=' && s[3] == '=' && DecodeLast(s).Some?
    ensures var d := DecodeLast(s).value; |d| == 1 && EncodeSingle(d[0]) == s
  {
    var i, j := IndexOf(s[0]), IndexOf(s[1]);
    JoinTriple(i, j, 0, 0);
    var d := DecodeLast(s).value;
    assert d[0] as int == i * 4 + j / 16;
    assert (d[0] as int % 4) * 16 == j;
    assert EncodeSingle(d[0]) == [CharOf(i), CharOf(j), '=', '='];
  }

  lemma LastCanonical(s: string)
    requires |s| == 4 && DecodeLast(s).Some?
    ensures Encode(DecodeLast(s).value) == s
  {
    if s[2] == '=' && s[3] == '=' {
      SingleCanonical(s);
    } else if s[3] == '=' {
      PairCanonical(s);
    } else {
      TripleCanonical(s);
      var d := DecodeLast(s).value;
      assert Encode(d) == EncodeTriple(d[0], d[1], d[2]) + Encode(d[3..]);
    }
  }

  /** Only canonical text decodes: whatever decodes re-encodes to the very same text. */
  lemma {:induction false} EncodeDecode(s: string)
    requires Decode(s).Some?
    ensures Encode(Decode(s).value) == s
    decreases |s|
  {
    if |s| == 0 {
    } else if |s| == 4 {
      LastCanonical(s);
    } else {
      var head := DecodeTriple(s[..4]).value;
      var tail := Decode(s[4..]).value;
      EncodeDecode(s[4..]);
      TripleCanonical(s[..4]);
      var d := head + tail;
      assert d[3..] == tail;
      assert s == s[..4] + s[4..];
    }
  }

  /** The test vectors of section 10 of RFC 4648, on the octets of "foobar". */
  lemma Rfc4648Vectors()
    ensures Encode([]) == ""
    ensures Encode([102]) == "Zg=="
    ensures Encode([102, 111]) == "Zm8="
    ensures Encode([102, 111, 111]) == "Zm9v"
    ensures Encode([102, 111, 111, 98]) == "Zm9vYg=="
    ensures Encode([102, 111, 111, 98, 97]) == "Zm9vYmE="
    ensures Encode([102, 111, 111, 98, 97, 114]) == "Zm9vYmFy"
  {
  }
}
