/** `decode64` (src/lib.rs:104-123): the phpass digest field is decoded by
    reversing it, prefixing `3 - len % 3` filler symbols, running the crypt
    base64 engine over the result, reversing the bytes that come out and
    keeping the first 16. The engine reads each symbol as its index in the
    alphabet and each group of four symbols as a big-endian 24-bit number.

    Beside the pipeline as written, this module gives phpass's own reading
    of the field (little-endian groups, `PhpassDecode`) and its encoder
    (`Encode64`), and proves the three agree. */
module Decoder {
  import opened Common
  import opened Alphabet

  /** The engine's error (`base64::DecodeError`). Which byte or offset
      failed is not modelled. */
  datatype DecodeError = InvalidByte

  /** The symbol of value 0, used as filler. */
  const FILLER: Byte := '.' as int

  /** Length of an MD5 digest. */
  const DIGEST_LEN: nat := 16

  /** Length of the digest field of a `$H$` hash. */
  const FIELD_LEN: nat := 22

  function Min(a: nat, b: nat): nat
  {
    if a <= b then a else b
  }

  // ---------------------------------------------------------------------
  // Digits of a number in a given base
  // ---------------------------------------------------------------------

  /** Six-bit digit `t` of `n`, least significant first. */
  function SixBits(n: nat, t: nat): (d: nat)
    ensures d < 64
  {
    if t == 0 then n % 64 else SixBits(n / 64, t - 1)
  }

  /** Byte `j` of `n`, least significant first. */
  function ByteOf(n: nat, j: nat): (b: Byte)
  {
    if j == 0 then n % 256 else ByteOf(n / 256, j - 1)
  }

  lemma SixBitsHorner(a: nat, m: nat, t: nat)
    requires a < 64
    ensures SixBits(a + 64 * m, 0) == a
    ensures SixBits(a + 64 * m, t + 1) == SixBits(m, t)
  {
    assert (a + 64 * m) / 64 == m;
  }

  lemma ByteOfHorner(a: nat, m: nat, j: nat)
    requires a < 256
    ensures ByteOf(a + 256 * m, 0) == a
    ensures ByteOf(a + 256 * m, j + 1) == ByteOf(m, j)
  {
    assert (a + 256 * m) / 256 == m;
  }

  /** Four base-64 digits give back any 24-bit number. */
  lemma Recombine64(n: nat)
    requires n < 0x100_0000
    ensures n == SixBits(n, 0) + 64 * (SixBits(n, 1) + 64 * (SixBits(n, 2) + 64 * SixBits(n, 3)))
  {
    var q1 := n / 64;
    var q2 := q1 / 64;
    var q3 := q2 / 64;
    assert SixBits(n, 1) == q1 % 64;
    assert SixBits(n, 2) == q2 % 64;
    assert SixBits(n, 3) == q3 % 64;
    assert q3 < 64;
  }

  /** Three bytes give back any 24-bit number. */
  lemma Recombine256(n: nat)
    requires n < 0x100_0000
    ensures n == ByteOf(n, 0) + 256 * (ByteOf(n, 1) + 256 * ByteOf(n, 2))
  {
    var q1 := n / 256;
    var q2 := q1 / 256;
    assert ByteOf(n, 1) == q1 % 256;
    assert ByteOf(n, 2) == q2 % 256;
    assert q2 < 256;
  }

  // ---------------------------------------------------------------------
  // The crypt base64 engine (`base64::decode_config(_, base64::CRYPT)`)
  // ---------------------------------------------------------------------

  /** Four symbols as a 24-bit number, the first symbol most significant. */
  function QuadValue(q: seq<Byte>): (n: nat)
    requires |q| == 4 && InAlphabet(q)
    ensures n < 0x100_0000
  {
    Value(q[3]) + 64 * (Value(q[2]) + 64 * (Value(q[1]) + 64 * Value(q[0])))
  }

  /** A 24-bit number as three bytes, most significant first. */
  function BigEndian3(n: nat): seq<Byte>
  {
    [ByteOf(n, 2), ByteOf(n, 1), ByteOf(n, 0)]
  }

  function DecodeQuad(q: seq<Byte>): Result<seq<Byte>, DecodeError>
    requires |q| == 4
  {
    if InAlphabet(q) then Ok(BigEndian3(QuadValue(q))) else Err(InvalidByte)
  }

  lemma InAlphabetSplit(s: seq<Byte>, k: nat)
    requires k <= |s|
    ensures InAlphabet(s) <==> InAlphabet(s[..k]) && InAlphabet(s[k..])
  {
    if InAlphabet(s[..k]) && InAlphabet(s[k..]) {
      forall i | 0 <= i < |s| ensures IsSymbol(s[i]) {
        if i < k { assert s[i] == s[..k][i]; } else { assert s[i] == s[k..][i - k]; }
      }
    }
  }

  /** The engine on an input made of whole groups of four symbols: it fails
      exactly when some byte is not a symbol, and otherwise yields three
      bytes per group. */
  function CryptDecode(s: seq<Byte>): (r: Result<seq<Byte>, DecodeError>)
    requires |s| % 4 == 0
    ensures r.Ok? <==> InAlphabet(s)
    ensures r.Ok? ==> |r.value| == |s| / 4 * 3
    decreases |s|
  {
    if s == [] then Ok([])
    else
      InAlphabetSplit(s, 4);
      match DecodeQuad(s[..4])
      case Err(e) => Err(e)
      case Ok(group) =>
        match CryptDecode(s[4..])
        case Err(e) => Err(e)
        case Ok(rest) => Ok(group + rest)
  }

  /** Bytes 3g, 3g+1, 3g+2 of the engine's output are group g of its input. */
  lemma {:induction false} CryptDecodeAt(s: seq<Byte>, g: nat, j: nat)
    requires |s| % 4 == 0 && InAlphabet(s) && g < |s| / 4 && j < 3
    ensures |s[4 * g..4 * g + 4]| == 4 && InAlphabet(s[4 * g..4 * g + 4])
    ensures CryptDecode(s).value[3 * g + j] == BigEndian3(QuadValue(s[4 * g..4 * g + 4]))[j]
    decreases g
  {
    InAlphabetSplit(s, 4);
    var r := CryptDecode(s).value;
    var group := BigEndian3(QuadValue(s[..4]));
    var rest := CryptDecode(s[4..]).value;
    assert r == group + rest;
    if g == 0 {
      assert s[4 * g..4 * g + 4] == s[..4];
    } else {
      CryptDecodeAt(s[4..], g - 1, j);
      assert s[4..][4 * (g - 1)..4 * (g - 1) + 4] == s[4 * g..4 * g + 4];
      assert r[3 * g + j] == rest[3 * (g - 1) + j];
    }
  }

  // ---------------------------------------------------------------------
  // decode64 as written
  // ---------------------------------------------------------------------

  /** The engine's input: filler symbols, then the field reversed. */
  function Padded(val: seq<Byte>): (r: seq<Byte>)
    ensures |r| % 3 == 0 && 1 <= |r| - |val| <= 3
    ensures forall i :: 0 <= i < |r| - |val| ==> r[i] == FILLER
    ensures forall i :: 0 <= i < |val| ==> r[|r| - 1 - i] == val[i]
  {
    seq(3 - |val| % 3, _ => FILLER) + Reverse(val)
  }

  lemma PaddedInAlphabet(val: seq<Byte>)
    ensures InAlphabet(Padded(val)) <==> InAlphabet(val)
  {
    var r := Padded(val);
    var pad := |r| - |val|;
    assert IsSymbol(FILLER);
    if InAlphabet(r) {
      forall i | 0 <= i < |val| ensures IsSymbol(val[i]) {
        assert r[|r| - 1 - i] == val[i];
      }
    }
    if InAlphabet(val) {
      forall i | 0 <= i < |r| ensures IsSymbol(r[i]) {
        if i >= pad {
          assert r[|r| - 1 - (|r| - 1 - i)] == val[|r| - 1 - i];
        }
      }
    }
  }

  /** `decode64` at its one call site, a 22-symbol field. */
  function Decode64(val: seq<Byte>): (r: Result<seq<Byte>, DecodeError>)
    requires |val| == FIELD_LEN
    ensures r.Ok? <==> InAlphabet(val)
    ensures r.Ok? ==> |r.value| == DIGEST_LEN
  {
    PaddedInAlphabet(val);
    match CryptDecode(Padded(val))
    case Err(e) => Err(e)
    case Ok(bytes) =>
      var rev := Reverse(bytes);
      Ok(rev[..Min(DIGEST_LEN, |rev|)])
  }

  // ---------------------------------------------------------------------
  // phpass's own reading of the field, and its encoder
  // ---------------------------------------------------------------------

  /** The value of the symbol at position `i`; positions past the end read as 0. */
  function Digit(f: seq<Byte>, i: nat): (d: nat)
    requires InAlphabet(f)
    ensures d < 64
  {
    if i < |f| then Value(f[i]) else 0
  }

  /** Group `h` of a phpass field: symbols 4h .. 4h+3, least significant first. */
  function Group(f: seq<Byte>, h: nat): (n: nat)
    requires InAlphabet(f)
    ensures n < 0x100_0000
  {
    Digit(f, 4 * h) + 64 * (Digit(f, 4 * h + 1) + 64 * (Digit(f, 4 * h + 2) + 64 * Digit(f, 4 * h + 3)))
  }

  /** The digest a phpass field stands for: byte k is byte k % 3 of group k / 3. */
  function PhpassDecode(f: seq<Byte>): (d: seq<Byte>)
    requires InAlphabet(f)
    ensures |d| == DIGEST_LEN
  {
    seq(DIGEST_LEN, k requires 0 <= k < DIGEST_LEN => ByteOf(Group(f, k / 3), k % 3))
  }

  /** Byte `i` of `d`; positions past the end read as 0. */
  function ByteAt(d: seq<Byte>, i: nat): Byte
  {
    if i < |d| then d[i] else 0
  }

  /** Bytes 3h .. 3h+2 of a digest as a number, least significant first. */
  function LeGroup(d: seq<Byte>, h: nat): (n: nat)
    ensures n < 0x100_0000
  {
    ByteAt(d, 3 * h) + 256 * (ByteAt(d, 3 * h + 1) + 256 * ByteAt(d, 3 * h + 2))
  }

  /** phpass's `_hash_encode64` of a 16-byte digest: symbol p is six-bit
      digit p % 4 of group p / 4. */
  function Encode64(d: seq<Byte>): (f: seq<Byte>)
    requires |d| == DIGEST_LEN
    ensures |f| == FIELD_LEN && InAlphabet(f)
  {
    seq(FIELD_LEN, p requires 0 <= p < FIELD_LEN => Symbol(SixBits(LeGroup(d, p / 4), p % 4)))
  }

  /** The pipeline as written computes phpass's little-endian reading of the
      field: the two reversals turn the engine's big-endian groups around. */
  lemma Decode64IsPhpassDecode(val: seq<Byte>)
    requires |val| == FIELD_LEN && InAlphabet(val)
    ensures Decode64(val) == Ok(PhpassDecode(val))
  {
    var out := Decode64(val).value;
    forall k | 0 <= k < DIGEST_LEN
      ensures out[k] == PhpassDecode(val)[k]
    {
      Decode64At(val, k);
    }
    assert out == PhpassDecode(val);
  }

  /** Output byte k of `decode64` is engine byte 17 - k. */
  lemma Decode64Reversed(val: seq<Byte>, k: nat)
    requires |val| == FIELD_LEN && InAlphabet(val) && k < DIGEST_LEN
    ensures InAlphabet(Padded(val)) && |CryptDecode(Padded(val)).value| == 18
    ensures Decode64(val).value[k] == CryptDecode(Padded(val)).value[17 - k]
  {
    PaddedInAlphabet(val);
    var bytes := CryptDecode(Padded(val)).value;
    assert Decode64(val).value[k] == Reverse(bytes)[k];
  }

  /** Output byte k of `decode64` is byte k % 3 of group k / 3 of the field. */
  lemma Decode64At(val: seq<Byte>, k: nat)
    requires |val| == FIELD_LEN && InAlphabet(val) && k < DIGEST_LEN
    ensures Decode64(val).value[k] == ByteOf(Group(val, k / 3), k % 3)
  {
    var h := k / 3;
    Decode64Reversed(val, k);
    EngineGroup(val, 5 - h);
    if k % 3 == 0 {
      assert 17 - k == 3 * (5 - h) + 2;
    } else if k % 3 == 1 {
      assert 17 - k == 3 * (5 - h) + 1;
    } else {
      assert 17 - k == 3 * (5 - h);
    }
  }

  /** Engine bytes 3g .. 3g+2 are group 5 - g of the field, most significant
      byte first. */
  lemma EngineGroup(val: seq<Byte>, g: nat)
    requires |val| == FIELD_LEN && InAlphabet(val) && g < 6
    ensures InAlphabet(Padded(val)) && |CryptDecode(Padded(val)).value| == 18
    ensures var bytes, n := CryptDecode(Padded(val)).value, Group(val, 5 - g);
      bytes[3 * g] == ByteOf(n, 2) && bytes[3 * g + 1] == ByteOf(n, 1) && bytes[3 * g + 2] == ByteOf(n, 0)
  {
    PaddedInAlphabet(val);
    var p := Padded(val);
    CryptDecodeAt(p, g, 0);
    CryptDecodeAt(p, g, 1);
    CryptDecodeAt(p, g, 2);
    PaddedQuad(val, g);
  }

  /** Position i of the 24-symbol engine input. */
  lemma PaddedAt(val: seq<Byte>, i: nat)
    requires |val| == FIELD_LEN && i < 24
    ensures |Padded(val)| == 24
    ensures Padded(val)[i] == if i < 2 then FILLER else val[23 - i]
  {
    var p := Padded(val);
    if i >= 2 {
      assert p[|p| - 1 - (23 - i)] == val[23 - i];
    }
  }

  /** Group g of the padded input is group 5 - g of the field. */
  lemma PaddedQuad(val: seq<Byte>, g: nat)
    requires |val| == FIELD_LEN && InAlphabet(val) && g < 6
    ensures InAlphabet(Padded(val)) && |Padded(val)| == 24
    ensures var q := Padded(val)[4 * g..4 * g + 4];
      |q| == 4 && InAlphabet(q) && QuadValue(q) == Group(val, 5 - g)
  {
    var p := Padded(val);
    PaddedInAlphabet(val);
    var h := 5 - g;
    var q := p[4 * g..4 * g + 4];
    InAlphabetSplit(p, 4 * g);
    InAlphabetSplit(p[4 * g..], 4);
    ValueOfSymbol(0);
    forall t | 0 <= t < 4
      ensures Value(q[t]) == Digit(val, 4 * h + 3 - t)
    {
      PaddedAt(val, 4 * g + t);
      assert q[t] == p[4 * g + t];
    }
  }

  /** The symbol values of `Encode64(d)` are the six-bit digits of its groups. */
  lemma EncodeDigits(d: seq<Byte>, h: nat, t: nat)
    requires |d| == DIGEST_LEN && h < 6 && t < 4
    ensures Digit(Encode64(d), 4 * h + t) == SixBits(LeGroup(d, h), t)
  {
    var p := 4 * h + t;
    if p < FIELD_LEN {
      ValueOfSymbol(SixBits(LeGroup(d, h), t));
      assert p / 4 == h && p % 4 == t;
    } else {
      var n := LeGroup(d, h);
      assert h == 5 && n == d[15] && t >= 2;
      assert SixBits(n, t) == SixBits(n / 64, t - 1) == SixBits(n / 64 / 64, t - 2);
      assert n / 64 / 64 == 0;
      assert SixBits(0, 1) == SixBits(0, 0) == 0;
    }
  }

  lemma LeGroupBytes(d: seq<Byte>, h: nat, j: nat)
    requires j < 3
    ensures ByteOf(LeGroup(d, h), j) == ByteAt(d, 3 * h + j)
  {
    var b0: nat, b1: nat, b2: nat := ByteAt(d, 3 * h), ByteAt(d, 3 * h + 1), ByteAt(d, 3 * h + 2);
    ByteOfHorner(b0, b1 + 256 * b2, 0);
    ByteOfHorner(b1, b2, 0);
    if j == 2 {
      ByteOfHorner(b0, b1 + 256 * b2, 1);
      ByteOfHorner(b1, b2, 0);
      ByteOfHorner(b2, 0, 0);
      assert ByteOf(b1 + 256 * b2, 1) == ByteOf(b2, 0);
    }
  }

  /** Each group of `Encode64(d)` reads back as the group of `d` it encodes. */
  lemma GroupOfEncode(d: seq<Byte>, h: nat)
    requires |d| == DIGEST_LEN && h < 6
    ensures Group(Encode64(d), h) == LeGroup(d, h)
  {
    var n := LeGroup(d, h);
    EncodeDigits(d, h, 0);
    EncodeDigits(d, h, 1);
    EncodeDigits(d, h, 2);
    EncodeDigits(d, h, 3);
    GroupFromDigits(Encode64(d), h, n);
  }

  /** A group whose four digits are those of `n` is `n`. */
  lemma GroupFromDigits(f: seq<Byte>, h: nat, n: nat)
    requires InAlphabet(f) && n < 0x100_0000
    requires Digit(f, 4 * h) == SixBits(n, 0) && Digit(f, 4 * h + 1) == SixBits(n, 1)
    requires Digit(f, 4 * h + 2) == SixBits(n, 2) && Digit(f, 4 * h + 3) == SixBits(n, 3)
    ensures Group(f, h) == n
  {
    Recombine64(n);
  }

  /** Decoding undoes phpass's encoding: every digest survives the round trip. */
  lemma DecodeEncode(d: seq<Byte>)
    requires |d| == DIGEST_LEN
    ensures Decode64(Encode64(d)) == Ok(d)
  {
    var f := Encode64(d);
    Decode64IsPhpassDecode(f);
    forall k | 0 <= k < DIGEST_LEN
      ensures PhpassDecode(f)[k] == d[k]
    {
      DecodeEncodeAt(d, k);
    }
    assert PhpassDecode(f) == d;
  }

  lemma DecodeEncodeAt(d: seq<Byte>, k: nat)
    requires |d| == DIGEST_LEN && k < DIGEST_LEN
    ensures PhpassDecode(Encode64(d))[k] == d[k]
  {
    var h, j := k / 3, k % 3;
    assert k == 3 * h + j;
    GroupOfEncode(d, h);
    LeGroupBytes(d, h, j);
  }

  /** A field as phpass writes it: 22 symbols whose last one carries only
      the two high bits of the last digest byte. */
  predicate Canonical(f: seq<Byte>)
  {
    |f| == FIELD_LEN && InAlphabet(f) && Value(f[FIELD_LEN - 1]) < 4
  }

  /** phpass never writes a non-canonical field. */
  lemma EncodeCanonical(d: seq<Byte>)
    requires |d| == DIGEST_LEN
    ensures Canonical(Encode64(d))
  {
    var n := LeGroup(d, 5);
    assert n == d[15];
    assert SixBits(n, 1) == SixBits(n / 64, 0);
    ValueOfSymbol(SixBits(n, 1));
  }

  lemma SixBitsOfDigits(d0: nat, d1: nat, d2: nat, d3: nat)
    requires d0 < 64 && d1 < 64 && d2 < 64 && d3 < 64
    ensures var n := d0 + 64 * (d1 + 64 * (d2 + 64 * d3));
      SixBits(n, 0) == d0 && SixBits(n, 1) == d1 && SixBits(n, 2) == d2 && SixBits(n, 3) == d3
  {
    var m2 := d2 + 64 * d3;
    var m1 := d1 + 64 * m2;
    SixBitsHorner(d0, m1, 0);
    SixBitsHorner(d0, m1, 1);
    SixBitsHorner(d0, m1, 2);
    SixBitsHorner(d1, m2, 0);
    SixBitsHorner(d1, m2, 1);
    SixBitsHorner(d2, d3, 0);
    SixBitsHorner(d3, 0, 0);
  }

  lemma GroupDigits(f: seq<Byte>, h: nat, t: nat)
    requires InAlphabet(f) && t < 4
    ensures SixBits(Group(f, h), t) == Digit(f, 4 * h + t)
  {
    var d0, d1, d2, d3 := Digit(f, 4 * h), Digit(f, 4 * h + 1), Digit(f, 4 * h + 2), Digit(f, 4 * h + 3);
    var n := Group(f, h);
    assert n == d0 + 64 * (d1 + 64 * (d2 + 64 * d3));
    SixBitsOfDigits(d0, d1, d2, d3);
    if t == 0 {
      assert SixBits(n, t) == d0;
    } else if t == 1 {
      assert SixBits(n, t) == d1;
    } else if t == 2 {
      assert SixBits(n, t) == d2;
    } else {
      assert SixBits(n, t) == d3;
    }
  }

  /** Byte 3h + j of a decoded field is byte j of group h. */
  lemma PhpassDecodeAt(f: seq<Byte>, h: nat, j: nat)
    requires InAlphabet(f) && j < 3 && 3 * h + j < DIGEST_LEN
    ensures ByteAt(PhpassDecode(f), 3 * h + j) == ByteOf(Group(f, h), j)
  {
    var k := 3 * h + j;
    assert k / 3 == h && k % 3 == j;
  }

  lemma LeGroupOfBytes(d: seq<Byte>, h: nat, n: nat)
    requires n < 0x100_0000
    requires forall j :: 0 <= j < 3 ==> ByteAt(d, 3 * h + j) == ByteOf(n, j)
    ensures LeGroup(d, h) == n
  {
    assert ByteAt(d, 3 * h + 0) == ByteOf(n, 0);
    assert ByteAt(d, 3 * h + 1) == ByteOf(n, 1);
    assert ByteAt(d, 3 * h + 2) == ByteOf(n, 2);
    Recombine256(n);
  }

  lemma SmallByte(n: nat)
    requires n < 256
    ensures ByteOf(n, 0) == n
  {
  }

  lemma LeGroupOfDecodeLast(f: seq<Byte>)
    requires Canonical(f)
    ensures LeGroup(PhpassDecode(f), 5) == Group(f, 5)
  {
    var n := Group(f, 5);
    assert n == Value(f[20]) + 64 * Value(f[21]);
    assert n < 256;
    PhpassDecodeAt(f, 5, 0);
    SmallByte(n);
  }

  /** On a canonical field, re-grouping the decoded bytes gives back the
      field's groups. */
  lemma LeGroupOfDecode(f: seq<Byte>, h: nat)
    requires Canonical(f) && h < 6
    ensures LeGroup(PhpassDecode(f), h) == Group(f, h)
  {
    if h < 5 {
      var d := PhpassDecode(f);
      PhpassDecodeAt(f, h, 0);
      PhpassDecodeAt(f, h, 1);
      PhpassDecodeAt(f, h, 2);
      LeGroupOfBytes(d, h, Group(f, h));
    } else {
      LeGroupOfDecodeLast(f);
    }
  }

  lemma EncodeDecodeAt(f: seq<Byte>, p: nat)
    requires Canonical(f) && p < FIELD_LEN
    ensures Encode64(PhpassDecode(f))[p] == f[p]
  {
    var h, t := p / 4, p % 4;
    var d := PhpassDecode(f);
    assert Encode64(d)[p] == Symbol(SixBits(LeGroup(d, h), t));
    LeGroupOfDecode(f, h);
    GroupDigits(f, h, t);
    assert 4 * h + t == p;
    assert SixBits(Group(f, h), t) == Digit(f, p) == Value(f[p]);
  }

  lemma EncodePhpassDecode(f: seq<Byte>)
    requires Canonical(f)
    ensures Encode64(PhpassDecode(f)) == f
  {
    var e := Encode64(PhpassDecode(f));
    forall p | 0 <= p < FIELD_LEN
      ensures e[p] == f[p]
    {
      EncodeDecodeAt(f, p);
    }
  }

  /** Encoding undoes decoding on canonical fields. */
  lemma EncodeDecode(f: seq<Byte>)
    requires Canonical(f)
    ensures Decode64(f).Ok? && Encode64(Decode64(f).value) == f
  {
    Decode64IsPhpassDecode(f);
    EncodePhpassDecode(f);
  }

  lemma PhpassDecodeLastByte(f: seq<Byte>)
    requires |f| == FIELD_LEN && InAlphabet(f)
    ensures PhpassDecode(f)[15] == Value(f[20]) + 64 * (Value(f[21]) % 4)
  {
    var a, b := Value(f[20]), Value(f[21]);
    assert Group(f, 5) == a + 64 * b;
    PhpassDecodeAt(f, 5, 0);
    LowByte(a, b);
  }

  lemma LowByte(a: nat, b: nat)
    requires a < 64 && b < 64
    ensures ByteOf(a + 64 * b, 0) == a + 64 * (b % 4)
  {
    assert a + 64 * b == (a + 64 * (b % 4)) + 256 * (b / 4);
    ByteOfHorner(a + 64 * (b % 4), b / 4, 0);
  }

  lemma PhpassDecodeIgnoresHighBits(f: seq<Byte>, g: seq<Byte>)
    requires |f| == |g| == FIELD_LEN && InAlphabet(f) && InAlphabet(g)
    requires forall i | 0 <= i < FIELD_LEN - 1 :: f[i] == g[i]
    requires Value(f[FIELD_LEN - 1]) % 4 == Value(g[FIELD_LEN - 1]) % 4
    ensures PhpassDecode(f) == PhpassDecode(g)
  {
    forall h | 0 <= h < 5
      ensures Group(f, h) == Group(g, h)
    {
      assert 4 * h + 3 < FIELD_LEN - 1;
    }
    forall k | 0 <= k < DIGEST_LEN - 1
      ensures PhpassDecode(f)[k] == PhpassDecode(g)[k]
    {
      assert k / 3 < 5;
    }
    PhpassDecodeLastByte(f);
    PhpassDecodeLastByte(g);
  }

  /** `decode64` ignores the four high bits of the last symbol, so fields
      that differ only there decode alike: to the same digest, or both to
      the error. */
  lemma Decode64IgnoresHighBits(f: seq<Byte>, g: seq<Byte>)
    requires |f| == |g| == FIELD_LEN
    requires f[..FIELD_LEN - 1] == g[..FIELD_LEN - 1]
    requires IsSymbol(f[FIELD_LEN - 1]) && IsSymbol(g[FIELD_LEN - 1])
    requires Value(f[FIELD_LEN - 1]) % 4 == Value(g[FIELD_LEN - 1]) % 4
    ensures Decode64(f) == Decode64(g)
  {
    forall i | 0 <= i < FIELD_LEN - 1
      ensures f[i] == g[i]
    {
      assert f[i] == f[..FIELD_LEN - 1][i];
    }
    if InAlphabet(f) {
      assert InAlphabet(g);
      Decode64IsPhpassDecode(f);
      Decode64IsPhpassDecode(g);
      PhpassDecodeIgnoresHighBits(f, g);
    } else {
      assert !InAlphabet(g);
      match (Decode64(f), Decode64(g))
      case (Err(InvalidByte), Err(InvalidByte)) =>
    }
  }
}
