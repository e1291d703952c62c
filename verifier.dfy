/** `check_hash` (src/lib.rs:126-166): validate a password against a phpBB3
    salted hash. MD5 itself is not modelled: it is the parameter `md5`, any
    function from bytes to a 16-byte digest. */
module Verifier {
  import opened Common
  import opened Alphabet
  import opened Decoder
  import Parser

  /** The output of MD5. */
  type Digest = d: seq<Byte> | |d| == DIGEST_LEN
    witness [0, 0, 0, 0, 0, 0, 0, 0, 0, 0, 0, 0, 0, 0, 0, 0]

  /** Passwords longer than this many bytes are refused before any hashing. */
  const MAX_PASSWORD_LEN: nat := 4096

  datatype CheckHashResult =
    | Valid
    | PasswordTooLong
    | InvalidHash(reason: Parser.InvalidHash)
    | Invalid

  /** The digest after `i` extra rounds: round 0 hashes salt then password,
      every later round hashes the previous digest then the password. */
  function Stretch(md5: seq<Byte> -> Digest, salt: seq<Byte>, password: seq<Byte>, i: nat): Digest
  {
    if i == 0 then md5(salt + password)
    else md5(Stretch(md5, salt, password, i - 1) + password)
  }

  /** `n` applications of one round, starting from the digest `h`. */
  function Rounds(md5: seq<Byte> -> Digest, password: seq<Byte>, h: Digest, n: nat): Digest
    decreases n
  {
    if n == 0 then h else Rounds(md5, password, md5(h + password), n - 1)
  }

  lemma {:induction false} RoundsLast(md5: seq<Byte> -> Digest, password: seq<Byte>, h: Digest, n: nat)
    ensures Rounds(md5, password, h, n + 1) == md5(Rounds(md5, password, h, n) + password)
    decreases n
  {
    if n > 0 {
      RoundsLast(md5, password, md5(h + password), n - 1);
    }
  }

  /** The stretched digest is the initial digest followed by exactly `n`
      further rounds. */
  lemma {:induction false} StretchIsRounds(md5: seq<Byte> -> Digest, salt: seq<Byte>, password: seq<Byte>, n: nat)
    ensures Stretch(md5, salt, password, n) == Rounds(md5, password, md5(salt + password), n)
    decreases n
  {
    if n > 0 {
      StretchIsRounds(md5, salt, password, n - 1);
      RoundsLast(md5, password, md5(salt + password), n - 1);
    }
  }

  /** What `check_hash` answers for a hash, a password and an MD5. */
  function Verdict(saltedHash: seq<Byte>, password: seq<Byte>, md5: seq<Byte> -> Digest): CheckHashResult
  {
    if |password| > MAX_PASSWORD_LEN then PasswordTooLong
    else
      match Parser.ParseHash(saltedHash)
      case Err(e) => InvalidHash(e)
      case Ok(parsed) =>
        match Decode64(parsed.hashed)
        case Err(e) => InvalidHash(Parser.InvalidBase64(e))
        case Ok(decodedHashed) =>
          if Stretch(md5, parsed.salt, password, parsed.rounds) == decodedHashed then Valid else Invalid
  }

  method CheckHash(saltedHash: seq<Byte>, password: seq<Byte>, md5: seq<Byte> -> Digest) returns (r: CheckHashResult)
    ensures r == Verdict(saltedHash, password, md5)
  {
    if |password| > MAX_PASSWORD_LEN {
      return PasswordTooLong;
    }

    var parsed;
    match Parser.ParseHash(saltedHash) {
      case Ok(p) => parsed := p;
      case Err(e) => return InvalidHash(e);
    }

    var decodedHashed;
    match Decode64(parsed.hashed) {
      case Ok(d) => decodedHashed := d;
      case Err(e) => return InvalidHash(Parser.InvalidBase64(e));
    }
    assert Verdict(saltedHash, password, md5) ==
      if Stretch(md5, parsed.salt, password, parsed.rounds) == decodedHashed then Valid else Invalid;

    var buf: seq<Byte> := [];
    buf := buf + parsed.salt;
    buf := buf + password;
    assert buf == parsed.salt + password;
    var hash := md5(buf);

    for i := 0 to parsed.rounds
      invariant hash == Stretch(md5, parsed.salt, password, i)
    {
      var roundBuf: seq<Byte> := [];
      roundBuf := roundBuf + hash;
      roundBuf := roundBuf + password;
      assert roundBuf == hash + password;
      hash := md5(roundBuf);
    }

    if hash == decodedHashed {
      r := Valid;
    } else {
      r := Invalid;
    }
  }

  /** An over-long password is refused whatever the hash. */
  lemma PasswordLengthFirst(saltedHash: seq<Byte>, password: seq<Byte>, md5: seq<Byte> -> Digest)
    ensures Verdict(saltedHash, password, md5) == PasswordTooLong <==> |password| > MAX_PASSWORD_LEN
  {
  }

  /** A malformed hash is reported with the reason `parse_hash` gives,
      checked in the order length, type tag, rounds. */
  lemma MalformedHash(saltedHash: seq<Byte>, password: seq<Byte>, md5: seq<Byte> -> Digest)
    requires |password| <= MAX_PASSWORD_LEN
    ensures |saltedHash| != Parser.HASH_LEN ==>
      Verdict(saltedHash, password, md5) == InvalidHash(Parser.BadLength)
    ensures |saltedHash| == Parser.HASH_LEN && saltedHash[..3] != Parser.HASH_TYPE ==>
      Verdict(saltedHash, password, md5) == InvalidHash(Parser.UnsupportedHashType)
    ensures (|saltedHash| == Parser.HASH_LEN && saltedHash[..3] == Parser.HASH_TYPE &&
             !Parser.IsRoundsSymbol(saltedHash[3])) ==>
      Verdict(saltedHash, password, md5) == InvalidHash(Parser.InvalidRounds)
  {
  }

  /** A well-parsed hash whose digest field holds a non-symbol is reported as
      a base64 error. */
  lemma BadDigestField(saltedHash: seq<Byte>, password: seq<Byte>, md5: seq<Byte> -> Digest)
    requires |password| <= MAX_PASSWORD_LEN
    requires Parser.ParseHash(saltedHash).Ok?
    ensures Verdict(saltedHash, password, md5) == InvalidHash(Parser.InvalidBase64(InvalidByte))
      <==> !InAlphabet(saltedHash[12..])
  {
    var parsed := Parser.ParseHash(saltedHash).value;
    match Decode64(parsed.hashed)
    case Ok(_) =>
      assert Verdict(saltedHash, password, md5) in {Valid, Invalid};
    case Err(e) =>
      match e
      case InvalidByte =>
        assert Verdict(saltedHash, password, md5) == InvalidHash(Parser.InvalidBase64(e));
  }

  /** `Valid` exactly when every check passes and the stretched digest equals
      the digest field read as phpass's little-endian base64; a well-formed
      hash that does not match is `Invalid`. */
  lemma ValidIff(saltedHash: seq<Byte>, password: seq<Byte>, md5: seq<Byte> -> Digest)
    ensures Verdict(saltedHash, password, md5) == Valid <==>
      |password| <= MAX_PASSWORD_LEN && Parser.ParseHash(saltedHash).Ok? &&
      InAlphabet(Parser.ParseHash(saltedHash).value.hashed) &&
      Stretch(md5, Parser.ParseHash(saltedHash).value.salt, password, Parser.ParseHash(saltedHash).value.rounds)
        == PhpassDecode(Parser.ParseHash(saltedHash).value.hashed)
    ensures (|password| <= MAX_PASSWORD_LEN && Parser.ParseHash(saltedHash).Ok? &&
             InAlphabet(Parser.ParseHash(saltedHash).value.hashed)) ==>
      Verdict(saltedHash, password, md5) in {Valid, Invalid}
  {
    var p := Parser.ParseHash(saltedHash);
    if |password| <= MAX_PASSWORD_LEN && p.Ok? && InAlphabet(p.value.hashed) {
      Decode64IsPhpassDecode(p.value.hashed);
    }
  }

  /** For a hash whose digest field is canonical (as phpBB itself writes it),
      `Valid` is the same as phpBB's own test: re-encode the stretched digest
      and compare the whole string. */
  lemma ValidAsPhpbb(saltedHash: seq<Byte>, password: seq<Byte>, md5: seq<Byte> -> Digest)
    requires |password| <= MAX_PASSWORD_LEN
    requires Parser.ParseHash(saltedHash).Ok?
    requires Canonical(Parser.ParseHash(saltedHash).value.hashed)
    ensures var p := Parser.ParseHash(saltedHash).value;
      Verdict(saltedHash, password, md5) == Valid <==>
      p.hashType + [saltedHash[3]] + p.salt + Encode64(Stretch(md5, p.salt, password, p.rounds)) == saltedHash
  {
    var p := Parser.ParseHash(saltedHash).value;
    var digest := Stretch(md5, p.salt, password, p.rounds);
    EncodeDecode(p.hashed);
    DecodeEncode(digest);
    var prefix := p.hashType + [saltedHash[3]] + p.salt;
    assert |prefix| == 12;
    if prefix + Encode64(digest) == saltedHash {
      assert Encode64(digest) == saltedHash[12..] == p.hashed;
    }
  }

  /** Two hashes that differ only in the top four bits of their last symbol
      get the same verdict: `decode64` drops those bits. */
  lemma VerdictIgnoresHighBits(saltedHash: seq<Byte>, other: seq<Byte>, password: seq<Byte>, md5: seq<Byte> -> Digest)
    requires |saltedHash| == |other| == Parser.HASH_LEN
    requires saltedHash[..33] == other[..33]
    requires IsSymbol(saltedHash[33]) && IsSymbol(other[33])
    requires Value(saltedHash[33]) % 4 == Value(other[33]) % 4
    ensures Verdict(saltedHash, password, md5) == Verdict(other, password, md5)
  {
    assert saltedHash[..3] == other[..3] && saltedHash[3] == other[3];
    var p := Parser.ParseHash(saltedHash);
    var q := Parser.ParseHash(other);
    if p.Ok? {
      assert q.Ok?;
      assert p.value.salt == q.value.salt by {
        assert saltedHash[4..12] == saltedHash[..33][4..12];
        assert other[4..12] == other[..33][4..12];
      }
      var f, g := p.value.hashed, q.value.hashed;
      assert f[..FIELD_LEN - 1] == saltedHash[12..33] == other[12..33] == g[..FIELD_LEN - 1];
      Decode64IgnoresHighBits(f, g);
    }
  }

  /** The bytes of an ASCII string. */
  function Ascii(s: string): (r: seq<Byte>)
    requires forall i | 0 <= i < |s| :: s[i] as int < 0x80
    ensures |r| == |s| && forall i | 0 <= i < |s| :: r[i] == s[i] as int
  {
    seq(|s|, i requires 0 <= i < |s| => s[i] as int)
  }

  /** The failing cases of the crate's own table: whatever MD5 computes, a
      hash two bytes too long, one tagged `$X$` and one with rounds symbol
      `1` are each refused with the matching reason. */
  lemma RejectedTooLong(md5: seq<Byte> -> Digest)
    ensures Verdict(Ascii("$H$9/O41.qQjQNlleivjbckbSNpfS4xgh012"), Ascii("pass1234"), md5)
      == InvalidHash(Parser.BadLength)
  {
    MalformedHash(Ascii("$H$9/O41.qQjQNlleivjbckbSNpfS4xgh012"), Ascii("pass1234"), md5);
  }

  lemma RejectedHashType(md5: seq<Byte> -> Digest)
    ensures Verdict(Ascii("$X$9/O41.qQjQNlleivjbckbSNpfS4xgh0"), Ascii("pass1234"), md5)
      == InvalidHash(Parser.UnsupportedHashType)
  {
    var h := Ascii("$X$9/O41.qQjQNlleivjbckbSNpfS4xgh0");
    assert h[1] == 'X' as int;
    assert h[..3] != Parser.HASH_TYPE by {
      assert h[..3][1] == h[1];
    }
    MalformedHash(h, Ascii("pass1234"), md5);
  }

  lemma RejectedRounds(md5: seq<Byte> -> Digest)
    ensures Verdict(Ascii("$H$1/O41.qQjQNlleivjbckbSNpfS4xgh0"), Ascii("pass1234"), md5)
      == InvalidHash(Parser.InvalidRounds)
  {
    var h := Ascii("$H$1/O41.qQjQNlleivjbckbSNpfS4xgh0");
    assert h[0] == '$' as int && h[1] == 'H' as int && h[2] == '$' as int && h[3] == '1' as int;
    assert h[..3] == Parser.HASH_TYPE;
    MalformedHash(h, Ascii("pass1234"), md5);
  }

  /** The crate's documented example hash `$H$9/O41.qQjQNlleivjbckbSNpfS4xgh0`,
      written as its tag and rounds symbol, its salt and its digest field. */
  const EXAMPLE_SALT: string := "/O41.qQj"
  const EXAMPLE_FIELD: string := "QNlleivjbckbSNpfS4xgh0"
  const EXAMPLE_HASH: string := "$H$9" + EXAMPLE_SALT + EXAMPLE_FIELD

  lemma ExamplePrefix(h: seq<Byte>)
    requires h == Ascii(EXAMPLE_HASH)
    ensures |h| == Parser.HASH_LEN && h[..3] == Parser.HASH_TYPE && h[3] == '9' as int
  {
    assert h[0] == '$' as int && h[1] == 'H' as int && h[2] == '$' as int;
  }

  lemma ExampleSalt(h: seq<Byte>)
    requires h == Ascii(EXAMPLE_HASH)
    ensures h[4..12] == Ascii(EXAMPLE_SALT)
  {
    forall i | 0 <= i < |EXAMPLE_SALT|
      ensures h[4..12][i] == Ascii(EXAMPLE_SALT)[i]
    {
      assert EXAMPLE_HASH[4 + i] == EXAMPLE_SALT[i];
    }
  }

  lemma ExampleField(h: seq<Byte>)
    requires h == Ascii(EXAMPLE_HASH)
    ensures h[12..] == Ascii(EXAMPLE_FIELD)
  {
    forall i | 0 <= i < |EXAMPLE_FIELD|
      ensures h[12..][i] == Ascii(EXAMPLE_FIELD)[i]
    {
      assert EXAMPLE_HASH[12 + i] == EXAMPLE_FIELD[i];
    }
  }

  lemma ExampleFieldCanonical()
    ensures Canonical(Ascii(EXAMPLE_FIELD))
  {
    var f := Ascii(EXAMPLE_FIELD);
    forall i | 0 <= i < FIELD_LEN
      ensures IsSymbol(f[i])
    {
      assert EXAMPLE_FIELD[i] as int == f[i];
    }
    assert f[FIELD_LEN - 1] == '0' as int;
  }

  /** The documented example parses to 2048 rounds, salt `/O41.qQj` and a
      canonical digest field. */
  lemma ExampleParses(h: seq<Byte>)
    requires |h| == Parser.HASH_LEN && h[..3] == Parser.HASH_TYPE && h[3] == '9' as int
    requires h[4..12] == Ascii(EXAMPLE_SALT) && h[12..] == Ascii(EXAMPLE_FIELD)
    ensures Parser.ParseHash(h).Ok?
    ensures Parser.ParseHash(h).value.rounds == 2048
    ensures Parser.ParseHash(h).value.salt == Ascii(EXAMPLE_SALT)
    ensures Parser.ParseHash(h).value.hashed == Ascii(EXAMPLE_FIELD)
    ensures Canonical(Parser.ParseHash(h).value.hashed)
  {
    Parser.RoundsOfNine(h);
    ExampleFieldCanonical();
  }

  /** The documented example reaches the digest comparison: it is `Valid` for
      a password exactly when re-encoding the stretched digest gives back its
      digest field. */
  lemma DocumentedExample(h: seq<Byte>, password: seq<Byte>, md5: seq<Byte> -> Digest)
    requires h == Ascii(EXAMPLE_HASH)
    requires |password| <= MAX_PASSWORD_LEN
    ensures Verdict(h, password, md5) == Valid <==>
      Encode64(Stretch(md5, Ascii(EXAMPLE_SALT), password, 2048)) == Ascii(EXAMPLE_FIELD)
  {
    ExamplePrefix(h);
    ExampleSalt(h);
    ExampleField(h);
    ExampleParses(h);
    ValidAsPhpbb(h, password, md5);
    var p := Parser.ParseHash(h).value;
    var prefix := p.hashType + [h[3]] + p.salt;
    var encoded := Encode64(Stretch(md5, p.salt, password, p.rounds));
    assert prefix + p.hashed == h;
    if prefix + encoded == h {
      assert encoded == h[12..];
    }
  }
}
