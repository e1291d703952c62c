/** `parse_hash` (src/lib.rs:69-98): split a 34-byte `$H$` hash into its
    type tag, rounds symbol, salt and digest field, rejecting a wrong
    length, a wrong tag or a rounds symbol outside offsets 7..30. */
module Parser {
  import opened Common
  import opened Alphabet
  import Decoder

  /** The only supported type tag, `$H$`. */
  const HASH_TYPE: seq<Byte> := ['$' as int, 'H' as int, '$' as int]

  const HASH_LEN: nat := 34
  const SALT_LEN: nat := 8
  const MIN_ROUNDS_OFFSET: nat := 7
  const MAX_ROUNDS_OFFSET: nat := 30

  /** Why an encoded hash was rejected. */
  datatype InvalidHash =
    | BadLength
    | UnsupportedHashType
    | InvalidRounds
    | InvalidBase64(cause: Decoder.DecodeError)

  /** The four fields of a parsed hash, as owned byte sequences. */
  datatype PhpbbHash = PhpbbHash(hashType: seq<Byte>, rounds: nat, salt: seq<Byte>, hashed: seq<Byte>)

  /** The rounds symbols `parse_hash` accepts: offsets 7 to 30 of the
      alphabet are the digits `5` to `9` and the letters `A` to `S`. */
  predicate IsRoundsSymbol(c: Byte)
  {
    ('5' as int <= c <= '9' as int) || ('A' as int <= c <= 'S' as int)
  }

  /** Cutting a 34-byte hash at 3, 4 and 12 loses nothing. */
  lemma Reassemble(s: seq<Byte>)
    requires |s| == HASH_LEN
    ensures s[0..3] + [s[3]] + s[4..12] + s[12..] == s
  {
    assert s[0..3] + [s[3]] == s[..4];
    assert s[..4] + s[4..12] == s[..12];
  }

  function ParseHash(saltedHash: seq<Byte>): (r: Result<PhpbbHash, InvalidHash>)
    // the checks run in order: length, then tag, then rounds
    ensures r == Err(BadLength) <==> |saltedHash| != HASH_LEN
    ensures r == Err(UnsupportedHashType) <==>
      |saltedHash| == HASH_LEN && saltedHash[..3] != HASH_TYPE
    ensures r == Err(InvalidRounds) <==>
      |saltedHash| == HASH_LEN && saltedHash[..3] == HASH_TYPE && !IsRoundsSymbol(saltedHash[3])
    ensures r.Err? ==> !r.error.InvalidBase64?
    // on success the fields are the input, cut at 3, 4 and 12
    ensures r.Ok? ==>
      r.value.hashType == HASH_TYPE && r.value.salt == saltedHash[4..12] && r.value.hashed == saltedHash[12..] &&
      |r.value.salt| == SALT_LEN && |r.value.hashed| == Decoder.FIELD_LEN &&
      r.value.hashType + [saltedHash[3]] + r.value.salt + r.value.hashed == saltedHash
    // and the rounds are 2 to the power of the symbol's value
    ensures r.Ok? ==>
      IsSymbol(saltedHash[3]) && MIN_ROUNDS_OFFSET <= Value(saltedHash[3]) <= MAX_ROUNDS_OFFSET &&
      r.value.rounds == Pow2(Value(saltedHash[3]))
  {
    if |saltedHash| != HASH_LEN then Err(BadLength)
    else
      var hashType := saltedHash[0..3];
      if hashType != HASH_TYPE then Err(UnsupportedHashType)
      else
        ValueIsIndex(saltedHash[3]);
        match IndexOf(ALPHABET, saltedHash[3])
        case None => Err(InvalidRounds)
        case Some(offset) =>
          if offset < MIN_ROUNDS_OFFSET || offset > MAX_ROUNDS_OFFSET then Err(InvalidRounds)
          else
            var salt := saltedHash[4..12];
            var hashed := saltedHash[12..];
            Reassemble(saltedHash);
            Ok(PhpbbHash(hashType, Pow2(offset), salt, hashed))
  }

  /** The rounds of a parsed hash are a power of two from 128 to 2^30. */
  lemma RoundsInRange(saltedHash: seq<Byte>)
    requires ParseHash(saltedHash).Ok?
    ensures 128 <= ParseHash(saltedHash).value.rounds <= 0x4000_0000
  {
    var offset := Value(saltedHash[3]);
    Pow2Monotone(MIN_ROUNDS_OFFSET, offset);
    Pow2Monotone(offset, MAX_ROUNDS_OFFSET);
    assert Pow2(MIN_ROUNDS_OFFSET) == 128;
    assert Pow2(15) == 0x8000;
    Pow2Add(15, 15);
  }

  /** The rounds symbol `9` has offset 11 and gives 2048 rounds. */
  lemma RoundsOfNine(saltedHash: seq<Byte>)
    requires |saltedHash| == HASH_LEN && saltedHash[..3] == HASH_TYPE && saltedHash[3] == '9' as int
    ensures ParseHash(saltedHash).Ok?
    ensures ParseHash(saltedHash).value.rounds == 2048
    ensures ParseHash(saltedHash).value.salt == saltedHash[4..12]
    ensures ParseHash(saltedHash).value.hashed == saltedHash[12..]
  {
    var p := ParseHash(saltedHash).value;
    assert Value(saltedHash[3]) == 11;
    assert Pow2(11) == 2048;
    assert saltedHash == p.hashType + [saltedHash[3]] + p.salt + p.hashed;
    assert saltedHash[4..12] == p.salt;
  }

  /** The rounds symbol `1` has offset 3, below 7, and is rejected. */
  lemma RoundsOfOne(saltedHash: seq<Byte>)
    requires |saltedHash| == HASH_LEN && saltedHash[..3] == HASH_TYPE && saltedHash[3] == '1' as int
    ensures ParseHash(saltedHash) == Err(InvalidRounds)
    ensures IndexOf(ALPHABET, saltedHash[3]) == Some(3)
  {
    ValueIsIndex(saltedHash[3]);
  }
}
