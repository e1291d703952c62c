/** The 64-symbol alphabet of the crypt/phpass base64 variant (src/lib.rs:50):
    `.` and `/`, the ten digits, the upper-case letters, then the lower-case
    letters. A symbol's numeric value is its position in this sequence. */
module Alphabet {
  import opened Common

  const DOT_SLASH: string := "./"
  const DIGITS: string := "0123456789"
  const UPPER: string := "ABCDEFGHIJKLMNOPQRSTUVWXYZ"
  const LOWER: string := "abcdefghijklmnopqrstuvwxyz"

  /** The source's `ALPHABET` string, written as its four runs. */
  const ALPHABET_TEXT: string := DOT_SLASH + DIGITS + UPPER + LOWER

  /** The byte at position `v` of the alphabet. */
  function Symbol(v: nat): (c: Byte)
    requires v < 64
  {
    if v < 2 then '.' as int + v
    else if v < 12 then '0' as int + (v - 2)
    else if v < 38 then 'A' as int + (v - 12)
    else 'a' as int + (v - 38)
  }

  /** The 64 symbols in order of value. */
  function SymbolTable(): seq<Byte>
  {
    seq(64, v requires 0 <= v < 64 => Symbol(v))
  }

  /** The source's `ALPHABET`, as bytes. */
  const ALPHABET: seq<Byte> := SymbolTable()

  lemma DigitsAt(i: nat)
    requires i < |DIGITS|
    ensures DIGITS[i] as int == '0' as int + i
  {
  }

  lemma UpperAt(i: nat)
    requires i < |UPPER|
    ensures UPPER[i] as int == 'A' as int + i
  {
  }

  lemma LowerAt(i: nat)
    requires i < |LOWER|
    ensures LOWER[i] as int == 'a' as int + i
  {
  }

  lemma TextRuns()
    ensures |ALPHABET_TEXT| == 64
    ensures ALPHABET_TEXT[..2] == DOT_SLASH && ALPHABET_TEXT[2..12] == DIGITS
    ensures ALPHABET_TEXT[12..38] == UPPER && ALPHABET_TEXT[38..] == LOWER
  {
  }

  /** Position `v` of the literal holds the symbol of value `v`. */
  lemma TextAt(v: nat)
    requires v < 64
    ensures |ALPHABET_TEXT| == 64 && ALPHABET_TEXT[v] as int == Symbol(v)
  {
    TextRuns();
    if v < 2 {
      assert ALPHABET_TEXT[v] == ALPHABET_TEXT[..2][v];
    } else if v < 12 {
      assert ALPHABET_TEXT[v] == ALPHABET_TEXT[2..12][v - 2];
      DigitsAt(v - 2);
    } else if v < 38 {
      assert ALPHABET_TEXT[v] == ALPHABET_TEXT[12..38][v - 12];
      UpperAt(v - 12);
    } else {
      assert ALPHABET_TEXT[v] == ALPHABET_TEXT[38..][v - 38];
      LowerAt(v - 38);
    }
  }

  /** `ALPHABET` spells the source's literal, byte for byte. */
  lemma AlphabetSpelled()
    ensures |ALPHABET_TEXT| == |ALPHABET| == 64
    ensures forall v :: 0 <= v < 64 ==> ALPHABET[v] == ALPHABET_TEXT[v] as int
  {
    forall v | 0 <= v < 64
      ensures ALPHABET[v] == ALPHABET_TEXT[v] as int
    {
      TextAt(v);
    }
  }

  /** `str::find` for a single-byte pattern: the position of the first
      occurrence of `c` in `s`, if any. */
  function IndexOf(s: seq<Byte>, c: Byte): (r: Option<nat>)
    ensures r.Some? ==> r.value < |s| && s[r.value] == c && c !in s[..r.value]
    ensures r.None? <==> c !in s
    decreases |s|
  {
    if s == [] then None
    else if s[0] == c then Some(0)
    else
      match IndexOf(s[1..], c)
      case None => None
      case Some(i) => Some(i + 1)
  }

  /** `c` is one of the 64 symbols: `.`, `/`, a digit or an ASCII letter. */
  predicate IsSymbol(c: Byte)
  {
    ('.' as int <= c <= '9' as int) || ('A' as int <= c <= 'Z' as int) || ('a' as int <= c <= 'z' as int)
  }

  /** Every byte of `s` is a symbol. */
  predicate InAlphabet(s: seq<Byte>)
  {
    forall i | 0 <= i < |s| :: IsSymbol(s[i])
  }

  /** The six-bit value of a symbol, read off its ASCII range. */
  function Value(c: Byte): (v: nat)
    requires IsSymbol(c)
    ensures v < 64 && Symbol(v) == c
  {
    if c <= '9' as int then c - '.' as int
    else if c <= 'Z' as int then c - 'A' as int + 12
    else c - 'a' as int + 38
  }

  lemma ValueOfSymbol(v: nat)
    requires v < 64
    ensures IsSymbol(Symbol(v)) && Value(Symbol(v)) == v
  {
  }

  /** Looking up the symbol at position `v` gives back `v`: the alphabet has
      no repeated symbol, so `find` cannot stop earlier. */
  lemma IndexOfSymbol(v: nat)
    requires v < 64
    ensures IndexOf(ALPHABET, Symbol(v)) == Some(v)
  {
    var c := Symbol(v);
    assert ALPHABET[v] == c;
    var w := IndexOf(ALPHABET, c).value;
    assert ALPHABET[w] == Symbol(w) == c;
    ValueOfSymbol(w);
    ValueOfSymbol(v);
  }

  /** The symbols are exactly the bytes of `ALPHABET`. */
  lemma AlphabetMembers(c: Byte)
    ensures c in ALPHABET <==> IsSymbol(c)
  {
    if IsSymbol(c) {
      assert ALPHABET[Value(c)] == c;
    }
  }

  /** A symbol's value is the position `find` reports for it in `ALPHABET`;
      any other byte is not found. */
  lemma ValueIsIndex(c: Byte)
    ensures IsSymbol(c) ==> IndexOf(ALPHABET, c) == Some(Value(c))
    ensures !IsSymbol(c) ==> IndexOf(ALPHABET, c) == None
  {
    AlphabetMembers(c);
    if IsSymbol(c) {
      IndexOfSymbol(Value(c));
    }
  }
}
