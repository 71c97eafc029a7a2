/**
 * The geohash base-32 alphabet: the index-to-character array (charMap,
 * BASE32_CHARS), the character-to-index table its static initialiser fills
 * (charLookupTable, BASE32_DECODE_MAP), and the 5-bit groups a character
 * stands for.
 */
module Base32 {
  import opened Wrappers

  /** Number of bits one geohash character carries. */
  const BITS_PER_CHAR: nat := 5

  /**
   * The symbol at index `i` of the alphabet: the ten digits, then the
   * lower-case letters in order, skipping a, i, l and o.
   */
  function Symbol(i: int): char
    requires 0 <= i < 32
  {
    if i < 10 then ('0' as int + i) as char
    else if i < 17 then ('b' as int + (i - 10)) as char
    else if i < 19 then ('j' as int + (i - 17)) as char
    else if i < 21 then ('m' as int + (i - 19)) as char
    else ('p' as int + (i - 21)) as char
  }

  /** Whether `c` is one of the 32 symbols of the alphabet. */
  predicate IsSymbol(c: char) {
    '0' <= c <= '9' || 'b' <= c <= 'h' || 'j' <= c <= 'k' || 'm' <= c <= 'n' || 'p' <= c <= 'z'
  }

  /** The index of an alphabet symbol. */
  function SymbolValue(c: char): (v: nat)
    requires IsSymbol(c)
    ensures v < 32 && Symbol(v) == c
  {
    if '0' <= c <= '9' then c as int - '0' as int
    else if 'b' <= c <= 'h' then c as int - 'b' as int + 10
    else if 'j' <= c <= 'k' then c as int - 'j' as int + 17
    else if 'm' <= c <= 'n' then c as int - 'm' as int + 19
    else c as int - 'p' as int + 21
  }

  /** Index-to-character map (charMap / BASE32_CHARS). */
  const CharMap: string := seq(32, Symbol)

  /** The map is exactly the alphabet the Java code spells out. */
  lemma CharMapLiteral()
    ensures CharMap == "0123456789bcdefghjkmnpqrstuvwxyz"
  {
  }

  /** Character-to-index table (charLookupTable / BASE32_DECODE_MAP). */
  const LookupTable: map<char, nat> := map c | c in CharMap :: SymbolValue(c)

  /**
   * The lookup table is the exact inverse of the character map, and its keys
   * are exactly the symbols.
   */
  lemma LookupInverse()
    ensures forall i :: 0 <= i < |CharMap| ==> CharMap[i] in LookupTable && LookupTable[CharMap[i]] == i
    ensures forall c :: c in LookupTable ==> LookupTable[c] < |CharMap| && CharMap[LookupTable[c]] == c
    ensures forall c :: c in LookupTable <==> IsSymbol(c)
    ensures forall c :: c in LookupTable ==> LookupTable[c] == SymbolValue(c)
  {
    forall c | IsSymbol(c) ensures c in CharMap {
      assert CharMap[SymbolValue(c)] == c;
    }
  }

  /** Looking up the symbol at index `i` gives `i` back. */
  lemma SymbolValueOf(i: int)
    requires 0 <= i < 32
    ensures IsSymbol(Symbol(i)) && SymbolValue(Symbol(i)) == i
  {
  }

  /** The alphabet has 32 pairwise distinct symbols and leaves out a, i, l and o. */
  lemma AlphabetShape()
    ensures |CharMap| == 32
    ensures forall i, j :: 0 <= i < j < |CharMap| ==> CharMap[i] != CharMap[j]
    ensures 'a' !in CharMap && 'i' !in CharMap && 'l' !in CharMap && 'o' !in CharMap
  {
  }

  /**
   * The static initialiser: puts every character of the map into the table
   * under its own index.
   */
  method BuildLookupTable() returns (table: map<char, nat>)
    ensures forall c :: c in table <==> c in CharMap
    ensures forall k :: 0 <= k < |CharMap| ==> table[CharMap[k]] == k
    ensures table == LookupTable
  {
    table := map[];
    var i := 0;
    while i < |CharMap|
      invariant 0 <= i <= |CharMap|
      invariant forall c :: c in table <==> c in CharMap[..i]
      invariant forall k :: 0 <= k < i ==> table[CharMap[k]] == k
    {
      table := table[CharMap[i] := i];
      assert CharMap[..i + 1] == CharMap[..i] + [CharMap[i]];
      i := i + 1;
    }
    assert CharMap[..i] == CharMap;
    LookupInverse();
    AlphabetShape();
    forall c | c in table
      ensures table[c] == LookupTable[c]
    {
      var k :| 0 <= k < |CharMap| && CharMap[k] == c;
    }
  }

  /** Every character of `s` is in the alphabet, so every table lookup succeeds. */
  predicate ValidHash(s: string) {
    forall i :: 0 <= i < |s| ==> IsSymbol(s[i])
  }

  /** 2 raised to `k`. */
  function Pow2(k: nat): (r: nat)
    ensures r >= 1
  {
    if k == 0 then 1 else 2 * Pow2(k - 1)
  }

  /** `v` shifted right by `j` bits (`v >> j`). */
  function Shr(v: nat, j: nat): nat {
    if j == 0 then v else Shr(v / 2, j - 1)
  }

  /** `v` shifted left by `j` bits (`v << j`). */
  function Shl(v: nat, j: nat): nat {
    if j == 0 then v else 2 * Shl(v, j - 1)
  }

  /** The low `n` bits of `v`, most significant first. */
  function Bits(v: nat, n: nat): (bits: seq<bool>)
    ensures |bits| == n
  {
    if n == 0 then [] else Bits(v / 2, n - 1) + [v % 2 == 1]
  }

  /** The five bits of a character index, most significant first. */
  function CharBits(v: nat): (bits: seq<bool>)
    requires v < 32
    ensures |bits| == BITS_PER_CHAR
  {
    Bits(v, BITS_PER_CHAR)
  }

  /** The value of a bit string read as a binary number, most significant bit first. */
  function BitsValue(bits: seq<bool>): nat {
    if |bits| == 0 then 0
    else 2 * BitsValue(bits[..|bits| - 1]) + (if bits[|bits| - 1] then 1 else 0)
  }

  lemma Pow2Five()
    ensures Pow2(BITS_PER_CHAR) == 32
  {
    assert Pow2(2) == 4;
    assert Pow2(4) == 16;
  }

  /** `n` bits hold a value below `2^n`. */
  lemma {:induction false} BitsValueBound(bits: seq<bool>)
    ensures BitsValue(bits) < Pow2(|bits|)
  {
    if |bits| > 0 {
      BitsValueBound(bits[..|bits| - 1]);
    }
  }

  /** Five bits hold a character index. */
  lemma FiveBitsBound(bits: seq<bool>)
    requires |bits| == BITS_PER_CHAR
    ensures BitsValue(bits) < 32
  {
    Pow2Five();
    BitsValueBound(bits);
  }

  /** A value below `2^n` survives the trip through its `n` bits. */
  lemma {:induction false} BitsValueOfBits(v: nat, n: nat)
    requires v < Pow2(n)
    ensures BitsValue(Bits(v, n)) == v
  {
    if n > 0 {
      BitsValueOfBits(v / 2, n - 1);
      var init := Bits(v / 2, n - 1);
      var bits := init + [v % 2 == 1];
      assert bits[..|bits| - 1] == init;
    }
  }

  /** A bit string survives the trip through its value. */
  lemma {:induction false} BitsOfValue(bits: seq<bool>)
    ensures Bits(BitsValue(bits), |bits|) == bits
  {
    if |bits| > 0 {
      var init := bits[..|bits| - 1];
      BitsOfValue(init);
      var v := BitsValue(bits);
      assert v / 2 == BitsValue(init) && v % 2 == (if bits[|bits| - 1] then 1 else 0);
      assert bits == init + [bits[|bits| - 1]];
    }
  }

  /** Bit `j` from the right of `Bits(v, n)` is bit `j` of `v`: `(v >> j) & 1`. */
  lemma {:induction false} BitsAt(v: nat, n: nat, j: nat)
    requires j < n
    ensures Bits(v, n)[n - 1 - j] == (Shr(v, j) % 2 == 1)
  {
    if j > 0 {
      BitsAt(v / 2, n - 1, j - 1);
    }
  }

  /** Shifting left by `j` and then right by `m >= j` is shifting right by `m - j`. */
  lemma {:induction false} ShrShl(v: nat, j: nat, m: nat)
    requires j <= m
    ensures Shr(Shl(v, j), m) == Shr(v, m - j)
  {
    if j > 0 {
      ShrShl(v, j - 1, m - 1);
      assert Shl(v, j) / 2 == Shl(v, j - 1);
    }
  }

  /** A character index below 32 survives the trip through its five bits. */
  lemma CharBitsValue(v: nat)
    requires v < 32
    ensures BitsValue(CharBits(v)) == v
  {
    Pow2Five();
    BitsValueOfBits(v, BITS_PER_CHAR);
  }

  /** Five bits survive the trip through their value. */
  lemma BitsValueChar(bits: seq<bool>)
    requires |bits| == BITS_PER_CHAR
    ensures BitsValue(bits) < 32 && CharBits(BitsValue(bits)) == bits
  {
    Pow2Five();
    BitsValueBound(bits);
    BitsOfValue(bits);
  }

  /** The characters a bit string stands for, five bits per character. */
  function Chars(bits: seq<bool>, n: nat): (s: string)
    requires |bits| == 5 * n
    ensures |s| == n && ValidHash(s)
  {
    if n == 0 then ""
    else
      var k := |bits| - 5;
      FiveBitsBound(bits[k..]);
      Chars(bits[..k], n - 1) + [Symbol(BitsValue(bits[k..]))]
  }

  /** The bits a valid hash stands for, five per character, most significant first. */
  function HashBits(s: string): (bits: seq<bool>)
    requires ValidHash(s)
    ensures |bits| == 5 * |s|
  {
    if |s| == 0 then []
    else HashBits(s[..|s| - 1]) + CharBits(SymbolValue(s[|s| - 1]))
  }

  /** Appending a symbol appends its five bits. */
  lemma HashBitsSnoc(init: string, c: char)
    requires ValidHash(init) && IsSymbol(c)
    ensures ValidHash(init + [c])
    ensures HashBits(init + [c]) == HashBits(init) + CharBits(SymbolValue(c))
  {
    var s := init + [c];
    assert s[..|s| - 1] == init;
  }

  /** Five bits survive the trip through the symbol they stand for. */
  lemma SymbolRoundTrip(five: seq<bool>)
    requires |five| == BITS_PER_CHAR
    ensures BitsValue(five) < 32
    ensures IsSymbol(Symbol(BitsValue(five))) && CharBits(SymbolValue(Symbol(BitsValue(five)))) == five
  {
    BitsValueChar(five);
    SymbolValueOf(BitsValue(five));
  }

  /** Appending the symbol of five bits to a hash appends those five bits. */
  lemma HashBitsSnocSymbol(init: string, hi: seq<bool>)
    requires ValidHash(init) && |hi| == BITS_PER_CHAR
    ensures BitsValue(hi) < 32 && ValidHash(init + [Symbol(BitsValue(hi))])
    ensures HashBits(init + [Symbol(BitsValue(hi))]) == HashBits(init) + hi
  {
    SymbolRoundTrip(hi);
    HashBitsSnoc(init, Symbol(BitsValue(hi)));
  }

  /** A bit string is its first `k` bits followed by the rest. */
  lemma SplitAt(bits: seq<bool>, k: nat)
    requires k <= |bits|
    ensures bits[..k] + bits[k..] == bits
  {
  }

  /** Reading the characters of a bit string back gives the bit string. */
  lemma {:induction false} HashBitsOfChars(bits: seq<bool>, n: nat)
    requires |bits| == 5 * n
    ensures HashBits(Chars(bits, n)) == bits
  {
    if n > 0 {
      var k := |bits| - 5;
      var lo, hi := bits[..k], bits[k..];
      var init := Chars(lo, n - 1);
      HashBitsOfChars(lo, n - 1);
      HashBitsSnocSymbol(init, hi);
      SplitAt(bits, k);
    }
  }

  /** The last five bits of a hash are those of its last character. */
  lemma HashBitsLast(s: string)
    requires ValidHash(s) && |s| > 0
    ensures ValidHash(s[..|s| - 1]) && IsSymbol(s[|s| - 1])
    ensures HashBits(s)[..5 * |s| - 5] == HashBits(s[..|s| - 1])
    ensures HashBits(s)[5 * |s| - 5..] == CharBits(SymbolValue(s[|s| - 1]))
  {
  }

  /** The last character of `Chars` stands for the last five bits. */
  lemma CharsLast(bits: seq<bool>, n: nat)
    requires |bits| == 5 * n && n > 0
    ensures BitsValue(bits[5 * n - 5..]) < 32
    ensures Chars(bits, n) == Chars(bits[..5 * n - 5], n - 1) + [Symbol(BitsValue(bits[5 * n - 5..]))]
  {
    FiveBitsBound(bits[5 * n - 5..]);
  }

  /** A non-empty string is its initial part followed by its last character. */
  lemma SplitLast(s: string)
    requires |s| > 0
    ensures s == s[..|s| - 1] + [s[|s| - 1]]
  {
  }

  /** Grouping the bits of a valid hash into characters gives the hash. */
  lemma {:induction false} CharsOfHashBits(s: string)
    requires ValidHash(s)
    ensures Chars(HashBits(s), |s|) == s
  {
    if |s| > 0 {
      var init := s[..|s| - 1];
      var last := s[|s| - 1];
      var bits, k := HashBits(s), 5 * |s| - 5;
      HashBitsLast(s);
      CharsLast(bits, |s|);
      var lo, hi := bits[..k], bits[k..];
      assert lo == HashBits(init);
      CharBitsValue(SymbolValue(last));
      assert Symbol(BitsValue(hi)) == last;
      CharsOfHashBits(init);
      assert Chars(lo, |init|) == init;
      SplitLast(s);
    }
  }

  /** The first `k` characters of a bit string's characters are those of its first `5 * k` bits. */
  lemma {:induction false} CharsPrefix(bits: seq<bool>, m: nat, k: nat)
    requires |bits| == 5 * m && k <= m
    ensures Chars(bits, m)[..k] == Chars(bits[..5 * k], k)
  {
    if k < m {
      var init := bits[..5 * (m - 1)];
      CharsPrefix(init, m - 1, k);
      assert init[..5 * k] == bits[..5 * k];
      assert Chars(bits, m)[..m - 1] == Chars(init, m - 1);
    } else {
      assert bits[..5 * k] == bits;
    }
  }

  /** The bits of a prefix of a hash are a prefix of the hash's bits. */
  lemma {:induction false} HashBitsPrefix(s: string, k: nat)
    requires ValidHash(s) && k <= |s|
    ensures HashBits(s)[..5 * k] == HashBits(s[..k])
  {
    if k < |s| {
      var init := s[..|s| - 1];
      HashBitsPrefix(init, k);
      assert init[..k] == s[..k];
      assert HashBits(s)[..5 * (|s| - 1)] == HashBits(init);
    } else {
      assert s[..k] == s;
    }
  }
}
