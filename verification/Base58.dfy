/** Base58btc strings and the CIDv0 form of a multihash. */
module Base58 {
  import opened Bytes
  import opened Digits
  import opened Radix

  const ALPHABET: string := "123456789" + "ABCDEFGH" + "JKLMN" + "PQRSTUVWXYZ" + "abcdefghijk" + "mnopqrstuvwxyz"

  /** The symbol of a digit: the printable ranges of the alphabet, in order. */
  function Symbol(d: nat): char
    requires d < 58
  {
    if d < 9 then '1' + d as char
    else if d < 17 then 'A' + (d - 9) as char
    else if d < 22 then 'J' + (d - 17) as char
    else if d < 33 then 'P' + (d - 22) as char
    else if d < 44 then 'a' + (d - 33) as char
    else 'm' + (d - 44) as char
  }

  /** The digit of a symbol. */
  function Digit(c: char): Option<nat> {
    if '1' <= c <= '9' then Some((c - '1') as nat)
    else if 'A' <= c <= 'H' then Some((c - 'A') as nat + 9)
    else if 'J' <= c <= 'N' then Some((c - 'J') as nat + 17)
    else if 'P' <= c <= 'Z' then Some((c - 'P') as nat + 22)
    else if 'a' <= c <= 'k' then Some((c - 'a') as nat + 33)
    else if 'm' <= c <= 'z' then Some((c - 'm') as nat + 44)
    else None
  }

  lemma SymbolsSpellAlphabet()
    ensures |ALPHABET| == 58 && forall d | 0 <= d < 58 :: ALPHABET[d] == Symbol(d)
  {
  }

  lemma DigitOfSymbol(d: nat)
    requires d < 58
    ensures Digit(Symbol(d)) == Some(d)
  {
  }

  lemma SymbolOfDigit(c: char)
    ensures Digit(c).Some? ==> Digit(c).value < 58 && Symbol(Digit(c).value) == c
  {
  }

  /** The decoder's lookup table: 0xFF marks the bytes outside the alphabet. */
  method BuildTable() returns (table: seq<nat>)
    ensures |table| == 128
    ensures forall c: char | c as nat < 128 :: table[c as nat] == if Digit(c).Some? then Digit(c).value else 0xFF
    ensures forall c: char | c as nat >= 128 :: Digit(c).None?
  {
    hide Digit, Symbol;
    SymbolsSpellAlphabet();
    table := seq(128, _ => 0xFF);
    for i := 0 to |ALPHABET|
      invariant |table| == 128
      invariant forall c: char | c as nat < 128 ::
                  table[c as nat] == if Digit(c).Some? && Digit(c).value < i then Digit(c).value else 0xFF
    {
      forall c: char ensures Digit(c) == Some(i) <==> c == Symbol(i) {
        DigitIff(c, i);
      }
      AsciiSymbol(Symbol(i));
      DigitIff(Symbol(i), i);
      table := table[ALPHABET[i] as nat := i];
    }
    forall c: char ensures Digit(c).Some? ==> Digit(c).value < 58 && c as nat < 128 {
      AsciiSymbol(c);
    }
  }

  lemma DigitIff(c: char, i: nat)
    requires i < 58
    ensures Digit(c) == Some(i) <==> c == Symbol(i)
  {
    hide Digit, Symbol;
    DigitOfSymbol(i);
    SymbolOfDigit(c);
  }

  lemma AsciiSymbol(c: char)
    ensures Digit(c).Some? ==> Digit(c).value < 58 && c as nat < 128
  {
  }

  function Spell(ds: seq<nat>): string
    requires AllBelow(58, ds)
  {
    seq(|ds|, i requires 0 <= i < |ds| => Symbol(ds[i]))
  }

  predicate InAlphabet(s: string) {
    forall i | 0 <= i < |s| :: Digit(s[i]).Some?
  }

  function Parse(s: string): (ds: seq<nat>)
    requires InAlphabet(s)
    ensures |ds| == |s|
  {
    seq(|s|, i requires 0 <= i < |s| => Digit(s[i]).value)
  }

  lemma ParseSpell(ds: seq<nat>)
    requires AllBelow(58, ds)
    ensures InAlphabet(Spell(ds)) && Parse(Spell(ds)) == ds
  {
    var s := Spell(ds);
    forall i | 0 <= i < |s| ensures Digit(s[i]) == Some(ds[i]) {
      DigitOfSymbol(ds[i]);
    }
  }

  lemma SpellParse(s: string)
    requires InAlphabet(s)
    ensures AllBelow(58, Parse(s)) && Spell(Parse(s)) == s
  {
    forall i | 0 <= i < |s| ensures Parse(s)[i] < 58 && Symbol(Parse(s)[i]) == s[i] {
      SymbolOfDigit(s[i]);
    }
  }

  lemma ConvertBelow(from: nat, to: nat, ds: seq<nat>)
    requires to >= 2
    ensures AllBelow(to, Convert(from, to, ds))
  {
    DigitsOfNumber(to, Horner(from, ds));
  }

  /** The bytes as a base-256 number, spelled in base 58 after one '1' for each leading zero byte. */
  ghost function Encode(input: seq<byte>): string {
    ConvertBelow(256, 58, Nums(input));
    Spell(Convert(256, 58, Nums(input)))
  }

  /** The inverse reading, refused outside the alphabet. */
  ghost function Decode(s: string): Option<seq<byte>> {
    if !InAlphabet(s) then None
    else
      ConvertBelow(58, 256, Parse(s));
      Some(Bytewise(Convert(58, 256, Parse(s))))
  }

  method Base58Encode(input: seq<byte>) returns (out: string)
    ensures out == Encode(input)
  {
    hide Symbol, DigitsOf, Horner;
    var bytes := Nums(input);
    var digits := [0];
    assert bytes[..0] == [] && digits == DigitsOf(58, Horner(256, [])) by { NothingRead(256, 58); }
    for i := 0 to |bytes|
      invariant digits == DigitsOf(58, Horner(256, bytes[..i]))
    {
      NextDigit(256, bytes, i);
      digits := ShiftIn(58, 256, digits, bytes[i], Horner(256, bytes[..i]));
    }
    assert bytes[..|bytes|] == bytes;
    var all := Zeros(Lead(bytes)) + Reverse(digits);
    ConvertBelow(256, 58, bytes);
    SymbolsSpellAlphabet();
    out := "";
    for i := 0 to |all|
      invariant out == Spell(all)[..i]
    {
      out := out + [ALPHABET[all[i]]];
    }
  }

  lemma NothingRead(from: nat, to: nat)
    requires to >= 2
    ensures DigitsOf(to, Horner(from, [])) == [0]
  {
  }

  method Base58Decode(input: string) returns (out: Option<seq<byte>>)
    ensures out == Decode(input)
  {
    hide Digit, DigitsOf, Horner;
    var table := BuildTable();
    var bytes := [0];
    ghost var read: seq<nat> := [];
    assert bytes == DigitsOf(256, Horner(58, read)) by { NothingRead(58, 256); }
    for i := 0 to |input|
      invariant |read| == i && forall j | 0 <= j < i :: Digit(input[j]) == Some(read[j])
      invariant bytes == DigitsOf(256, Horner(58, read))
    {
      var c := input[i] as nat;
      if c >= 128 || table[c] == 0xFF {
        assert c < 128 && table[c] == 0xFF ==> Digit(input[i]).None? by { SymbolOfDigit(input[i]); }
        return None;
      }
      SymbolOfDigit(input[i]);
      bytes := ShiftIn(256, 58, bytes, table[c], Horner(58, read));
      read := read + [table[c]];
      NextDigit(58, read, i);
      assert read[..i + 1] == read;
    }
    var leading := 0;
    while leading < |input| && input[leading] == '1'
      invariant leading <= |input| && forall j | 0 <= j < leading :: input[j] == '1'
    {
      leading := leading + 1;
    }
    assert InAlphabet(input) && read == Parse(input);
    OnesAreZeros(input, leading);
    ConvertBelow(58, 256, read);
    out := Some(Bytewise(Zeros(leading) + Reverse(bytes)));
  }

  lemma OnesAreZeros(s: string, n: nat)
    requires InAlphabet(s) && n <= |s|
    requires (forall j | 0 <= j < n :: s[j] == '1') && (n < |s| ==> s[n] != '1')
    ensures Lead(Parse(s)) == n
  {
    forall j | 0 <= j < |s| ensures Parse(s)[j] == 0 <==> s[j] == '1' {
      SymbolOfDigit(s[j]);
    }
    LeadIs(Parse(s), n);
  }

  // ---------------------------------------------------------------------------------------------
  // Round trips

  predicate HasNonzeroByte(b: seq<byte>) {
    exists i | 0 <= i < |b| :: b[i] != 0
  }

  predicate HasNonOne(s: string) {
    exists i | 0 <= i < |s| :: s[i] != '1'
  }

  lemma NonzeroByteIff(b: seq<byte>)
    ensures HasNonzeroByte(b) <==> HasNonzero(Nums(b))
  {
    if HasNonzeroByte(b) {
      var i :| 0 <= i < |b| && b[i] != 0;
      assert Nums(b)[i] != 0;
    }
    if HasNonzero(Nums(b)) {
      var i :| 0 <= i < |b| && Nums(b)[i] != 0;
      assert b[i] != 0;
    }
  }

  lemma NonOneIff(s: string)
    requires InAlphabet(s)
    ensures HasNonOne(s) <==> HasNonzero(Parse(s))
  {
    forall j | 0 <= j < |s| ensures Parse(s)[j] == 0 <==> s[j] == '1' {
      SymbolOfDigit(s[j]);
    }
  }

  /** Decoding an encoding gives the bytes back, leading zeros included, exactly when some byte is nonzero;
      a string of zero bytes gains two. */
  lemma DecodeEncodeIff(x: seq<byte>)
    ensures Decode(Encode(x)) == Some(x) <==> HasNonzeroByte(x)
    ensures !HasNonzeroByte(x) ==> Decode(Encode(x)) == Some(x + [0, 0])
  {
    hide Convert, HasNonzero, HasNonzeroByte, Spell, Parse, Bytewise, Nums, InAlphabet;
    var ds := Nums(x);
    BytewiseNums(x);
    NonzeroByteIff(x);
    RoundTripIff(256, 58, ds);
    ConvertBelow(256, 58, ds);
    ParseSpell(Convert(256, 58, ds));
    var back := Convert(58, 256, Convert(256, 58, ds));
    ConvertBelow(58, 256, Convert(256, 58, ds));
    NumsBytewise(back);
    assert Decode(Encode(x)) == Some(Bytewise(back));
    assert !HasNonzeroByte(x) ==> back == ds + [0, 0];
    NumsOfTwoZeros(x);
    BytewiseNums(x + [0, 0]);
  }

  lemma NumsOfTwoZeros(x: seq<byte>)
    ensures Nums(x + [0, 0]) == Nums(x) + [0, 0]
  {
  }

  /** Encoding a decoding gives the string back exactly when some character is not '1'; a string of ones gains two. */
  lemma EncodeDecodeIff(s: string)
    requires Decode(s).Some?
    ensures Encode(Decode(s).value) == s <==> HasNonOne(s)
    ensures !HasNonOne(s) ==> Encode(Decode(s).value) == s + "11"
  {
    hide Convert, HasNonzero, HasNonOne, Spell, Parse, Bytewise, Nums, InAlphabet;
    var ds := Parse(s);
    SpellParse(s);
    NonOneIff(s);
    RoundTripIff(58, 256, ds);
    ConvertBelow(58, 256, ds);
    var bytes := Convert(58, 256, ds);
    NumsBytewise(bytes);
    var back := Convert(256, 58, bytes);
    ConvertBelow(256, 58, bytes);
    ParseSpell(back);
    assert Encode(Decode(s).value) == Spell(back);
    SpellTwoZeros(ds);
  }

  lemma SpellTwoZeros(ds: seq<nat>)
    requires AllBelow(58, ds)
    ensures Spell(ds + [0, 0]) == Spell(ds) + "11"
  {
  }

  // ---------------------------------------------------------------------------------------------
  // CIDv0

  /** A sha2-256 multihash of 32 bytes. */
  predicate IsMultihash(m: seq<byte>) {
    |m| == 34 && m[0] == 0x12 && m[1] == 0x20
  }

  method CidV0ToMultihash(cid: string) returns (m: Option<seq<byte>>)
    ensures m == if Decode(cid).Some? && IsMultihash(Decode(cid).value) then Decode(cid) else None
  {
    var bytes := Base58Decode(cid);
    if bytes.None? {
      return None;
    }
    if |bytes.value| != 34 || bytes.value[0] != 0x12 || bytes.value[1] != 0x20 {
      return None;
    }
    m := bytes;
  }

  /** A CID is accepted for a multihash exactly when it is that multihash's encoding. */
  lemma CidNamesOneMultihash(cid: string, m: seq<byte>)
    requires IsMultihash(m)
    ensures Decode(cid) == Some(m) <==> cid == Encode(m)
  {
    hide Encode, Decode;
    assert HasNonzeroByte(m) by { assert m[0] != 0; }
    DecodeEncodeIff(m);
    if Decode(cid) == Some(m) {
      EncodeDecodeIff(cid);
      if !HasNonOne(cid) {
        DecodeOnes(cid);
        assert false;
      }
    }
  }

  lemma DecodeOnes(s: string)
    requires !HasNonOne(s)
    ensures Decode(s).Some? ==> !HasNonzeroByte(Decode(s).value)
  {
    hide Convert, Bytewise, Parse;
    if Decode(s).Some? {
      NonOneIff(s);
      SpellParse(s);
      RoundTripIff(58, 256, Parse(s));
      ConvertBelow(58, 256, Parse(s));
      NumsBytewise(Convert(58, 256, Parse(s)));
      NonzeroByteIff(Decode(s).value);
    }
  }
}
