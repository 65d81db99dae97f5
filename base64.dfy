/**
 * Base 64 encoding with the standard alphabet and `=` padding, as section 4 of
 * RFC 4648 defines it (Go's base64.StdEncoding). Encode is what the upload handler
 * applies to the thumbnail bytes; Decode is its strict inverse, used to state
 * that the encoding loses nothing.
 */
module Base64 {
  import opened Wrappers

  type byte = x: int | 0 <= x < 256
  type sextet = x: int | 0 <= x < 64

  /** The character Table 1 of RFC 4648 assigns to a 6-bit value. */
  function Symbol(v: sextet): char
  {
    if v < 26 then ('A' as int + v) as char
    else if v < 52 then ('a' as int + (v - 26)) as char
    else if v < 62 then ('0' as int + (v - 52)) as char
    else if v == 62 then '+'
    else '/'
  }

  /** The characters of Table 1: A-Z, a-z, 0-9, `+` and `/`. */
  predicate IsSymbol(c: char)
  {
    'A' <= c <= 'Z' || 'a' <= c <= 'z' || '0' <= c <= '9' || c == '+' || c == '/'
  }

  /** The 6-bit value Table 1 gives a character of the alphabet. */
  function ValueOf(c: char): sextet
    requires IsSymbol(c)
  {
    if 'A' <= c <= 'Z' then c as int - 'A' as int
    else if 'a' <= c <= 'z' then c as int - 'a' as int + 26
    else if '0' <= c <= '9' then c as int - '0' as int + 52
    else if c == '+' then 62
    else 63
  }

  /** Table 1 is a bijection: every value has a symbol, and reading it back gives the value. */
  lemma SymbolInverse(v: sextet)
    ensures IsSymbol(Symbol(v)) && Symbol(v) != '='
    ensures ValueOf(Symbol(v)) == v
  {
  }

  /** Every alphabet character is the symbol of its value. */
  lemma ValueInverse(c: char)
    requires IsSymbol(c)
    ensures Symbol(ValueOf(c)) == c
  {
  }

  /** The symbol of a value is a letter or a digit exactly when the value is below 62. */
  lemma SymbolIsAlphanumeric(v: sextet)
    ensures Symbol(v) != '+' && Symbol(v) != '/' <==> v < 62
  {
  }

  /** The four symbols of a 24-bit group b0 b1 b2 (section 4 of RFC 4648). */
  function Quantum(b0: byte, b1: byte, b2: byte): (q: seq<char>)
    ensures |q| == 4 && forall k | 0 <= k < 4 :: IsSymbol(q[k])
  {
    SymbolInverse(b0 / 4);
    SymbolInverse((b0 % 4) * 16 + b1 / 16);
    SymbolInverse((b1 % 16) * 4 + b2 / 64);
    SymbolInverse(b2 % 64);
    [Symbol(b0 / 4), Symbol((b0 % 4) * 16 + b1 / 16), Symbol((b1 % 16) * 4 + b2 / 64), Symbol(b2 % 64)]
  }

  /** A string of whole 4-character quanta over the alphabet, of which only the last
      two characters may be `=`, and a `=` is never followed by a symbol. */
  predicate IsPadded(r: string)
  {
    && |r| % 4 == 0
    && forall k | 0 <= k < |r| :: IsSymbol(r[k]) || (r[k] == '=' && |r| - 2 <= k && r[|r| - 1] == '=')
  }

  /** base64.StdEncoding.EncodeToString: 4 characters per started group of 3 bytes,
      the final group padded with `=` (section 4 of RFC 4648). */
  function Encode(b: seq<byte>): (r: string)
    ensures |r| == 4 * ((|b| + 2) / 3)
    ensures IsPadded(r)
    decreases |b|
  {
    if |b| == 0 then ""
    else if |b| == 1 then
      SymbolInverse(b[0] / 4);
      SymbolInverse((b[0] % 4) * 16);
      [Symbol(b[0] / 4), Symbol((b[0] % 4) * 16), '=', '=']
    else if |b| == 2 then
      SymbolInverse(b[0] / 4);
      SymbolInverse((b[0] % 4) * 16 + b[1] / 16);
      SymbolInverse((b[1] % 16) * 4);
      [Symbol(b[0] / 4), Symbol((b[0] % 4) * 16 + b[1] / 16), Symbol((b[1] % 16) * 4), '=']
    else
      var q := Quantum(b[0], b[1], b[2]);
      var rest := Encode(b[3..]);
      PaddedAfterQuantum(q, rest);
      EncodedLengthStep(|b|);
      q + rest
  }

  lemma EncodedLengthStep(n: int)
    requires n >= 3
    ensures 4 * ((n + 2) / 3) == 4 + 4 * ((n - 3 + 2) / 3)
  {
  }

  /** A full quantum of symbols in front of a padded string keeps it padded. */
  lemma PaddedAfterQuantum(q: string, rest: string)
    requires |q| == 4 && forall k | 0 <= k < 4 :: IsSymbol(q[k])
    requires IsPadded(rest)
    ensures IsPadded(q + rest)
  {
    var r := q + rest;
    forall k | 0 <= k < |r|
      ensures IsSymbol(r[k]) || (r[k] == '=' && |r| - 2 <= k && r[|r| - 1] == '=')
    {
      if k >= 4 {
        assert r[k] == rest[k - 4];
        assert rest != [] ==> r[|r| - 1] == rest[|rest| - 1];
      }
    }
  }

  /** The first character of a non-empty encoding is the symbol of the top six bits
      of the first byte. */
  lemma EncodeFirstSymbol(b: seq<byte>)
    requires |b| > 0
    ensures Encode(b)[0] == Symbol(b[0] / 4)
  {
  }

  /** The test vectors of section 10 of RFC 4648 up to one group: "", "f", "fo" and
      "foo" as bytes. */
  lemma RfcTestVectors()
    ensures Encode([]) == ""
    ensures Encode([102]) == "Zg=="
    ensures Encode([102, 111]) == "Zm8="
    ensures Encode([102, 111, 111]) == "Zm9v"
  {
  }

  /** Past the first group, the encoding is that group's quantum followed by the
      encoding of the rest. */
  lemma EncodeGroup(b: seq<byte>)
    requires |b| >= 3
    ensures Encode(b) == Quantum(b[0], b[1], b[2]) + Encode(b[3..])
  {
  }

  /** The group "foo" of the test vectors of section 10 of RFC 4648. */
  lemma FooQuantum()
    ensures Quantum(102, 111, 111) == "Zm9v"
  {
    assert 102 / 4 == 25 && (102 % 4) * 16 + 111 / 16 == 38;
    assert (111 % 16) * 4 + 111 / 64 == 61 && 111 % 64 == 47;
    assert Symbol(25) == 'Z' && Symbol(38) == 'm' && Symbol(61) == '9' && Symbol(47) == 'v';
  }

  /** The group "bar" of the test vector "foobar" of section 10 of RFC 4648. */
  lemma BarQuantum()
    ensures Quantum(98, 97, 114) == "YmFy"
  {
    assert 98 / 4 == 24 && (98 % 4) * 16 + 97 / 16 == 38;
    assert (97 % 16) * 4 + 114 / 64 == 5 && 114 % 64 == 50;
    assert Symbol(24) == 'Y' && Symbol(38) == 'm' && Symbol(5) == 'F' && Symbol(50) == 'y';
  }

  /** The test vector "foob" of section 10 of RFC 4648. */
  lemma RfcTestVectorFoob()
    ensures Encode([102, 111, 111, 98]) == "Zm9vYg=="
  {
    var foob: seq<byte> := [102, 111, 111, 98];
    EncodeGroup(foob);
    FooQuantum();
    assert foob[3..] == [98] && Encode([98]) == "Yg==";
  }

  /** The test vector "foobar" of section 10 of RFC 4648. */
  lemma RfcTestVectorFoobar()
    ensures Encode([102, 111, 111, 98, 97, 114]) == "Zm9vYmFy"
  {
    var foobar: seq<byte> := [102, 111, 111, 98, 97, 114];
    var bar: seq<byte> := [98, 97, 114];
    EncodeGroup(foobar);
    EncodeGroup(bar);
    FooQuantum();
    BarQuantum();
    assert foobar[3..] == bar && bar[3..] == [];
  }

  /** The padding is fixed by the input length: none for whole groups, `==` after one
      trailing byte, `=` after two. */
  lemma {:induction false} EncodePadding(b: seq<byte>)
    ensures |b| % 3 == 0 ==> forall k | 0 <= k < |Encode(b)| :: IsSymbol(Encode(b)[k])
    ensures |b| % 3 == 1 ==> Encode(b)[|Encode(b)| - 2..] == "==" && IsSymbol(Encode(b)[|Encode(b)| - 3])
    ensures |b| % 3 == 2 ==> Encode(b)[|Encode(b)| - 1..] == "=" && IsSymbol(Encode(b)[|Encode(b)| - 2])
    decreases |b|
  {
    if |b| >= 3 {
      var tail := b[3..];
      EncodePadding(tail);
      SameRemainder(|b|);
      var q, rest := Quantum(b[0], b[1], b[2]), Encode(tail);
      assert Encode(b) == q + rest;
      assert |b| % 3 != 0 ==> |tail| > 0 && |rest| >= 4;
      PaddingShapeAfterQuantum(q, rest, |b| % 3);
    }
  }

  /** The padding shape of the remainder class `c`. */
  predicate PaddingShape(r: string, c: int)
  {
    && (c == 0 ==> forall k | 0 <= k < |r| :: IsSymbol(r[k]))
    && (c == 1 ==> |r| >= 3 && r[|r| - 2..] == "==" && IsSymbol(r[|r| - 3]))
    && (c == 2 ==> |r| >= 2 && r[|r| - 1..] == "=" && IsSymbol(r[|r| - 2]))
  }

  /** A quantum of symbols in front keeps the padding shape of what follows. */
  lemma PaddingShapeAfterQuantum(q: string, rest: string, c: int)
    requires |q| == 4 && forall k | 0 <= k < 4 :: IsSymbol(q[k])
    requires c != 0 ==> |rest| >= 4
    requires PaddingShape(rest, c)
    ensures PaddingShape(q + rest, c)
  {
    var r := q + rest;
    if c == 0 {
      forall k | 0 <= k < |r| ensures IsSymbol(r[k]) {
        if k < 4 {
          assert r[k] == q[k];
        } else {
          assert r[k] == rest[k - 4];
        }
      }
    } else {
      assert r[|r| - 3] == rest[|rest| - 3];
      assert r[|r| - 2..] == rest[|rest| - 2..];
    }
  }

  lemma SameRemainder(n: int)
    requires n >= 3
    ensures (n - 3) % 3 == n % 3
  {
  }

  /** The three bytes a quantum of four symbol values stands for. */
  function Bytes(v0: sextet, v1: sextet, v2: sextet, v3: sextet): seq<byte>
  {
    [v0 * 4 + v1 / 16, (v1 % 16) * 16 + v2 / 4, (v2 % 4) * 64 + v3]
  }

  /** The final quantum: `xx==` carries one byte, `xxx=` two, four symbols three; the
      bits the padding leaves over must be zero. */
  function DecodeLast(c0: char, c1: char, c2: char, c3: char): Option<seq<byte>>
  {
    if !IsSymbol(c0) || !IsSymbol(c1) then None
    else if c2 == '=' && c3 == '=' then
      if ValueOf(c1) % 16 == 0 then Some([ValueOf(c0) * 4 + ValueOf(c1) / 16]) else None
    else if !IsSymbol(c2) then None
    else if c3 == '=' then
      if ValueOf(c2) % 4 == 0 then Some(Bytes(ValueOf(c0), ValueOf(c1), ValueOf(c2), 0)[..2]) else None
    else if IsSymbol(c3) then Some(Bytes(ValueOf(c0), ValueOf(c1), ValueOf(c2), ValueOf(c3)))
    else None
  }

  /** Strict decoding: whole quanta of symbols, `=` only as padding of the final
      quantum, and the bits the padding leaves over must be zero, so that every string
      has at most one decoding. */
  function Decode(s: string): (r: Option<seq<byte>>)
    decreases |s|
  {
    if |s| == 0 then Some([])
    else if |s| < 4 then None
    else if |s| == 4 then DecodeLast(s[0], s[1], s[2], s[3])
    else if IsSymbol(s[0]) && IsSymbol(s[1]) && IsSymbol(s[2]) && IsSymbol(s[3]) then
      match Decode(s[4..])
      case None => None
      case Some(rest) => Some(Bytes(ValueOf(s[0]), ValueOf(s[1]), ValueOf(s[2]), ValueOf(s[3])) + rest)
    else None
  }

  /** Splitting three bytes into four sextets and joining them again is the identity. */
  lemma QuantumBytes(b0: byte, b1: byte, b2: byte)
    ensures (b0 % 4) * 16 + b1 / 16 < 64 && (b1 % 16) * 4 + b2 / 64 < 64
    ensures Bytes(b0 / 4, (b0 % 4) * 16 + b1 / 16, (b1 % 16) * 4 + b2 / 64, b2 % 64) == [b0, b1, b2]
  {
    var v1 := (b0 % 4) * 16 + b1 / 16;
    var v2 := (b1 % 16) * 4 + b2 / 64;
    assert v1 / 16 == b0 % 4 && v1 % 16 == b1 / 16;
    assert v2 / 4 == b1 % 16 && v2 % 4 == b2 / 64;
  }

  /** Joining four sextets into three bytes and splitting them again is the identity. */
  lemma BytesQuantum(v0: sextet, v1: sextet, v2: sextet, v3: sextet)
    ensures var b := Bytes(v0, v1, v2, v3);
      && 0 <= b[0] < 256 && 0 <= b[1] < 256 && 0 <= b[2] < 256
      && b[0] / 4 == v0 && (b[0] % 4) * 16 + b[1] / 16 == v1
      && (b[1] % 16) * 4 + b[2] / 64 == v2 && b[2] % 64 == v3
  {
    var b0 := v0 * 4 + v1 / 16;
    var b1 := (v1 % 16) * 16 + v2 / 4;
    var b2 := (v2 % 4) * 64 + v3;
    assert b0 / 4 == v0 && b0 % 4 == v1 / 16;
    assert b1 / 16 == v1 % 16 && b1 % 16 == v2 / 4;
    assert b2 / 64 == v2 % 4 && b2 % 64 == v3;
  }

  /** `xx==` whose leftover bits are zero decodes to one byte. */
  lemma DecodeOneByte(v0: sextet, v1: sextet)
    requires v1 % 16 == 0
    ensures Decode([Symbol(v0), Symbol(v1), '=', '=']) == Some([v0 * 4 + v1 / 16])
  {
    SymbolInverse(v0);
    SymbolInverse(v1);
  }

  /** `xxx=` whose leftover bits are zero decodes to two bytes. */
  lemma DecodeTwoBytes(v0: sextet, v1: sextet, v2: sextet)
    requires v2 % 4 == 0
    ensures Decode([Symbol(v0), Symbol(v1), Symbol(v2), '=']) == Some(Bytes(v0, v1, v2, 0)[..2])
  {
    SymbolInverse(v0);
    SymbolInverse(v1);
    SymbolInverse(v2);
  }

  /** Four symbols at the end decode to three bytes. */
  lemma DecodeThreeBytes(v0: sextet, v1: sextet, v2: sextet, v3: sextet)
    ensures Decode([Symbol(v0), Symbol(v1), Symbol(v2), Symbol(v3)]) == Some(Bytes(v0, v1, v2, v3))
  {
    SymbolInverse(v0);
    SymbolInverse(v1);
    SymbolInverse(v2);
    SymbolInverse(v3);
  }

  /** The encoding of one trailing byte decodes back to it. */
  lemma DecodeLastOneByte(b0: byte)
    ensures (b0 % 4) * 16 < 64
    ensures Decode([Symbol(b0 / 4), Symbol((b0 % 4) * 16), '=', '=']) == Some([b0])
  {
    var v0, v1 := b0 / 4, (b0 % 4) * 16;
    assert v1 % 16 == 0 && v0 * 4 + v1 / 16 == b0;
    DecodeOneByte(v0, v1);
  }

  /** The encoding of two trailing bytes decodes back to them. */
  lemma DecodeLastTwoBytes(b0: byte, b1: byte)
    ensures (b0 % 4) * 16 + b1 / 16 < 64 && (b1 % 16) * 4 < 64
    ensures Decode([Symbol(b0 / 4), Symbol((b0 % 4) * 16 + b1 / 16), Symbol((b1 % 16) * 4), '=']) == Some([b0, b1])
  {
    var v0, v1, v2 := b0 / 4, (b0 % 4) * 16 + b1 / 16, (b1 % 16) * 4;
    QuantumBytes(b0, b1, 0);
    assert v2 % 4 == 0;
    assert Bytes(v0, v1, v2, 0)[..2] == [b0, b1];
    DecodeTwoBytes(v0, v1, v2);
  }

  /** The encoding of a final group of three bytes decodes back to them. */
  lemma DecodeLastThreeBytes(b0: byte, b1: byte, b2: byte)
    ensures Decode(Quantum(b0, b1, b2)) == Some([b0, b1, b2])
  {
    QuantumBytes(b0, b1, b2);
    DecodeThreeBytes(b0 / 4, (b0 % 4) * 16 + b1 / 16, (b1 % 16) * 4 + b2 / 64, b2 % 64);
  }

  /** A leading quantum of four symbols decodes to three bytes in front of whatever
      the rest decodes to. */
  lemma DecodeFirst(b0: byte, b1: byte, b2: byte, t: string)
    requires |t| == 0 || |t| >= 4
    ensures Decode(Quantum(b0, b1, b2) + t) == if Decode(t).None? then None else Some([b0, b1, b2] + Decode(t).value)
  {
    if |t| == 0 {
      assert Quantum(b0, b1, b2) + t == Quantum(b0, b1, b2);
      assert [b0, b1, b2] + [] == [b0, b1, b2];
      DecodeLastThreeBytes(b0, b1, b2);
    } else {
      SymbolInverse(b0 / 4);
      SymbolInverse((b0 % 4) * 16 + b1 / 16);
      SymbolInverse((b1 % 16) * 4 + b2 / 64);
      SymbolInverse(b2 % 64);
      QuantumBytes(b0, b1, b2);
      var s := Quantum(b0, b1, b2) + t;
      assert s[4..] == t;
    }
  }

  /** Decoding the encoding of a lone byte gives it back. */
  lemma DecodeEncodeOne(b: seq<byte>)
    requires |b| == 1
    ensures Decode(Encode(b)) == Some(b)
  {
    assert b == [b[0]];
    assert Encode(b) == [Symbol(b[0] / 4), Symbol((b[0] % 4) * 16), '=', '='];
    DecodeLastOneByte(b[0]);
  }

  /** Decoding the encoding of two bytes gives them back. */
  lemma DecodeEncodeTwo(b: seq<byte>)
    requires |b| == 2
    ensures Decode(Encode(b)) == Some(b)
  {
    assert b == [b[0], b[1]];
    assert Encode(b) == [Symbol(b[0] / 4), Symbol((b[0] % 4) * 16 + b[1] / 16), Symbol((b[1] % 16) * 4), '='];
    DecodeLastTwoBytes(b[0], b[1]);
  }

  /** Decoding an encoding gives back the bytes. */
  lemma {:induction false} DecodeEncode(b: seq<byte>)
    ensures Decode(Encode(b)) == Some(b)
    decreases |b|
  {
    if |b| == 1 {
      DecodeEncodeOne(b);
    } else if |b| == 2 {
      DecodeEncodeTwo(b);
    } else if |b| >= 3 {
      var tail := b[3..];
      assert b == [b[0], b[1], b[2]] + tail;
      assert Encode(b) == Quantum(b[0], b[1], b[2]) + Encode(tail);
      DecodeEncode(tail);
      DecodeFirst(b[0], b[1], b[2], Encode(tail));
    }
  }

  /** One byte that `xx==` decodes to encodes as `xx==`. */
  lemma EncodeOneByte(v0: sextet, v1: sextet)
    requires v1 % 16 == 0
    ensures 0 <= v0 * 4 + v1 / 16 < 256
    ensures Encode([v0 * 4 + v1 / 16]) == [Symbol(v0), Symbol(v1), '=', '=']
  {
    BytesQuantum(v0, v1, 0, 0);
  }

  /** The two bytes that `xxx=` decodes to encode as `xxx=`. */
  lemma EncodeTwoBytes(v0: sextet, v1: sextet, v2: sextet)
    requires v2 % 4 == 0
    ensures Encode(Bytes(v0, v1, v2, 0)[..2]) == [Symbol(v0), Symbol(v1), Symbol(v2), '=']
  {
    BytesQuantum(v0, v1, v2, 0);
  }

  /** The three bytes four symbols decode to encode as those four symbols. */
  lemma EncodeThreeBytes(v0: sextet, v1: sextet, v2: sextet, v3: sextet, rest: seq<byte>)
    ensures Encode(Bytes(v0, v1, v2, v3) + rest) == [Symbol(v0), Symbol(v1), Symbol(v2), Symbol(v3)] + Encode(rest)
  {
    BytesQuantum(v0, v1, v2, v3);
    var b := Bytes(v0, v1, v2, v3) + rest;
    assert b[3..] == rest;
  }

  /** A final quantum that decodes is the encoding of what it decodes to. */
  lemma EncodeDecodeLast(c0: char, c1: char, c2: char, c3: char)
    requires DecodeLast(c0, c1, c2, c3).Some?
    ensures Encode(DecodeLast(c0, c1, c2, c3).value) == [c0, c1, c2, c3]
  {
    ValueInverse(c0);
    ValueInverse(c1);
    if c2 == '=' && c3 == '=' {
      EncodeOneByte(ValueOf(c0), ValueOf(c1));
    } else if c3 == '=' {
      ValueInverse(c2);
      EncodeTwoBytes(ValueOf(c0), ValueOf(c1), ValueOf(c2));
    } else {
      ValueInverse(c2);
      ValueInverse(c3);
      EncodeThreeBytes(ValueOf(c0), ValueOf(c1), ValueOf(c2), ValueOf(c3), []);
    }
  }

  /** Only encodings decode: a string that decodes is the encoding of its decoding. */
  lemma {:induction false} EncodeDecode(s: string)
    requires Decode(s).Some?
    ensures Encode(Decode(s).value) == s
    decreases |s|
  {
    if |s| == 4 {
      EncodeDecodeLast(s[0], s[1], s[2], s[3]);
      assert s == [s[0], s[1], s[2], s[3]];
    } else if |s| > 4 {
      var c0, c1, c2, c3, t := s[0], s[1], s[2], s[3], s[4..];
      assert s == [c0, c1, c2, c3] + t;
      DecodeFront(s);
      var v0, v1, v2, v3 := ValueOf(c0), ValueOf(c1), ValueOf(c2), ValueOf(c3);
      ValueInverse(c0);
      ValueInverse(c1);
      ValueInverse(c2);
      ValueInverse(c3);
      EncodeDecode(t);
      EncodeThreeBytes(v0, v1, v2, v3, Decode(t).value);
    }
  }

  /** A string longer than one quantum decodes only through a leading quantum of four
      symbols and a rest that decodes. */
  lemma DecodeFront(s: string)
    requires |s| > 4 && Decode(s).Some?
    ensures IsSymbol(s[0]) && IsSymbol(s[1]) && IsSymbol(s[2]) && IsSymbol(s[3])
    ensures Decode(s[4..]).Some?
    ensures Decode(s).value == Bytes(ValueOf(s[0]), ValueOf(s[1]), ValueOf(s[2]), ValueOf(s[3])) + Decode(s[4..]).value
  {
  }

  /** The encoding is a bijection onto the strings that decode: both directions. */
  lemma RoundTrip(b: seq<byte>, s: string)
    ensures Decode(s) == Some(b) <==> Encode(b) == s
  {
    if Decode(s) == Some(b) {
      EncodeDecode(s);
    }
    if Encode(b) == s {
      DecodeEncode(b);
    }
  }
}
