/** Which strings, numbers and literal names are legal JSON (RFC 8259, sections 3, 6 and 7) in well-formed
    UTF-8 (RFC 3629), what a string stands for, and proofs that these are exactly the ones an encoder can
    write. */
module JsonWords {
  import opened Common
  import opened Framing

  function Ascii(s: string): (r: seq<Byte>)
    requires forall i :: 0 <= i < |s| ==> s[i] < 128 as char
    ensures |r| == |s| && forall i :: 0 <= i < |s| ==> r[i] == s[i] as int
  {
    seq(|s|, i requires 0 <= i < |s| => s[i] as int)
  }

  const LETTER_U: Byte := 117

  function HexDigit(b: Byte): Option<nat> {
    if 48 <= b <= 57 then Some(b - 48)
    else if 65 <= b <= 70 then Some(b - 55)
    else if 97 <= b <= 102 then Some(b - 87)
    else None
  }

  /** The code unit four hexadecimal digits stand for. */
  function CodeUnit(t: seq<Byte>): Option<nat> {
    if |t| < 4 || HexDigit(t[0]).None? || HexDigit(t[1]).None? || HexDigit(t[2]).None? || HexDigit(t[3]).None? then None
    else Some(((HexDigit(t[0]).value * 16 + HexDigit(t[1]).value) * 16 + HexDigit(t[2]).value) * 16 + HexDigit(t[3]).value)
  }

  /** The escapes of one letter (RFC 8259, section 7). */
  function SimpleEscape(b: Byte): Option<Byte> {
    if b == QUOTE || b == BACKSLASH || b == 47 then Some(b)
    else if b == 98 then Some(8)
    else if b == 102 then Some(12)
    else if b == 110 then Some(10)
    else if b == 114 then Some(13)
    else if b == 116 then Some(9)
    else None
  }

  /** The UTF-8 encoding of a code point (RFC 3629, section 3). */
  function Utf8(c: nat): seq<Byte>
    requires c < 0x11_0000
  {
    if c < 0x80 then [c]
    else if c < 0x800 then [0xC0 + c / 64, 0x80 + c % 64]
    else if c < 0x1_0000 then [0xE0 + c / 4096, 0x80 + c / 64 % 64, 0x80 + c % 64]
    else [0xF0 + c / 0x4_0000, 0x80 + c / 4096 % 64, 0x80 + c / 64 % 64, 0x80 + c % 64]
  }

  predicate Tail(t: seq<Byte>, i: nat) {
    i < |t| && 0x80 <= t[i] <= 0xBF
  }

  /** The length of the well-formed UTF-8 sequence a text begins with (RFC 3629, section 4), 0 if none. */
  function Utf8Length(t: seq<Byte>): (n: nat)
    ensures n <= |t|
  {
    if t == [] then 0
    else if t[0] < 0x80 then 1
    else if !Tail(t, 1) then 0
    else if 0xC2 <= t[0] <= 0xDF then 2
    else if !Tail(t, 2) then 0
    else if 0xE0 <= t[0] <= 0xEF then
      if (t[0] == 0xE0 && t[1] < 0xA0) || (t[0] == 0xED && t[1] > 0x9F) then 0 else 3
    else if !Tail(t, 3) then 0
    else if 0xF0 <= t[0] <= 0xF4 then
      if (t[0] == 0xF0 && t[1] < 0x90) || (t[0] == 0xF4 && t[1] > 0x8F) then 0 else 4
    else 0
  }

  function After(head: seq<Byte>, rest: Option<seq<Byte>>): Option<seq<Byte>> {
    match rest case None => None case Some(t) => Some(head + t)
  }

  /** What the inside of a string stands for, if it is legal: well-formed UTF-8, no bare control characters,
      known escapes, and surrogates in pairs only. */
  function Unescape(t: seq<Byte>): Option<seq<Byte>>
    decreases |t|
  {
    if t == [] then Some([])
    else if t[0] == BACKSLASH then
      if |t| < 2 then None
      else if t[1] != LETTER_U then
        match SimpleEscape(t[1])
        case None => None
        case Some(b) => After([b], Unescape(t[2..]))
      else
        match CodeUnit(t[2..])
        case None => None
        case Some(hi) =>
          if 0xD800 <= hi < 0xDC00 then
            if |t| < 12 || t[6] != BACKSLASH || t[7] != LETTER_U then None
            else
              match CodeUnit(t[8..])
              case None => None
              case Some(lo) =>
                if 0xDC00 <= lo < 0xE000
                then After(Utf8(0x1_0000 + (hi - 0xD800) * 1024 + (lo - 0xDC00)), Unescape(t[12..]))
                else None
          else if 0xDC00 <= hi < 0xE000 || hi >= 0x1_0000 then None
          else After(Utf8(hi), Unescape(t[6..]))
    else if t[0] < 32 || t[0] == QUOTE || Utf8Length(t) == 0 then None
    else After(t[..Utf8Length(t)], Unescape(t[Utf8Length(t)..]))
  }

  /** The number of digits a text begins with. */
  function DigitRun(t: seq<Byte>): (n: nat)
    ensures n <= |t|
    decreases |t|
  {
    if t == [] || !(48 <= t[0] <= 57) then 0 else 1 + DigitRun(t[1..])
  }

  /** Nothing, or an exponent (RFC 8259, section 6). */
  predicate IsExponent(t: seq<Byte>) {
    t == [] ||
    ((t[0] == 101 || t[0] == 69) &&
     var d := if |t| > 1 && (t[1] == 43 || t[1] == 45) then t[2..] else t[1..];
     d != [] && DigitRun(d) == |d|)
  }

  /** Nothing, a fraction, an exponent, or both. */
  predicate IsFraction(t: seq<Byte>) {
    if t != [] && t[0] == 46 then DigitRun(t[1..]) > 0 && IsExponent(t[1 + DigitRun(t[1..])..]) else IsExponent(t)
  }

  predicate IsNumber(t: seq<Byte>) {
    var u := if t != [] && t[0] == 45 then t[1..] else t;
    var n := DigitRun(u);
    n > 0 && (u[0] == 48 ==> n == 1) && IsFraction(u[n..])
  }

  /** A number or one of the three literal names. */
  predicate LegalWord(t: seq<Byte>) {
    t == Ascii("true") || t == Ascii("false") || t == Ascii("null") || IsNumber(t)
  }

  lemma OneByte(t: seq<Byte>)
    requires t != [] && t[0] < 0x80
    ensures Utf8Length(t) == 1
  {
  }

  lemma {:induction false} AllDigits(t: seq<Byte>)
    requires forall i :: 0 <= i < |t| ==> 48 <= t[i] <= 57
    ensures DigitRun(t) == |t|
    decreases |t|
  {
    if t != [] {
      assert forall i :: 0 <= i < |t| - 1 ==> t[1..][i] == t[i + 1];
      AllDigits(t[1..]);
    }
  }

  // ---------------------------------------------------------------------------------------------
  // Every way to write a string
  // ---------------------------------------------------------------------------------------------

  /** A character as an encoder may write it: as it is, by a one-letter escape, by a code unit, or by a
      surrogate pair. For each hexadecimal digit there is a choice of case. */
  datatype Piece =
    | Raw(c: nat)
    | Short(letter: Byte)
    | Hex(unit: nat, upper: seq<bool>)
    | Pair(hi: nat, lo: nat, upperHi: seq<bool>, upperLo: seq<bool>)

  /** A Unicode scalar value. */
  predicate Scalar(c: nat) {
    c < 0xD800 || 0xE000 <= c < 0x11_0000
  }

  predicate LegalPiece(p: Piece) {
    match p
    case Raw(c) => Scalar(c) && c >= 32 && c != 34 && c != 92
    case Short(letter) => letter in {34, 92, 47, 98, 102, 110, 114, 116}
    case Hex(unit, upper) => Scalar(unit) && unit < 0x1_0000 && |upper| == 4
    case Pair(hi, lo, upperHi, upperLo) =>
      0xD800 <= hi < 0xDC00 <= lo < 0xE000 && |upperHi| == |upperLo| == 4
  }

  /** The character it stands for. */
  function CodePoint(p: Piece): (c: nat)
    requires LegalPiece(p)
    ensures Scalar(c)
  {
    match p
    case Raw(c) => c
    case Short(letter) =>
      if letter == 98 then 8 else if letter == 102 then 12 else if letter == 110 then 10
      else if letter == 114 then 13 else if letter == 116 then 9 else letter
    case Hex(unit, _) => unit
    case Pair(hi, lo, _, _) => 0x1_0000 + (hi - 0xD800) * 0x400 + (lo - 0xDC00)
  }

  function HexByte(v: nat, upper: bool): Byte
    requires v < 16
  {
    if v < 10 then 48 + v else if upper then 55 + v else 87 + v
  }

  function HexText(unit: nat, upper: seq<bool>): seq<Byte>
    requires unit < 0x1_0000 && |upper| == 4
  {
    [HexByte(unit / 4096, upper[0]), HexByte(unit / 256 % 16, upper[1]),
     HexByte(unit / 16 % 16, upper[2]), HexByte(unit % 16, upper[3])]
  }

  function Write(p: Piece): seq<Byte>
    requires LegalPiece(p)
  {
    match p
    case Raw(c) => Utf8(c)
    case Short(letter) => [92, letter]
    case Hex(unit, upper) => [92, 117] + HexText(unit, upper)
    case Pair(hi, lo, upperHi, upperLo) => [92, 117] + HexText(hi, upperHi) + ([92, 117] + HexText(lo, upperLo))
  }

  predicate LegalPieces(ps: seq<Piece>) {
    forall i :: 0 <= i < |ps| ==> LegalPiece(ps[i])
  }

  function WriteAll(ps: seq<Piece>): seq<Byte>
    requires LegalPieces(ps)
  {
    if ps == [] then [] else Write(ps[0]) + WriteAll(ps[1..])
  }

  /** The characters in UTF-8. */
  function Spelled(ps: seq<Piece>): seq<Byte>
    requires LegalPieces(ps)
  {
    if ps == [] then [] else Utf8(CodePoint(ps[0])) + Spelled(ps[1..])
  }

  lemma HexBack(v: nat, upper: bool)
    requires v < 16
    ensures HexDigit(HexByte(v, upper)) == Some(v)
  {
  }

  lemma CodeUnitBack(unit: nat, upper: seq<bool>, rest: seq<Byte>)
    requires unit < 0x1_0000 && |upper| == 4
    ensures CodeUnit(HexText(unit, upper) + rest) == Some(unit)
  {
    hide HexDigit, HexByte;
    HexBack(unit / 4096, upper[0]);
    HexBack(unit / 256 % 16, upper[1]);
    HexBack(unit / 16 % 16, upper[2]);
    HexBack(unit % 16, upper[3]);
    Nibbles(unit);
  }

  lemma Nibbles(unit: nat)
    requires unit < 0x1_0000
    ensures ((unit / 4096 * 16 + unit / 256 % 16) * 16 + unit / 16 % 16) * 16 + unit % 16 == unit
  {
    assert unit / 256 == unit / 4096 * 16 + unit / 256 % 16;
    assert unit / 16 == unit / 256 * 16 + unit / 16 % 16;
  }

  /** A scalar value is encoded in a well-formed sequence. */
  lemma Utf8WellFormed(c: nat, rest: seq<Byte>)
    requires Scalar(c)
    ensures Utf8(c) != [] && Utf8Length(Utf8(c) + rest) == |Utf8(c)|
    ensures c >= 0x80 ==> Utf8(c)[0] >= 0xC2
  {
    hide Utf8Length;
    if c < 0x80 {
      OneWellFormed(c, rest);
    } else if c < 0x800 {
      TwoWellFormed(c / 64, c % 64, rest);
    } else if c < 0x1_0000 {
      assert c / 64 == c / 4096 * 64 + c / 64 % 64;
      ThreeWellFormed(c / 4096, c / 64 % 64, c % 64, rest);
    } else {
      assert c / 4096 == c / 0x4_0000 * 64 + c / 4096 % 64;
      FourWellFormed(c / 0x4_0000, c / 4096 % 64, c / 64 % 64, c % 64, rest);
    }
  }

  lemma OneWellFormed(a: nat, rest: seq<Byte>)
    requires a < 0x80
    ensures Utf8Length([a] + rest) == 1
  {
  }

  lemma TwoWellFormed(a: nat, b: nat, rest: seq<Byte>)
    requires 2 <= a < 32 && b < 64
    ensures Utf8Length([0xC0 + a, 0x80 + b] + rest) == 2
  {
  }

  lemma ThreeWellFormed(a: nat, b: nat, d: nat, rest: seq<Byte>)
    requires a < 16 && b < 64 && d < 64 && (a == 0 ==> b >= 32) && (a == 13 ==> b < 32)
    ensures Utf8Length([0xE0 + a, 0x80 + b, 0x80 + d] + rest) == 3
  {
  }

  lemma FourWellFormed(a: nat, b: nat, d: nat, e: nat, rest: seq<Byte>)
    requires a <= 4 && b < 64 && d < 64 && e < 64 && (a == 0 ==> b >= 16) && (a == 4 ==> b < 16)
    ensures Utf8Length([0xF0 + a, 0x80 + b, 0x80 + d, 0x80 + e] + rest) == 4
  {
  }

  lemma RawBack(c: nat, rest: seq<Byte>)
    requires LegalPiece(Raw(c))
    ensures Unescape(Utf8(c) + rest) == After(Utf8(c), Unescape(rest))
  {
    hide CodeUnit, SimpleEscape, Utf8Length, Utf8;
    var t := Utf8(c) + rest;
    Utf8WellFormed(c, rest);
    RawFirst(c);
    assert t[..|Utf8(c)|] == Utf8(c) && t[|Utf8(c)|..] == rest;
  }

  lemma ShortBack(letter: Byte, rest: seq<Byte>)
    requires LegalPiece(Short(letter))
    ensures Unescape([92, letter] + rest) == After(Utf8(CodePoint(Short(letter))), Unescape(rest))
  {
    hide CodeUnit, Utf8Length;
    assert ([92, letter] + rest)[2..] == rest;
  }

  /** A code unit that is no surrogate. */
  lemma UnitBack(unit: nat, upper: seq<bool>, rest: seq<Byte>)
    requires LegalPiece(Hex(unit, upper))
    ensures Unescape([92, 117] + HexText(unit, upper) + rest) == After(Utf8(unit), Unescape(rest))
  {
    hide CodeUnit, SimpleEscape, Utf8Length, Utf8, HexText;
    var t := [92, 117] + HexText(unit, upper) + rest;
    HexLength(unit, upper);
    CodeUnitBack(unit, upper, rest);
    assert t[2..] == HexText(unit, upper) + rest && t[6..] == rest;
  }

  lemma PairBack(hi: nat, lo: nat, upperHi: seq<bool>, upperLo: seq<bool>, rest: seq<Byte>)
    requires LegalPiece(Pair(hi, lo, upperHi, upperLo))
    ensures Unescape([92, 117] + HexText(hi, upperHi) + ([92, 117] + HexText(lo, upperLo)) + rest)
         == After(Utf8(CodePoint(Pair(hi, lo, upperHi, upperLo))), Unescape(rest))
  {
    hide CodeUnit, SimpleEscape, Utf8Length, Utf8, HexText;
    HexLength(hi, upperHi);
    HexLength(lo, upperLo);
    var second := [92, 117] + HexText(lo, upperLo) + rest;
    var t := [92, 117] + HexText(hi, upperHi) + ([92, 117] + HexText(lo, upperLo)) + rest;
    assert t == [92, 117] + HexText(hi, upperHi) + second;
    CodeUnitBack(hi, upperHi, second);
    CodeUnitBack(lo, upperLo, rest);
    assert t[2..] == HexText(hi, upperHi) + second;
    assert t[6..] == second;
    assert t[8..] == second[2..] == HexText(lo, upperLo) + rest;
    assert t[12..] == rest;
  }

  /** Reading back one piece. */
  lemma PieceBack(p: Piece, rest: seq<Byte>)
    requires LegalPiece(p)
    ensures Unescape(Write(p) + rest) == After(Utf8(CodePoint(p)), Unescape(rest))
  {
    hide Unescape, Utf8, HexText, After;
    match p
    case Raw(c) => RawBack(c, rest);
    case Short(letter) => ShortBack(letter, rest);
    case Hex(unit, upper) => UnitBack(unit, upper, rest);
    case Pair(hi, lo, upperHi, upperLo) => PairBack(hi, lo, upperHi, upperLo, rest);
  }

  lemma RawFirst(c: nat)
    requires LegalPiece(Raw(c))
    ensures Utf8(c) != [] && Utf8(c)[0] >= 32 && Utf8(c)[0] != QUOTE && Utf8(c)[0] != BACKSLASH
  {
  }

  lemma HexLength(unit: nat, upper: seq<bool>)
    requires unit < 0x1_0000 && |upper| == 4
    ensures |HexText(unit, upper)| == 4
  {
  }

  /** However a string is written, it stands for its characters. */
  lemma {:induction false} SpellingsMean(ps: seq<Piece>)
    requires LegalPieces(ps)
    ensures Unescape(WriteAll(ps)) == Some(Spelled(ps))
    decreases |ps|
  {
    hide Unescape, Write, CodePoint, Utf8;
    if ps == [] {
      EmptyString();
    } else {
      assert forall i :: 0 <= i < |ps| - 1 ==> ps[1..][i] == ps[i + 1];
      SpellingsMean(ps[1..]);
      PieceBack(ps[0], WriteAll(ps[1..]));
    }
  }

  lemma EmptyString()
    ensures Unescape([]) == Some([])
  {
  }

  /** The character of a well-formed sequence. */
  function Utf8Decode(t: seq<Byte>): nat
    requires Utf8Length(t) > 0
  {
    match Utf8Length(t)
    case 1 => t[0]
    case 2 => (t[0] as int - 0xC0) * 64 + (t[1] as int - 0x80)
    case 3 => (t[0] as int - 0xE0) * 4096 + (t[1] as int - 0x80) * 64 + (t[2] as int - 0x80)
    case _ =>
      (t[0] as int - 0xF0) * 0x4_0000 + (t[1] as int - 0x80) * 4096 + (t[2] as int - 0x80) * 64 + (t[3] as int - 0x80)
  }

  lemma Utf8Back(t: seq<Byte>)
    requires Utf8Length(t) > 0
    ensures var c := Utf8Decode(t); Scalar(c) && Utf8(c) == t[..Utf8Length(t)]
  {
    var n, c := Utf8Length(t), Utf8Decode(t);
    if n == 2 {
      assert c / 64 == t[0] - 0xC0 && c % 64 == t[1] - 0x80;
    } else if n == 3 {
      ThreeBack(t);
    } else if n == 4 {
      FourBack(t);
    }
  }

  lemma ThreeBack(t: seq<Byte>)
    requires Utf8Length(t) == 3
    ensures var c := Utf8Decode(t); Scalar(c) && Utf8(c) == t[..3]
  {
    ThreeBytes(t[0] - 0xE0, t[1] - 0x80, t[2] - 0x80);
    assert t[..3] == [t[0], t[1], t[2]];
  }

  lemma FourBack(t: seq<Byte>)
    requires Utf8Length(t) == 4
    ensures var c := Utf8Decode(t); Scalar(c) && Utf8(c) == t[..4]
  {
    FourBytes(t[0] - 0xF0, t[1] - 0x80, t[2] - 0x80, t[3] - 0x80);
    assert t[..4] == [t[0], t[1], t[2], t[3]];
  }

  lemma ThreeBytes(a: nat, b: nat, d: nat)
    requires a < 16 && b < 64 && d < 64
    ensures var c := a * 4096 + b * 64 + d; c / 4096 == a && c / 64 % 64 == b && c % 64 == d
  {
    var c := a * 4096 + b * 64 + d;
    assert c / 64 == a * 64 + b;
  }

  lemma FourBytes(a: nat, b: nat, d: nat, e: nat)
    requires a < 8 && b < 64 && d < 64 && e < 64
    ensures var c := a * 0x4_0000 + b * 4096 + d * 64 + e;
      c / 0x4_0000 == a && c / 4096 % 64 == b && c / 64 % 64 == d && c % 64 == e
  {
    var c := a * 0x4_0000 + b * 4096 + d * 64 + e;
    assert c / 64 == a * 4096 + b * 64 + d;
    assert c / 4096 == a * 64 + b;
  }

  function UpperCase(b: Byte): bool {
    b < 97
  }

  lemma HexForth(b: Byte)
    requires HexDigit(b).Some?
    ensures HexDigit(b).value < 16 && HexByte(HexDigit(b).value, UpperCase(b)) == b
  {
  }

  /** Four hexadecimal digits are the text of their code unit. */
  lemma CodeUnitForth(t: seq<Byte>) returns (upper: seq<bool>)
    requires CodeUnit(t).Some?
    ensures |t| >= 4 && CodeUnit(t).value < 0x1_0000 && |upper| == 4 && HexText(CodeUnit(t).value, upper) == t[..4]
  {
    hide HexDigit, HexByte;
    HexForth(t[0]);
    HexForth(t[1]);
    HexForth(t[2]);
    HexForth(t[3]);
    FourNibbles(HexDigit(t[0]).value, HexDigit(t[1]).value, HexDigit(t[2]).value, HexDigit(t[3]).value);
    upper := [UpperCase(t[0]), UpperCase(t[1]), UpperCase(t[2]), UpperCase(t[3])];
    assert t[..4] == [t[0], t[1], t[2], t[3]];
  }

  lemma FourNibbles(a: nat, b: nat, d: nat, e: nat)
    requires a < 16 && b < 16 && d < 16 && e < 16
    ensures var u := ((a * 16 + b) * 16 + d) * 16 + e;
      u < 0x1_0000 && u / 4096 == a && u / 256 % 16 == b && u / 16 % 16 == d && u % 16 == e
  {
    var u := ((a * 16 + b) * 16 + d) * 16 + e;
    assert u / 16 == (a * 16 + b) * 16 + d;
    assert u / 256 == a * 16 + b;
  }

  /** The first piece of a legal string. */
  lemma FirstPiece(t: seq<Byte>) returns (p: Piece, rest: seq<Byte>)
    requires t != [] && Unescape(t).Some?
    ensures LegalPiece(p) && t == Write(p) + rest && |rest| < |t| && Unescape(rest).Some?
  {
    hide CodeUnit, Utf8Length, Utf8, HexText;
    if t[0] != BACKSLASH {
      Utf8Back(t);
      var n := Utf8Length(t);
      p, rest := Raw(Utf8Decode(t)), t[n..];
      RawLegal(t);
      assert t == t[..n] + t[n..];
    } else if t[1] != LETTER_U {
      p, rest := Short(t[1]), t[2..];
    } else {
      var unit := CodeUnit(t[2..]).value;
      var upper := CodeUnitForth(t[2..]);
      HexLength(unit, upper);
      if 0xD800 <= unit < 0xDC00 {
        var lo := CodeUnit(t[8..]).value;
        var upperLo := CodeUnitForth(t[8..]);
        HexLength(lo, upperLo);
        p, rest := Pair(unit, lo, upper, upperLo), t[12..];
        assert t == [92, 117] + t[2..][..4] + ([92, 117] + t[8..][..4]) + t[12..];
      } else {
        p, rest := Hex(unit, upper), t[6..];
        assert t == [92, 117] + t[2..][..4] + t[6..];
      }
    }
  }

  lemma RawLegal(t: seq<Byte>)
    requires Utf8Length(t) > 0 && t[0] >= 32 && t[0] != QUOTE && t[0] != BACKSLASH
    ensures LegalPiece(Raw(Utf8Decode(t)))
  {
    Utf8Back(t);
    hide Utf8Decode, Utf8Length;
  }

  /** Every legal string is written in one of these ways. */
  lemma {:induction false} MeaningsSpelled(t: seq<Byte>) returns (ps: seq<Piece>)
    requires Unescape(t).Some?
    ensures LegalPieces(ps) && WriteAll(ps) == t
    decreases |t|
  {
    hide Unescape, LegalPiece, Write;
    ps := [];
    if t != [] {
      var p, rest := FirstPiece(t);
      var tail := MeaningsSpelled(rest);
      ps := [p] + tail;
      assert ps[1..] == tail;
    }
  }

  /** A string is legal, and stands for `u`, if and only if some encoder writes the characters `u` that way. */
  lemma StringsExactly(t: seq<Byte>, u: seq<Byte>)
    ensures Unescape(t) == Some(u) <==> exists ps :: LegalPieces(ps) && WriteAll(ps) == t && Spelled(ps) == u
  {
    hide Unescape, WriteAll, Spelled, LegalPieces;
    if Unescape(t) == Some(u) {
      var ps := MeaningsSpelled(t);
      SpellingsMean(ps);
    }
    forall ps | LegalPieces(ps) && WriteAll(ps) == t && Spelled(ps) == u ensures Unescape(t) == Some(u) {
      SpellingsMean(ps);
    }
  }

  // ---------------------------------------------------------------------------------------------
  // Every way to write a number
  // ---------------------------------------------------------------------------------------------

  datatype Exponent = NoExponent | Exponent(letter: Byte, sign: seq<Byte>, digits: seq<Byte>)

  /** A number as the grammar has it: minus sign, whole part, fraction digits (none for no fraction). */
  datatype Number = Number(negative: bool, whole: seq<Byte>, fraction: seq<Byte>, exponent: Exponent)

  predicate AreDigits(t: seq<Byte>) {
    forall i :: 0 <= i < |t| ==> 48 <= t[i] <= 57
  }

  predicate LegalNumber(n: Number) {
    && n.whole != [] && AreDigits(n.whole) && (n.whole[0] == 48 ==> |n.whole| == 1)
    && AreDigits(n.fraction)
    && (n.exponent.Exponent? ==>
          && n.exponent.letter in {69, 101} && n.exponent.sign in {[], [43], [45]}
          && n.exponent.digits != [] && AreDigits(n.exponent.digits))
  }

  function WriteExponent(e: Exponent): seq<Byte> {
    match e case NoExponent => [] case Exponent(letter, sign, digits) => [letter] + sign + digits
  }

  function WriteFraction(n: Number): seq<Byte> {
    (if n.fraction == [] then [] else [46] + n.fraction) + WriteExponent(n.exponent)
  }

  function WriteNumber(n: Number): seq<Byte> {
    (if n.negative then [45] else []) + (n.whole + WriteFraction(n))
  }

  lemma {:induction false} DigitsThen(a: seq<Byte>, b: seq<Byte>)
    requires AreDigits(a) && (b != [] ==> !(48 <= b[0] <= 57))
    ensures DigitRun(a + b) == |a|
    decreases |a|
  {
    if a == [] {
      assert a + b == b;
    } else {
      assert (a + b)[0] == a[0] && (a + b)[1..] == a[1..] + b;
      assert forall i :: 0 <= i < |a| - 1 ==> a[1..][i] == a[i + 1];
      DigitsThen(a[1..], b);
    }
  }

  lemma ExponentBack(e: Exponent)
    requires e.Exponent? ==> e.letter in {69, 101} && e.sign in {[], [43], [45]} && e.digits != [] && AreDigits(e.digits)
    ensures IsExponent(WriteExponent(e))
    ensures WriteExponent(e) != [] ==> WriteExponent(e)[0] in {69, 101}
  {
    if e.Exponent? {
      var t := WriteExponent(e);
      AllDigits(e.digits);
      assert t[0] == e.letter;
      if e.sign == [] {
        assert t[1..] == e.digits && t[1] == e.digits[0];
      } else {
        assert t[1] == e.sign[0] && t[2..] == e.digits;
      }
    }
  }

  lemma FractionBack(n: Number)
    requires LegalNumber(n)
    ensures IsFraction(WriteFraction(n))
    ensures WriteFraction(n) != [] ==> !(48 <= WriteFraction(n)[0] <= 57)
  {
    hide IsExponent, WriteExponent, IsFraction, AreDigits;
    var e := WriteExponent(n.exponent);
    ExponentBack(n.exponent);
    if n.fraction == [] {
      assert WriteFraction(n) == e;
      OnlyExponent(e);
    } else {
      PointDigits(n.fraction, e);
      assert WriteFraction(n) == [46] + n.fraction + e;
    }
  }

  lemma OnlyExponent(e: seq<Byte>)
    requires IsExponent(e) && (e != [] ==> e[0] in {69, 101})
    ensures IsFraction(e)
  {
  }

  lemma PointDigits(digits: seq<Byte>, e: seq<Byte>)
    requires digits != [] && AreDigits(digits) && IsExponent(e) && (e != [] ==> e[0] in {69, 101})
    ensures IsFraction([46] + digits + e)
  {
    hide IsExponent;
    var t := [46] + digits + e;
    assert t[1..] == digits + e;
    DigitsThen(digits, e);
    assert t[1 + |digits|..] == e;
  }

  lemma NumberBack(n: Number)
    requires LegalNumber(n)
    ensures IsNumber(WriteNumber(n))
  {
    var f, t := WriteFraction(n), WriteNumber(n);
    FractionBack(n);
    DigitsThen(n.whole, f);
    var u := n.whole + f;
    assert u[0] == n.whole[0] && u[|n.whole|..] == f;
    if n.negative {
      assert t[0] == 45 && t[1..] == u;
    } else {
      assert t == u;
    }
  }

  lemma {:induction false} RunDigits(t: seq<Byte>)
    ensures AreDigits(t[..DigitRun(t)])
    decreases |t|
  {
    if DigitRun(t) > 0 {
      RunDigits(t[1..]);
      assert forall i :: 0 < i < DigitRun(t) ==> t[i] == t[1..][..DigitRun(t[1..])][i - 1];
    }
  }

  lemma ExponentForth(t: seq<Byte>) returns (e: Exponent)
    requires IsExponent(t)
    ensures WriteExponent(e) == t
    ensures e.Exponent? ==> e.letter in {69, 101} && e.sign in {[], [43], [45]} && e.digits != [] && AreDigits(e.digits)
  {
    if t == [] {
      e := NoExponent;
    } else {
      var signed := |t| > 1 && (t[1] == 43 || t[1] == 45);
      var d := if signed then t[2..] else t[1..];
      RunDigits(d);
      assert d[..|d|] == d;
      e := Exponent(t[0], if signed then [t[1]] else [], d);
      assert signed ==> t == [t[0]] + [t[1]] + t[2..];
      assert !signed ==> t == [t[0]] + [] + t[1..];
    }
  }

  lemma FractionForth(f: seq<Byte>) returns (fraction: seq<Byte>, e: Exponent)
    requires IsFraction(f)
    ensures AreDigits(fraction) && f == (if fraction == [] then [] else [46] + fraction) + WriteExponent(e)
    ensures e.Exponent? ==> e.letter in {69, 101} && e.sign in {[], [43], [45]} && e.digits != [] && AreDigits(e.digits)
  {
    hide IsExponent, WriteExponent, DigitRun;
    if f != [] && f[0] == 46 {
      var m := DigitRun(f[1..]);
      RunDigits(f[1..]);
      fraction := f[1..][..m];
      e := ExponentForth(f[1 + m..]);
      assert f == [46] + fraction + f[1 + m..];
    } else {
      fraction := [];
      e := ExponentForth(f);
      assert f == [] + f;
    }
  }

  lemma NumberForth(t: seq<Byte>) returns (n: Number)
    requires IsNumber(t)
    ensures LegalNumber(n) && WriteNumber(n) == t
  {
    hide IsFraction, DigitRun, WriteExponent, AreDigits;
    var negative := t != [] && t[0] == 45;
    var u := if negative then t[1..] else t;
    var k := DigitRun(u);
    RunDigits(u);
    var fraction, e := FractionForth(u[k..]);
    n := Number(negative, u[..k], fraction, e);
    assert WriteFraction(n) == u[k..];
    Rejoin(t, negative, u, k);
  }

  lemma Rejoin(t: seq<Byte>, negative: bool, u: seq<Byte>, k: nat)
    requires k <= |u| && (if negative then t != [] && t[0] == 45 && u == t[1..] else u == t)
    ensures (if negative then [45] else []) + (u[..k] + u[k..]) == t
  {
    assert u[..k] + u[k..] == u;
  }

  /** The words that may stand as a value: the three names and what the grammar of numbers writes. */
  lemma WordsExactly(t: seq<Byte>)
    ensures LegalWord(t) <==>
            || t == [116, 114, 117, 101] || t == [102, 97, 108, 115, 101] || t == [110, 117, 108, 108]
            || exists n :: LegalNumber(n) && WriteNumber(n) == t
  {
    hide IsNumber, LegalNumber, WriteNumber;
    assert Ascii("true") == [116, 114, 117, 101];
    assert Ascii("false") == [102, 97, 108, 115, 101];
    assert Ascii("null") == [110, 117, 108, 108];
    if IsNumber(t) {
      var n := NumberForth(t);
    }
    forall n | LegalNumber(n) && WriteNumber(n) == t ensures IsNumber(t) {
      NumberBack(n);
    }
  }
}
