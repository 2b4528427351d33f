/** Base58 text (src/base58.h): the printer and the parser as the loops of the program, each
    proved against a definition by digits, and the bijection between them. */
module Base58 {
  import opened Options
  import opened Bits
  import opened Bignum

  type Digit = n: nat | n < 58

  // ---------------------------------------------------------------- the alphabet

  function Alphabet(): (r: string)
    ensures |r| == 58
  {
    "123456789" + "ABCDEFGH" + "JKLMN" + "PQRSTUVWXYZ" + "abcdefghijk" + "mnopqrstuvwxyz"
  }

  /** Position of a character in the alphabet counted from the `i`-th, or 58. */
  function Search(c: char, i: nat): (r: nat)
    requires i <= 58
    ensures i <= r <= 58 && (r < 58 ==> Alphabet()[r] == c)
    decreases 58 - i
  {
    if i == 58 || Alphabet()[i] == c then i else Search(c, i + 1)
  }

  /** `strchr` in the alphabet. */
  function IndexOf(c: char): (r: nat)
    ensures r <= 58 && (r < 58 ==> Alphabet()[r] == c)
  {
    Search(c, 0)
  }

  predicate IsDigit(c: char) {
    IndexOf(c) < 58
  }

  function CharOf(d: Digit): char {
    Alphabet()[d]
  }

  /** The alphabet is strictly ascending, so no character occurs twice. */
  lemma AlphabetAscends(i: nat)
    requires i < 57
    ensures Alphabet()[i] < Alphabet()[i + 1]
  {
    var first, second := "123456789" + "ABCDEFGH" + "JKLMN", "PQRSTUVWXYZ" + "abcdefghijk" + "mnopqrstuvwxyz";
    assert Alphabet() == first + second;
    if i < 21 {
      assert first[i] < first[i + 1];
    } else if i > 21 {
      assert second[i - 22] < second[i - 21];
    }
  }

  lemma {:induction false} AlphabetSorted(i: nat, j: nat)
    requires i < j < 58
    ensures Alphabet()[i] < Alphabet()[j]
  {
    hide Alphabet;
    AlphabetAscends(j - 1);
    if i < j - 1 {
      AlphabetSorted(i, j - 1);
    }
  }

  lemma {:induction false} SearchFinds(d: Digit, i: nat)
    requires i <= d
    ensures Search(CharOf(d), i) == d
    decreases d - i
  {
    hide Alphabet;
    if i < d {
      AlphabetSorted(i, d);
      SearchFinds(d, i + 1);
    }
  }

  /** Digits and their characters correspond one to one. */
  lemma CharOfDigit(d: Digit)
    ensures IndexOf(CharOf(d)) == d && IsDigit(CharOf(d)) && (CharOf(d) == '1' <==> d == 0)
    ensures !IsSpace(CharOf(d)) && CharOf(d) != '\0'
  {
    assert CharOf(0) == '1' && IndexOf('1') == 0;
    if d > 0 {
      AlphabetSorted(0, d);
    }
    SearchFinds(d, 0);
  }

  /** `isspace` in the C locale. */
  predicate IsSpace(c: char) {
    c == ' ' || '\t' <= c <= '\r'
  }

  lemma DigitIsNoSpace(c: char)
    requires IsDigit(c)
    ensures !IsSpace(c) && c != '\0'
    ensures IndexOf(c) < 58 && CharOf(IndexOf(c)) == c && (c == '1' <==> IndexOf(c) == 0)
  {
    hide Alphabet, Search;
    CharOfDigit(IndexOf(c));
  }

  // ---------------------------------------------------------------- numerals

  predicate AllDigits(s: string) {
    forall i :: 0 <= i < |s| ==> IsDigit(s[i])
  }

  /** The number a string of base 58 digits denotes. */
  function Number(s: string): nat
    requires AllDigits(s)
  {
    if s == [] then 0 else Number(s[..|s| - 1]) * 58 + IndexOf(s[|s| - 1])
  }

  /** The shortest base 58 numeral of a number. */
  function Numeral(n: nat): (s: string)
  {
    if n == 0 then [] else Numeral(n / 58) + [CharOf(n % 58)]
  }

  lemma {:induction false} NumeralNumber(n: nat)
    ensures AllDigits(Numeral(n)) && Number(Numeral(n)) == n
    ensures n > 0 ==> Numeral(n) != [] && Numeral(n)[0] != '1'
  {
    hide IndexOf, IsDigit, CharOf;
    if n > 0 {
      NumeralNumber(n / 58);
      CharOfDigit(n % 58);
      assert Numeral(n)[..|Numeral(n)| - 1] == Numeral(n / 58);
    }
  }

  lemma {:induction false} NumberNumeral(s: string)
    requires AllDigits(s) && (s == [] || s[0] != '1')
    ensures Numeral(Number(s)) == s
    ensures s != [] ==> Number(s) > 0
  {
    hide IsDigit, CharOf, IndexOf;
    if s != [] {
      var n := |s| - 1;
      if n > 0 {
        assert s[..n][0] == s[0];
      }
      NumberNumeral(s[..n]);
      DigitIsNoSpace(s[n]);
      var v, d := Number(s[..n]), IndexOf(s[n]);
      DivRem(v * 58 + d, 58, v, d);
      assert s == s[..n] + [s[n]];
    }
  }

  // ---------------------------------------------------------------- leading zeros

  /** How many leading elements equal `x`. */
  function Leading<T(==)>(s: seq<T>, x: T): (n: nat)
    ensures n <= |s| && (forall i :: 0 <= i < n ==> s[i] == x) && (n < |s| ==> s[n] != x)
  {
    if s == [] || s[0] != x then 0 else 1 + Leading(s[1..], x)
  }

  function Repeat<T>(x: T, n: nat): (r: seq<T>)
    ensures |r| == n && forall i :: 0 <= i < n ==> r[i] == x
  {
    seq(n, _ => x)
  }

  lemma LeadingOf<T>(s: seq<T>, x: T, n: nat)
    requires n <= |s| && (forall i :: 0 <= i < n ==> s[i] == x) && (n < |s| ==> s[n] != x)
    ensures Leading(s, x) == n && s == Repeat(x, n) + s[n..]
  {
    hide Leading;
    var m := Leading(s, x);
    assert !(m < n) && !(n < m);
    assert s == Repeat(x, n) + s[n..];
  }

  lemma {:induction false} ZerosBefore(n: nat, b: seq<Byte>)
    ensures Value(Repeat(0, n) + b) == Value(b)
  {
    if n == 0 {
      assert Repeat<Byte>(0, 0) + b == b;
    } else {
      ZerosBefore(n - 1, b);
      LeadingZero(Repeat(0, n - 1) + b);
      assert Repeat<Byte>(0, n) + b == [0] + (Repeat(0, n - 1) + b);
    }
  }

  lemma {:induction false} OnesBefore(n: nat, s: string)
    requires AllDigits(s)
    ensures AllDigits(Repeat('1', n) + s) && Number(Repeat('1', n) + s) == Number(s)
    decreases |s|, n
  {
    hide IsDigit, IndexOf;
    CharOfDigit(0);
    FirstChar();
    var t := Repeat('1', n) + s;
    if s != [] {
      var k := |s| - 1;
      OnesBefore(n, s[..k]);
      assert t[..|t| - 1] == Repeat('1', n) + s[..k];
    } else if n > 0 {
      OnesBefore(n - 1, []);
      assert t[..n - 1] == Repeat('1', n - 1) + [];
    }
  }

  lemma FirstChar()
    ensures CharOf(0) == '1'
  {
  }

  // ---------------------------------------------------------------- what the codecs mean

  /** The text of a byte string: a `1` for every leading zero byte, then the numeral. */
  function Encoded(b: seq<Byte>): string {
    Repeat('1', Leading(b, 0)) + Numeral(Value(b))
  }

  /** The bytes of a string of digits. */
  function Bytes(s: string): seq<Byte>
    requires AllDigits(s)
  {
    Repeat(0, Leading(s, '1')) + Magnitude(Number(s))
  }

  /** The part of a string before its first NUL. */
  function CString(s: string): (r: string)
    ensures |r| <= |s| && r == s[..|r|] && (forall i :: 0 <= i < |r| ==> s[i] != '\0')
    ensures |r| < |s| ==> s[|r|] == '\0'
  {
    if s == [] || s[0] == '\0' then [] else [s[0]] + CString(s[1..])
  }

  function TrimLeft(s: string): string {
    if s != [] && IsSpace(s[0]) then TrimLeft(s[1..]) else s
  }

  function TrimRight(s: string): string {
    if s != [] && IsSpace(s[|s| - 1]) then TrimRight(s[..|s| - 1]) else s
  }

  /** A C string without the white space around it. */
  function Stripped(s: string): string {
    TrimRight(TrimLeft(CString(s)))
  }

  /** What a text decodes to: it is accepted when, stripped, it holds only digits. */
  function Decoded(s: string): Option<seq<Byte>> {
    if AllDigits(Stripped(s)) then Some(Bytes(Stripped(s))) else None
  }

  // ---------------------------------------------------------------- the bijection

  lemma BytesOfEncoded(b: seq<Byte>)
    ensures AllDigits(Encoded(b)) && Bytes(Encoded(b)) == b
  {
    hide Numeral, Number, Value, Magnitude, Leading, AllDigits;
    var n := Leading(b, 0);
    var tail := b[n..];
    LeadingOf(b, 0, n);
    ZerosBefore(n, tail);
    ValueMagnitude(tail);
    NumeralNumber(Value(b));
    OnesBefore(n, Numeral(Value(b)));
    if tail != [] {
      NonzeroValue(tail);
    } else {
      NothingIsZero();
    }
    var e := Encoded(b);
    assert n < |e| ==> e[n] == Numeral(Value(b))[0];
    LeadingOf(e, '1', n);
  }

  lemma NothingIsZero()
    ensures Value([]) == 0 && Numeral(0) == [] && Magnitude(0) == [] && Number([]) == 0
  {
  }

  lemma EncodedOfBytes(s: string)
    requires AllDigits(s)
    ensures Encoded(Bytes(s)) == s
  {
    hide Numeral, Number, Value, Magnitude, Leading, IsDigit;
    var n := Leading(s, '1');
    var tail := s[n..];
    LeadingOf(s, '1', n);
    OnesBefore(n, tail);
    NumberNumeral(tail);
    MagnitudeValue(Number(s));
    ZerosBefore(n, Magnitude(Number(s)));
    if tail == [] {
      NothingIsZero();
    }
    var b := Bytes(s);
    assert n < |b| ==> b[n] == Magnitude(Number(s))[0];
    LeadingOf(b, 0, n);
  }

  lemma {:induction false} NoTrim(s: string)
    requires AllDigits(s)
    ensures Stripped(s) == s
  {
    hide IsDigit, IsSpace;
    forall i | 0 <= i < |s| ensures s[i] != '\0' && !IsSpace(s[i]) {
      DigitIsNoSpace(s[i]);
    }
    assert CString(s) == s;
  }

  /** Decoding undoes encoding, for every byte string. */
  lemma DecodeEncode(b: seq<Byte>)
    ensures Decoded(Encoded(b)) == Some(b)
  {
    hide Encoded, Bytes, AllDigits, Stripped;
    BytesOfEncoded(b);
    NoTrim(Encoded(b));
  }

  /** A text decodes to `b` exactly when, stripped, it is the encoding of `b`. */
  lemma DecodeExact(s: string, b: seq<Byte>)
    ensures Decoded(s) == Some(b) <==> Stripped(s) == Encoded(b)
  {
    hide Encoded, Bytes, AllDigits, Stripped;
    BytesOfEncoded(b);
    if AllDigits(Stripped(s)) {
      EncodedOfBytes(Stripped(s));
    }
  }

  // ---------------------------------------------------------------- trimming

  lemma {:induction false} TrimLeftTo(s: string, k: nat)
    requires k <= |s| && (forall i :: 0 <= i < k ==> IsSpace(s[i])) && (k < |s| ==> !IsSpace(s[k]))
    ensures TrimLeft(s) == s[k..]
  {
    hide IsSpace;
    if k > 0 {
      TrimLeftTo(s[1..], k - 1);
    }
  }

  lemma {:induction false} TrimRightTo(s: string, k: nat)
    requires k <= |s| && (forall i :: k <= i < |s| ==> IsSpace(s[i])) && (k > 0 ==> !IsSpace(s[k - 1]))
    ensures TrimRight(s) == s[..k]
    decreases |s|
  {
    hide IsSpace;
    if k < |s| {
      TrimRightTo(s[..|s| - 1], k);
      assert s[..|s| - 1][..k] == s[..k];
    }
  }

  /** Trimming on the right stops after the last other character. */
  lemma {:induction false} TrimRightKeeps(s: string, k: nat)
    requires k < |s| && !IsSpace(s[k])
    ensures k < |TrimRight(s)| <= |s| && TrimRight(s) == s[..|TrimRight(s)|]
    decreases |s|
  {
    hide IsSpace;
    if IsSpace(s[|s| - 1]) {
      TrimRightKeeps(s[..|s| - 1], k);
    }
  }

  /** What the parser has found when it stops: the digits end at `p`, the white space after
      them at `q`. */
  lemma ParserVerdict(s: string, start: nat, p: nat, q: nat)
    requires var t := CString(s);
      && start <= p <= q <= |t|
      && TrimLeft(t) == t[start..]
      && (start < |t| ==> !IsSpace(t[start]))
      && AllDigits(t[start..p])
      && (p < |t| ==> !IsDigit(t[p]))
      && (forall i :: p <= i < q ==> IsSpace(t[i]))
      && (q < |t| ==> !IsSpace(t[q]))
    ensures q < |CString(s)| ==> Decoded(s) == None
    ensures q == |CString(s)| ==> Stripped(s) == CString(s)[start..p]
  {
    hide CString, TrimLeft, TrimRight, IsDigit, IsSpace, Bytes;
    var t := CString(s);
    var u := t[start..];
    if q < |t| {
      assert u[q - start] == t[q];
      TrimRightKeeps(u, q - start);
      assert Stripped(s)[p - start] == t[p];
    } else {
      if p > start {
        assert t[start..p][p - start - 1] == t[p - 1];
        DigitIsNoSpace(t[p - 1]);
        assert u[p - start - 1] == t[p - 1];
      }
      forall i | p - start <= i < |u| ensures IsSpace(u[i]) {
        assert u[i] == t[start + i];
      }
      TrimRightTo(u, p - start);
      assert u[..p - start] == t[start..p];
    }
  }

  // ---------------------------------------------------------------- the programs

  /** A little endian vector with a zero on top is read as the number itself. */
  lemma PositiveVch(b: seq<Byte>)
    ensures SetVch(Reversed(b) + [0]) == Value(b)
  {
    hide Value, Unsigned, IsNegative, Reversed;
    ReversedTwice(b);
    LeadingZero(b);
    UnsignedZero(b);
  }

  lemma ReversedTwice(b: seq<Byte>)
    ensures Reversed(Reversed(b) + [0]) == [0] + b
  {
    hide Reversed;
    assert Reversed(Reversed(b) + [0]) == [0] + b;
  }

  lemma UnsignedZero(b: seq<Byte>)
    ensures Unsigned([0] + b) == [0] + b && !IsNegative([0] + b)
  {
  }

  /** `EncodeBase58`. */
  method EncodeBase58(b: seq<Byte>) returns (str: string)
    ensures str == Encoded(b)
  {
    hide Numeral, Value, Leading, SetVch, CharOf;
    PositiveVch(b);
    var bn: nat := SetVch(Reversed(b) + [0]);
    str := [];
    assert Numeral(bn) + Reversed(str) == Numeral(bn);
    while bn > 0
      invariant Numeral(Value(b)) == Numeral(bn) + Reversed(str)
    {
      var was := str;
      str := str + [CharOf(bn % 58)];
      NumeralStep(bn);
      assert Reversed(str) == [CharOf(bn % 58)] + Reversed(was);
      bn := bn / 58;
    }
    NothingIsZero();
    ghost var digits := str;
    var p := 0;
    while p < |b| && b[p] == 0
      invariant p <= |b| && forall i :: 0 <= i < p ==> b[i] == 0
      invariant str == digits + Repeat('1', p)
    {
      str := str + ['1'];
      p := p + 1;
    }
    LeadingOf(b, 0, p);
    assert Reversed(str) == Repeat('1', p) + Reversed(digits);
    str := Reversed(str);
  }

  lemma NumeralStep(n: nat)
    requires n > 0
    ensures Numeral(n) == Numeral(n / 58) + [CharOf(n % 58)]
  {
  }

  /** The C string's character at an index; NUL at its end. */
  function CharAt(s: string, i: nat): char {
    if i < |s| then s[i] else '\0'
  }

  lemma CharAtEnd(s: string, i: nat)
    requires i <= |CString(s)|
    ensures CharAt(s, i) != '\0' <==> i < |CString(s)|
    ensures i < |CString(s)| ==> CharAt(s, i) == CString(s)[i]
  {
    hide CString;
  }

  /** `getvch` without the sign byte is the magnitude. */
  method MagnitudeVch(n: nat) returns (v: seq<Byte>)
    ensures v == Reversed(Magnitude(n))
  {
    hide Magnitude, Value;
    MagnitudeValue(n);
    NothingIsZero();
    ghost var m := Magnitude(n);
    assert Mpi(n) == if m != [] && m[0] >= 128 then [0] + m else m;
    v := GetVch(n);
    assert v == if m != [] && m[0] >= 128 then Reversed(m) + [0] else Reversed(m);
    if |v| >= 2 && v[|v| - 1] == 0 && v[|v| - 2] >= 128 {
      v := v[..|v| - 1];
    }
  }

  method SkipSpace(s: string, start: nat) returns (p: nat)
    requires start <= |CString(s)|
    ensures start <= p <= |CString(s)|
    ensures forall i :: start <= i < p ==> IsSpace(CString(s)[i])
    ensures p < |CString(s)| ==> !IsSpace(CString(s)[p])
  {
    hide CString;
    p := start;
    CharAtEnd(s, p);
    while IsSpace(CharAt(s, p))
      invariant start <= p <= |CString(s)|
      invariant CharAt(s, p) != '\0' <==> p < |CString(s)|
      invariant p < |CString(s)| ==> CharAt(s, p) == CString(s)[p]
      invariant forall i :: start <= i < p ==> IsSpace(CString(s)[i])
      decreases |CString(s)| - p
    {
      p := p + 1;
      CharAtEnd(s, p);
    }
  }

  /** `DecodeBase58`. */
  method DecodeBase58(s: string) returns (ok: bool, bytes: seq<Byte>)
    ensures ok <==> Decoded(s).Some?
    ensures bytes == if ok then Decoded(s).value else []
  {
    hide CString, TrimLeft, TrimRight, IsDigit, IsSpace, Number, Magnitude, Leading, IndexOf;
    bytes := [];
    var start := SkipSpace(s, 0);
    ghost var t := CString(s);
    TrimLeftTo(t, start);
    var p, bn: nat := start, 0;
    NothingIsZero();
    CharAtEnd(s, p);
    ok := true;
    assert t[start..start] == [];
    while CharAt(s, p) != '\0' && IsDigit(CharAt(s, p))
      invariant start <= p <= |t|
      invariant CharAt(s, p) != '\0' <==> p < |t|
      invariant p < |t| ==> CharAt(s, p) == t[p]
      invariant AllDigits(t[start..p]) && bn == Number(t[start..p])
      decreases |t| - p
    {
      NumberStep(t, start, p);
      bn := bn * 58 + IndexOf(CharAt(s, p));
      p := p + 1;
      CharAtEnd(s, p);
    }
    var q := SkipSpace(s, p);
    CharAtEnd(s, q);
    ParserVerdict(s, start, p, q);
    if CharAt(s, q) != '\0' {
      return false, [];
    }
    var v := MagnitudeVch(bn);
    var zeros := CountOnes(s, start, p);
    bytes := Repeat(0, zeros) + Reversed(v);
    assert Reversed(v) == Magnitude(bn);
  }

  lemma NumberStep(t: string, start: nat, p: nat)
    requires start <= p < |t| && AllDigits(t[start..p]) && IsDigit(t[p])
    ensures AllDigits(t[start..p + 1]) && Number(t[start..p + 1]) == Number(t[start..p]) * 58 + IndexOf(t[p])
  {
    hide IsDigit, IndexOf;
    assert t[start..p + 1] == t[start..p] + [t[p]];
    assert t[start..p + 1][..p - start] == t[start..p];
  }

  /** The loop that counts leading zeros goes over the whole text, but stops in its digits. */
  method CountOnes(s: string, start: nat, p: nat) returns (n: nat)
    requires start <= p <= |CString(s)| && (p < |CString(s)| ==> !IsDigit(CString(s)[p]))
    ensures n == Leading(CString(s)[start..p], '1')
  {
    hide CString, Leading, IsDigit;
    ghost var t := CString(s);
    n := 0;
    CharOfDigit(0);
    FirstChar();
    CharAtEnd(s, start);
    while CharAt(s, start + n) == '1'
      invariant start + n <= p
      invariant start + n < |t| ==> CharAt(s, start + n) == t[start + n]
      invariant start + n == |t| ==> CharAt(s, start + n) == '\0'
      invariant forall i :: 0 <= i < n ==> t[start..p][i] == '1'
      decreases p - n
    {
      n := n + 1;
      CharAtEnd(s, start + n);
    }
    LeadingOf(t[start..p], '1', n);
  }

  // ---------------------------------------------------------------- checksums

  type Check = b: seq<Byte> | |b| == 4 witness [0, 0, 0, 0]

  /** The first four bytes of the double hash of a byte string. */
  type Hash = seq<Byte> -> Check

  /** `EncodeBase58Check`. */
  function EncodedCheck(hash: Hash, v: seq<Byte>): string {
    Encoded(v + hash(v))
  }

  /** `DecodeBase58Check`; the output vector is empty when it fails. */
  method DecodeBase58Check(hash: Hash, s: string) returns (ok: bool, v: seq<Byte>)
    ensures ok ==> Stripped(s) == EncodedCheck(hash, v)
    ensures !ok ==> v == [] && forall w :: Stripped(s) != EncodedCheck(hash, w)
  {
    hide Stripped, Encoded, Decoded;
    var good, bytes := DecodeBase58(s);
    if !good {
      forall w ensures Stripped(s) != EncodedCheck(hash, w) {
        DecodeExact(s, w + hash(w));
      }
      return false, [];
    }
    DecodeExact(s, bytes);
    forall w ensures Stripped(s) == EncodedCheck(hash, w) <==> bytes == w + hash(w) {
      DecodeExact(s, w + hash(w));
    }
    var n := |bytes| - 4;
    if n < 0 || hash(bytes[..n]) != bytes[n..] {
      forall w ensures bytes != w + hash(w) {
        Parts(w, hash(w));
      }
      return false, [];
    }
    assert bytes == bytes[..n] + bytes[n..];
    return true, bytes[..n];
  }

  lemma Parts(v: seq<Byte>, w: seq<Byte>)
    ensures (v + w)[..|v|] == v && (v + w)[|v|..] == w
  {
  }

  lemma EncodedCheckInjective(hash: Hash, v: seq<Byte>, w: seq<Byte>)
    requires EncodedCheck(hash, v) == EncodedCheck(hash, w)
    ensures v == w
  {
    hide Encoded, Decoded;
    DecodeEncode(v + hash(v));
    DecodeEncode(w + hash(w));
    assert v == (v + hash(v))[..|v|];
    assert w == (w + hash(w))[..|w|];
  }

  lemma EncodedCheckStripped(hash: Hash, v: seq<Byte>)
    ensures Stripped(EncodedCheck(hash, v)) == EncodedCheck(hash, v)
  {
    hide Encoded, Stripped, AllDigits;
    BytesOfEncoded(v + hash(v));
    NoTrim(Encoded(v + hash(v)));
  }

  /** `CBase58Data`: a version byte and the data it covers. */
  class Base58Data {
    var version: Byte
    var data: seq<Byte>

    constructor ()
      ensures version == 0 && data == []
    {
      version := 0;
      data := [];
    }

    /** The text of the object. */
    ghost function Text(hash: Hash): string
      reads this
    {
      EncodedCheck(hash, [version] + data)
    }

    /** `SetString`: accepts exactly the texts of a version byte and data, up to white space
        around them. */
    method SetString(hash: Hash, s: string) returns (ok: bool)
      modifies this
      ensures ok ==> Stripped(s) == Text(hash)
      ensures !ok ==> version == 0 && data == []
      ensures !ok ==> forall w: seq<Byte> :: w != [] ==> Stripped(s) != EncodedCheck(hash, w)
    {
      hide Stripped, EncodedCheck;
      var good, v := DecodeBase58Check(hash, s);
      if v == [] {
        if good {
          forall w: seq<Byte> | w != [] ensures Stripped(s) != EncodedCheck(hash, w) {
            if Stripped(s) == EncodedCheck(hash, w) {
              EncodedCheckInjective(hash, v, w);
            }
          }
        }
        version, data := 0, [];
        return false;
      }
      version, data := v[0], v[1..];
      assert [version] + data == v;
      return true;
    }

    /** `ToString`. */
    method ToString(hash: Hash) returns (s: string)
      ensures s == Text(hash)
    {
      var v := [version] + data;
      s := EncodeBase58(v + hash(v));
    }
  }

  /** A printed text, read back, is the text of the same version and data, and of no others.
      So `SetString` accepts it, and leaves exactly those. */
  lemma PrintAndParse(hash: Hash, version: Byte, data: seq<Byte>, version': Byte, data': seq<Byte>)
    ensures Stripped(EncodedCheck(hash, [version] + data)) == EncodedCheck(hash, [version'] + data')
      <==> version' == version && data' == data
  {
    hide EncodedCheck, Stripped;
    EncodedCheckStripped(hash, [version] + data);
    if EncodedCheck(hash, [version] + data) == EncodedCheck(hash, [version'] + data') {
      EncodedCheckInjective(hash, [version] + data, [version'] + data');
      assert version == ([version] + data)[0] && data == ([version] + data)[1..];
      assert version' == ([version'] + data')[0] && data' == ([version'] + data')[1..];
    }
  }
}
