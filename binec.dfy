/** A model of binec's codec: every byte is written as an eight-character
    octet of '0' and '1' (most significant bit first), octets are separated
    by a delimiter and wrapped with newlines every `interval` octets, and
    decoding keeps only the '0'/'1' characters, groups them by eight and
    converts each group back to a byte. */
module Binec {

  /** One value of a Python `bytes` object, as iterating it yields it. */
  type Byte = b: int | 0 <= b < 256

  /** The exception `decode_byte` raises on a group of the wrong length. */
  datatype Error = IndexError

  datatype Result<T> = Success(value: T) | Failure(error: Error)

  // ------------------------------------------------------------------
  // Numerals
  // ------------------------------------------------------------------

  function Pow2(n: nat): (r: nat)
    ensures r >= 1
  {
    if n == 0 then 1 else 2 * Pow2(n - 1)
  }

  predicate IsBit(c: char) {
    c == '0' || c == '1'
  }

  predicate IsBinary(s: string) {
    forall i :: 0 <= i < |s| ==> IsBit(s[i])
  }

  function Zeros(n: nat): string {
    seq(n, _ => '0')
  }

  function Digit(v: nat): char
    requires v < 2
  {
    if v == 0 then '0' else '1'
  }

  /** `bin(v)[2:]` in Python: the shortest binary numeral of v ("0" for zero). */
  function Bin(v: nat): string
    decreases v
  {
    if v < 2 then [Digit(v)] else Bin(v / 2) + [Digit(v % 2)]
  }

  /** The n-character numeral of v modulo 2^n, most significant bit first. */
  function Bits(v: nat, n: nat): (r: string)
    ensures |r| == n
  {
    if n == 0 then [] else Bits(v / 2, n - 1) + [Digit(v % 2)]
  }

  /** The octet that `encode` writes for byte b. */
  function Octet(b: Byte): string {
    Bits(b, 8)
  }

  /** What position p of s adds to the value `decode_byte` computes:
      nothing for '0', 2^(|s|-1-p) for any other character. */
  function Weight(s: string, p: nat): nat
    requires p < |s|
  {
    if s[p] == '0' then 0 else Pow2(|s| - 1 - p)
  }

  /** The sum of the weights of the first k positions of s; it never
      reaches 2^|s|. */
  function WeightSum(s: string, k: nat): (r: nat)
    requires k <= |s|
    ensures r + Pow2(|s| - k) <= Pow2(|s|)
  {
    if k == 0 then 0 else WeightSum(s, k - 1) + Weight(s, k - 1)
  }

  /** The value of s read as a binary numeral, most significant bit first,
      with every character other than '0' counting as a one bit. */
  function BitsValue(s: string): nat {
    WeightSum(s, |s|)
  }

  /** The byte `decode_byte` returns for an 8-character group. */
  function ByteValue(group: string): Byte
    requires |group| == 8
  {
    BitsValue(group)
  }

  // ------------------------------------------------------------------
  // decode_byte
  // ------------------------------------------------------------------

  /** `decode_byte`: IndexError unless the group has exactly 8 characters,
      otherwise the sum of 2^(7-p) over the positions p not holding '0'. */
  method DecodeByte(byte: string) returns (r: Result<Byte>)
    ensures |byte| != 8 ==> r == Failure(IndexError)
    ensures |byte| == 8 ==> r == Success(BitsValue(byte))
  {
    if |byte| != 8 {
      return Failure(IndexError);
    }
    var num := 0;
    for power := 0 to 8
      invariant num == WeightSum(byte, power)
    {
      if byte[power] == '0' {
        continue;
      }
      num := num + Pow2(7 - power);
    }
    return Success(num);
  }

  /** Appending a character doubles the value and adds the new bit. */
  lemma {:induction false} WeightSumSnoc(s: string, c: char, k: nat)
    requires k <= |s|
    ensures WeightSum(s + [c], k) == 2 * WeightSum(s, k)
  {
    if k > 0 {
      WeightSumSnoc(s, c, k - 1);
      assert (s + [c])[k - 1] == s[k - 1];
      assert Pow2(|s + [c]| - 1 - (k - 1)) == 2 * Pow2(|s| - 1 - (k - 1));
    }
  }

  lemma BitsValueSnoc(s: string, c: char)
    ensures BitsValue(s + [c]) == 2 * BitsValue(s) + (if c == '0' then 0 else 1)
  {
    WeightSumSnoc(s, c, |s|);
  }

  /** The positional sum is the value of the numeral: reading v back from
      its n-bit numeral gives v when v < 2^n. */
  lemma {:induction false} BitsValueOfBits(v: nat, n: nat)
    requires v < Pow2(n)
    ensures |Bits(v, n)| == n && IsBinary(Bits(v, n))
    ensures BitsValue(Bits(v, n)) == v
  {
    if n > 0 {
      BitsValueOfBits(v / 2, n - 1);
      BitsValueSnoc(Bits(v / 2, n - 1), Digit(v % 2));
    }
  }

  /** Conversely, every binary string is the numeral of its own value. */
  lemma {:induction false} BitsOfBitsValue(s: string)
    requires IsBinary(s)
    ensures Bits(BitsValue(s), |s|) == s
  {
    if |s| > 0 {
      var t, c := s[..|s| - 1], s[|s| - 1];
      assert s == t + [c];
      assert IsBinary(t) by {
        forall i | 0 <= i < |t| ensures IsBit(t[i]) {
          assert t[i] == s[i];
        }
      }
      BitsOfBitsValue(t);
      BitsValueSnoc(t, c);
      var v := BitsValue(s);
      assert v / 2 == BitsValue(t) && v % 2 == (if c == '0' then 0 else 1);
      assert Digit(v % 2) == c;
    }
  }

  /** Every octet is 8 characters from {'0','1'} and `decode_byte` turns it
      back into its byte. */
  lemma OctetDecodes(b: Byte)
    ensures |Octet(b)| == 8 && IsBinary(Octet(b))
    ensures ByteValue(Octet(b)) == b
  {
    BitsValueOfBits(b, 8);
  }

  /** Every 8-character binary group is the octet of the byte it decodes to. */
  lemma ByteValueEncodes(group: string)
    requires |group| == 8 && IsBinary(group)
    ensures Octet(ByteValue(group)) == group
  {
    BitsOfBitsValue(group);
  }

  // ------------------------------------------------------------------
  // encode
  // ------------------------------------------------------------------

  /** `bin(v)[2:]` is the numeral of v in exactly its own length, and that
      length fits in n characters when 1 <= n and v < 2^n. */
  lemma {:induction false} BinIsBits(v: nat, n: nat)
    requires 1 <= n && v < Pow2(n)
    ensures |Bin(v)| <= n && v < Pow2(|Bin(v)|)
    ensures Bin(v) == Bits(v, |Bin(v)|)
  {
    if v < 2 {
      assert Bits(v / 2, 0) == [];
    } else {
      BinIsBits(v / 2, n - 1);
    }
  }

  /** Putting a '0' in front of the numeral of v gives its numeral one
      character longer: left-padding keeps the value. */
  lemma {:induction false} PadBits(v: nat, m: nat)
    requires v < Pow2(m)
    ensures "0" + Bits(v, m) == Bits(v, m + 1)
  {
    if m == 0 {
      assert v == 0;
    } else {
      PadBits(v / 2, m - 1);
    }
  }

  lemma ConcatAssoc(a: string, b: string, c: string, d: string)
    ensures (a + b) + (c + d) == a + (b + c + d)
  {
  }

  /** Whether `encode` writes a newline before octet i. */
  predicate NewlineBefore(i: nat, excludeNl: bool, interval: int)
    requires interval >= 1
  {
    i != 0 && i % interval == 0 && !excludeNl
  }

  /** What `encode` appends for byte i: the newline, if any, the octet, and
      the delimiter unless i is the last index. */
  function Piece(text: seq<Byte>, i: nat, delim: string, excludeNl: bool, interval: int): string
    requires i < |text| && interval >= 1
  {
    (if NewlineBefore(i, excludeNl, interval) then "\n" else "")
    + Octet(text[i])
    + (if i != |text| - 1 then delim else "")
  }

  /** The text `encode` has built after its first k iterations. */
  function EncodedPrefix(text: seq<Byte>, k: nat, delim: string, excludeNl: bool, interval: int): string
    requires k <= |text| && interval >= 1
  {
    if k == 0 then ""
    else EncodedPrefix(text, k - 1, delim, excludeNl, interval) + Piece(text, k - 1, delim, excludeNl, interval)
  }

  /** The string `encode` returns. */
  function Encoding(text: seq<Byte>, delim: string, excludeNl: bool, interval: int): string
    requires interval >= 1
  {
    EncodedPrefix(text, |text|, delim, excludeNl, interval)
  }

  /** `encode`, with the bytes already read from the file. */
  method Encode(text: seq<Byte>, delim: string, excludeNl: bool, interval: int) returns (ret: string)
    requires interval >= 1
    ensures ret == Encoding(text, delim, excludeNl, interval)
  {
    ret := "";
    for index := 0 to |text|
      invariant ret == EncodedPrefix(text, index, delim, excludeNl, interval)
    {
      var byte := text[index];
      ghost var before := ret;
      if NewlineBefore(index, excludeNl, interval) {
        ret := ret + "\n";
      }
      ghost var newline := if NewlineBefore(index, excludeNl, interval) then "\n" else "";
      assert ret == before + newline;
      var binary := Bin(byte);
      BinIsBits(byte, 8);
      while |binary| != 8
        invariant |Bin(byte)| <= |binary| <= 8
        invariant binary == Bits(byte, |binary|) && byte < Pow2(|binary|)
        decreases 8 - |binary|
      {
        PadBits(byte, |binary|);
        binary := "0" + binary;
      }
      ghost var octet := binary;
      assert octet == Octet(byte);
      if index != |text| - 1 {
        binary := binary + delim;
      }
      ghost var tail := if index != |text| - 1 then delim else "";
      assert binary == octet + tail;
      assert Piece(text, index, delim, excludeNl, interval) == newline + octet + tail;
      ConcatAssoc(before, newline, octet, tail);
      ret := ret + binary;
    }
  }

  // ------------------------------------------------------------------
  // Layout of the encoding
  // ------------------------------------------------------------------

  /** Where octet i starts in the encoding: after octet i - 1, its
      delimiter and the newline that may precede octet i. */
  function OctetStart(i: nat, delim: string, excludeNl: bool, interval: int): nat
    requires interval >= 1
  {
    if i == 0 then 0
    else OctetStart(i - 1, delim, excludeNl, interval) + 8 + |delim|
         + (if NewlineBefore(i, excludeNl, interval) then 1 else 0)
  }

  /** Going from i - 1 to i, the quotient by m grows by one exactly when i is
      a multiple of m. */
  lemma DivStep(i: int, m: int)
    requires i >= 1 && m >= 1
    ensures i / m == (i - 1) / m + (if i % m == 0 then 1 else 0)
  {
    var q, r := (i - 1) / m, (i - 1) % m;
    assert i - 1 == q * m + r && 0 <= r < m;
    if r == m - 1 {
      assert i == (q + 1) * m;
      DivUnique(i, m, q + 1, 0);
    } else {
      assert i == q * m + (r + 1);
      DivUnique(i, m, q, r + 1);
    }
  }

  lemma MulMono(d: int, m: int)
    requires d >= 1 && m >= 1
    ensures d * m >= m
  {
  }

  /** Euclidean division is determined by its defining equation. */
  lemma DivUnique(a: int, m: int, q: int, r: int)
    requires m >= 1 && a == q * m + r && 0 <= r < m
    ensures a / m == q && a % m == r
  {
    var q', r' := a / m, a % m;
    assert a == q' * m + r' && 0 <= r' < m;
    assert (q - q') * m == r' - r;
    if q > q' {
      MulMono(q - q', m);
    } else if q < q' {
      MulMono(q' - q, m);
    }
  }

  /** Octet i is preceded by i octets, i delimiters and one newline for
      each of the indices 1..i that is a multiple of interval. */
  lemma {:induction false} OctetStartClosedForm(i: nat, delim: string, excludeNl: bool, interval: int)
    requires interval >= 1
    ensures OctetStart(i, delim, excludeNl, interval)
            == 8 * i + i * |delim| + (if excludeNl then 0 else i / interval)
  {
    if i > 0 {
      OctetStartClosedForm(i - 1, delim, excludeNl, interval);
      DivStep(i, interval);
      assert (i - 1) * |delim| + |delim| == i * |delim|;
    }
  }

  /** Before iteration k (not the last) the text built so far, plus the
      newline iteration k writes, ends exactly where octet k starts. */
  lemma {:induction false} PrefixLength(text: seq<Byte>, k: nat, delim: string, excludeNl: bool, interval: int)
    requires interval >= 1 && k < |text|
    ensures |EncodedPrefix(text, k, delim, excludeNl, interval)|
              + (if NewlineBefore(k, excludeNl, interval) then 1 else 0)
            == OctetStart(k, delim, excludeNl, interval)
  {
    if k > 0 {
      PrefixLength(text, k - 1, delim, excludeNl, interval);
    }
  }

  /** Later iterations only append: what iteration k appends stays in place. */
  lemma {:induction false} PieceStays(text: seq<Byte>, k: nat, m: nat, delim: string, excludeNl: bool, interval: int)
    requires interval >= 1 && k < m <= |text|
    ensures var p := |EncodedPrefix(text, k, delim, excludeNl, interval)|;
            var piece := Piece(text, k, delim, excludeNl, interval);
            var r := EncodedPrefix(text, m, delim, excludeNl, interval);
            p + |piece| <= |r| && r[p..p + |piece|] == piece
  {
    var p := |EncodedPrefix(text, k, delim, excludeNl, interval)|;
    var piece := Piece(text, k, delim, excludeNl, interval);
    var before := EncodedPrefix(text, m - 1, delim, excludeNl, interval);
    var last := Piece(text, m - 1, delim, excludeNl, interval);
    assert EncodedPrefix(text, m, delim, excludeNl, interval) == before + last;
    if m > k + 1 {
      PieceStays(text, k, m - 1, delim, excludeNl, interval);
      SliceOfAppend(before, last, p, p + |piece|);
    } else {
      assert (before + last)[|before|..|before| + |last|] == last;
    }
  }

  lemma SliceOfAppend(a: string, b: string, i: nat, j: nat)
    requires i <= j <= |a|
    ensures (a + b)[i..j] == a[i..j]
  {
  }

  /** The encoding is empty for empty input and otherwise ends where the
      last octet ends: no delimiter and no newline trails. */
  lemma EncodeLength(text: seq<Byte>, delim: string, excludeNl: bool, interval: int)
    requires interval >= 1
    ensures |Encoding(text, delim, excludeNl, interval)|
            == if |text| == 0 then 0 else OctetStart(|text| - 1, delim, excludeNl, interval) + 8
  {
    if |text| > 0 {
      PrefixLength(text, |text| - 1, delim, excludeNl, interval);
      OctetDecodes(text[|text| - 1]);
    }
  }

  /** What iteration k appends (its newline, its octet, its delimiter) sits
      in the encoding just before OctetStart(k), less the newline. */
  lemma PieceAt(text: seq<Byte>, k: nat, delim: string, excludeNl: bool, interval: int)
    requires interval >= 1 && k < |text|
    ensures var r := Encoding(text, delim, excludeNl, interval);
            var lead := if NewlineBefore(k, excludeNl, interval) then "\n" else "";
            var tail := if k != |text| - 1 then delim else "";
            var p := OctetStart(k, delim, excludeNl, interval) - |lead|;
            0 <= p && p + |lead| + |Octet(text[k])| + |tail| <= |r|
            && r[p..p + |lead| + |Octet(text[k])| + |tail|] == lead + Octet(text[k]) + tail
  {
    PrefixLength(text, k, delim, excludeNl, interval);
    PieceStays(text, k, |text|, delim, excludeNl, interval);
  }

  /** Octet i, the octet of byte i, starts at OctetStart(i). */
  lemma EncodeOctetAt(text: seq<Byte>, i: nat, delim: string, excludeNl: bool, interval: int)
    requires interval >= 1 && i < |text|
    ensures var r := Encoding(text, delim, excludeNl, interval);
            var s := OctetStart(i, delim, excludeNl, interval);
            s + 8 <= |r| && r[s..s + 8] == Octet(text[i])
  {
    var r := Encoding(text, delim, excludeNl, interval);
    var lead := if NewlineBefore(i, excludeNl, interval) then "\n" else "";
    var tail := if i != |text| - 1 then delim else "";
    PieceAt(text, i, delim, excludeNl, interval);
    SliceParts(r, OctetStart(i, delim, excludeNl, interval) - |lead|, lead, Octet(text[i]), tail);
  }

  /** Where r holds a + b + c from p on, it holds a, b and c in turn. */
  lemma SliceParts(r: string, p: nat, a: string, b: string, c: string)
    requires p + |a| + |b| + |c| <= |r| && r[p..p + |a| + |b| + |c|] == a + b + c
    ensures r[p..p + |a|] == a
    ensures r[p + |a|..p + |a| + |b|] == b
    ensures r[p + |a| + |b|..p + |a| + |b| + |c|] == c
  {
    var q := p + |a| + |b| + |c|;
    SliceInside(r, p, q, 0, |a|);
    SliceInside(r, p, q, |a|, |a| + |b|);
    SliceInside(r, p, q, |a| + |b|, |a| + |b| + |c|);
  }

  lemma SliceInside(r: string, p: nat, q: nat, i: nat, j: nat)
    requires p <= q <= |r| && i <= j <= q - p
    ensures r[p..q][i..j] == r[p + i..p + j]
  {
    assert forall t :: 0 <= t < j - i ==> r[p..q][i..j][t] == r[p + i + t];
  }

  /** Every octet but the last is followed by the delimiter. */
  lemma EncodeDelimiterAfter(text: seq<Byte>, i: nat, delim: string, excludeNl: bool, interval: int)
    requires interval >= 1 && i + 1 < |text|
    ensures var r := Encoding(text, delim, excludeNl, interval);
            var s := OctetStart(i, delim, excludeNl, interval);
            s + 8 + |delim| <= |r| && r[s + 8..s + 8 + |delim|] == delim
  {
    var r := Encoding(text, delim, excludeNl, interval);
    var lead := if NewlineBefore(i, excludeNl, interval) then "\n" else "";
    var tail := if i != |text| - 1 then delim else "";
    PieceAt(text, i, delim, excludeNl, interval);
    SliceParts(r, OctetStart(i, delim, excludeNl, interval) - |lead|, lead, Octet(text[i]), tail);
  }

  /** Between the delimiter after octet i - 1 and octet i there is a newline
      exactly when i is a non-zero multiple of interval and newlines are not
      excluded, and nothing otherwise. */
  lemma EncodeNewlineBefore(text: seq<Byte>, i: nat, delim: string, excludeNl: bool, interval: int)
    requires interval >= 1 && 0 < i < |text|
    ensures var r := Encoding(text, delim, excludeNl, interval);
            var gap := OctetStart(i - 1, delim, excludeNl, interval) + 8 + |delim|;
            var s := OctetStart(i, delim, excludeNl, interval);
            gap <= s <= |r|
            && r[gap..s] == (if NewlineBefore(i, excludeNl, interval) then "\n" else "")
  {
    var r := Encoding(text, delim, excludeNl, interval);
    var lead := if NewlineBefore(i, excludeNl, interval) then "\n" else "";
    var tail := if i != |text| - 1 then delim else "";
    PieceAt(text, i, delim, excludeNl, interval);
    SliceParts(r, OctetStart(i, delim, excludeNl, interval) - |lead|, lead, Octet(text[i]), tail);
  }

  /** The encoding of a non-empty input ends with the last octet: no
      delimiter and no newline trails. */
  lemma EncodeEndsWithLastOctet(text: seq<Byte>, delim: string, excludeNl: bool, interval: int)
    requires interval >= 1 && |text| >= 1
    ensures var r := Encoding(text, delim, excludeNl, interval);
            |r| >= 8 && r[|r| - 8..] == Octet(text[|text| - 1])
  {
    EncodeLength(text, delim, excludeNl, interval);
    EncodeOctetAt(text, |text| - 1, delim, excludeNl, interval);
  }

  // ------------------------------------------------------------------
  // Delimiter and newline counts
  // ------------------------------------------------------------------

  /** The number of occurrences of c in s. */
  function Count(c: char, s: string): nat {
    if s == [] then 0 else Count(c, s[..|s| - 1]) + (if s[|s| - 1] == c then 1 else 0)
  }

  lemma {:induction false} CountAppend(c: char, a: string, b: string)
    ensures Count(c, a + b) == Count(c, a) + Count(c, b)
  {
    if b == [] {
      assert a + b == a;
    } else {
      assert (a + b)[..|a + b| - 1] == a + b[..|b| - 1];
      assert (a + b)[|a + b| - 1] == b[|b| - 1];
      CountAppend(c, a, b[..|b| - 1]);
    }
  }

  lemma {:induction false} CountAbsent(c: char, s: string)
    ensures Count(c, s) == 0 <==> c !in s
  {
    if s != [] {
      CountAbsent(c, s[..|s| - 1]);
      assert s == s[..|s| - 1] + [s[|s| - 1]];
    }
  }

  lemma {:induction false} CountBinary(c: char, s: string)
    requires !IsBit(c) && IsBinary(s)
    ensures Count(c, s) == 0
  {
    if s != [] {
      CountBinary(c, s[..|s| - 1]);
    }
  }

  /** How many times a non-bit character c occurs in what iteration k appends. */
  lemma PieceCount(text: seq<Byte>, k: nat, c: char, delim: string, excludeNl: bool, interval: int)
    requires interval >= 1 && k < |text| && !IsBit(c)
    ensures Count(c, Piece(text, k, delim, excludeNl, interval))
            == (if c == '\n' && NewlineBefore(k, excludeNl, interval) then 1 else 0)
               + (if k != |text| - 1 then Count(c, delim) else 0)
  {
    var newline := if NewlineBefore(k, excludeNl, interval) then "\n" else "";
    var tail := if k != |text| - 1 then delim else "";
    OctetDecodes(text[k]);
    CountBinary(c, Octet(text[k]));
    CountAppend(c, newline, Octet(text[k]));
    CountAppend(c, newline + Octet(text[k]), tail);
    assert Count(c, "\n") == if c == '\n' then 1 else 0;
    assert Count(c, "") == 0;
  }

  /** How many times a non-bit character c occurs in the first k pieces. */
  lemma {:induction false} PrefixCount(text: seq<Byte>, k: nat, c: char, delim: string, excludeNl: bool, interval: int)
    requires interval >= 1 && 1 <= k <= |text| && !IsBit(c)
    ensures Count(c, EncodedPrefix(text, k, delim, excludeNl, interval))
            == (if k < |text| then k else k - 1) * Count(c, delim)
               + (if c == '\n' && !excludeNl then (k - 1) / interval else 0)
  {
    var piece := Piece(text, k - 1, delim, excludeNl, interval);
    PieceCount(text, k - 1, c, delim, excludeNl, interval);
    CountAppend(c, EncodedPrefix(text, k - 1, delim, excludeNl, interval), piece);
    if k > 1 {
      PrefixCount(text, k - 1, c, delim, excludeNl, interval);
      DivStep(k - 1, interval);
      assert (k - 1) * Count(c, delim) + Count(c, delim) == k * Count(c, delim);
    } else {
      assert EncodedPrefix(text, 0, delim, excludeNl, interval) == "";
    }
  }

  /** For a character c other than '0' and '1': over n >= 1 bytes, c occurs
      n - 1 times as often as in the delimiter, plus, for the newline when
      newlines are not excluded, once for each index 1..n-1 that is a
      multiple of interval. So the delimiter appears n - 1 times, and with
      exclude_nl no newline appears beyond those in the delimiter. */
  lemma EncodeCharCount(text: seq<Byte>, c: char, delim: string, excludeNl: bool, interval: int)
    requires interval >= 1 && |text| >= 1 && !IsBit(c)
    ensures Count(c, Encoding(text, delim, excludeNl, interval))
            == (|text| - 1) * Count(c, delim)
               + (if c == '\n' && !excludeNl then (|text| - 1) / interval else 0)
  {
    PrefixCount(text, |text|, c, delim, excludeNl, interval);
  }

  /** With exclude_nl set and no newline in the delimiter, the encoding holds
      no newline at all. */
  lemma EncodeExcludesNewlines(text: seq<Byte>, delim: string, interval: int)
    requires interval >= 1 && '\n' !in delim
    ensures '\n' !in Encoding(text, delim, true, interval)
  {
    if |text| >= 1 {
      CountAbsent('\n', delim);
      EncodeCharCount(text, '\n', delim, true, interval);
      CountAbsent('\n', Encoding(text, delim, true, interval));
    }
  }

  // ------------------------------------------------------------------
  // decode
  // ------------------------------------------------------------------

  /** The characters `decode` keeps from the raw bytes: `chr(x)` for every
      byte x that is '0' or '1', in order; every other byte is dropped. */
  function BinaryChars(data: seq<Byte>): string {
    if data == [] then []
    else
      var c := data[|data| - 1] as char;
      BinaryChars(data[..|data| - 1]) + (if IsBit(c) then [c] else [])
  }

  /** A trailing group of fewer than 8 bits, right-padded with '0'. */
  function Pad(group: string): string
    requires |group| <= 8
  {
    group + Zeros(8 - |group|)
  }

  /** The bytes `decode` produces from the kept characters: one per full
      group of 8, in order, and one more for a padded trailing group. */
  function Groups(bits: string): seq<Byte>
    decreases |bits|
  {
    if |bits| == 0 then []
    else if |bits| < 8 then [ByteValue(Pad(bits))]
    else [ByteValue(bits[..8])] + Groups(bits[8..])
  }

  /** The bytes `decode` returns for the raw input data. */
  function Decoding(data: seq<Byte>): seq<Byte> {
    Groups(BinaryChars(data))
  }

  /** Groups of a text whose length is a multiple of 8 are not disturbed by
      what follows it. */
  lemma {:induction false} GroupsAppend(a: string, b: string)
    requires |a| % 8 == 0
    ensures Groups(a + b) == Groups(a) + Groups(b)
    decreases |a|
  {
    if a == [] {
      assert a + b == b;
    } else {
      assert (a + b)[..8] == a[..8];
      assert (a + b)[8..] == a[8..] + b;
      GroupsAppend(a[8..], b);
    }
  }

  /** `decode`, with the bytes already read from the file. Every call of
      `decode_byte` gets a group of exactly 8 characters, so taking the
      byte out of its result never meets the IndexError. */
  method Decode(binary: seq<Byte>) returns (decoded: seq<Byte>)
    ensures decoded == Decoding(binary)
  {
    decoded := [];
    var group := "";
    ghost var done := "";
    for i := 0 to |binary|
      invariant BinaryChars(binary[..i]) == done + group
      invariant |done| % 8 == 0 && |group| < 8
      invariant decoded == Groups(done)
    {
      var bit := binary[i] as char;
      BinaryCharsStep(binary, i);
      if bit == '0' || bit == '1' {
        group := group + [bit];
      }
      if |group| == 8 {
        var b := DecodeByte(group);
        GroupsFlush(done, group);
        decoded := decoded + [b.value];
        done := done + group;
        group := "";
      }
    }
    assert binary[..|binary|] == binary;
    if group != "" {
      ghost var rest := group;
      while |group| != 8
        invariant |rest| <= |group| <= 8
        invariant group == rest + Zeros(|group| - |rest|)
        decreases 8 - |group|
      {
        group := group + "0";
      }
      var b := DecodeByte(group);
      GroupsPadded(done, rest, group);
      decoded := decoded + [b.value];
    } else {
      assert done + group == done;
    }
  }

  /** One more byte of input adds its character to the kept ones exactly
      when it is '0' or '1'. */
  lemma BinaryCharsStep(data: seq<Byte>, i: nat)
    requires i < |data|
    ensures BinaryChars(data[..i + 1])
            == BinaryChars(data[..i]) + (if IsBit(data[i] as char) then [data[i] as char] else [])
  {
    assert data[..i + 1][..i] == data[..i];
  }

  /** A completed group of eight adds one byte. */
  lemma GroupsFlush(done: string, group: string)
    requires |done| % 8 == 0 && |group| == 8
    ensures Groups(done + group) == Groups(done) + [ByteValue(group)]
  {
    GroupsAppend(done, group);
    assert group[..8] == group && group[8..] == [];
  }

  /** A trailing group, right-padded with '0' to eight, adds the last byte. */
  lemma GroupsPadded(done: string, rest: string, group: string)
    requires |done| % 8 == 0 && 0 < |rest| < 8 && group == rest + Zeros(8 - |rest|)
    ensures Groups(done + rest) == Groups(done) + [ByteValue(group)]
  {
    GroupsAppend(done, rest);
    assert Groups(rest) == [ByteValue(group)];
  }

  /** k kept characters give ceil(k / 8) bytes. */
  lemma {:induction false} GroupsLength(bits: string)
    ensures |Groups(bits)| == (|bits| + 7) / 8
    decreases |bits|
  {
    if |bits| >= 8 {
      GroupsLength(bits[8..]);
    }
  }

  /** Byte j, for each full group j, is that group converted: full groups
      are converted in order. */
  lemma {:induction false} GroupsFull(bits: string, j: nat)
    requires j < |bits| / 8
    ensures 8 * j + 8 <= |bits| && |Groups(bits)| > j
    ensures Groups(bits)[j] == ByteValue(bits[8 * j..8 * j + 8])
    decreases j
  {
    if j > 0 {
      GroupsFull(bits[8..], j - 1);
      var a := 8 * (j - 1);
      assert 8 + a == 8 * j;
      assert bits[8..][a..a + 8] == bits[8 + a..8 + a + 8];
    }
  }

  /** A trailing group of 1 to 7 bits is right-padded with '0' and gives the
      last byte. */
  lemma {:induction false} GroupsTrailing(bits: string)
    requires |bits| % 8 != 0
    ensures |Groups(bits)| == |bits| / 8 + 1
    ensures Groups(bits)[|bits| / 8] == ByteValue(Pad(bits[8 * (|bits| / 8)..]))
    decreases |bits|
  {
    GroupsLength(bits);
    if |bits| >= 8 {
      GroupsTrailing(bits[8..]);
      assert bits[8..][8 * (|bits[8..]| / 8)..] == bits[8 * (|bits| / 8)..];
    }
  }

  lemma {:induction false} BinaryCharsAppend(a: seq<Byte>, b: seq<Byte>)
    ensures BinaryChars(a + b) == BinaryChars(a) + BinaryChars(b)
  {
    if b == [] {
      assert a + b == a;
    } else {
      assert (a + b)[..|a + b| - 1] == a + b[..|b| - 1];
      assert (a + b)[|a + b| - 1] == b[|b| - 1];
      BinaryCharsAppend(a, b[..|b| - 1]);
    }
  }

  /** `decode` keeps every '0' and '1' byte, as the character it codes,
      and nothing else. */
  lemma {:induction false} BinaryCharsKeepsBits(data: seq<Byte>)
    ensures IsBinary(BinaryChars(data))
    ensures (forall j :: 0 <= j < |data| ==> IsBit(data[j] as char)) ==>
              |BinaryChars(data)| == |data|
              && forall j :: 0 <= j < |data| ==> BinaryChars(data)[j] == data[j] as char
    ensures (forall j :: 0 <= j < |data| ==> !IsBit(data[j] as char)) ==> BinaryChars(data) == []
  {
    if data != [] {
      var init := data[..|data| - 1];
      BinaryCharsKeepsBits(init);
      assert forall j :: 0 <= j < |init| ==> init[j] == data[j];
    }
  }

  /** Bytes other than '0' and '1' are ignored: inserting them anywhere, or
      removing them, leaves the decoded bytes unchanged. */
  lemma DecodeIgnoresNoise(before: seq<Byte>, noise: seq<Byte>, after: seq<Byte>)
    requires forall j :: 0 <= j < |noise| ==> !IsBit(noise[j] as char)
    ensures Decoding(before + noise + after) == Decoding(before + after)
  {
    BinaryCharsKeepsBits(noise);
    BinaryCharsAppend(before + noise, after);
    BinaryCharsAppend(before, noise);
    BinaryCharsAppend(before, after);
    assert BinaryChars(before + noise) == BinaryChars(before);
  }

  // ------------------------------------------------------------------
  // Round trip
  // ------------------------------------------------------------------

  /** The '0' and '1' characters of s, in order. */
  function BitChars(s: string): string {
    if s == [] then []
    else BitChars(s[..|s| - 1]) + (if IsBit(s[|s| - 1]) then [s[|s| - 1]] else [])
  }

  lemma {:induction false} BitCharsAppend(a: string, b: string)
    ensures BitChars(a + b) == BitChars(a) + BitChars(b)
  {
    if b == [] {
      assert a + b == a;
    } else {
      assert (a + b)[..|a + b| - 1] == a + b[..|b| - 1];
      assert (a + b)[|a + b| - 1] == b[|b| - 1];
      BitCharsAppend(a, b[..|b| - 1]);
    }
  }

  lemma {:induction false} BitCharsOfBinary(s: string)
    requires IsBinary(s)
    ensures BitChars(s) == s
  {
    if s != [] {
      BitCharsOfBinary(s[..|s| - 1]);
      assert s == s[..|s| - 1] + [s[|s| - 1]];
    }
  }

  lemma {:induction false} BitCharsOfNoBits(s: string)
    requires '0' !in s && '1' !in s
    ensures BitChars(s) == []
  {
    if s != [] {
      assert s[|s| - 1] in s;
      assert forall c :: c in s[..|s| - 1] ==> c in s;
      BitCharsOfNoBits(s[..|s| - 1]);
    }
  }

  /** The octets of the bytes of text, concatenated in order. */
  function Octets(text: seq<Byte>): string {
    if text == [] then [] else Octets(text[..|text| - 1]) + Octet(text[|text| - 1])
  }

  /** When the delimiter holds no '0' or '1', the '0'/'1' characters of
      what iteration k appends are its octet. */
  lemma PieceBitChars(text: seq<Byte>, k: nat, delim: string, excludeNl: bool, interval: int)
    requires interval >= 1 && k < |text| && '0' !in delim && '1' !in delim
    ensures BitChars(Piece(text, k, delim, excludeNl, interval)) == Octet(text[k])
  {
    var newline := if NewlineBefore(k, excludeNl, interval) then "\n" else "";
    var tail := if k != |text| - 1 then delim else "";
    var octet := Octet(text[k]);
    assert Piece(text, k, delim, excludeNl, interval) == newline + octet + tail;
    OctetDecodes(text[k]);
    BitCharsBetween(newline, octet, tail);
  }

  lemma BitCharsBetween(a: string, b: string, c: string)
    requires '0' !in a && '1' !in a && IsBinary(b) && '0' !in c && '1' !in c
    ensures BitChars(a + b + c) == b
  {
    BitCharsOfNoBits(a);
    BitCharsOfNoBits(c);
    BitCharsOfBinary(b);
    BitCharsAppend(a, b);
    BitCharsAppend(a + b, c);
  }

  /** ... and those of the first k pieces are the first k octets. */
  lemma {:induction false} PrefixBitChars(text: seq<Byte>, k: nat, delim: string, excludeNl: bool, interval: int)
    requires interval >= 1 && k <= |text| && '0' !in delim && '1' !in delim
    ensures BitChars(EncodedPrefix(text, k, delim, excludeNl, interval)) == Octets(text[..k])
  {
    if k > 0 {
      PrefixBitChars(text, k - 1, delim, excludeNl, interval);
      PieceBitChars(text, k - 1, delim, excludeNl, interval);
      assert text[..k][..k - 1] == text[..k - 1];
      BitCharsAppend(EncodedPrefix(text, k - 1, delim, excludeNl, interval), Piece(text, k - 1, delim, excludeNl, interval));
    }
  }

  /** Decoding the concatenated octets gives the bytes back. */
  lemma {:induction false} GroupsOfOctets(text: seq<Byte>)
    ensures |Octets(text)| == 8 * |text|
    ensures Groups(Octets(text)) == text
  {
    if text != [] {
      var init, b := text[..|text| - 1], text[|text| - 1];
      GroupsOfOctets(init);
      OctetDecodes(b);
      GroupsAppend(Octets(init), Octet(b));
      assert Octet(b)[..8] == Octet(b) && Octet(b)[8..] == [];
      assert text == init + [b];
    }
  }

  /** The UTF-8 bytes of a character, as Python's `print` writes them to a
      UTF-8 standard output. */
  function Utf8(c: char): seq<Byte> {
    var cp := c as int;
    if cp < 0x80 then [cp]
    else if cp < 0x800 then [0xC0 + cp / 0x40, 0x80 + cp % 0x40]
    else if cp < 0x10000 then [0xE0 + cp / 0x1000, 0x80 + cp / 0x40 % 0x40, 0x80 + cp % 0x40]
    else [0xF0 + cp / 0x40000, 0x80 + cp / 0x1000 % 0x40, 0x80 + cp / 0x40 % 0x40, 0x80 + cp % 0x40]
  }

  /** The bytes of a text written out as UTF-8. */
  function TextBytes(s: string): seq<Byte> {
    if s == [] then [] else TextBytes(s[..|s| - 1]) + Utf8(s[|s| - 1])
  }

  /** Only the ASCII '0' and '1' encode to the bytes 48 and 49. */
  lemma Utf8BinaryChars(c: char)
    ensures BinaryChars(Utf8(c)) == if IsBit(c) then [c] else []
  {
    var u := Utf8(c);
    if (c as int) < 0x80 {
      assert u[..0] == [];
      assert (u[0] as char) == c;
    } else {
      assert forall j :: 0 <= j < |u| ==> u[j] >= 0x80;
      BinaryCharsKeepsBits(u);
    }
  }

  /** Reading the text back as bytes, `decode` keeps exactly its '0' and
      '1' characters. */
  lemma {:induction false} TextBytesBinaryChars(s: string)
    ensures BinaryChars(TextBytes(s)) == BitChars(s)
  {
    if s != [] {
      TextBytesBinaryChars(s[..|s| - 1]);
      Utf8BinaryChars(s[|s| - 1]);
      BinaryCharsAppend(TextBytes(s[..|s| - 1]), Utf8(s[|s| - 1]));
    }
  }

  /** Round trip: decoding the written encoding gives back the input bytes,
      for every interval >= 1, with or without newlines, whenever the
      delimiter holds neither '0' nor '1'. */
  lemma RoundTrip(text: seq<Byte>, delim: string, excludeNl: bool, interval: int)
    requires interval >= 1 && '0' !in delim && '1' !in delim
    ensures Decoding(TextBytes(Encoding(text, delim, excludeNl, interval))) == text
  {
    TextBytesBinaryChars(Encoding(text, delim, excludeNl, interval));
    PrefixBitChars(text, |text|, delim, excludeNl, interval);
    assert text[..|text|] == text;
    GroupsOfOctets(text);
  }

  /** The same holds for what is printed: the newline printed after the
      encoding unless exclude_nl is set is ignored as well. */
  lemma RoundTripPrinted(text: seq<Byte>, delim: string, excludeNl: bool, interval: int)
    requires interval >= 1 && '0' !in delim && '1' !in delim
    ensures var printed := Encoding(text, delim, excludeNl, interval) + (if excludeNl then "" else "\n");
            Decoding(TextBytes(printed)) == text
  {
    var r := Encoding(text, delim, excludeNl, interval);
    WrittenTrailer(r, if excludeNl then "" else "\n");
    RoundTrip(text, delim, excludeNl, interval);
  }

  /** Text without '0' or '1' written after r changes nothing in what is
      decoded from it. */
  lemma WrittenTrailer(r: string, end: string)
    requires '0' !in end && '1' !in end
    ensures Decoding(TextBytes(r + end)) == Decoding(TextBytes(r))
  {
    TextBytesBinaryChars(r + end);
    BitCharsAppend(r, end);
    BitCharsOfNoBits(end);
    assert BitChars(r + end) == BitChars(r) + [] == BitChars(r);
    TextBytesBinaryChars(r);
  }

  // ------------------------------------------------------------------
  // Examples
  // ------------------------------------------------------------------

  /** The octets of '@' (0x40), 'A' (0x41) and 'B' (0x42). */
  lemma OctetExamples()
    ensures Octet(0x40) == "01000000"
    ensures Octet(0x41) == "01000001" && Octet(0x42) == "01000010"
  {
    assert Bits(0, 0) == "";
    assert Bits(0, 1) == "0";
    assert Bits(1, 2) == "01";
    assert Bits(2, 3) == "010";
    assert Bits(4, 4) == "0100";
    assert Bits(8, 5) == "01000";
    assert Bits(16, 6) == "010000";
    assert Bits(32, 7) == "0100000";
    assert Bits(64, 8) == "01000000";
    assert Bits(65, 8) == "01000001";
    assert Bits(33, 7) == "0100001";
    assert Bits(66, 8) == "01000010";
  }

  /** A single byte: no delimiter and no newline. */
  lemma EncodeSingleByteExample()
    ensures Encoding([0x41], " ", false, 8) == "01000001"
  {
    OctetExamples();
    assert Piece([0x41], 0, " ", false, 8) == "01000001";
  }

  /** The encoding of two bytes. */
  lemma EncodeTwoBytes(text: seq<Byte>, delim: string, excludeNl: bool, interval: int)
    requires interval >= 1 && |text| == 2
    ensures Encoding(text, delim, excludeNl, interval)
            == Octet(text[0]) + delim + (if NewlineBefore(1, excludeNl, interval) then "\n" else "") + Octet(text[1])
  {
    assert EncodedPrefix(text, 1, delim, excludeNl, interval) == Octet(text[0]) + delim;
  }

  /** 'A' and 'B' with newlines excluded: the two octets around the
      delimiter, whatever text it is. */
  lemma EncodeTwoBytesExample(text: seq<Byte>, delim: string)
    requires |text| == 2 && text[0] == 0x41 && text[1] == 0x42
    ensures Encoding(text, delim, true, 8) == "01000001" + delim + "01000010"
  {
    OctetExamples();
    EncodeTwoBytes(text, delim, true, 8);
  }

  /** Five bytes with interval 2 and a delimiter without newlines: two
      newlines, one before octet 2 and one before octet 4, and none between
      the other octets. */
  lemma NewlineExample(text: seq<Byte>, delim: string)
    requires |text| == 5 && '\n' !in delim
    ensures Count('\n', Encoding(text, delim, false, 2)) == 2
    ensures forall i: nat :: 0 < i < 5 ==>
              var r := Encoding(text, delim, false, 2);
              var gap, s := OctetStart(i - 1, delim, false, 2) + 8 + |delim|, OctetStart(i, delim, false, 2);
              gap <= s <= |r| && r[gap..s] == (if i == 2 || i == 4 then "\n" else "")
  {
    CountAbsent('\n', delim);
    EncodeCharCount(text, '\n', delim, false, 2);
    NewlineExampleAt(text, delim, 1);
    NewlineExampleAt(text, delim, 2);
    NewlineExampleAt(text, delim, 3);
    NewlineExampleAt(text, delim, 4);
  }

  lemma NewlineExampleAt(text: seq<Byte>, delim: string, i: nat)
    requires |text| == 5 && 0 < i < 5
    ensures var r := Encoding(text, delim, false, 2);
            var gap, s := OctetStart(i - 1, delim, false, 2) + 8 + |delim|, OctetStart(i, delim, false, 2);
            gap <= s <= |r| && r[gap..s] == (if i == 2 || i == 4 then "\n" else "")
  {
    assert NewlineBefore(i, false, 2) == (i == 2 || i == 4);
    EncodeNewlineBefore(text, i, delim, false, 2);
  }

  /** A trailing group of seven bits, "0100000", is padded to "01000000". */
  lemma DecodeTrailingExample()
    ensures Decoding([48, 49, 48, 48, 48, 48, 48]) == [0x40]
  {
    var data: seq<Byte> := [48, 49, 48, 48, 48, 48, 48];
    BinaryCharsKeepsBits(data);
    assert BinaryChars(data) == "0100000";
    assert Pad("0100000") == "01000000";
    OctetExamples();
    OctetDecodes(0x40);
  }

  /** Noise between the groups is skipped. */
  lemma DecodeNoiseExample(text: seq<Byte>)
    requires |text| == 2 && text[0] == 0x41 && text[1] == 0x42
    ensures Decoding(TextBytes("01000001 ignored! 01000010")) == text
  {
    EncodeTwoBytesExample(text, " ignored! ");
    assert "01000001" + " ignored! " + "01000010" == "01000001 ignored! 01000010";
    RoundTrip(text, " ignored! ", true, 8);
  }
}
