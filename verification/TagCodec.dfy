/** The integer and tag encodings of libevent/event_tagging.c. */
module TagCodec {
  import opened Bytes

  const TWO_32: nat := 0x1_0000_0000

  // ----- integers: a count nibble, then the nibbles, lowest first -----

  /** `n` without its lowest `k` nibbles. */
  function Shift(n: nat, k: nat): nat {
    if k == 0 then n else Shift(n, k - 1) / 16
  }

  /** The number of nibbles of `n`; none for zero. */
  function Count(n: nat): nat {
    if n == 0 then 0 else 1 + Count(n / 16)
  }

  /** Nibble `i` of the encoding: the count less one, then those of `n`. */
  function Nibble(n: nat, i: nat): (x: nat) {
    if i == 0 then (if Count(n) > 0 then Count(n) - 1 else 0) else Shift(n, i - 1) % 16
  }

  /** Nibble `i` of some bytes, high half first. */
  function NibbleAt(data: seq<byte>, i: nat): (x: nat)
    requires i / 2 < |data|
    ensures x < 16
  {
    var b: int := data[i / 2];
    if i % 2 == 1 then b % 16 else b / 16
  }

  /** The encoding of a number of at most 16 nibbles. */
  function EncInt(n: nat): (data: seq<byte>)
    requires Count(n) <= 16
    ensures |data| == (Count(n) + 2) / 2
    ensures forall i :: 0 <= i < 2 * |data| ==> NibbleAt(data, i) == Nibble(n, i)
  {
    NibbleRange(n);
    var data := seq((Count(n) + 2) / 2, b requires 0 <= b => Halves(Nibble(n, 2 * b), Nibble(n, 2 * b + 1)));
    NibblesOf(n, data);
    data
  }

  lemma NibblesOf(n: nat, data: seq<byte>)
    requires Count(n) <= 16 && forall i: nat :: Nibble(n, i) < 16
    requires forall b :: 0 <= b < |data| ==> data[b] == Halves(Nibble(n, 2 * b), Nibble(n, 2 * b + 1))
    ensures forall i :: 0 <= i < 2 * |data| ==> NibbleAt(data, i) == Nibble(n, i)
  {
    hide Nibble, Count, Halves;
    forall i | 0 <= i < 2 * |data|
      ensures NibbleAt(data, i) == Nibble(n, i)
    {
      var b := i / 2;
      assert i == 2 * b || i == 2 * b + 1;
    }
  }

  function Halves(hi: nat, lo: nat): (b: byte)
    requires hi < 16 && lo < 16
    ensures b / 16 == hi && b % 16 == lo
  {
    16 * hi + lo
  }

  lemma NibbleRange(n: nat)
    requires Count(n) <= 16
    ensures forall i: nat :: Nibble(n, i) < 16
  {
  }

  /** The number that nibbles i..k spell, lowest first. */
  function Value(data: seq<byte>, i: nat, k: nat): nat
    requires k / 2 < |data|
    decreases k + 1 - i
  {
    if i > k then 0 else NibbleAt(data, i) + 16 * Value(data, i + 1, k)
  }

  lemma {:induction false} ShiftStep(n: nat, k: nat)
    requires k > 0
    ensures Shift(n, k) == Shift(n / 16, k - 1)
  {
    if k > 1 {
      ShiftStep(n, k - 1);
    }
  }

  lemma {:induction false} ShiftAll(n: nat, k: nat)
    requires k >= Count(n)
    ensures Shift(n, k) == 0
    decreases k
  {
    if k > 0 {
      ShiftStep(n, k);
      if n > 0 {
        ShiftAll(n / 16, k - 1);
      } else {
        ShiftAll(n, k - 1);
      }
    }
  }

  /** Reading nibbles i..k of the encoding gives the rest of the number. */
  lemma {:induction false} ValueOfEncoding(n: nat, data: seq<byte>, i: nat, k: nat)
    requires Count(n) <= 16 && EncInt(n) <= data && 1 <= i <= k + 1 && k / 2 < |EncInt(n)| && k >= Count(n)
    ensures Value(data, i, k) == Shift(n, i - 1)
    decreases k + 1 - i
  {
    hide NibbleAt, EncInt, Count, Shift, Nibble;
    if i > k {
      ShiftAll(n, i - 1);
    } else {
      ValueOfEncoding(n, data, i + 1, k);
      PrefixNibble(EncInt(n), data, i);
      StepOf(n, i);
    }
  }

  lemma PrefixNibble(p: seq<byte>, data: seq<byte>, i: nat)
    requires p <= data && i / 2 < |p|
    ensures NibbleAt(data, i) == NibbleAt(p, i)
  {
    assert data[i / 2] == p[i / 2];
  }

  lemma {:induction false} CountBound(n: nat, k: nat)
    requires n < Power16(k)
    ensures Count(n) <= k
    decreases k
  {
    if k > 0 && n > 0 {
      CountBound(n / 16, k - 1);
    }
  }

  function Power16(k: nat): (p: nat)
    ensures p > 0
  {
    if k == 0 then 1 else 16 * Power16(k - 1)
  }

  /** ENCODE_INT_INTERNAL on a buffer of `size` bytes: nibble by nibble. */
  method EncodeInt(number: nat, size: nat) returns (data: seq<byte>)
    requires Count(number) <= 16 && Count(number) < 2 * size
    ensures data == EncInt(number)
  {
    hide NibbleAt, EncInt, SetNibble, Count, Shift, Nibble;
    data := Zeros(size);
    var off, n := 1, number;
    StepOf(number, 1);
    while n != 0
      invariant 1 <= off && n == Shift(number, off - 1) && Count(number) == off - 1 + Count(n) && |data| == size
      invariant forall i :: 0 <= i < 2 * size ==> NibbleAt(data, i) == if 1 <= i < off then Nibble(number, i) else 0
    {
      StepOf(number, off);
      StepOf(n, 1);
      NibbleSet(data, off, n % 16);
      data := data[off / 2 := SetNibble(data[off / 2], off, n % 16)];
      n := n / 16;
      off := off + 1;
    }
    StepOf(n, 1);
    StepOf(number, 1);
    var nibbles := if off > 2 then off - 2 else 0;
    NibbleSet(data, 0, nibbles);
    data := data[0 := SetNibble(data[0], 0, nibbles)];
    ghost var all := data;
    data := data[..(off + 1) / 2];
    forall i | 0 <= i < 2 * |data|
      ensures NibbleAt(data, i) == NibbleAt(EncInt(number), i)
    {
      PrefixNibble(data, all, i);
      if i == off { NibbleBeyond(number, i); }
    }
    NibblesDecide(data, EncInt(number));
  }

  /** What one turn of the loop needs to know about a number. */
  lemma StepOf(n: nat, off: nat)
    requires off > 0
    ensures Count(n) == if n == 0 then 0 else 1 + Count(n / 16)
    ensures Shift(n, 0) == n && Shift(n, off) == Shift(n, off - 1) / 16
    ensures Nibble(n, off) == Shift(n, off - 1) % 16
    ensures Nibble(n, 0) == if Count(n) > 0 then Count(n) - 1 else 0
  {
  }

  lemma NibbleBeyond(n: nat, i: nat)
    requires i > Count(n)
    ensures Nibble(n, i) == 0
  {
    ShiftAll(n, i - 1);
  }

  function Zeros(size: nat): (data: seq<byte>)
    ensures |data| == size && forall i :: 0 <= i < 2 * size ==> NibbleAt(data, i) == 0
  {
    seq(size, _ => 0)
  }

  /** Bytes are equal when their nibbles are. */
  lemma NibblesDecide(a: seq<byte>, b: seq<byte>)
    requires |a| == |b| && forall i :: 0 <= i < 2 * |a| ==> NibbleAt(a, i) == NibbleAt(b, i)
    ensures a == b
  {
    forall k | 0 <= k < |a|
      ensures a[k] == b[k]
    {
      assert NibbleAt(a, 2 * k) == NibbleAt(b, 2 * k) && NibbleAt(a, 2 * k + 1) == NibbleAt(b, 2 * k + 1);
      SameNibbles(a[k], b[k]);
    }
  }

  lemma NibbleSet(data: seq<byte>, off: nat, x: nat)
    requires off / 2 < |data| && x < 16
    ensures var after := data[off / 2 := SetNibble(data[off / 2], off, x)];
      forall i :: 0 <= i < 2 * |data| ==> NibbleAt(after, i) == if i == off then x else NibbleAt(data, i)
  {
  }

  /** The masks and shifts that put nibble `i` of the data into its byte. */
  function SetNibble(b: byte, i: nat, x: nat): (r: byte)
    requires x < 16
    ensures var old', new': int := b, r;
      if i % 2 == 1 then new' % 16 == x && new' / 16 == old' / 16 else new' / 16 == x && new' % 16 == old' % 16
  {
    var v: int := b;
    if i % 2 == 1 then v / 16 * 16 + x else v % 16 + x * 16
  }

  lemma SameNibbles(a: byte, b: byte)
    requires a / 16 == b / 16 && a % 16 == b % 16
    ensures a == b
  {
  }

  /** The length of the integer at the front of `data`, or -1. */
  function IntLen(data: seq<byte>, maxNibbles: nat): int {
    if data == [] then -1 else
      var k := NibbleAt(data, 0) + 1;
      if k > maxNibbles || k / 2 + 1 > |data| then -1 else k / 2 + 1
  }

  function IntValue(data: seq<byte>): nat
    requires data != [] && (NibbleAt(data, 0) + 1) / 2 < |data|
  {
    Value(data, 1, NibbleAt(data, 0) + 1)
  }

  /** What is encoded is read back, whatever follows. */
  lemma IntRoundTrip(n: nat, rest: seq<byte>, maxNibbles: nat)
    requires Count(n) <= maxNibbles && 1 <= maxNibbles <= 16
    ensures var data := EncInt(n) + rest;
      IntLen(data, maxNibbles) == |EncInt(n)| && IntValue(data) == n
  {
    hide NibbleAt, EncInt, Count, Shift, Nibble;
    var data := EncInt(n) + rest;
    StepOf(n, 1);
    PrefixNibble(EncInt(n), data, 0);
    var k := NibbleAt(data, 0) + 1;
    assert Nibble(n, 0) == NibbleAt(EncInt(n), 0);
    ValueOfEncoding(n, data, 1, k);
  }

  /** DECODE_INT_INTERNAL on the bytes from its offset on. */
  method DecodeInt(data: seq<byte>, maxNibbles: nat) returns (len: int, number: nat)
    ensures len == IntLen(data, maxNibbles)
    ensures len != -1 ==> number == IntValue(data)
  {
    number := 0;
    if |data| == 0 { return -1, 0; }
    var nibbles := NibbleAt(data, 0) + 1;
    if nibbles > maxNibbles || nibbles / 2 + 1 > |data| { return -1, 0; }
    len := nibbles / 2 + 1;
    ghost var k := nibbles;
    while nibbles > 0
      invariant 0 <= nibbles <= k && number == Value(data, nibbles + 1, k)
    {
      number := number * 16 + NibbleAt(data, nibbles);
      nibbles := nibbles - 1;
    }
  }

  // ----- the bytes themselves -----

  lemma DivTwice(n: nat, a: nat, b: nat)
    requires a > 0 && b > 0
    ensures b * a > 0 && n / a / b == n / (b * a)
  {
    var q, r, s := n / a / b, n / a % b, n % a;
    assert n / a == b * q + r;
    Regrouped(n, a, b, q, r, s);
    QuotientIs(n, b * a, q, a * r + s);
  }

  lemma Regrouped(n: nat, a: nat, b: nat, q: nat, r: nat, s: nat)
    requires n == a * (b * q + r) + s && r < b && s < a
    ensures n == (b * a) * q + (a * r + s) && a * r + s < b * a
  {
    Times(a, r + 1, b);
  }

  lemma QuotientIs(n: nat, d: nat, q: nat, r: nat)
    requires n == d * q + r && r < d
    ensures n / d == q
  {
    var k := n / d;
    assert n == d * k + n % d;
    if k < q {
      Times(d, k + 1, q);
    } else if k > q {
      Times(d, q + 1, k);
    }
  }

  lemma Times(d: nat, a: nat, b: nat)
    requires a <= b
    ensures d * a <= d * b
  {
  }

  lemma {:induction false} ShiftIsQuotient(n: nat, k: nat)
    ensures Shift(n, k) == n / Power16(k)
  {
    if k > 0 {
      ShiftIsQuotient(n, k - 1);
      DivTwice(n, Power16(k - 1), 16);
    }
  }

  lemma {:induction false} CountIs(n: nat)
    ensures n < Power16(Count(n)) && (n > 0 ==> Count(n) > 0 && Power16(Count(n) - 1) <= n)
  {
    if n >= 16 {
      CountIs(n / 16);
    } else {
      assert n > 0 ==> Count(n) == 1 && Power16(1) == 16 * Power16(0) == 16;
    }
  }

  lemma {:induction false} PowerGrows(i: nat, k: nat)
    requires i <= k
    ensures 0 < Power16(i) <= Power16(k)
    decreases k
  {
    if i < k {
      PowerGrows(i, k - 1);
    } else if k > 0 {
      PowerGrows(i - 1, k - 1);
    }
  }

  /** Hexadecimal digit `k`, from the lowest one on. */
  function Digit(n: nat, k: nat): nat {
    n / Power16(k) % 16
  }

  /** `n` has just `c` hexadecimal digits. */
  predicate Digits(n: nat, c: nat) {
    n < Power16(c) && (c > 0 ==> Power16(c - 1) <= n)
  }

  lemma DigitsCount(n: nat, c: nat)
    requires Digits(n, c)
    ensures Count(n) == c
  {
    CountBound(n, c);
    CountIs(n);
    if Count(n) < c {
      PowerGrows(Count(n), c - 1);
    }
  }

  /** The bytes of an integer of `c` digits: the high half of the first one is the number of digits
      less one, its low half the lowest digit; each byte behind it has the next digit in its high
      half and the one after that in its low half. */
  lemma IntBytes(n: nat, c: nat, data: seq<byte>, j: nat)
    requires c <= 16 && Digits(n, c) && j <= c / 2 && Count(n) <= 16 && data == EncInt(n)
    ensures |data| == c / 2 + 1
    ensures data[j] == 16 * (if j > 0 then Digit(n, 2 * j - 1) else if c > 0 then c - 1 else 0) + Digit(n, 2 * j)
  {
    hide EncInt, Power16, Count, Digit, Shift, Digits;
    DigitsCount(n, c);
    ByteIs(n, j);
    DigitIs(n, 2 * j);
    if j > 0 {
      DigitIs(n, 2 * j - 1);
    }
  }

  lemma DigitIs(n: nat, k: nat)
    ensures Digit(n, k) == Shift(n, k) % 16
  {
    ShiftIsQuotient(n, k);
  }

  lemma ByteIs(n: nat, j: nat)
    requires Count(n) <= 16 && j <= Count(n) / 2
    ensures |EncInt(n)| == Count(n) / 2 + 1
    ensures EncInt(n)[j] == 16 * (if j > 0 then Shift(n, 2 * j - 1) % 16 else if Count(n) > 0 then Count(n) - 1 else 0) +
                            Shift(n, 2 * j) % 16
  {
    hide Count, Shift;
    assert Nibble(n, 2 * j + 1) == Shift(n, 2 * j) % 16;
    StepOf(n, 1);
  }

  /** Below 16 one byte is enough. */
  lemma OneByte(n: nat)
    requires n < 16
    ensures Count(n) <= 16 && EncInt(n) == [n]
  {
    hide EncInt, Count, Power16, Digit, Digits;
    var c := if n == 0 then 0 else 1;
    FewDigits(n);
    DigitsCount(n, c);
    IntBytes(n, c, EncInt(n), 0);
  }

  /** Two or three digits take two. */
  lemma TwoBytes(n: nat, c: nat)
    requires 16 <= n < 4096 && c == if n < 256 then 2 else 3
    ensures Count(n) <= 16 && EncInt(n) == [16 * (c - 1) + n % 16, 16 * (n / 16 % 16) + n / 256]
  {
    hide EncInt, Count, Power16, Digit, Digits;
    FewDigits(n);
    DigitsCount(n, c);
    IntBytes(n, c, EncInt(n), 0);
    IntBytes(n, c, EncInt(n), 1);
  }

  lemma FewDigits(n: nat)
    ensures n < 16 ==> Digits(n, if n == 0 then 0 else 1)
    ensures 16 <= n < 256 ==> Digits(n, 2)
    ensures 256 <= n < 4096 ==> Digits(n, 3)
    ensures Digit(n, 0) == n % 16 && Digit(n, 1) == n / 16 % 16 && (n < 4096 ==> Digit(n, 2) == n / 256)
  {
    assert Power16(0) == 1 && Power16(1) == 16 && Power16(2) == 256;
    assert Power16(3) == 4096;
  }

  /** 0x166 is 26 61. */
  lemma IntExample()
    ensures Count(0x166) <= 16 && EncInt(0x166) == [0x26, 0x61]
  {
    TwoBytes(0x166, 3);
    hide EncInt, Count;
  }

  // ----- tags: seven bits a byte, lowest first, high bit set but in the last -----

  function EncTag(tag: nat): (data: seq<byte>)
    ensures data != []
  {
    if tag < 128 then [tag] else [128 + tag % 128] + EncTag(tag / 128)
  }

  function Power128(k: nat): (p: nat)
    ensures p > 0
  {
    if k == 0 then 1 else 128 * Power128(k - 1)
  }

  /** The bytes of a tag: seven bits each, the lowest ones first, and the high bit in all but the
      last. */
  lemma {:induction false} TagBytes(tag: nat, i: nat)
    requires i < |EncTag(tag)|
    ensures EncTag(tag)[i] == tag / Power128(i) % 128 + (if i < |EncTag(tag)| - 1 then 128 else 0)
    ensures tag < Power128(|EncTag(tag)|) && (tag >= 128 ==> Power128(|EncTag(tag)| - 1) <= tag)
    decreases tag
  {
    if tag >= 128 {
      TagBytes(tag / 128, if i == 0 then 0 else i - 1);
      if i > 0 {
        DivTwice(tag, 128, Power128(i - 1));
      }
    }
  }

  /** 0x166 is the tag E6 02, not the 82 66 of the comment in the source. */
  lemma TagExample()
    ensures EncTag(0x166) == [0xe6, 0x02] != [0x82, 0x66]
  {
  }

  lemma {:induction false} EncTagLength(tag: nat, k: nat)
    requires k > 0 && tag < Power128(k)
    ensures |EncTag(tag)| <= k
    decreases k
  {
    if tag >= 128 {
      assert k > 1;
      EncTagLength(tag / 128, k - 1);
    }
  }

  /** evtag_encode_tag */
  method EncodeTag(tag: nat) returns (data: seq<byte>)
    ensures data == EncTag(tag)
  {
    data := [];
    var t := tag;
    while true
      invariant EncTag(tag) == data + EncTag(t)
      decreases t
    {
      var lower: int := t % 128;
      t := t / 128;
      if t == 0 {
        data := data + [lower];
        return;
      }
      ghost var before := data;
      data := data + [lower + 128];
      assert before + ([lower + 128] + EncTag(t)) == data + EncTag(t);
    }
  }

  /** The length of the tag at the front, or 0 if it does not end. */
  function TagLen(data: seq<byte>): (n: nat)
    ensures n <= |data|
    ensures forall i :: 0 <= i < n - 1 ==> data[i] >= 128
    ensures n > 0 ==> data[n - 1] < 128
    ensures n == 0 ==> forall i :: 0 <= i < |data| ==> data[i] >= 128
  {
    if data == [] then 0
    else if data[0] < 128 then 1
    else if TagLen(data[1..]) == 0 then 0 else 1 + TagLen(data[1..])
  }

  /** The value of the first `n` bytes, seven bits of each. */
  function TagValue(data: seq<byte>, n: nat): nat
    requires n <= |data|
  {
    if n == 0 then 0 else
      var b: int := data[n - 1];
      TagValue(data, n - 1) + b % 128 * Power128(n - 1)
  }

  lemma {:induction false} TagValueFront(data: seq<byte>, n: nat)
    requires 0 < n <= |data|
    ensures var b: int := data[0]; TagValue(data, n) == b % 128 + 128 * TagValue(data[1..], n - 1)
  {
    if n > 1 {
      TagValueFront(data, n - 1);
      assert data[1..][n - 2] == data[n - 1];
      var b: int := data[n - 1];
      assert b % 128 * Power128(n - 1) == 128 * (b % 128 * Power128(n - 2));
    }
  }

  /** Seven bits more. */
  lemma TagCons(b: byte, data: seq<byte>, n: nat)
    requires 128 <= b && TagLen(data) == n > 0
    ensures TagLen([b] + data) == n + 1 && TagValue([b] + data, n + 1) == b - 128 + 128 * TagValue(data, n)
  {
    assert ([b] + data)[1..] == data;
    assert TagLen([b] + data) == n + 1;
    hide TagValue, TagLen;
    TagValueFront([b] + data, n + 1);
  }

  lemma {:induction false} TagRoundTrip(tag: nat, rest: seq<byte>)
    ensures var data := EncTag(tag) + rest;
      TagLen(data) == |EncTag(tag)| && TagValue(data, |EncTag(tag)|) == tag
    decreases tag
  {
    if tag < 128 {
      LastTagByte(tag, rest);
    } else {
      TagRoundTrip(tag / 128, rest);
      var b, more := 128 + tag % 128, EncTag(tag / 128);
      assert EncTag(tag) == [b] + more;
      hide TagValue, Power128, TagLen, EncTag;
      TagCons(b, more + rest, |more|);
      assert [b] + more + rest == [b] + (more + rest);
    }
  }

  lemma LastTagByte(b: byte, rest: seq<byte>)
    requires b < 128
    ensures TagLen([b] + rest) == 1 && TagValue([b] + rest, 1) == b
  {
    assert TagValue([b] + rest, 1) == TagValue([b] + rest, 0) + b % 128 * Power128(0);
  }

  /** The loop of decode_tag_internal.  It looks at up to `len` bytes, of which only
      `data` were pulled up; the number is 32 bits wide.  `inside` is false when the
      loop goes on behind `data`, where the model stops. */
  method DecodeTag(data: seq<byte>, len: nat) returns (count: nat, number: nat, inside: bool)
    requires |data| <= len
    ensures inside <==> TagLen(data) > 0 || |data| == len
    ensures count == TagLen(data)
    ensures count > 0 ==> number == TagValue(data, count) % TWO_32
  {
    number := 0;
    var i, shift := 0, 1;
    while i < len
      invariant 0 <= i <= |data| && shift == Power128(i) && number == TagValue(data, i) % TWO_32
      invariant forall j :: 0 <= j < i ==> data[j] >= 128
    {
      if i == |data| { return 0, number, false; }
      var lower: int := data[i];
      ModAdd(TagValue(data, i), lower % 128 * shift);
      number := (number + lower % 128 * shift) % TWO_32;
      shift := 128 * shift;
      i := i + 1;
      if lower < 128 { return i, number, true; }
    }
    return 0, number, true;
  }

  lemma ModAdd(a: nat, b: nat)
    ensures (a % TWO_32 + b) % TWO_32 == (a + b) % TWO_32
  {
    assert a == a / TWO_32 * TWO_32 + a % TWO_32;
    ModShift(a % TWO_32 + b, a / TWO_32);
  }

  lemma {:induction false} ModShift(x: nat, k: nat)
    ensures (x + k * TWO_32) % TWO_32 == x % TWO_32
  {
    if k > 0 {
      ModShift(x, k - 1);
      assert x + k * TWO_32 == (x + (k - 1) * TWO_32) + TWO_32;
    }
  }
}
