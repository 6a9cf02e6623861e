/** The UNSTUFF_BITS macro of src/dev/mmc/mmc.h, and swap_words: a field of the
    128-bit number that sixteen bytes are. */
module BitField {
  import opened Common
  import opened Modular

  // ---- The operators of C, bit by bit -------------------------------------

  function Bit(a: nat, i: nat): bool
    decreases i
  {
    if i == 0 then a % 2 == 1 else Bit(a / 2, i - 1)
  }

  /** a >> n */
  function Shr(a: nat, n: nat): nat
    decreases n
  {
    if n == 0 then a else Shr(a / 2, n - 1)
  }

  /** a << n, before it is cut to a word. */
  function Shl(a: nat, n: nat): nat {
    a * Power(2, n)
  }

  /** The n lowest bits. */
  function Low(a: nat, n: nat): nat
    decreases n
  {
    if n == 0 then 0 else a % 2 + 2 * Low(a / 2, n - 1)
  }

  function And(a: nat, b: nat): nat {
    if a == 0 || b == 0 then 0
    else (if a % 2 == 1 && b % 2 == 1 then 1 else 0) + 2 * And(a / 2, b / 2)
  }

  function Or(a: nat, b: nat): nat {
    if a == 0 then b
    else if b == 0 then a
    else (if a % 2 == 1 || b % 2 == 1 then 1 else 0) + 2 * Or(a / 2, b / 2)
  }

  lemma {:induction false} BitOfZero(i: nat)
    ensures !Bit(0, i)
  {
    if i > 0 {
      BitOfZero(i - 1);
    }
  }

  lemma {:induction false} BitShr(a: nat, n: nat, i: nat)
    ensures Bit(Shr(a, n), i) == Bit(a, i + n)
    decreases n
  {
    if n > 0 {
      BitShr(a / 2, n - 1, i);
    }
  }

  lemma {:induction false} BitShl(a: nat, n: nat, i: nat)
    ensures Bit(Shl(a, n), i) <==> i >= n && Bit(a, i - n)
    decreases n
  {
    if n > 0 {
      assert Shl(a, n) == 2 * Shl(a, n - 1) by {
        var p := Power(2, n - 1);
        assert a * (2 * p) == 2 * (a * p);
      }
      if i > 0 {
        BitShl(a, n - 1, i - 1);
      }
    }
  }

  lemma {:induction false} BitLow(a: nat, n: nat, i: nat)
    ensures Bit(Low(a, n), i) <==> i < n && Bit(a, i)
    decreases n
  {
    if n == 0 {
      BitOfZero(i);
    } else {
      assert Low(a, n) % 2 == a % 2 && Low(a, n) / 2 == Low(a / 2, n - 1);
      if i > 0 {
        BitLow(a / 2, n - 1, i - 1);
      }
    }
  }

  lemma {:induction false} BitAnd(a: nat, b: nat, i: nat)
    ensures Bit(And(a, b), i) <==> Bit(a, i) && Bit(b, i)
    decreases i
  {
    BitOfZero(i);
    if a > 0 && b > 0 && i > 0 {
      BitAnd(a / 2, b / 2, i - 1);
    }
  }

  lemma {:induction false} BitOr(a: nat, b: nat, i: nat)
    ensures Bit(Or(a, b), i) <==> Bit(a, i) || Bit(b, i)
    decreases i
  {
    BitOfZero(i);
    if a > 0 && b > 0 && i > 0 {
      BitOr(a / 2, b / 2, i - 1);
    }
  }

  /** Numbers with the same bits are equal. */
  lemma {:induction false} BitsDetermine(a: nat, b: nat)
    requires forall i :: 0 <= i ==> Bit(a, i) == Bit(b, i)
    ensures a == b
    decreases a + b
  {
    assert Bit(a, 0) == Bit(b, 0);
    if a > 0 || b > 0 {
      forall i | 0 <= i ensures Bit(a / 2, i) == Bit(b / 2, i) {
        assert Bit(a, i + 1) == Bit(b, i + 1);
      }
      BitsDetermine(a / 2, b / 2);
    }
  }

  // ---- The macro ----------------------------------------------------------

  /** Four words, the most significant one first. */
  predicate FourWords(resp: seq<Word>) {
    |resp| == 4
  }

  function Number(resp: seq<Word>): nat
    requires FourWords(resp)
  {
    resp[3] + MOD32 * (resp[2] + MOD32 * (resp[1] + MOD32 * resp[0]))
  }

  /** `(size < 32 ? 1 << size : 0) - 1`, as an unsigned word. */
  function Mask(size: nat): Word {
    ((if size < 32 then Shl(1, size) else 0) - 1) % MOD32
  }

  /** `w >> shft`, with what `above << (32 - shft)` brings in if the field
      reaches into the word above. */
  function Joined(w: Word, above: Word, shft: nat, size: nat): nat
    requires shft < 32 && 1 <= size <= 32
  {
    if size + shft > 32 then Or(Shr(w, shft), Low(Shl(above, (32 - shft) % 32), 32)) else Shr(w, shft)
  }

  function UnstuffBits(resp: seq<Word>, start: nat, size: nat): nat
    requires FourWords(resp) && 1 <= size <= 32 && start + size <= 128
  {
    var off := 3 - start / 32;
    And(Joined(resp[off], if off > 0 then resp[off - 1] else 0, start % 32, size), Mask(size))
  }

  lemma {:induction false} MaskBits(n: nat, i: nat)
    ensures Power(2, n) >= 1 && (Bit(Power(2, n) - 1, i) <==> i < n)
    decreases n
  {
    if n == 0 {
      BitOfZero(i);
    } else if i > 0 {
      MaskBits(n - 1, i - 1);
      assert (Power(2, n) - 1) / 2 == Power(2, n - 1) - 1;
    } else {
      MaskBits(n - 1, 0);
    }
  }

  lemma BitMask(size: nat, i: nat)
    requires 1 <= size <= 32
    ensures Bit(Mask(size), i) <==> i < size
  {
    PowersOfTwo();
    PowersIncrease(2, size, 32);
    MaskBits(size, i);
  }

  lemma {:induction false} BitOfWord(w: nat, n: nat, above: nat, i: nat)
    requires w < Power(2, n)
    ensures Bit(w + Power(2, n) * above, i) == if i < n then Bit(w, i) else Bit(above, i - n)
    decreases n
  {
    if n > 0 {
      var p := Power(2, n - 1);
      assert Power(2, n) * above == 2 * (p * above);
      assert (w + Power(2, n) * above) / 2 == w / 2 + p * above;
      if i > 0 {
        BitOfWord(w / 2, n - 1, above, i - 1);
      }
    }
  }

  lemma BitAbove(w: Word, above: nat, i: nat)
    ensures Bit(w + MOD32 * above, i) == if i < 32 then Bit(w, i) else Bit(above, i - 32)
  {
    PowersOfTwo();
    BitOfWord(w, 32, above, i);
  }

  lemma BitBeyondWord(w: Word, i: nat)
    requires 32 <= i
    ensures !Bit(w, i)
  {
    BitAbove(w, 0, i);
    BitOfZero(i - 32);
  }

  /** Bit j of the number is bit j % 32 of one of the words. */
  lemma BitOfNumber(resp: seq<Word>, j: nat)
    requires FourWords(resp) && j < 128
    ensures Bit(Number(resp), j) == Bit(resp[3 - j / 32], j % 32)
  {
    BitAbove(resp[3], resp[2] + MOD32 * (resp[1] + MOD32 * resp[0]), j);
    if 32 <= j {
      BitAbove(resp[2], resp[1] + MOD32 * resp[0], j - 32);
    }
    if 64 <= j {
      BitAbove(resp[1], resp[0], j - 64);
    }
  }

  lemma BitJoined(w: Word, above: Word, shft: nat, size: nat, i: nat)
    requires shft < 32 && i < size <= 32
    ensures Bit(Joined(w, above, shft, size), i) == if i + shft < 32 then Bit(w, i + shft) else Bit(above, i + shft - 32)
  {
    hide Shr, Shl, Low, Or, Bit;
    BitShr(w, shft, i);
    if size + shft > 32 {
      var up := (32 - shft) % 32;
      assert up == 32 - shft;
      BitLow(Shl(above, up), 32, i);
      BitShl(above, up, i);
      BitOr(Shr(w, shft), Low(Shl(above, up), 32), i);
      if 32 <= i + shft {
        BitBeyondWord(w, i + shft);
      }
    }
  }

  lemma BitUnstuff(resp: seq<Word>, start: nat, size: nat, i: nat)
    requires FourWords(resp) && 1 <= size <= 32 && start + size <= 128
    ensures Bit(UnstuffBits(resp, start, size), i) <==> i < size && Bit(Number(resp), start + i)
  {
    var off := 3 - start / 32;
    var w, above: Word := resp[off], if off > 0 then resp[off - 1] else 0;
    BitMask(size, i);
    BitAnd(Joined(w, above, start % 32, size), Mask(size), i);
    if i < size {
      BitJoined(w, above, start % 32, size, i);
      BitOfField(resp, start, i);
    }
  }

  lemma BitOfField(resp: seq<Word>, start: nat, i: nat)
    requires FourWords(resp) && i < 32 && start + i < 128
    ensures Bit(Number(resp), start + i) ==
              if i + start % 32 < 32 then Bit(resp[3 - start / 32], i + start % 32)
              else Bit(resp[2 - start / 32], i + start % 32 - 32)
  {
    BitOfNumber(resp, start + i);
  }

  // ---- The field ----------------------------------------------------------

  /** Bits start to start + size - 1 of a number. */
  function Field(v: nat, start: nat, size: nat): nat {
    Low(Shr(v, start), size)
  }

  lemma Halves(a: nat, p: nat)
    requires 1 <= p
    ensures a / (2 * p) == a / 2 / p
    ensures a % (2 * p) == a % 2 + 2 * (a / 2 % p)
  {
    var h := a / 2;
    assert h == p * (h / p) + h % p;
    assert 2 * (p * (h / p)) == (2 * p) * (h / p);
    DivModUnique(a, 2 * p, h / p, a % 2 + 2 * (h % p));
  }

  lemma {:induction false} ShrDivides(a: nat, n: nat)
    ensures Shr(a, n) == a / Power(2, n)
    decreases n
  {
    if n > 0 {
      ShrDivides(a / 2, n - 1);
      Halves(a, Power(2, n - 1));
    }
  }

  lemma {:induction false} LowIsRemainder(a: nat, n: nat)
    ensures Low(a, n) == a % Power(2, n)
    decreases n
  {
    if n > 0 {
      LowIsRemainder(a / 2, n - 1);
      Halves(a, Power(2, n - 1));
    }
  }

  lemma FieldIsQuotient(v: nat, start: nat, size: nat)
    ensures Field(v, start, size) == v / Power(2, start) % Power(2, size)
    ensures Field(v, start, size) < Power(2, size)
  {
    ShrDivides(v, start);
    LowIsRemainder(Shr(v, start), size);
  }

  /** The macro extracts the field it names. */
  lemma UnstuffIsField(resp: seq<Word>, start: nat, size: nat)
    requires FourWords(resp) && 1 <= size <= 32 && start + size <= 128
    ensures UnstuffBits(resp, start, size) == Field(Number(resp), start, size)
  {
    var v := Number(resp);
    forall i | 0 <= i ensures Bit(UnstuffBits(resp, start, size), i) == Bit(Field(v, start, size), i) {
      BitUnstuff(resp, start, size, i);
      BitLow(Shr(v, start), size, i);
      BitShr(v, start, i);
    }
    BitsDetermine(UnstuffBits(resp, start, size), Field(v, start, size));
  }

  // ---- Bytes and words ----------------------------------------------------

  type Byte = x: int | 0 <= x < 0x100

  /** The number that bytes are, the most significant byte first. */
  function BigEndian(bytes: seq<Byte>): nat {
    if bytes == [] then 0 else 0x100 * BigEndian(bytes[..|bytes| - 1]) + bytes[|bytes| - 1]
  }

  /** The word that a little-endian processor reads from four bytes. */
  function WordOf(b0: Byte, b1: Byte, b2: Byte, b3: Byte): Word {
    b0 + 0x100 * (b1 + 0x100 * (b2 + 0x100 * b3))
  }

  function WordAt(bytes: seq<Byte>, i: nat): Word
    requires 4 * i + 4 <= |bytes|
  {
    WordOf(bytes[4 * i], bytes[4 * i + 1], bytes[4 * i + 2], bytes[4 * i + 3])
  }

  function Words(bytes: seq<Byte>): (w: seq<Word>)
    requires |bytes| >= 16
    ensures FourWords(w)
  {
    seq(4, i requires 0 <= i < 4 => WordAt(bytes, i))
  }

  /** The four bytes from `at` on in reverse order. */
  function SwapAt<T>(bytes: seq<T>, at: nat): (r: seq<T>)
    requires at + 4 <= |bytes|
    ensures |r| == |bytes|
    ensures r[at] == bytes[at + 3] && r[at + 1] == bytes[at + 2] && r[at + 2] == bytes[at + 1] && r[at + 3] == bytes[at]
    ensures forall j :: 0 <= j < |bytes| && !(at <= j < at + 4) ==> r[j] == bytes[j]
  {
    bytes[at := bytes[at + 3]][at + 1 := bytes[at + 2]][at + 2 := bytes[at + 1]][at + 3 := bytes[at]]
  }

  method SwapWords<T>(data: array<T>, at: nat)
    requires at + 4 <= data.Length
    modifies data
    ensures data[..] == SwapAt(old(data[..]), at)
  {
    var tmp := data[at + 3];
    data[at + 3] := data[at];
    data[at] := tmp;
    tmp := data[at + 2];
    data[at + 2] := data[at + 1];
    data[at + 1] := tmp;
  }

  /** The bytes of each of the first n words in reverse order. */
  function Swapped<T>(bytes: seq<T>, n: nat): (r: seq<T>)
    requires 4 * n <= |bytes|
    ensures |r| == |bytes|
  {
    if n == 0 then bytes else SwapAt(Swapped(bytes, n - 1), 4 * (n - 1))
  }

  /** The loop of mmc_read_csd and mmc_read_cid. */
  method SwapAll<T>(data: array<T>)
    requires data.Length >= 16
    modifies data
    ensures data[..] == Swapped(old(data[..]), 4)
  {
    for i := 0 to 4
      invariant data[..] == Swapped(old(data[..]), i)
    {
      SwapWords(data, 4 * i);
    }
  }

  lemma {:induction false} SwappedByte<T>(bytes: seq<T>, n: nat, i: nat, r: nat)
    requires 4 * n <= |bytes| && 4 * i + 4 <= |bytes| && r < 4
    ensures Swapped(bytes, n)[4 * i + r] == if i < n then bytes[4 * i + 3 - r] else bytes[4 * i + r]
  {
    if n > 0 {
      SwappedByte(bytes, n - 1, i, if i == n - 1 then 3 - r else r);
    }
  }

  lemma BigEndianPrefix(bytes: seq<Byte>, k: nat)
    requires k < |bytes|
    ensures BigEndian(bytes[..k + 1]) == 0x100 * BigEndian(bytes[..k]) + bytes[k]
  {
    assert bytes[..k + 1][..k] == bytes[..k];
  }

  lemma BigEndianWord(bytes: seq<Byte>, i: nat)
    requires 4 * i + 4 <= |bytes|
    ensures BigEndian(bytes[.. 4 * (i + 1)]) == MOD32 * BigEndian(bytes[.. 4 * i])
              + WordOf(bytes[4 * i + 3], bytes[4 * i + 2], bytes[4 * i + 1], bytes[4 * i])
  {
    BigEndianPrefix(bytes, 4 * i);
    BigEndianPrefix(bytes, 4 * i + 1);
    BigEndianPrefix(bytes, 4 * i + 2);
    BigEndianPrefix(bytes, 4 * i + 3);
  }

  lemma SwappedWord(bytes: seq<Byte>, i: nat)
    requires |bytes| >= 16 && i < 4
    ensures WordAt(Swapped(bytes, 4), i) == WordOf(bytes[4 * i + 3], bytes[4 * i + 2], bytes[4 * i + 1], bytes[4 * i])
  {
    SwappedByte(bytes, 4, i, 0);
    SwappedByte(bytes, 4, i, 1);
    SwappedByte(bytes, 4, i, 2);
    SwappedByte(bytes, 4, i, 3);
  }

  lemma NextWord(bytes: seq<Byte>, i: nat)
    requires |bytes| >= 16 && i < 4
    ensures BigEndian(bytes[.. 4 * (i + 1)]) == MOD32 * BigEndian(bytes[.. 4 * i]) + Words(Swapped(bytes, 4))[i]
  {
    SwappedWord(bytes, i);
    BigEndianWord(bytes, i);
  }

  /** The number that the first k words are. */
  function Leading(w: seq<Word>, k: nat): nat
    requires k <= |w|
  {
    if k == 0 then 0 else MOD32 * Leading(w, k - 1) + w[k - 1]
  }

  lemma {:induction false} LeadingBytes(bytes: seq<Byte>, k: nat)
    requires |bytes| >= 16 && k <= 4
    ensures BigEndian(bytes[.. 4 * k]) == Leading(Words(Swapped(bytes, 4)), k)
  {
    if k > 0 {
      LeadingBytes(bytes, k - 1);
      NextWord(bytes, k - 1);
    }
  }

  lemma AllLeading(w: seq<Word>)
    requires FourWords(w)
    ensures Leading(w, 4) == Number(w)
  {
    assert Leading(w, 1) == w[0];
    assert Leading(w, 2) == MOD32 * Leading(w, 1) + w[1];
    assert Leading(w, 3) == MOD32 * Leading(w, 2) + w[2];
    assert Leading(w, 4) == MOD32 * Leading(w, 3) + w[3];
  }

  /** After swapping, the four words are the number that the bytes are. */
  lemma SwappedNumber(bytes: seq<Byte>)
    requires |bytes| >= 16
    ensures Number(Words(Swapped(bytes, 4))) == BigEndian(bytes[..16])
  {
    LeadingBytes(bytes, 4);
    AllLeading(Words(Swapped(bytes, 4)));
  }

  /** Field extraction from the raw bytes: swap, then unstuff. */
  lemma FieldOfBytes(bytes: seq<Byte>, start: nat, size: nat)
    requires |bytes| >= 16 && 1 <= size <= 32 && start + size <= 128
    ensures UnstuffBits(Words(Swapped(bytes, 4)), start, size) == BigEndian(bytes[..16]) / Power(2, start) % Power(2, size)
  {
    SwappedNumber(bytes);
    FieldIsQuotient(BigEndian(bytes[..16]), start, size);
    UnstuffIsField(Words(Swapped(bytes, 4)), start, size);
  }

  // ---- Fields in terms of bytes -------------------------------------------

  lemma {:induction false} BitOfBytes(bytes: seq<Byte>, k: nat)
    requires k < 8 * |bytes|
    ensures Bit(BigEndian(bytes), k) == Bit(bytes[|bytes| - 1 - k / 8], k % 8)
  {
    var rest, last: Byte := bytes[..|bytes| - 1], bytes[|bytes| - 1];
    assert Power(2, 8) == 0x100;
    BitOfWord(last, 8, BigEndian(rest), k);
    if 8 <= k {
      BitOfBytes(rest, k - 8);
    }
  }

  lemma BitOfFieldAt(v: nat, start: nat, size: nat, k: nat)
    ensures Bit(Field(v, start, size), k) <==> k < size && Bit(v, start + k)
  {
    BitLow(Shr(v, start), size, k);
    BitShr(v, start, k);
  }

  function Cut(v: nat, p: nat, q: nat): nat
    requires 0 < p && 0 < q
  {
    v / p % q
  }

  /** A field that lies in the bytes i to j - 1, `off` bits above the end of the
      last one. */
  lemma FieldOfSpan(bytes: seq<Byte>, i: nat, j: nat, off: nat, size: nat)
    requires i <= j <= |bytes| && off + size <= 8 * (j - i)
    ensures Field(BigEndian(bytes), 8 * (|bytes| - j) + off, size)
         == Cut(BigEndian(bytes[i .. j]), Power(2, off), Power(2, size))
  {
    hide BigEndian, Field, Low, Shr;
    var v, start, m := BigEndian(bytes), 8 * (|bytes| - j) + off, BigEndian(bytes[i .. j]);
    forall k | 0 <= k ensures Bit(Field(v, start, size), k) == Bit(Field(m, off, size), k) {
      BitOfFieldAt(v, start, size, k);
      BitOfFieldAt(m, off, size, k);
      if k < size {
        BitOfBytes(bytes, start + k);
        BitOfBytes(bytes[i .. j], off + k);
        assert (start + k) / 8 == |bytes| - j + (off + k) / 8 && (start + k) % 8 == (off + k) % 8;
      }
    }
    BitsDetermine(Field(v, start, size), Field(m, off, size));
    FieldIsQuotient(m, off, size);
  }

  function Big(b0: int, b1: int, b2: int, b3: int): int {
    0x100_0000 * b0 + 0x1_0000 * b1 + 0x100 * b2 + b3
  }

  lemma FirstBytes(s: seq<Byte>, n: nat)
    requires 1 <= n <= 4 && n <= |s|
    ensures BigEndian(s[..n]) == if n == 1 then s[0] else if n == 2 then Big(0, 0, s[0], s[1])
                                 else if n == 3 then Big(0, s[0], s[1], s[2]) else Big(s[0], s[1], s[2], s[3])
  {
    assert s[..0] == [] && BigEndian([]) == 0;
    hide BigEndian;
    BigEndianPrefix(s, n - 1);
    if n > 1 {
      BigEndianPrefix(s, n - 2);
    }
    if n > 2 {
      BigEndianPrefix(s, n - 3);
    }
    if n > 3 {
      BigEndianPrefix(s, 0);
    }
  }

  lemma FewBytes(bytes: seq<Byte>, i: nat, n: nat)
    requires 1 <= n <= 4 && i + n <= |bytes|
    ensures BigEndian(bytes[i .. i + n])
         == if n == 1 then bytes[i] else if n == 2 then Big(0, 0, bytes[i], bytes[i + 1])
            else if n == 3 then Big(0, bytes[i], bytes[i + 1], bytes[i + 2])
            else Big(bytes[i], bytes[i + 1], bytes[i + 2], bytes[i + 3])
  {
    hide BigEndian, Big;
    assert bytes[i .. i + n] == bytes[i..][..n];
    FirstBytes(bytes[i..], n);
  }

  // ---- The bytes of the program -------------------------------------------

  function Values(bytes: seq<bv8>): (v: seq<Byte>)
    ensures |v| == |bytes| && forall i :: 0 <= i < |bytes| ==> v[i] == bytes[i] as int
  {
    seq(|bytes|, i requires 0 <= i < |bytes| => bytes[i] as int)
  }

  lemma ValuesOfSwapAt(bytes: seq<bv8>, at: nat)
    requires at + 4 <= |bytes|
    ensures Values(SwapAt(bytes, at)) == SwapAt(Values(bytes), at)
  {
    var v, r := Values(bytes), SwapAt(bytes, at);
    forall j | 0 <= j < |bytes| ensures Values(r)[j] == SwapAt(v, at)[j] {
      if !(at <= j < at + 4) {
        assert r[j] == bytes[j] && SwapAt(v, at)[j] == v[j];
      }
    }
  }

  lemma {:induction false} ValuesOfSwapped(bytes: seq<bv8>, n: nat)
    requires 4 * n <= |bytes|
    ensures Values(Swapped(bytes, n)) == Swapped(Values(bytes), n)
  {
    if n > 0 {
      ValuesOfSwapped(bytes, n - 1);
      ValuesOfSwapAt(Swapped(bytes, n - 1), 4 * (n - 1));
    }
  }
}
