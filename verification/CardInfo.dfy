/** Decoding the CSD and CID registers of a card (src/dev/mmc/mmc_spi.c;
    sections 5.2 and 5.3 of the SD Physical Layer Simplified Specification). */
module CardInfo {
  import opened BitField
  import opened Common
  import opened Modular
  import Crc7

  const MMC_ERROR := -1
  const MMC_OK := 2

  /** A field of a register: its lowest bit and its width. */
  datatype BitRange = BitRange(start: nat, size: nat)

  predicate InRegister(r: BitRange) {
    1 <= r.size <= 32 && r.start + r.size <= 128
  }

  const CSD_STRUCTURE := BitRange(126, 2)
  const SPEC_VERS := BitRange(122, 4)
  const READ_BL_LEN := BitRange(80, 4)
  const WRITE_BL_LEN := BitRange(22, 4)
  const C_SIZE := BitRange(62, 12)
  const C_SIZE_MULT := BitRange(47, 3)
  const C_SIZE_V2 := BitRange(48, 22)
  const MID := BitRange(120, 8)
  const PRV := BitRange(56, 8)
  const PSN := BitRange(24, 32)
  const MDT_YEAR := BitRange(12, 8)
  const MDT_MONTH := BitRange(8, 4)
  const CRC := BitRange(1, 7)

  function FieldAt(v: nat, r: BitRange): nat {
    Field(v, r.start, r.size)
  }

  function Extract(buf: seq<Word>, r: BitRange): nat
    requires FourWords(buf) && InRegister(r)
  {
    UnstuffBits(buf, r.start, r.size)
  }

  lemma ExtractIsField(buf: seq<Word>, r: BitRange)
    requires FourWords(buf) && InRegister(r)
    ensures Extract(buf, r) == FieldAt(Number(buf), r)
  {
    UnstuffIsField(buf, r.start, r.size);
  }

  /** The capacity in bytes by section 5.3.2. */
  function Capacity(cSize: nat, cMult: nat, readBlLen: nat): int {
    (cSize + 1) * Power(2, cMult + 2) * Power(2, readBlLen)
  }

  /** The same for version 2, by section 5.3.3: units of 512 KiB. */
  function CapacityV2(cSize: nat): int {
    (cSize + 1) * 512 * 1024
  }

  const MIB := 0x10_0000

  /** What is left of a number of bytes in a uint32_t, in MiB. */
  function Mebibytes(bytes: int): int {
    bytes % MOD32 / 1024 / 1024
  }

  method Version1Size(cSize: nat, cMult: nat, ghost readBlLen: nat, readBlockSize: nat) returns (size: int)
    requires readBlockSize == Power(2, readBlLen)
    ensures size == Mebibytes(Capacity(cSize, cMult, readBlLen))
    ensures var bytes := (cSize + 1) * Power(2, cMult + 2 + readBlLen);
            size == bytes / 0x10_0000 <==> bytes < 0x1_0000_0000
  {
    SizeIsCapacityIff(cSize, cMult, readBlLen);
    CapacityIsPower(cSize, cMult, readBlLen);
    var mult := Power(2, cMult + 2);
    var blocks := (cSize + 1) * mult;
    size := blocks * readBlockSize % MOD32 / 1024 / 1024;
  }

  class MmcInfo {
    // struct mmc_csd
    var cSize: nat
    var cMult: nat
    var readBlLen: nat
    var writeBlLen: nat
    var cStructure: nat
    // struct mmc_cid
    var oid: seq<bv8>
    var pnm: seq<bv8>
    var psn: int
    var mdtYear: int
    var mdtMonth: int
    var crc7: int
    var prv: int
    var mid: int
    // struct mmc_info
    var memSize: int
    var readBlockSize: int
    var writeBlockSize: int

    constructor () {
    }

    /** The fields that both decoders read, for the number `csd`. */
    ghost predicate HasCommonFields(csd: nat)
      reads this
    {
      && cStructure == FieldAt(csd, CSD_STRUCTURE)
      && readBlLen == FieldAt(csd, READ_BL_LEN) && readBlockSize == Power(2, readBlLen)
      && writeBlLen == FieldAt(csd, WRITE_BL_LEN) && writeBlockSize == Power(2, writeBlLen)
    }

    ghost predicate HasVersion1Size(csd: nat)
      reads this
    {
      && cSize == FieldAt(csd, C_SIZE)
      && cMult == FieldAt(csd, C_SIZE_MULT)
      && var bytes := Capacity(FieldAt(csd, C_SIZE), FieldAt(csd, C_SIZE_MULT), FieldAt(csd, READ_BL_LEN));
      && memSize == Mebibytes(bytes)
    }

    /** What is stored is never the capacity in MiB. */
    ghost predicate HasVersion2Size(csd: nat)
      reads this
    {
      && cSize == FieldAt(csd, C_SIZE_V2)
      && memSize == cSize + 512 > (cSize + 1) / 2 == CapacityV2(cSize) / MIB
    }

    method DecodeCommon(buf: seq<Word>)
      requires FourWords(buf)
      modifies this`cStructure, this`readBlLen, this`writeBlLen, this`readBlockSize, this`writeBlockSize
      ensures HasCommonFields(Number(buf))
    {
      ExtractIsField(buf, CSD_STRUCTURE);
      ExtractIsField(buf, READ_BL_LEN);
      ExtractIsField(buf, WRITE_BL_LEN);
      cStructure := Extract(buf, CSD_STRUCTURE);
      readBlLen := Extract(buf, READ_BL_LEN);
      writeBlLen := Extract(buf, WRITE_BL_LEN);
      readBlockSize := Power(2, readBlLen);
      writeBlockSize := Power(2, writeBlLen);
    }

    method DecodeVersion1(buf: seq<Word>)
      requires FourWords(buf) && HasCommonFields(Number(buf))
      modifies this`cSize, this`cMult, this`memSize
      ensures HasCommonFields(Number(buf)) && HasVersion1Size(Number(buf))
      ensures var bytes := (cSize + 1) * Power(2, cMult + 2 + readBlLen);
              memSize == bytes / 0x10_0000 <==> bytes < 0x1_0000_0000
    {
      hide Extract, FieldAt, Number, Capacity, Mebibytes, Power;
      ExtractIsField(buf, C_SIZE);
      ExtractIsField(buf, C_SIZE_MULT);
      cSize := Extract(buf, C_SIZE);
      cMult := Extract(buf, C_SIZE_MULT);
      var size := Version1Size(cSize, cMult, readBlLen, readBlockSize);
      memSize := size;
    }

    method SdDecodeCsd(buf: seq<Word>) returns (status: int)
      requires FourWords(buf)
      modifies this`cStructure, this`readBlLen, this`writeBlLen, this`readBlockSize, this`writeBlockSize
      modifies this`cSize, this`cMult, this`memSize
      ensures HasCommonFields(Number(buf))
      ensures status == if cStructure < 2 then 2 else -1
      ensures cStructure == 0 ==> HasVersion1Size(Number(buf))
      ensures cStructure == 0 ==>
                && var bytes := (cSize + 1) * Power(2, cMult + 2 + readBlLen);
                && (memSize == bytes / 0x10_0000 <==> bytes < 0x1_0000_0000)
      ensures cStructure == 1 ==> HasVersion2Size(Number(buf)) && cMult == old(cMult)
      ensures cStructure >= 2 ==> cSize == old(cSize) && cMult == old(cMult) && memSize == old(memSize)
    {
      hide Extract, FieldAt, Number, Capacity, CapacityV2, Mebibytes;
      DecodeCommon(buf);
      if cStructure == 0 {
        DecodeVersion1(buf);
      } else if cStructure == 1 {
        ExtractIsField(buf, C_SIZE_V2);
        cSize := Extract(buf, C_SIZE_V2);
        memSize := cSize + 1 * 512;
        Version2SizeIsWrong(cSize);
      } else {
        return MMC_ERROR;
      }
      return MMC_OK;
    }

    method MmcDecodeCsd(buf: seq<Word>) returns (status: int)
      requires FourWords(buf)
      modifies this`cStructure, this`readBlLen, this`writeBlLen, this`readBlockSize, this`writeBlockSize
      modifies this`cSize, this`cMult, this`memSize
      ensures status == 2
      ensures HasCommonFields(Number(buf)) && HasVersion1Size(Number(buf))
      ensures var bytes := (cSize + 1) * Power(2, cMult + 2 + readBlLen);
              memSize == bytes / 0x10_0000 <==> bytes < 0x1_0000_0000
    {
      DecodeCommon(buf);
      DecodeVersion1(buf);
      return MMC_OK;
    }

    /** What is stored of the raw bytes b of a CSD register, and the status. An
        unknown version leaves the size as it was. */
    ghost predicate IsCsd(b: seq<bv8>, status: int, wasCSize: nat, wasCMult: nat, wasMemSize: int)
      reads this
      requires |b| >= 16
    {
      var sd := b[0] as int / 4 % 16 == 0;
      && cStructure == b[0] as int / 64
      && readBlLen == b[5] as int % 16 && readBlockSize == Power(2, readBlLen)
      && writeBlLen == b[12] as int % 4 * 4 + b[13] as int / 64 && writeBlockSize == Power(2, writeBlLen)
      && status == (if sd && cStructure >= 2 then -1 else 2)
      && (!sd || cStructure == 0 ==>
            && cSize == b[6] as int % 4 * 1024 + b[7] as int * 4 + b[8] as int / 64
            && cMult == b[9] as int % 4 * 2 + b[10] as int / 128
            && var bytes := (cSize + 1) * Power(2, cMult + 2 + readBlLen);
            && (memSize == bytes / 0x10_0000 <==> bytes < 0x1_0000_0000))
      && (sd && cStructure == 1 ==>
            && cSize == b[7] as int % 64 * 0x1_0000 + b[8] as int * 0x100 + b[9] as int
            && memSize == cSize + 512 > (cSize + 1) / 2 && cMult == wasCMult)
      && (sd && cStructure >= 2 ==> cSize == wasCSize && cMult == wasCMult && memSize == wasMemSize)
    }

    /** The choice of a decoder, from the words of the raw bytes b. */
    method DecodeCsd(words: seq<Word>, ghost b: seq<bv8>) returns (status: int)
      requires FourWords(words) && |b| >= 16 && Number(words) == BigEndian(Values(b[..16]))
      modifies this`cStructure, this`readBlLen, this`writeBlLen, this`readBlockSize, this`writeBlockSize
      modifies this`cSize, this`cMult, this`memSize
      ensures IsCsd(b, status, old(cSize), old(cMult), old(memSize))
    {
      hide FieldAt, BigEndian, Number, Extract, Power, Mebibytes, Capacity, CapacityV2;
      CsdBytes(b);
      ExtractIsField(words, SPEC_VERS);
      if Extract(words, SPEC_VERS) == 0 {
        status := SdDecodeCsd(words);
      } else {
        status := MmcDecodeCsd(words);
      }
    }

    /** What mmc_read_csd does with the bytes it has received. */
    method ReadCsd(buf: array<bv8>) returns (status: int)
      requires buf.Length >= 16
      modifies buf
      modifies this`cStructure, this`readBlLen, this`writeBlLen, this`readBlockSize, this`writeBlockSize
      modifies this`cSize, this`cMult, this`memSize
      ensures !Crc7.Accepts(old(buf[..16])) ==> status == -1 && unchanged(this)
      ensures Crc7.Accepts(old(buf[..16])) ==> IsCsd(old(buf[..]), status, old(cSize), old(cMult), old(memSize))
    {
      var ok := Crc7.CheckRegister(buf);
      if !ok {
        return MMC_ERROR;
      }
      hide BigEndian, Number, Words, Swapped, Crc7.Accepts, IsCsd;
      ghost var bytes := buf[..];
      SwapAll(buf);
      ReadNumber(bytes);
      status := DecodeCsd(Words(Values(buf[..])), bytes);
    }

    /** What is stored of the raw bytes b of a CID register. */
    ghost predicate IsCid(b: seq<bv8>)
      reads this
      requires |b| >= 16
    {
      && mid == b[0] as int && prv == b[8] as int
      && psn == 0x100_0000 * (b[9] as int) + 0x1_0000 * (b[10] as int) + 0x100 * (b[11] as int) + b[12] as int
      && mdtYear == 2000 + b[13] as int % 16 * 16 + b[14] as int / 16
      && mdtMonth == b[14] as int % 16 && crc7 == b[15] as int / 2
    }

    /** From the words of the raw bytes b. */
    method DecodeCid(buf: seq<Word>, ghost b: seq<bv8>)
      requires FourWords(buf) && |b| >= 16 && Number(buf) == BigEndian(Values(b[..16]))
      modifies this`mid, this`prv, this`psn, this`mdtYear, this`mdtMonth, this`crc7
      ensures IsCid(b)
    {
      hide Extract, FieldAt, Number, BigEndian;
      CidBytes(b);
      ExtractIsField(buf, MID);
      ExtractIsField(buf, PRV);
      ExtractIsField(buf, PSN);
      ExtractIsField(buf, MDT_YEAR);
      ExtractIsField(buf, MDT_MONTH);
      ExtractIsField(buf, CRC);
      mid := Extract(buf, MID);
      prv := Extract(buf, PRV);
      psn := Extract(buf, PSN);
      mdtYear := Extract(buf, MDT_YEAR) + 2000;
      mdtMonth := Extract(buf, MDT_MONTH);
      crc7 := Extract(buf, CRC);
    }

    method CopyNames(buf: array<bv8>)
      requires buf.Length >= 16
      modifies this`oid, this`pnm
      ensures IsName(oid, buf[1 .. 1 + 2]) && IsName(pnm, buf[3 .. 3 + 5])
    {
      oid := CopyName(buf, 1, 2);
      pnm := CopyName(buf, 3, 5);
    }

    /** What mmc_read_cid does with the bytes it has received. */
    method ReadCid(buf: array<bv8>) returns (status: int)
      requires buf.Length >= 16
      modifies buf
      modifies this`oid, this`pnm, this`mid, this`prv, this`psn, this`mdtYear, this`mdtMonth, this`crc7
      ensures status == if Crc7.Accepts(old(buf[..16])) then 2 else -1
      ensures status == -1 ==> unchanged(this)
      ensures status == 2 ==> IsCid(old(buf[..]))
      ensures status == 2 ==> IsName(oid, old(buf[1 .. 1 + 2])) && IsName(pnm, old(buf[3 .. 3 + 5]))
    {
      var ok := Crc7.CheckRegister(buf);
      if !ok {
        return MMC_ERROR;
      }
      hide FieldAt, BigEndian, Number, Words, Swapped, IsName, IsCid, Crc7.Accepts;
      ghost var bytes := buf[..];
      CopyNames(buf);
      SwapAll(buf);
      ReadNumber(bytes);
      DecodeCid(Words(Values(buf[..])), bytes);
      return MMC_OK;
    }
  }

  /** The bytes up to the first zero, then zeros, one more than there are bytes. */
  ghost predicate IsName(name: seq<bv8>, bytes: seq<bv8>) {
    && |name| == |bytes| + 1
    && name[|bytes|] == 0
    && forall i :: 0 <= i < |bytes| ==> name[i] == if 0 in bytes[..i] then 0 else bytes[i]
  }

  method CopyName(buf: array<bv8>, at: nat, num: nat) returns (name: seq<bv8>)
    requires 0 < num && at + num < buf.Length
    ensures IsName(name, buf[at .. at + num])
  {
    ghost var bytes := buf[at .. at + num];
    assert buf[at..][..num] == bytes;
    assert forall i :: 0 <= i < num ==> bytes[i] == buf[at..][i];
    name := StrNCpy(buf[at..], num);
    name := name + [0];
  }

  /** strncpy of src/lib/libc/string/strncpy.c. */
  method StrNCpy(src: seq<bv8>, num: nat) returns (dest: seq<bv8>)
    requires 0 < num < |src|
    ensures |dest| == num
    ensures forall i :: 0 <= i < num ==> dest[i] == if 0 in src[..num][..i] then 0 else src[i]
  {
    dest := [];
    var i := 0;
    while src[i] != 0
      invariant i == |dest| < num && dest == src[..i] && 0 !in src[..i]
      decreases num - i
    {
      dest := dest + [src[i]];
      i := i + 1;
      if i >= num {
        break;
      }
    }
    ghost var end := i;
    assert end < num ==> src[..num][end] == 0;
    while i < num
      invariant end <= i == |dest| <= num && dest[..end] == src[..end] && 0 !in src[..end]
      invariant forall k :: end <= k < i ==> dest[k] == 0
    {
      dest := dest + [0];
      i := i + 1;
    }
  }

  lemma FirstValues(bytes: seq<bv8>)
    requires |bytes| >= 16
    ensures Values(bytes)[..16] == Values(bytes[..16])
  {
  }

  lemma ReadNumber(bytes: seq<bv8>)
    requires |bytes| >= 16
    ensures Number(Words(Values(Swapped(bytes, 4)))) == BigEndian(Values(bytes[..16]))
  {
    ValuesOfSwapped(bytes, 4);
    FirstValues(bytes);
    SwappedNumber(Values(bytes));
  }

  // ---- The fields, byte by byte -------------------------------------------

  lemma OneByte(v: seq<Byte>, r: BitRange, k: nat, off: nat, p: nat, q: nat)
    requires |v| == 16 && k < 16 && r.start == 8 * (15 - k) + off && off + r.size <= 8
    requires 0 < p == Power(2, off) && 0 < q == Power(2, r.size)
    ensures FieldAt(BigEndian(v), r) == Cut(v[k], p, q)
  {
    hide Cut, Field, Power;
    FewBytes(v, k, 1);
    hide BigEndian;
    FieldOfSpan(v, k, k + 1, off, r.size);
  }

  /** Up to three bytes; the first may be missing. */
  lemma SomeBytes(v: seq<Byte>, r: BitRange, k: nat, n: nat, off: nat, p: nat, q: nat)
    requires |v| == 16 && 2 <= n <= 4 && k + n <= 16 && r.start == 8 * (16 - k - n) + off && off + r.size <= 8 * n
    requires 0 < p == Power(2, off) && 0 < q == Power(2, r.size)
    ensures n == 2 ==> FieldAt(BigEndian(v), r) == Cut(Big(0, 0, v[k], v[k + 1]), p, q)
    ensures n == 3 ==>
              FieldAt(BigEndian(v), r) == Cut(Big(0, v[k], v[k + 1], v[k + 2]), p, q)
    ensures n == 4 ==>
              FieldAt(BigEndian(v), r)
              == Cut(Big(v[k], v[k + 1], v[k + 2], v[k + 3]), p, q)
  {
    hide Cut, Field, Power;
    FewBytes(v, k, n);
    hide BigEndian, Big;
    FieldOfSpan(v, k, k + n, off, r.size);
  }

  lemma CsdFields(v: seq<Byte>)
    requires |v| == 16
    ensures var csd := BigEndian(v);
      && FieldAt(csd, CSD_STRUCTURE) == (v[0] as int) / 64
      && FieldAt(csd, SPEC_VERS) == (v[0] as int) / 4 % 16
      && FieldAt(csd, READ_BL_LEN) == (v[5] as int) % 16
      && FieldAt(csd, WRITE_BL_LEN) == (v[12] as int) % 4 * 4 + (v[13] as int) / 64
  {
    SmallPowers();
    hide FieldAt, BigEndian, Power;
    OneByte(v, CSD_STRUCTURE, 0, 6, 64, 4);
    OneByte(v, SPEC_VERS, 0, 2, 4, 16);
    OneByte(v, READ_BL_LEN, 5, 0, 1, 16);
    SomeBytes(v, WRITE_BL_LEN, 12, 2, 6, 64, 16);
    FourBits(v[12], v[13]);
  }

  lemma SmallPowers()
    ensures Power(2, 0) == 1 && Power(2, 1) == 2 && Power(2, 2) == 4 && Power(2, 3) == 8 && Power(2, 4) == 16
    ensures Power(2, 6) == 64 && Power(2, 7) == 128 && Power(2, 8) == 256 && Power(2, 12) == 4096
    ensures Power(2, 22) == 0x40_0000
  {
    assert Power(2, 17) == 0x2_0000;
  }

  lemma FourBits(x: Byte, y: Byte)
    ensures Cut(Big(0, 0, x, y), 64, 16) == x % 4 * 4 + y / 64
  {
    DivModUnique(Big(0, 0, x, y), 64, 4 * x + y / 64, y % 64);
    DivModUnique(4 * x + y / 64, 16, x / 4, x % 4 * 4 + y / 64);
  }

  lemma ThreeBits(x: Byte, y: Byte)
    ensures Cut(Big(0, 0, x, y), 128, 8) == x % 4 * 2 + y / 128
  {
    DivModUnique(Big(0, 0, x, y), 128, 2 * x + y / 128, y % 128);
    DivModUnique(2 * x + y / 128, 8, x / 4, x % 4 * 2 + y / 128);
  }

  lemma EightBits(x: Byte, y: Byte)
    ensures Cut(Big(0, 0, x, y), 16, 256) == x % 16 * 16 + y / 16
  {
    DivModUnique(Big(0, 0, x, y), 16, 16 * x + y / 16, y % 16);
    DivModUnique(16 * x + y / 16, 256, x / 16, x % 16 * 16 + y / 16);
  }

  lemma TwelveBits(x: Byte, y: Byte, z: Byte)
    ensures Cut(Big(0, x, y, z), 64, 4096) == x % 4 * 1024 + y * 4 + z / 64
  {
    var rest: int := y * 4;
    DivModUnique(Big(0, x, y, z), 64, 1024 * x + rest + z / 64, z % 64);
    DivModUnique(1024 * x + rest + z / 64, 4096, x / 4, x % 4 * 1024 + rest + z / 64);
  }

  lemma AllBits(x: Byte, y: Byte, z: Byte)
    ensures Cut(Big(0, x, y, z), 1, 0x40_0000) == x % 64 * 0x1_0000 + y * 0x100 + z
  {
    DivModUnique(Big(0, x, y, z), 0x40_0000, x / 64, x % 64 * 0x1_0000 + y * 0x100 + z);
  }

  lemma WholeWord(b0: Byte, b1: Byte, b2: Byte, b3: Byte)
    ensures Cut(Big(b0, b1, b2, b3), 1, MOD32) == Big(b0, b1, b2, b3)
  {
    DivModUnique(Big(b0, b1, b2, b3), MOD32, 0, Big(b0, b1, b2, b3));
  }

  lemma CsdSizeFields(v: seq<Byte>)
    requires |v| == 16
    ensures var csd := BigEndian(v);
      && FieldAt(csd, C_SIZE) == (v[6] as int) % 4 * 1024 + (v[7] as int) * 4 + (v[8] as int) / 64
      && FieldAt(csd, C_SIZE_MULT) == (v[9] as int) % 4 * 2 + (v[10] as int) / 128
      && FieldAt(csd, C_SIZE_V2) == (v[7] as int) % 64 * 0x1_0000 + (v[8] as int) * 0x100 + (v[9] as int)
  {
    SmallPowers();
    hide FieldAt, BigEndian, Power, Cut, Big;
    SomeBytes(v, C_SIZE, 6, 3, 6, 64, 4096);
    TwelveBits(v[6], v[7], v[8]);
    SomeBytes(v, C_SIZE_MULT, 9, 2, 7, 128, 8);
    ThreeBits(v[9], v[10]);
    SomeBytes(v, C_SIZE_V2, 7, 3, 0, 1, 0x40_0000);
    AllBits(v[7], v[8], v[9]);
  }

  lemma CidFields(v: seq<Byte>)
    requires |v| == 16
    ensures var cid := BigEndian(v);
      && FieldAt(cid, MID) == (v[0] as int)
      && FieldAt(cid, PRV) == (v[8] as int)
      && FieldAt(cid, PSN) == Big((v[9] as int), (v[10] as int), (v[11] as int), (v[12] as int))
      && FieldAt(cid, MDT_YEAR) == (v[13] as int) % 16 * 16 + (v[14] as int) / 16
      && FieldAt(cid, MDT_MONTH) == (v[14] as int) % 16
      && FieldAt(cid, CRC) == (v[15] as int) / 2
  {
    SmallPowers();
    PowersOfTwo();
    hide FieldAt, BigEndian, Power, Big;
    OneByte(v, MID, 0, 0, 1, 256);
    OneByte(v, PRV, 8, 0, 1, 256);
    SomeBytes(v, PSN, 9, 4, 0, 1, MOD32);
    WholeWord(v[9], v[10], v[11], v[12]);
    SomeBytes(v, MDT_YEAR, 13, 2, 4, 16, 256);
    EightBits(v[13], v[14]);
    OneByte(v, MDT_MONTH, 14, 0, 1, 16);
    OneByte(v, CRC, 15, 1, 2, 128);
  }

  lemma CsdBytes(b: seq<bv8>)
    requires |b| >= 16
    ensures var csd := BigEndian(Values(b[..16]));
      && FieldAt(csd, CSD_STRUCTURE) == b[0] as int / 64
      && FieldAt(csd, SPEC_VERS) == b[0] as int / 4 % 16
      && FieldAt(csd, READ_BL_LEN) == b[5] as int % 16
      && FieldAt(csd, WRITE_BL_LEN) == b[12] as int % 4 * 4 + b[13] as int / 64
      && FieldAt(csd, C_SIZE) == b[6] as int % 4 * 1024 + b[7] as int * 4 + b[8] as int / 64
      && FieldAt(csd, C_SIZE_MULT) == b[9] as int % 4 * 2 + b[10] as int / 128
      && FieldAt(csd, C_SIZE_V2) == b[7] as int % 64 * 0x1_0000 + b[8] as int * 0x100 + b[9] as int
  {
    hide FieldAt, BigEndian;
    CsdFields(Values(b[..16]));
    CsdSizeFields(Values(b[..16]));
  }

  lemma CidBytes(b: seq<bv8>)
    requires |b| >= 16
    ensures var cid := BigEndian(Values(b[..16]));
      && FieldAt(cid, MID) == b[0] as int
      && FieldAt(cid, PRV) == b[8] as int
      && FieldAt(cid, PSN) == 0x100_0000 * (b[9] as int) + 0x1_0000 * (b[10] as int) + 0x100 * (b[11] as int) + b[12] as int
      && FieldAt(cid, MDT_YEAR) == b[13] as int % 16 * 16 + b[14] as int / 16
      && FieldAt(cid, MDT_MONTH) == b[14] as int % 16
      && FieldAt(cid, CRC) == b[15] as int / 2
  {
    hide FieldAt, BigEndian;
    CidFields(Values(b[..16]));
  }

  // ---- The capacity -------------------------------------------------------

  /** The size computed for a CSD of version 1 is the capacity in MiB exactly
      when the capacity in bytes fits 32 bits. */
  lemma SizeIsCapacityIff(cSize: nat, cMult: nat, readBlLen: nat)
    ensures var bytes := Capacity(cSize, cMult, readBlLen);
            Mebibytes(bytes) == bytes / MIB <==> bytes < MOD32
  {
    CapacityIsPositive(cSize, Power(2, cMult + 2), Power(2, readBlLen));
    MebibytesIff(Capacity(cSize, cMult, readBlLen));
  }

  lemma CapacityIsPower(cSize: nat, cMult: nat, readBlLen: nat)
    ensures Capacity(cSize, cMult, readBlLen) == (cSize + 1) * Power(2, cMult + 2 + readBlLen)
  {
    PowerOfSum(2, cMult + 2, readBlLen);
    var c, p, q := cSize + 1, Power(2, cMult + 2), Power(2, readBlLen);
    assert c * p * q == c * (p * q);
  }

  lemma CapacityIsPositive(cSize: nat, mult: nat, blockLen: nat)
    ensures (cSize + 1) * mult * blockLen >= 0
  {
  }

  lemma MebibytesIff(bytes: nat)
    ensures Mebibytes(bytes) == bytes / MIB <==> bytes < MOD32
  {
    var rest := bytes % MOD32;
    assert rest / 1024 / 1024 == rest / MIB < 4096;
    if bytes < MOD32 {
      assert rest == bytes;
    } else {
      assert bytes / MIB >= 4096;
    }
  }

  /** The number of blocks is computed without overflow: at most 2^21. */
  lemma BlocksFit(cSize: nat, cMult: nat)
    requires cSize < 4096 && cMult < 8
    ensures (cSize + 1) * Power(2, cMult + 2) <= 0x20_0000
  {
    PowersOfTwo();
    PowersIncrease(2, cMult + 2, 9);
    ProductBound(cSize + 1, 4096, Power(2, cMult + 2), 512);
  }

  /** The largest fields, 4 GiB with blocks of 2 KiB, are taken for an empty
      card. */
  lemma LargestCardReadsAsZero()
    ensures Capacity(4095, 7, 11) == MOD32 && Mebibytes(Capacity(4095, 7, 11)) == 0
  {
    PowersOfTwo();
  }

  /** For version 2 the code stores C_SIZE + 512. That is never the capacity in
      MiB, whatever C_SIZE is: it is always too large. */
  lemma Version2SizeIsWrong(cSize: nat)
    ensures CapacityV2(cSize) / MIB == (cSize + 1) / 2
    ensures cSize + 1 * 512 > CapacityV2(cSize) / MIB
  {
  }
}
