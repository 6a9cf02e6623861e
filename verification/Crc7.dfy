/** mmc_crc7 of src/dev/mmc/mmc_spi.c, what its check detects, and the command
    frames that carry it. */
module Crc7 {
  import opened Polynomial

  // ---- Bytes and bits -----------------------------------------------------

  function BitsOf(b: bv8): (bits: seq<bool>)
    ensures |bits| == 8
  {
    [b & 0x80 != 0, b & 0x40 != 0, b & 0x20 != 0, b & 0x10 != 0, b & 0x08 != 0, b & 0x04 != 0, b & 0x02 != 0, b & 0x01 != 0]
  }

  /** The bits of a message in the order of transmission. */
  function Bits(data: seq<bv8>): (bits: seq<bool>)
    ensures |bits| == 8 * |data|
  {
    if data == [] then [] else Bits(data[..|data| - 1]) + BitsOf(data[|data| - 1])
  }

  /** The low seven bits of the 8-bit register of the program. */
  function Unpack(b: bv8): Register {
    Register(b & 0x40 != 0, b & 0x20 != 0, b & 0x10 != 0, b & 0x08 != 0, b & 0x04 != 0, b & 0x02 != 0, b & 0x01 != 0)
  }

  /** The check byte: the remainder, then the end bit. */
  function Pack(r: Register): bv8 {
    (if r.b6 then 0x80 else 0) | (if r.b5 then 0x40 else 0) | (if r.b4 then 0x20 else 0) | (if r.b3 then 0x10 else 0)
    | (if r.b2 then 0x08 else 0) | (if r.b1 then 0x04 else 0) | (if r.b0 then 0x02 else 0) | 0x01
  }

  function CheckByte(message: seq<bool>): bv8 {
    Pack(Crc(message))
  }

  lemma PackUnpack(b: bv8, r: Register)
    ensures b == Pack(r) <==> b & 1 == 1 && Unpack(b >> 1) == r
  {
  }

  // ---- The register loop --------------------------------------------------

  /** One turn of the inner loop. The bit that the shift carries into position 7
      takes part in the test, stays behind as a stale top bit, and is shifted
      out in the next turn: the low seven bits are the check register. */
  method Turn(crc0: bv8, c: bv8) returns (crc: bv8)
    ensures Unpack(crc) == Shift(Unpack(crc0), Xor(Unpack(crc0).b6, c & 0x80 != 0))
  {
    crc := crc0 << 1;
    if (c ^ crc) & 0x80 != 0 {
      crc := crc ^ 0x09;
    }
  }

  /** k times `c = c << 1`. */
  function Shifted(c: bv8, k: nat): bv8 {
    if k == 0 then c else Shifted(c, k - 1) << 1
  }

  lemma TopBits(c: bv8)
    ensures forall k {:trigger BitsOf(c)[k]} :: 0 <= k < 8 ==> BitsOf(c)[k] == (Shifted(c, k) & 0x80 != 0)
  {
    var c1 := c << 1;
    var c2 := c1 << 1;
    var c3 := c2 << 1;
    var c4 := c3 << 1;
    var c5 := c4 << 1;
    var c6 := c5 << 1;
    assert Shifted(c, 1) == c1;
    assert Shifted(c, 2) == c2;
    assert Shifted(c, 3) == c3;
    assert Shifted(c, 4) == c4;
    assert Shifted(c, 5) == c5;
    assert Shifted(c, 6) == c6;
    assert Shifted(c, 7) == c6 << 1;
  }

  lemma CrcOfOneMore(message: seq<bool>, b: bool)
    ensures Crc(message + [b]) == Shift(Crc(message), Xor(Crc(message).b6, b))
  {
    assert (message + [b])[..|message|] == message;
  }

  /** The inner loop: the eight bits of one byte. */
  method FeedByte(crc0: bv8, byte: bv8, ghost past: seq<bool>, ghost bits: seq<bool>) returns (crc: bv8)
    requires Unpack(crc0) == Crc(past)
    requires |bits| == 8 && forall k {:trigger bits[k]} :: 0 <= k < 8 ==> bits[k] == (Shifted(byte, k) & 0x80 != 0)
    ensures Unpack(crc) == Crc(past + bits)
  {
    var c := byte;
    crc := crc0;
    ghost var message := past;
    for k := 0 to 8
      invariant c == Shifted(byte, k)
      invariant message == past + bits[..k] && Unpack(crc) == Crc(message)
    {
      CrcOfOneMore(message, bits[k]);
      message := message + [bits[k]];
      crc := Turn(crc, c);
      c := c << 1;
    }
    assert bits[..8] == bits;
  }

  lemma MaskedRegister(crc: bv8)
    ensures Unpack(crc & 0x7F) == Unpack(crc)
    ensures ((crc & 0x7F) << 1) | 0x1 == Pack(Unpack(crc))
  {
  }

  method MmcCrc7(data: array<bv8>, start: nat, length: nat) returns (check: bv8)
    requires length < 0x100 && start + length <= data.Length
    ensures check == CheckByte(Bits(data[start .. start + length]))
  {
    var crc: bv8 := 0;
    for i := 0 to length
      invariant crc & 0x7F == crc && Unpack(crc) == Crc(Bits(data[start .. start + i]))
    {
      TopBits(data[start + i]);
      crc := FeedByte(crc, data[start + i], Bits(data[start .. start + i]), BitsOf(data[start + i]));
      MaskedRegister(crc);
      crc := crc & 0x7F;
      assert data[start .. start + i + 1][..i] == data[start .. start + i];
    }
    MaskedRegister(crc);
    check := (crc << 1) | 0x1;
  }

  // ---- What the check accepts ---------------------------------------------

  /** The test of mmc_read_csd and mmc_read_cid on the 16 bytes of a register. */
  predicate Accepts(buf: seq<bv8>)
    requires |buf| == 16
  {
    CheckByte(Bits(buf[..15])) == buf[15]
  }

  method CheckRegister(buf: array<bv8>) returns (ok: bool)
    requires buf.Length >= 16
    ensures ok == Accepts(buf[..16])
  {
    var crc := MmcCrc7(buf, 0, 15);
    assert buf[..16][..15] == buf[0 .. 15];
    ok := crc == buf[15];
  }

  /** The 127 bits before the end bit. */
  function Codeword(buf: seq<bv8>): (w: seq<bool>)
    requires |buf| == 16
    ensures |w| == 127
  {
    Bits(buf)[..127]
  }

  lemma ShortRemainder(c: bv8)
    ensures Remainder(BitsOf(c)[..7], Unpack(c >> 1))
  {
    var p, r := BitsOf(c)[..7], Unpack(c >> 1);
    assert (c >> 1) & 0x40 != 0 <==> c & 0x80 != 0;
    assert (c >> 1) & 0x20 != 0 <==> c & 0x40 != 0;
    assert (c >> 1) & 0x10 != 0 <==> c & 0x20 != 0;
    assert (c >> 1) & 0x08 != 0 <==> c & 0x10 != 0;
    assert (c >> 1) & 0x04 != 0 <==> c & 0x08 != 0;
    assert (c >> 1) & 0x02 != 0 <==> c & 0x04 != 0;
    assert (c >> 1) & 0x01 != 0 <==> c & 0x02 != 0;
    assert p == [r.b6, r.b5, r.b4, r.b3, r.b2, r.b1, r.b0];
    OwnRemainder(r);
  }

  lemma CodewordRemainder(buf: seq<bv8>)
    requires |buf| == 16
    ensures Remainder(Codeword(buf), Add(Crc(Bits(buf[..15])), Unpack(buf[15] >> 1)))
  {
    hide Remainder, Crc, Unpack, BitsOf;
    var m, c := Bits(buf[..15]), BitsOf(buf[15])[..7];
    CrcIsRemainder(m);
    ShortRemainder(buf[15]);
    PadRemainder(c, 120, Unpack(buf[15] >> 1));
    RemainderIsLinear(m + SEVEN_ZEROS, Padded(c, 120), Crc(m), Unpack(buf[15] >> 1));
    assert Sum(m + SEVEN_ZEROS, Padded(c, 120)) == m + c;
    assert Codeword(buf) == m + c;
  }

  lemma SumIsZero(r: Register, s: Register)
    ensures Add(r, s) == ZERO <==> r == s
  {
  }

  /** The check passes exactly for the multiples of the generator that end with
      the end bit. */
  lemma AcceptsMultiples(buf: seq<bv8>)
    requires |buf| == 16
    ensures Accepts(buf) <==> buf[15] & 1 == 1 && Divisible(Codeword(buf))
  {
    var r, s := Crc(Bits(buf[..15])), Unpack(buf[15] >> 1);
    CodewordRemainder(buf);
    SumIsZero(r, s);
    if Divisible(Codeword(buf)) {
      RemainderIsUnique(Codeword(buf), Add(r, s), ZERO);
    }
    PackUnpack(buf[15], r);
  }

  /** Whether corrupted bytes are accepted depends on the error alone. */
  lemma ErrorIsSeenIff(buf: seq<bv8>, buf': seq<bv8>)
    requires |buf| == |buf'| == 16 && Accepts(buf)
    ensures Accepts(buf') <==> buf'[15] & 1 == 1 && Divisible(Sum(Codeword(buf), Codeword(buf')))
  {
    var w, w' := Codeword(buf), Codeword(buf');
    AcceptsMultiples(buf);
    AcceptsMultiples(buf');
    if Divisible(w') {
      RemainderIsLinear(w, w', ZERO, ZERO);
    }
    if Divisible(Sum(w, w')) {
      RemainderIsLinear(w, Sum(w, w'), ZERO, ZERO);
      assert Sum(w, Sum(w, w')) == w';
    }
  }

  predicate Differ(buf: seq<bv8>, buf': seq<bv8>, k: nat)
    requires |buf| == |buf'| == 16 && k < 127
  {
    Codeword(buf)[k] != Codeword(buf')[k]
  }

  lemma ErrorCoefficient(buf: seq<bv8>, buf': seq<bv8>, i: int)
    requires |buf| == |buf'| == 16
    ensures Coef(Sum(Codeword(buf), Codeword(buf')), i) <==> 0 <= i < 127 && Differ(buf, buf', 126 - i)
  {
  }

  /** Every burst of at most seven wrong bits is rejected, a single wrong bit
      included; bit `last` is the last wrong one. */
  lemma BurstIsRejected(buf: seq<bv8>, buf': seq<bv8>, last: nat)
    requires |buf| == |buf'| == 16 && Accepts(buf)
    requires last < 127 && Differ(buf, buf', last)
    requires forall k :: 0 <= k < 127 && Differ(buf, buf', k) ==> last - 7 < k <= last
    ensures !Accepts(buf')
  {
    var e := Sum(Codeword(buf), Codeword(buf'));
    ErrorIsSeenIff(buf, buf');
    forall i: int ensures Coef(e, i) <==> 0 <= i < 127 && Differ(buf, buf', 126 - i) {
      ErrorCoefficient(buf, buf', i);
    }
    if Divisible(e) {
      MultiplesAreWide(e, 126 - last);
    }
  }

  /** Any two wrong bits are rejected, wherever they are. */
  lemma TwoErrorsAreRejected(buf: seq<bv8>, buf': seq<bv8>, first: nat, second: nat)
    requires |buf| == |buf'| == 16 && Accepts(buf)
    requires first < second < 127
    requires forall k :: 0 <= k < 127 ==> (Differ(buf, buf', k) <==> k == first || k == second)
    ensures !Accepts(buf')
  {
    var e := Sum(Codeword(buf), Codeword(buf'));
    ErrorIsSeenIff(buf, buf');
    forall i: int ensures Coef(e, i) <==> i == 126 - first || i == 126 - second {
      ErrorCoefficient(buf, buf', i);
    }
    TwoPowersAreNotDivisible(e, 126 - first, 126 - second);
  }

  // ---- Command frames -----------------------------------------------------

  /** The four argument bytes, most significant first. */
  function ArgumentBytes(arg: bv32): seq<bv8> {
    [((arg & 0xFF00_0000) >> 24) as bv8, ((arg & 0x00FF_0000) >> 16) as bv8,
     ((arg & 0x0000_FF00) >> 8) as bv8, (arg & 0x0000_00FF) as bv8]
  }

  function Argument(bytes: seq<bv8>): bv32
    requires |bytes| == 4
  {
    ((bytes[0] as bv32) << 24) | ((bytes[1] as bv32) << 16) | ((bytes[2] as bv32) << 8) | (bytes[3] as bv32)
  }

  /** Byte by byte, the most significant one first. */
  lemma ArgumentInOrder(arg: bv32)
    ensures ((arg & 0xFF00_0000) >> 24) as bv8 as bv32 == arg >> 24
    ensures ((arg & 0x00FF_0000) >> 16) as bv8 as bv32 == (arg >> 16) & 0xFF
    ensures ((arg & 0x0000_FF00) >> 8) as bv8 as bv32 == (arg >> 8) & 0xFF
    ensures (arg & 0x0000_00FF) as bv8 as bv32 == arg & 0xFF
  {
  }

  lemma ArgumentRoundTrip(arg: bv32)
    ensures Argument(ArgumentBytes(arg)) == arg
  {
  }

  /** A frame at `at`: command, argument and the check byte of these five. */
  ghost predicate Framed(bytes: seq<bv8>, at: nat, cmd: bv8, arg: bv32) {
    && at + 6 <= |bytes|
    && bytes[at] == cmd
    && bytes[at + 1] as bv32 == arg >> 24
    && bytes[at + 2] as bv32 == (arg >> 16) & 0xFF
    && bytes[at + 3] as bv32 == (arg >> 8) & 0xFF
    && bytes[at + 4] as bv32 == arg & 0xFF
    && Argument(bytes[at + 1 .. at + 5]) == arg
    && bytes[at + 5] == CheckByte(Bits(bytes[at .. at + 5]))
  }

  /** The assignments that mmc_send_cmd and mmc_send_acmd have in common. */
  method FillFrame(a: array<bv8>, at: nat, cmd: bv8, arg: bv32)
    requires at + 6 <= a.Length
    modifies a
    ensures Framed(a[..], at, cmd, arg)
    ensures forall j :: 0 <= j < a.Length && !(at <= j < at + 6) ==> a[j] == old(a[j])
  {
    a[at] := cmd;
    a[at + 1] := ((arg & 0xFF00_0000) >> 24) as bv8;
    a[at + 2] := ((arg & 0x00FF_0000) >> 16) as bv8;
    a[at + 3] := ((arg & 0x0000_FF00) >> 8) as bv8;
    a[at + 4] := (arg & 0x0000_00FF) as bv8;
    ghost var frame := a[at .. at + 5];
    var crc := MmcCrc7(a, at, 5);
    a[at + 5] := crc;
    assert a[at .. at + 5] == frame;
    assert a[at + 1 .. at + 5] == ArgumentBytes(arg);
    ArgumentInOrder(arg);
    ArgumentRoundTrip(arg);
  }

  /** mmc_send_cmd: an idle byte and a frame. */
  method MmcSendCmd(cmd: bv8, arg: bv32) returns (sent: array<bv8>)
    ensures sent.Length == 7 && sent[0] == 0xFF && Framed(sent[..], 1, cmd, arg)
  {
    sent := new bv8[7];
    sent[0] := 0xFF;
    FillFrame(sent, 1, cmd, arg);
  }

  const APP_CMD: seq<bv8> := [0x77, 0, 0, 0, 0]

  lemma FramedAfter(before: seq<bv8>, a: seq<bv8>, bytes: seq<bv8>, cmd: bv8, arg: bv32)
    requires Framed(a, 0, cmd, arg) && bytes == a[..6]
    ensures Framed(before + bytes, |before|, cmd, arg)
  {
    var all, n := before + bytes, |before|;
    assert all[n .. n + 5] == a[0 .. 5] && all[n + 1 .. n + 5] == a[1 .. 5];
  }

  /** mmc_send_acmd: CMD55, with a fixed last byte, four idle bytes, and a
      frame. `sent` is all that goes over the wire. */
  method MmcSendAcmd(cmd: bv8, arg: bv32) returns (sent: seq<bv8>)
    ensures |sent| == 17 && Framed(sent, 11, cmd, arg)
    ensures sent[..11] == [0xFF, 0x77, 0x00, 0x00, 0x00, 0x00, 0x01, 0xFF, 0xFF, 0xFF, 0xFF]
  {
    hide Framed;
    var a := new bv8[7];
    a[0], a[1], a[2], a[3], a[4], a[5], a[6] := 0xFF, 0x77, 0, 0, 0, 0, 0x01;
    sent := a[..];
    a[0], a[1], a[2], a[3] := 0xFF, 0xFF, 0xFF, 0xFF;
    sent := sent + a[..4];
    ghost var prefix := sent;
    FillFrame(a, 0, cmd, arg);
    sent := sent + a[..6];
    FramedAfter(prefix, a[..], a[..6], cmd, arg);
  }

  lemma BitsOfOneMore(data: seq<bv8>, b: bv8)
    ensures Bits(data + [b]) == Bits(data) + BitsOf(b)
  {
    assert (data + [b])[..|data|] == data;
  }

  lemma ZeroBits(n: nat)
    ensures BitsOf(0) == seq(8, _ => false)
    ensures seq(8 * n, _ => false) + BitsOf(0) == seq(8 * (n + 1), _ => false)
  {
  }

  lemma {:induction false} BitsOfZeros(first: bv8, n: nat)
    ensures Bits([first] + seq(n, _ => 0)) == BitsOf(first) + seq(8 * n, _ => false)
  {
    hide BitsOf;
    if n == 0 {
      BitsOfOneMore([], first);
      assert [first] + seq(0, _ => 0) == [] + [first];
      assert [] + BitsOf(first) == BitsOf(first) + seq(8 * 0, _ => false);
    } else {
      ZeroBits(n - 1);
      BitsOfZeros(first, n - 1);
      BitsOfOneMore([first] + seq(n - 1, _ => 0), 0);
      assert [first] + seq(n, _ => 0) == [first] + seq(n - 1, _ => 0) + [0];
      assert BitsOf(first) + seq(8 * (n - 1), _ => false) + BitsOf(0) == BitsOf(first) + seq(8 * n, _ => false);
    }
  }

  /** The fixed last byte of CMD55 is not the check byte of this command: no
      frame whose only set bits are the low seven of its first byte has the
      remainder zero. */
  lemma AppCommandHasNoCheck()
    ensures CheckByte(Bits([0x77, 0x00, 0x00, 0x00, 0x00])) != 0x01
  {
    var m := Bits(APP_CMD);
    assert APP_CMD == [0x77] + seq(4, _ => 0);
    BitsOfZeros(0x77, 4);
    var p := m + SEVEN_ZEROS;
    CrcIsRemainder(m);
    PackUnpack(0x01, Crc(m));
    if Crc(m) == ZERO {
      assert Coef(p, 39) && forall j :: j < 39 ==> !Coef(p, j);
      MultiplesAreWide(p, 39);
    }
  }

  /** x^45, in steps. */
  lemma PowerRegister45()
    ensures PowerRegister(45) == Register(true, false, false, true, false, true, false)
  {
    assert PowerRegister(15) == Register(false, false, false, true, false, true, true);
    assert PowerRegister(16) == Register(false, false, true, false, true, true, false);
    assert PowerRegister(30) == Register(true, false, false, false, true, false, true);
    assert PowerRegister(31) == Register(false, false, false, false, false, true, true);
  }

  /** The last byte of the reset command, which the source writes out, is its
      check byte. */
  lemma ResetCommandHasCheck()
    ensures CheckByte(Bits([0x40, 0x00, 0x00, 0x00, 0x00])) == 0x95
  {
    var frame: seq<bv8> := [0x40, 0x00, 0x00, 0x00, 0x00];
    var m := Bits(frame);
    assert frame == [0x40] + seq(4, _ => 0);
    BitsOfZeros(0x40, 4);
    assert BitsOf(0x40) == [false, true, false, false, false, false, false, false];
    CrcIsRemainder(m);
    PowerRemainder(45);
    PadRemainder(Power(45), 1, PowerRegister(45));
    assert m + SEVEN_ZEROS == Padded(Power(45), 1);
    RemainderIsUnique(m + SEVEN_ZEROS, Crc(m), PowerRegister(45));
    PowerRegister45();
    PackUnpack(0x95, Crc(m));
  }
}
