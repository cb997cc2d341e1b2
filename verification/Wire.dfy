/** Messages on the Z21 LAN interface, and the byte layouts the simulator fills
    in itself (apps/z21-sim/internal/server/can.go, xpressnet.go).  Messages
    whose layout the repository does not show are kept in parsed form. */
module Wire {
  import opened Basics

  datatype Header =
    | GetHWInfo | GetSerialNumber | GetCode | Logoff
    | SetBroadcastFlags | GetBroadcastFlags
    | SystemStateGetData | SystemStateDataChanged
    | LanX
    | CanGetDescription | CanSetDescription | CanDetector
    | Unhandled

  datatype Message =
    | Packet(header: Header, data: seq<uint8>)
    | SetModuleAddress(netID: uint16, addr: uint16)
    | BadMaintenance

  /** The network id that asks every detector to report. */
  const POLL_ALL: uint16 := 0xD000

  const FLAG_XPRESSNET: uint32 := 0x0000_0001
  const FLAG_SYSTEM_STATE: uint32 := 0x0000_0100
  const FLAG_CAN_DETECTOR: uint32 := 0x0008_0000

  /** `flags & flag != 0`, for a flag that is a single bit. */
  predicate HasFlag(flags: uint32, flag: uint32)
    requires flag > 0
  {
    (flags / flag) % 2 == 1
  }

  // ---- little-endian integers ----

  function Put16(x: uint16): (b: seq<uint8>)
    ensures |b| == 2
  {
    [x % 0x100, x / 0x100]
  }

  function Get16(b: seq<uint8>): uint16
    requires |b| >= 2
  {
    var lo: int, hi: int := b[0], b[1];
    lo + 0x100 * hi
  }

  function Get32(b: seq<uint8>): uint32
    requires |b| >= 4
  {
    var lo: int, hi: int := Get16(b), Get16(b[2..]);
    lo + 0x1_0000 * hi
  }

  function Put32(x: uint32): (b: seq<uint8>)
    ensures |b| == 4
  {
    Put16(x % 0x1_0000) + Put16(x / 0x1_0000)
  }

  lemma Get16Put16(x: uint16)
    ensures Get16(Put16(x)) == x
  {}

  /** The number two bytes stand for, the least significant first. */
  function Little(lo: int, hi: int): int {
    lo + 256 * hi
  }

  /** Numbers go least significant byte first. */
  lemma LittleEndian(x: uint16, y: uint32)
    ensures Little(Put16(x)[0], Put16(x)[1]) == x
    ensures Little(Put32(y)[0], Put32(y)[1]) + 65536 * Little(Put32(y)[2], Put32(y)[3]) == y
  {
    LittlePut16(x);
    LittlePut16(y % 65536);
    LittlePut16(y / 65536);
  }

  lemma LittlePut16(x: uint16)
    ensures Little(Put16(x)[0], Put16(x)[1]) == x
  {}

  /** Four bytes read as a number are written back the same. */
  lemma Put32Get32(b: seq<uint8>)
    requires |b| >= 4
    ensures Put32(Get32(b)) == b[..4]
  {
    var lo, hi := Get16(b), Get16(b[2..]);
    SplitWord(lo, hi);
    Put16Get16(b);
    Put16Get16(b[2..]);
    assert b[2..][..2] == b[2..4] && b[..2] + b[2..4] == b[..4];
  }

  lemma Get32Put32(x: uint32)
    ensures Get32(Put32(x)) == x
  {
    assert Put32(x)[2..] == Put16(x / 65536);
    Get16Put16(x % 65536);
    Get16Put16(x / 65536);
  }

  lemma SplitWord(lo: uint16, hi: uint16)
    ensures (lo + 65536 * hi) % 65536 == lo && (lo + 65536 * hi) / 65536 == hi
  {}

  lemma Put16Get16(b: seq<uint8>)
    requires |b| >= 2
    ensures Put16(Get16(b)) == b[..2]
  {}

  /** The broadcast flags are the binary digits 0, 8 and 19 of the number a client sets. */
  lemma FlagDigits(flags: uint32)
    ensures HasFlag(flags, FLAG_XPRESSNET) <==> flags % 2 == 1
    ensures HasFlag(flags, FLAG_SYSTEM_STATE) <==> flags % 512 >= 256
    ensures HasFlag(flags, FLAG_CAN_DETECTOR) <==> flags % 1048576 >= 524288
  {
    Digit8(flags);
    Digit19(flags);
  }

  lemma Digit8(x: nat)
    ensures x / 256 % 2 == 1 <==> x % 512 >= 256
  {}

  lemma Digit19(x: nat)
    ensures x / 524288 % 2 == 1 <==> x % 1048576 >= 524288
  {}

  // ---- detector reports ----

  datatype Report = Report(netID: uint16, addr: uint16, port: uint8, kind: uint8, value1: uint16, value2: uint16)

  const OCCUPANCY: uint8 := 1

  function EncodeReport(r: Report): (b: seq<uint8>)
    ensures |b| == 10
  {
    Put16(r.netID) + Put16(r.addr) + [r.port, r.kind] + Put16(r.value1) + Put16(r.value2)
  }

  function ParseReport(b: seq<uint8>): Option<Report> {
    if |b| < 10 then None
    else Some(Report(Get16(b[0..2]), Get16(b[2..4]), b[4], b[5], Get16(b[6..8]), Get16(b[8..10])))
  }

  /** A report is read back as it was written. */
  lemma ReportRoundTrip(r: Report)
    ensures ParseReport(EncodeReport(r)) == Some(r)
  {}

  /** Where the report's fields lie in its ten bytes. */
  lemma ReportLayout(r: Report)
    ensures var b := EncodeReport(r);
            && Little(b[0], b[1]) == r.netID && Little(b[2], b[3]) == r.addr && b[4] == r.port && b[5] == r.kind
            && Little(b[6], b[7]) == r.value1 && Little(b[8], b[9]) == r.value2
  {
    LittlePut16(r.netID);
    LittlePut16(r.addr);
    LittlePut16(r.value1);
    LittlePut16(r.value2);
  }

  // ---- LAN_X checksums ----

  /** Exclusive or of the low `bits` bits. */
  function XorBits(a: nat, b: nat, bits: nat): (x: nat)
    ensures a == b ==> x == 0
    ensures x < Pow2(bits)
  {
    if bits == 0 then 0 else 2 * XorBits(a / 2, b / 2, bits - 1) + (if a % 2 == b % 2 then 0 else 1)
  }

  function Pow2(n: nat): nat {
    if n == 0 then 1 else 2 * Pow2(n - 1)
  }

  function Xor8(a: uint8, b: uint8): (x: uint8)
    ensures a == b ==> x == 0
  {
    assert Pow2(8) == 256 by { assert Pow2(4) == 16; }
    XorBits(a, b, 8)
  }

  /** Bit `k` of a number. */
  function Bit(x: nat, k: nat): nat {
    if k == 0 then x % 2 else Bit(x / 2, k - 1)
  }

  lemma {:induction false} XorBitwise(a: nat, b: nat, bits: nat, k: nat)
    requires k < bits
    ensures Bit(XorBits(a, b, bits), k) == (Bit(a, k) + Bit(b, k)) % 2
  {
    var rest := XorBits(a / 2, b / 2, bits - 1);
    assert XorBits(a, b, bits) / 2 == rest;
    if k > 0 { XorBitwise(a / 2, b / 2, bits - 1, k - 1); }
  }

  /** Numbers of so many bits that agree in each are equal. */
  lemma {:induction false} SameBits(a: nat, b: nat, bits: nat)
    requires a < Pow2(bits) && b < Pow2(bits) && forall k: nat :: k < bits ==> Bit(a, k) == Bit(b, k)
    ensures a == b
  {
    if bits > 0 {
      forall k: nat | k < bits - 1 ensures Bit(a / 2, k) == Bit(b / 2, k) {
        assert Bit(a, k + 1) == Bit(a / 2, k) && Bit(b, k + 1) == Bit(b / 2, k);
      }
      SameBits(a / 2, b / 2, bits - 1);
      assert Bit(a, 0) == Bit(b, 0);
    }
  }

  function Checksum(data: seq<uint8>): uint8 {
    if data == [] then 0 else Xor8(Checksum(data[..|data| - 1]), data[|data| - 1])
  }

  /** How many bytes have bit `k` set. */
  function Ones(data: seq<uint8>, k: nat): nat {
    if data == [] then 0 else Ones(data[1..], k) + Bit(data[0], k)
  }

  lemma {:induction false} OnesLast(data: seq<uint8>, k: nat)
    requires data != []
    ensures Ones(data, k) == Ones(data[..|data| - 1], k) + Bit(data[|data| - 1], k)
  {
    if |data| > 1 {
      OnesLast(data[1..], k);
      assert data[1..][..|data| - 2] == data[..|data| - 1][1..];
    }
  }

  lemma {:induction false} BitIsBit(x: nat, k: nat)
    ensures Bit(x, k) < 2
  {
    if k > 0 { BitIsBit(x / 2, k - 1); }
  }

  lemma {:induction false} NoBits(k: nat)
    ensures Bit(0, k) == 0
  {
    if k > 0 { NoBits(k - 1); }
  }

  /** The checksum is the exclusive or of the bytes: each of its bits is the
      parity of that bit over them. */
  lemma {:induction false} ChecksumParity(data: seq<uint8>, k: nat)
    requires k < 8
    ensures Bit(Checksum(data), k) == Ones(data, k) % 2
  {
    if data == [] {
      NoBits(k);
    } else {
      var before, last := data[..|data| - 1], data[|data| - 1];
      ChecksumParity(before, k);
      OnesLast(data, k);
      Xor8Bitwise(Checksum(before), last, k);
      SameParity(Ones(before, k), Bit(last, k));
    }
  }

  lemma SameParity(n: nat, b: nat)
    ensures (n % 2 + b) % 2 == (n + b) % 2
  {}

  lemma Xor8Bitwise(a: uint8, b: uint8, k: nat)
    requires k < 8
    ensures Bit(Xor8(a, b), k) == (Bit(a, k) + Bit(b, k)) % 2
  {
    XorBitwise(a, b, 8, k);
  }

  /** Changing any one byte changes the checksum. */
  lemma ChecksumDetectsChange(data: seq<uint8>, i: nat, b: uint8)
    requires i < |data| && b != data[i]
    ensures Checksum(data[i := b]) != Checksum(data)
  {
    var k := DifferingBit(b, data[i]);
    ChecksumParity(data, k);
    ChecksumParity(data[i := b], k);
    OnesUpdated(data, i, b, k);
    OtherParity(Ones(data, k), Bit(data[i], k), Bit(b, k));
  }

  lemma OtherParity(n: nat, was: nat, now: nat)
    requires was < 2 && now < 2 && was != now && was <= n
    ensures (n - was + now) % 2 != n % 2
  {}

  /** Different bytes differ in some bit. */
  lemma DifferingBit(a: uint8, b: uint8) returns (k: nat)
    requires a != b
    ensures k < 8 && Bit(a, k) != Bit(b, k) && Bit(a, k) < 2 && Bit(b, k) < 2
  {
    k := 0;
    while k < 8 && Bit(a, k) == Bit(b, k)
      invariant k <= 8 && forall i: nat :: i < k ==> Bit(a, i) == Bit(b, i)
    {
      k := k + 1;
    }
    if k == 8 {
      assert Pow2(8) == 256 by { assert Pow2(4) == 16; }
      SameBits(a, b, 8);
    }
    BitIsBit(a, k);
    BitIsBit(b, k);
  }

  lemma {:induction false} OnesUpdated(data: seq<uint8>, i: nat, b: uint8, k: nat)
    requires i < |data|
    ensures Bit(data[i], k) <= Ones(data, k)
    ensures Ones(data[i := b], k) == Ones(data, k) - Bit(data[i], k) + Bit(b, k)
  {
    if i == 0 {
      assert data[0 := b][1..] == data[1..];
    } else {
      assert data[i := b][1..] == data[1..][i - 1 := b];
      OnesUpdated(data[1..], i - 1, b, k);
    }
  }

  function WithChecksum(data: seq<uint8>): seq<uint8> {
    data + [Checksum(data)]
  }

  method AppendLANXXOR(data: seq<uint8>) returns (out: seq<uint8>)
    ensures out == WithChecksum(data)
    ensures |out| == |data| + 1 && out[..|data|] == data
    ensures forall k: nat :: k < 8 ==> Bit(out[|data|], k) == Ones(data, k) % 2
    ensures Checksum(out) == 0
  {
    var x: uint8 := 0;
    for i := 0 to |data|
      invariant x == Checksum(data[..i])
    {
      assert data[..i + 1][..i] == data[..i];
      x := Xor8(x, data[i]);
    }
    assert data[..|data|] == data;
    out := data + [x];
    assert out[..|data|] == data;
    forall k: nat | k < 8 ensures Bit(x, k) == Ones(data, k) % 2 { ChecksumParity(data, k); }
  }
}
