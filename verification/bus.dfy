/**
 * The I2C register transport shared by every platform shim of the driver.
 *
 * The shims talk to the sensor through the Arduino `Wire` library. Here the
 * bus is replaced by a trace of transactions: every `beginTransmission` …
 * `endTransmission(stop)` pair becomes one `Txn` holding the 7-bit device
 * address, the 16-bit register index sent first (high byte first), the data
 * bytes that followed it, and whether the transaction ended with a STOP or
 * with a repeated START (sections 3.1.4 and 3.1.10 of the NXP I2C-bus
 * specification UM10204).
 */
module Bus {

  /** An 8-bit value as it travels on the bus. */
  type byte = b: int | 0 <= b < 0x100

  /** A 16-bit register index of the sensor (`uint16_t` in the shims). */
  type u16 = x: int | 0 <= x < 0x1_0000

  /**
   * Size of the `Wire` transmit buffer. `Wire.write` refuses a byte once the
   * buffer is full; the buffer always has room for the two register-index
   * bytes written right after `beginTransmission`.
   */
  type Capacity = c: int | 2 <= c witness 32

  // ---------------------------------------------------------------------
  // Arithmetic used by the byte encodings
  // ---------------------------------------------------------------------

  /** Euclidean division of `q * d + r` is unique when `r < d`. */
  lemma DivMod(q: nat, r: nat, d: nat)
    requires r < d
    ensures (q * d + r) / d == q && (q * d + r) % d == r
  {
    var x := q * d + r;
    var q', r' := x / d, x % d;
    assert q' * d + r' == q * d + r;
    if q' > q {
      MulAtLeast(q' - q, d);
      assert false;
    } else if q' < q {
      MulAtLeast(q - q', d);
      assert false;
    }
  }

  lemma MulAtLeast(a: nat, d: nat)
    requires 1 <= a
    ensures a * d >= d
  {}

  // ---------------------------------------------------------------------
  // Register index and device address
  // ---------------------------------------------------------------------

  /** The two bytes a big-endian register index occupies on the wire. */
  function DecodeRegister(bs: seq<byte>): u16
    requires |bs| == 2
  {
    256 * (bs[0] as int) + bs[1]
  }

  /**
   * `start_transfer`: the register index is sent as `reg >> 8` followed by
   * `reg & 0xFF`. On an unsigned 16-bit value these are `reg / 256` and
   * `reg % 256`. The device reads the index back big-endian.
   */
  function EncodeRegister(reg: u16): (bs: seq<byte>)
    ensures |bs| == 2
    ensures DecodeRegister(bs) == reg
  {
    [reg / 256, reg % 256]
  }

  /** Two bytes decode to a register index whose encoding gives them back. */
  lemma EncodeDecodeRegister(bs: seq<byte>)
    requires |bs| == 2
    ensures EncodeRegister(DecodeRegister(bs)) == bs
  {
    DivMod(bs[0], bs[1], 256);
  }

  /**
   * `RegisterAddress + i` passed to a `uint16_t` parameter: the sum wraps
   * around modulo 2^16.
   */
  function RegisterAt(reg: u16, offset: nat): (r: u16)
    ensures reg + offset < 0x1_0000 ==> r == reg + offset
    ensures offset % 0x1_0000 == 0 ==> r == reg
  {
    (reg + offset) % 0x1_0000
  }

  /** Offsets accumulate: restarting twice is one restart at the summed offset. */
  lemma RegisterAtAdd(reg: u16, a: nat, b: nat)
    ensures RegisterAt(RegisterAt(reg, a), b) == RegisterAt(reg, a + b)
  {
    var x := reg + a;
    var y := x % 0x1_0000 + b;
    assert x + b == (x / 0x1_0000 + y / 0x1_0000) * 0x1_0000 + y % 0x1_0000;
    DivMod(x / 0x1_0000 + y / 0x1_0000, y % 0x1_0000, 0x1_0000);
  }

  /**
   * The restart encoding of src/platform.cpp: the high byte is
   * `(RegisterAddress + i) >> 8` stored into a `uint8_t` (so truncated to 8
   * bits) and the low byte is `(RegisterAddress + i) & 0xFF`, both computed
   * on an unwrapped integer sum.
   */
  function PlatformRestartBytes(reg: u16, i: nat): seq<byte>
  {
    [((reg + i) / 256) % 256, (reg + i) % 256]
  }

  /** Truncating each byte separately is the same as encoding the sum modulo 2^16. */
  lemma PlatformRestartIsWrapped(reg: u16, i: nat)
    ensures PlatformRestartBytes(reg, i) == EncodeRegister(RegisterAt(reg, i))
  {
    var x := reg + i;
    var q, m := x / 0x1_0000, x % 0x1_0000;
    assert x == (256 * q + m / 256) * 256 + m % 256;
    DivMod(256 * q + m / 256, m % 256, 256);
    DivMod(q, m / 256, 256);
  }

  /**
   * `(uint8_t)(address & 0x7F)`: the shims keep the low seven bits of the
   * configured address, the 7-bit target address of section 3.1.10 of
   * UM10204.
   */
  function DeviceAddress(address: u16): (dev: nat)
    ensures dev < 128
    ensures (address - dev) % 128 == 0
  {
    address % 128
  }

  // ---------------------------------------------------------------------
  // Transactions and the Wire transmit buffer
  // ---------------------------------------------------------------------

  /**
   * One transmission on the bus: the device address, the register index
   * sent as its first two bytes, the data bytes that followed, and whether
   * it was closed with a STOP (`endTransmission(true)`) or left open for a
   * repeated START (`endTransmission(false)`).
   */
  datatype Txn = Txn(dev: nat, reg: u16, payload: seq<byte>, stop: bool)

  /** The bytes following the address byte, as they appear on the wire. */
  function Frame(t: Txn): (bs: seq<byte>)
    ensures |bs| == 2 + |t.payload|
    ensures DecodeRegister(bs[..2]) == t.reg && bs[2..] == t.payload
  {
    EncodeRegister(t.reg) + t.payload
  }

  /**
   * On the wire, a chunk restarted at offset `i` begins with the two header
   * bytes src/platform.cpp computes inline and continues with its payload.
   */
  lemma PlatformRestartFrame(dev: nat, reg: u16, i: nat, payload: seq<byte>, stop: bool)
    ensures Frame(Txn(dev, RegisterAt(reg, i), payload, stop)) == PlatformRestartBytes(reg, i) + payload
  {
    PlatformRestartIsWrapped(reg, i);
  }

  /** What the transmit buffer holds between `beginTransmission` and `endTransmission`. */
  datatype Pending = Pending(dev: nat, reg: u16, payload: seq<byte>)

  /** `beginTransmission(dev)` followed by `start_transfer(reg)`. */
  function Open(dev: nat, reg: u16): Pending
  {
    Pending(dev, reg, [])
  }

  /** `Wire.write(b)` returns nonzero exactly when the buffer still has room. */
  predicate Accepts(p: Pending, cap: Capacity)
  {
    2 + |p.payload| < cap
  }

  /** `Wire.write(b)`: the byte is appended when accepted and lost otherwise. */
  function Write(p: Pending, b: byte, cap: Capacity): (q: Pending)
    ensures q.dev == p.dev && q.reg == p.reg
    ensures Accepts(p, cap) <==> q.payload == p.payload + [b]
    ensures !Accepts(p, cap) <==> q == p
  {
    if Accepts(p, cap) then p.(payload := p.payload + [b]) else p
  }

  /** `endTransmission(stop)`: the buffer becomes a transaction on the bus. */
  function Close(p: Pending, stop: bool): Txn
  {
    Txn(p.dev, p.reg, p.payload, stop)
  }

  /**
   * The end of a write: either the shim returned the status of its final
   * `endTransmission(true)`, or it halted in `Debugger::reportForever`
   * after the transactions in `trace` had been sent.
   */
  datatype WriteOutcome =
    | Returned(trace: seq<Txn>, status: byte)
    | Halted(trace: seq<Txn>)

  // ---------------------------------------------------------------------
  // What a write trace means to the device
  // ---------------------------------------------------------------------

  /** All data bytes of a trace, in bus order. */
  function Flatten(trace: seq<Txn>): seq<byte>
  {
    if |trace| == 0 then [] else trace[0].payload + Flatten(trace[1..])
  }

  lemma FlattenAppend(a: seq<Txn>, b: seq<Txn>)
    ensures Flatten(a + b) == Flatten(a) + Flatten(b)
  {
    if |a| > 0 {
      assert (a + b)[0] == a[0];
      assert (a + b)[1..] == a[1..] + b;
      FlattenAppend(a[1..], b);
    } else {
      assert a + b == b;
    }
  }

  /**
   * Every transaction restarts at the register that the first of its bytes
   * belongs to: the first transaction starts at offset `off` from `reg`,
   * and each later one at the offset where the previous one stopped.
   */
  ghost predicate Contiguous(reg: u16, off: nat, trace: seq<Txn>)
    decreases |trace|
  {
    |trace| > 0 ==>
      trace[0].reg == RegisterAt(reg, off) &&
      Contiguous(reg, off + |trace[0].payload|, trace[1..])
  }

  /**
   * A trace carries a multi-byte register write of `data` to `reg` on
   * device `dev`: every transaction goes to `dev`, the payloads concatenate
   * to `data`, the segments line up with the register offsets of their
   * first bytes, no segment is empty unless the whole write is, and the
   * last transaction ends with a STOP.
   */
  ghost predicate WellFramed(dev: nat, reg: u16, data: seq<byte>, trace: seq<Txn>)
  {
    && |trace| > 0
    && (forall k :: 0 <= k < |trace| ==> trace[k].dev == dev)
    && Flatten(trace) == data
    && Contiguous(reg, 0, trace)
    && (|data| > 0 ==> forall k :: 0 <= k < |trace| ==> |trace[k].payload| > 0)
    && trace[|trace| - 1].stop
  }

  /** The sensor's register file, as far as a write can see it. */
  type Memory = map<u16, byte>

  /**
   * The device side of a write: data bytes land in consecutive registers
   * starting at `reg`, the register index incrementing (modulo 2^16) after
   * each byte.
   */
  function Store(mem: Memory, reg: u16, bytes: seq<byte>): Memory
    decreases |bytes|
  {
    if |bytes| == 0 then mem
    else Store(mem[reg := bytes[0]], RegisterAt(reg, 1), bytes[1..])
  }

  /** The device side of a whole trace: each transaction is one `Store`. */
  function Deliver(mem: Memory, trace: seq<Txn>): Memory
    decreases |trace|
  {
    if |trace| == 0 then mem
    else Deliver(Store(mem, trace[0].reg, trace[0].payload), trace[1..])
  }

  lemma {:induction false} StoreAppend(mem: Memory, reg: u16, a: seq<byte>, b: seq<byte>)
    ensures Store(mem, reg, a + b) == Store(Store(mem, reg, a), RegisterAt(reg, |a|), b)
    decreases |a|
  {
    if |a| > 0 {
      assert (a + b)[0] == a[0];
      assert (a + b)[1..] == a[1..] + b;
      StoreAppend(mem[reg := a[0]], RegisterAt(reg, 1), a[1..], b);
      RegisterAtAdd(reg, 1, |a| - 1);
    } else {
      assert a + b == b;
    }
  }

  /**
   * Segmentation is invisible to the device: a contiguous trace stores the
   * same registers as one unsegmented write of all its bytes.
   */
  lemma {:induction false} DeliverContiguous(mem: Memory, reg: u16, off: nat, trace: seq<Txn>)
    requires Contiguous(reg, off, trace)
    ensures Deliver(mem, trace) == Store(mem, RegisterAt(reg, off), Flatten(trace))
    decreases |trace|
  {
    if |trace| > 0 {
      var t := trace[0];
      var m := Store(mem, t.reg, t.payload);
      DeliverContiguous(m, reg, off + |t.payload|, trace[1..]);
      RegisterAtAdd(reg, off, |t.payload|);
      StoreAppend(mem, RegisterAt(reg, off), t.payload, Flatten(trace[1..]));
    }
  }

  /** A well-framed trace of `data` writes `data` to `reg`, exactly as one transfer would. */
  lemma WellFramedDelivers(mem: Memory, dev: nat, reg: u16, data: seq<byte>, trace: seq<Txn>)
    requires WellFramed(dev, reg, data, trace)
    ensures Deliver(mem, trace) == Store(mem, reg, data)
  {
    DeliverContiguous(mem, reg, 0, trace);
  }
}
