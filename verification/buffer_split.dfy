/**
 * The buffer-full multi-byte register write of src/st/platform.cpp and
 * src/platform.cpp (`WrMulti`, `WrByte`).
 *
 * The write opens one transmission, sends the register index, and writes
 * the data bytes one by one. When `Wire.write` refuses byte `i` because the
 * transmit buffer is full, the shim flushes the buffer without a STOP
 * (`endTransmission(false)`, a repeated START follows), opens a new
 * transmission at register `RegisterAddress + i` and writes byte `i` again.
 * The two files differ only in what happens when that second write is
 * refused too: src/st/platform.cpp halts in `Debugger::reportForever`,
 * src/platform.cpp carries on without the byte.
 */
module BufferSplit {
  import opened Bus

  /** What the shim does when the byte resent after a flush is refused again. */
  datatype OnResendRefused =
    | HaltForever   // src/st/platform.cpp
    | Ignore        // src/platform.cpp

  /**
   * The `for` loop from data index `i` on: `open` is the transmission being
   * filled, `sent` the transactions already ended, and `ack(k)` the status
   * the bus returns to the `k`-th `endTransmission`.
   */
  function Loop(policy: OnResendRefused, cap: Capacity, dev: nat, reg: u16, data: seq<byte>, ack: nat -> byte,
                i: nat, open: Pending, sent: seq<Txn>): (r: WriteOutcome)
    requires i <= |data| && open.dev == dev
    decreases |data| - i
    ensures |r.trace| > |sent| && r.trace[..|sent|] == sent
    ensures r.Halted? ==> policy == HaltForever && cap < 3
  {
    if i == |data| then Returned(sent + [Close(open, true)], ack(|sent|))
    else if Accepts(open, cap) then Loop(policy, cap, dev, reg, data, ack, i + 1, Write(open, data[i], cap), sent)
    else
      var sent' := sent + [Close(open, false)];
      var restart := Open(dev, RegisterAt(reg, i));
      if policy == HaltForever && !Accepts(restart, cap) then
        assert cap < 3;
        Halted(sent')
      else Loop(policy, cap, dev, reg, data, ack, i + 1, Write(restart, data[i], cap), sent')
  }

  /**
   * The transactions a run adds after the first `from` all go to `dev`; a
   * returned run ends with its only STOP and returns that STOP's status, a
   * halted run never sent a STOP.
   */
  ghost predicate RunShape(r: WriteOutcome, from: nat, dev: nat, ack: nat -> byte)
  {
    && |r.trace| > from
    && (forall k :: from <= k < |r.trace| ==> r.trace[k].dev == dev)
    && (r.Returned? ==> r.status == ack(|r.trace| - 1) && r.trace[|r.trace| - 1].stop)
    && (r.Returned? ==> forall k :: from <= k < |r.trace| - 1 ==> !r.trace[k].stop)
    && (r.Halted? ==> forall k :: from <= k < |r.trace| ==> !r.trace[k].stop)
  }

  /** Every run of the loop has the shape of a segmented write. */
  lemma {:induction false} LoopShape(policy: OnResendRefused, cap: Capacity, dev: nat, reg: u16, data: seq<byte>,
                                     ack: nat -> byte, i: nat, open: Pending, sent: seq<Txn>)
    requires i <= |data| && open.dev == dev
    ensures RunShape(Loop(policy, cap, dev, reg, data, ack, i, open, sent), |sent|, dev, ack)
    decreases |data| - i
  {
    var r := Loop(policy, cap, dev, reg, data, ack, i, open, sent);
    if i == |data| {
    } else if Accepts(open, cap) {
      LoopShape(policy, cap, dev, reg, data, ack, i + 1, Write(open, data[i], cap), sent);
    } else {
      var sent' := sent + [Close(open, false)];
      var restart := Open(dev, RegisterAt(reg, i));
      if policy == HaltForever && !Accepts(restart, cap) {
      } else {
        LoopShape(policy, cap, dev, reg, data, ack, i + 1, Write(restart, data[i], cap), sent');
        assert r.trace[|sent|] == Close(open, false) by {
          assert r.trace[..|sent'|] == sent';
        }
        forall k | |sent| < k < |r.trace| ensures r.trace[k].dev == dev {}
      }
    }
  }

  /**
   * `WrMulti` of src/st/platform.cpp: every transaction goes to the 7-bit
   * device address; every flush is a repeated START and only the final
   * transaction has a STOP, whose status is returned. It halts only when
   * the buffer cannot take a single data byte.
   */
  function StWrMulti(cap: Capacity, address: u16, reg: u16, data: seq<byte>, ack: nat -> byte): (r: WriteOutcome)
    ensures |r.trace| > 0 && forall k :: 0 <= k < |r.trace| ==> r.trace[k].dev == DeviceAddress(address)
    ensures r.Returned? ==> r.status == ack(|r.trace| - 1) && r.trace[|r.trace| - 1].stop
    ensures r.Returned? ==> forall k :: 0 <= k < |r.trace| - 1 ==> !r.trace[k].stop
    ensures r.Halted? <==> cap < 3 && |data| > 0
  {
    var dev := DeviceAddress(address);
    var r := Loop(HaltForever, cap, dev, reg, data, ack, 0, Open(dev, reg), []);
    LoopShape(HaltForever, cap, dev, reg, data, ack, 0, Open(dev, reg), []);
    assert r.Halted? <==> cap < 3 && |data| > 0 by {
      if cap < 3 && |data| > 0 {
        assert r == Halted([Txn(dev, reg, [], false)]);
      }
    }
    r
  }

  /**
   * `WrMulti` of src/platform.cpp: the same loop, but a refused resend is
   * ignored, so this variant always returns the status of its final STOP.
   */
  function PlatformWrMulti(cap: Capacity, address: u16, reg: u16, data: seq<byte>, ack: nat -> byte): (r: WriteOutcome)
    ensures r.Returned?
    ensures |r.trace| > 0 && forall k :: 0 <= k < |r.trace| ==> r.trace[k].dev == DeviceAddress(address)
    ensures r.status == ack(|r.trace| - 1) && r.trace[|r.trace| - 1].stop
    ensures forall k :: 0 <= k < |r.trace| - 1 ==> !r.trace[k].stop
  {
    var dev := DeviceAddress(address);
    LoopShape(Ignore, cap, dev, reg, data, ack, 0, Open(dev, reg), []);
    Loop(Ignore, cap, dev, reg, data, ack, 0, Open(dev, reg), [])
  }

  // ---------------------------------------------------------------------
  // The segmentation the loop produces when the resend always fits
  // ---------------------------------------------------------------------

  /**
   * Reference segmentation of `data[s..]` into segments of `w` bytes (the
   * room a transmit buffer of `w + 2` bytes leaves after the register
   * index), each addressed at the register of its first byte; every
   * segment but the last ends with a repeated START, the last with a STOP.
   */
  function Chunks(dev: nat, reg: u16, data: seq<byte>, w: nat, s: nat): seq<Txn>
    requires 0 < w && s <= |data|
    decreases |data| - s
  {
    if |data| - s <= w then [Txn(dev, RegisterAt(reg, s), data[s..], true)]
    else [Txn(dev, RegisterAt(reg, s), data[s..s + w], false)] + Chunks(dev, reg, data, w, s + w)
  }

  /** The chunks from `s` carry `data[s..]` contiguously to `dev`, `w` bytes at a time. */
  lemma {:induction false} ChunksFraming(dev: nat, reg: u16, data: seq<byte>, w: nat, s: nat)
    requires 0 < w && s <= |data|
    ensures var tr := Chunks(dev, reg, data, w, s);
      && |tr| > 0
      && Flatten(tr) == data[s..]
      && Contiguous(reg, s, tr)
      && (forall k :: 0 <= k < |tr| ==> tr[k].dev == dev)
      && (forall k :: 0 <= k < |tr| ==> |tr[k].payload| <= w)
      && (forall k :: 0 <= k < |tr| - 1 ==> |tr[k].payload| == w && !tr[k].stop)
      && tr[|tr| - 1].stop
      && (s < |data| ==> forall k :: 0 <= k < |tr| ==> |tr[k].payload| > 0)
    decreases |data| - s
  {
    var tr := Chunks(dev, reg, data, w, s);
    if |data| - s <= w {
      assert tr[1..] == [];
      assert Flatten(tr) == data[s..] + [];
    } else {
      ChunksFraming(dev, reg, data, w, s + w);
      var rest := Chunks(dev, reg, data, w, s + w);
      assert tr[1..] == rest;
      assert Flatten(tr) == data[s..s + w] + data[s + w..];
      assert data[s..s + w] + data[s + w..] == data[s..];
      forall k | 1 <= k < |tr|
        ensures tr[k].dev == dev && |tr[k].payload| <= w
        ensures k < |tr| - 1 ==> |tr[k].payload| == w && !tr[k].stop
      {
        assert tr[k] == rest[k - 1];
      }
    }
  }

  /**
   * Loop invariant: while filling the segment that starts at data index
   * `s`, with a buffer that has room for a resent byte, the rest of the run
   * sends exactly the reference chunks from `s` and returns the status of
   * the last of them, whichever policy the shim follows.
   */
  lemma {:induction false} LoopFollowsChunks(policy: OnResendRefused, cap: Capacity, dev: nat, reg: u16, data: seq<byte>,
                                             ack: nat -> byte, s: nat, i: nat, sent: seq<Txn>)
    requires cap >= 3
    requires s <= i <= |data| && i <= s + (cap - 2)
    ensures var segs := Chunks(dev, reg, data, cap - 2, s);
      Loop(policy, cap, dev, reg, data, ack, i, Pending(dev, RegisterAt(reg, s), data[s..i]), sent)
        == Returned(sent + segs, ack(|sent| + |segs| - 1))
    decreases |data| - i
  {
    var w := cap - 2;
    var n := |data|;
    var open := Pending(dev, RegisterAt(reg, s), data[s..i]);
    var segs := Chunks(dev, reg, data, w, s);
    if i == n {
      assert data[s..i] == data[s..];
      assert segs == [Txn(dev, RegisterAt(reg, s), data[s..], true)];
    } else if i < s + w {
      assert Accepts(open, cap);
      assert Write(open, data[i], cap).payload == data[s..i + 1];
      LoopFollowsChunks(policy, cap, dev, reg, data, ack, s, i + 1, sent);
    } else {
      LoopFlushes(policy, cap, dev, reg, data, ack, s, i, sent);
    }
  }

  /** The refusal step of `LoopFollowsChunks`: flushing a full chunk and resending at the next one. */
  lemma {:induction false} LoopFlushes(policy: OnResendRefused, cap: Capacity, dev: nat, reg: u16, data: seq<byte>,
                                       ack: nat -> byte, s: nat, i: nat, sent: seq<Txn>)
    requires cap >= 3
    requires s <= i < |data| && i == s + (cap - 2)
    ensures var segs := Chunks(dev, reg, data, cap - 2, s);
      Loop(policy, cap, dev, reg, data, ack, i, Pending(dev, RegisterAt(reg, s), data[s..i]), sent)
        == Returned(sent + segs, ack(|sent| + |segs| - 1))
    decreases |data| - i, 0
  {
    var w := cap - 2;
    var open := Pending(dev, RegisterAt(reg, s), data[s..i]);
    var head := Txn(dev, RegisterAt(reg, s), data[s..s + w], false);
    var sent' := sent + [head];
    var rest := Chunks(dev, reg, data, w, s + w);
    var next := Pending(dev, RegisterAt(reg, i), data[i..i + 1]);
    assert Chunks(dev, reg, data, w, s) == [head] + rest;
    assert |open.payload| == w && !Accepts(open, cap);
    assert Close(open, false) == head;
    var restart := Open(dev, RegisterAt(reg, i));
    assert Accepts(restart, cap);
    assert restart.payload + [data[i]] == data[i..i + 1];
    assert Write(restart, data[i], cap) == next;
    assert Loop(policy, cap, dev, reg, data, ack, i, open, sent)
        == Loop(policy, cap, dev, reg, data, ack, i + 1, next, sent');
    LoopFollowsChunks(policy, cap, dev, reg, data, ack, i, i + 1, sent');
    assert sent' + rest == sent + ([head] + rest);
  }

  /**
   * With a transmit buffer of at least 3 bytes the resend always fits, so
   * both variants send the data in chunks of `cap - 2` bytes and return the
   * status of the last chunk.
   */
  lemma WrMultiChunks(cap: Capacity, address: u16, reg: u16, data: seq<byte>, ack: nat -> byte)
    requires cap >= 3
    ensures var segs := Chunks(DeviceAddress(address), reg, data, cap - 2, 0);
      && StWrMulti(cap, address, reg, data, ack) == Returned(segs, ack(|segs| - 1))
      && PlatformWrMulti(cap, address, reg, data, ack) == Returned(segs, ack(|segs| - 1))
  {
    var dev := DeviceAddress(address);
    assert data[0..0] == [];
    assert Open(dev, reg) == Pending(dev, RegisterAt(reg, 0), data[0..0]);
    LoopFollowsChunks(HaltForever, cap, dev, reg, data, ack, 0, 0, []);
    LoopFollowsChunks(Ignore, cap, dev, reg, data, ack, 0, 0, []);
  }

  /**
   * With room for a resent byte both variants agree, every byte reaches
   * the device once and in order, each segment starts at the register of
   * its first byte, and the device ends up as after one unsegmented write.
   */
  lemma WrMultiDelivers(cap: Capacity, address: u16, reg: u16, data: seq<byte>, ack: nat -> byte, mem: Memory)
    requires cap >= 3
    ensures PlatformWrMulti(cap, address, reg, data, ack) == StWrMulti(cap, address, reg, data, ack)
    ensures var r := StWrMulti(cap, address, reg, data, ack);
      && r.Returned?
      && WellFramed(DeviceAddress(address), reg, data, r.trace)
      && Deliver(mem, r.trace) == Store(mem, reg, data)
  {
    var dev := DeviceAddress(address);
    var segs := Chunks(dev, reg, data, cap - 2, 0);
    WrMultiChunks(cap, address, reg, data, ack);
    ChunksFraming(dev, reg, data, cap - 2, 0);
    assert data[0..] == data;
    assert WellFramed(dev, reg, data, segs);
    WellFramedDelivers(mem, dev, reg, data, segs);
  }

  // ---------------------------------------------------------------------
  // A transmit buffer with no room for a data byte
  // ---------------------------------------------------------------------

  /**
   * From index `i` on, with a 2-byte buffer and the resend ignored, every
   * remaining data byte costs one flushed, empty transaction, and the run
   * ends with one more empty transaction.
   */
  lemma {:induction false} IgnoreDropsRest(dev: nat, reg: u16, data: seq<byte>, ack: nat -> byte,
                                           i: nat, open: Pending, sent: seq<Txn>)
    requires i <= |data| && open.dev == dev && open.payload == []
    ensures var r := Loop(Ignore, 2, dev, reg, data, ack, i, open, sent);
      && r.Returned?
      && |r.trace| == |sent| + (|data| - i) + 1
      && Flatten(r.trace[|sent|..]) == []
    decreases |data| - i
  {
    var r := Loop(Ignore, 2, dev, reg, data, ack, i, open, sent);
    if i == |data| {
      assert r.trace[|sent|..] == [Close(open, true)];
      assert Flatten([Close(open, true)]) == [] + Flatten([]);
    } else {
      var sent' := sent + [Close(open, false)];
      var restart := Open(dev, RegisterAt(reg, i));
      IgnoreDropsRest(dev, reg, data, ack, i + 1, Write(restart, data[i], 2), sent');
      assert r == Loop(Ignore, 2, dev, reg, data, ack, i + 1, restart, sent');
      assert r.trace[|sent|..] == [Close(open, false)] + r.trace[|sent'|..];
      FlattenAppend([Close(open, false)], r.trace[|sent'|..]);
      assert Flatten([Close(open, false)]) == [] + Flatten([]);
    }
  }

  /**
   * With a 2-byte transmit buffer the src/platform.cpp `WrMulti` drops
   * every data byte, yet returns whatever the last empty transaction
   * reports (0 on a healthy bus), while the st variant halts before
   * losing a byte.
   */
  lemma TinyBufferBehaviour(address: u16, reg: u16, data: seq<byte>, ack: nat -> byte)
    requires |data| > 0
    ensures var r := PlatformWrMulti(2, address, reg, data, ack);
      && |r.trace| == |data| + 1
      && Flatten(r.trace) == []
      && r.status == ack(|data|)
    ensures StWrMulti(2, address, reg, data, ack) == Halted([Txn(DeviceAddress(address), reg, [], false)])
  {
    var dev := DeviceAddress(address);
    IgnoreDropsRest(dev, reg, data, ack, 0, Open(dev, reg), []);
    var r := PlatformWrMulti(2, address, reg, data, ack);
    assert r.trace[0..] == r.trace;
  }

  /**
   * `WrByte` of src/platform.cpp: `WrMulti` of the one byte. With room for
   * a data byte it is a single STOP-terminated transaction holding the
   * byte; with a 2-byte buffer the byte is lost.
   */
  function PlatformWrByte(cap: Capacity, address: u16, reg: u16, value: byte, ack: nat -> byte): (r: WriteOutcome)
    ensures cap >= 3 ==> r == Returned([Txn(DeviceAddress(address), reg, [value], true)], ack(0))
    ensures cap < 3 ==> r.Returned? && Flatten(r.trace) == []
  {
    var r := PlatformWrMulti(cap, address, reg, [value], ack);
    assert cap < 3 ==> Flatten(r.trace) == [] by {
      if cap < 3 {
        TinyBufferBehaviour(address, reg, [value], ack);
      }
    }
    assert cap >= 3 ==> r == Returned([Txn(DeviceAddress(address), reg, [value], true)], ack(0)) by {
      if cap >= 3 {
        var dev := DeviceAddress(address);
        assert Accepts(Open(dev, reg), cap);
        assert Write(Open(dev, reg), [value][0], cap) == Pending(dev, reg, [value]);
        assert Loop(Ignore, cap, dev, reg, [value], ack, 0, Open(dev, reg), [])
            == Loop(Ignore, cap, dev, reg, [value], ack, 1, Pending(dev, reg, [value]), []);
      }
    }
    r
  }

  /**
   * `WrByte` of src/st/platform.cpp: `WrMulti` of the one byte. With room
   * for a data byte it is a single STOP-terminated transaction holding the
   * byte; with a 2-byte buffer it halts after the empty flush.
   */
  function StWrByte(cap: Capacity, address: u16, reg: u16, value: byte, ack: nat -> byte): (r: WriteOutcome)
    ensures cap >= 3 ==> r == Returned([Txn(DeviceAddress(address), reg, [value], true)], ack(0))
    ensures cap < 3 ==> r == Halted([Txn(DeviceAddress(address), reg, [], false)])
  {
    var r := StWrMulti(cap, address, reg, [value], ack);
    assert cap < 3 ==> r == Halted([Txn(DeviceAddress(address), reg, [], false)]) by {
      if cap < 3 {
        TinyBufferBehaviour(address, reg, [value], ack);
      }
    }
    assert cap >= 3 ==> r == Returned([Txn(DeviceAddress(address), reg, [value], true)], ack(0)) by {
      if cap >= 3 {
        var dev := DeviceAddress(address);
        assert Accepts(Open(dev, reg), cap);
        assert Write(Open(dev, reg), [value][0], cap) == Pending(dev, reg, [value]);
        assert Loop(HaltForever, cap, dev, reg, [value], ack, 0, Open(dev, reg), [])
            == Loop(HaltForever, cap, dev, reg, [value], ack, 1, Pending(dev, reg, [value]), []);
      }
    }
    r
  }
}
