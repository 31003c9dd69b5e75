/**
 * The fixed-split multi-byte register write of src/vendor/platform.cpp
 * (`WrMulti`) and src/vl53l5cx_arduino.cpp (`VL53L1CX_WriteMulti`).
 *
 * The write opens one transmission, sends the register index, and writes
 * the data bytes one by one. Right after writing data index `i` with
 * `0 < i < size - 1` and `i % 16 == 0` it closes the transmission with a
 * STOP and opens a new one at register `reg + i + 1`, into which it writes
 * data byte `i + 1` at once; a refusal of that byte halts the program. The
 * return value is the status of the final `endTransmission(true)`.
 */
module FixedSplit {
  import opened Bus

  /** Data bytes in the first segment (indices 0 to 16). */
  const FirstSegmentLength: nat := 17

  /** Data bytes in every later segment. */
  const SegmentLength: nat := 16

  /** `i > 0 && i < size - 1 && i % 16 == 0`: the segment closes right after data index `i`. */
  predicate BreaksAfter(i: nat, size: nat)
  {
    0 < i && i < size - 1 && i % 16 == 0
  }

  /**
   * The `for` loop from data index `i` on: `open` is the transmission being
   * filled, `sent` the transactions already closed, and `ack(k)` the status
   * the bus returns to the `k`-th `endTransmission`.
   */
  function Loop(cap: Capacity, dev: nat, reg: u16, data: seq<byte>, ack: nat -> byte,
                i: nat, open: Pending, sent: seq<Txn>): (r: WriteOutcome)
    requires i <= |data| && open.dev == dev
    decreases |data| - i
    ensures |r.trace| > |sent| && r.trace[..|sent|] == sent
    ensures r.Returned? ==> r.status == ack(|r.trace| - 1)
    ensures r.Halted? ==> cap < 3
  {
    if i == |data| then Returned(sent + [Close(open, true)], ack(|sent|))
    else
      var open' := Write(open, data[i], cap);
      if BreaksAfter(i, |data|) then
        var sent' := sent + [Close(open', true)];
        var restart := Open(dev, RegisterAt(reg, i + 1));
        if Accepts(restart, cap) then
          Loop(cap, dev, reg, data, ack, i + 2, Write(restart, data[i + 1], cap), sent')
        else Halted(sent')
      else Loop(cap, dev, reg, data, ack, i + 1, open', sent)
  }

  /**
   * `WrMulti(p_platform, RegisterAddress, p_values, size)` on a bus whose
   * transmit buffer holds `cap` bytes. Every transaction goes to the 7-bit
   * device address and ends with a STOP; the result is the status of the
   * last transaction only; only a buffer too small for one data byte can
   * make it halt.
   */
  function WrMulti(cap: Capacity, address: u16, reg: u16, data: seq<byte>, ack: nat -> byte): (r: WriteOutcome)
    ensures |r.trace| > 0 && r.trace[0].reg == reg
    ensures forall k :: 0 <= k < |r.trace| ==> r.trace[k].stop && r.trace[k].dev == DeviceAddress(address)
    ensures r.Returned? ==> r.status == ack(|r.trace| - 1)
    ensures cap >= 3 ==> r.Returned?
  {
    var dev := DeviceAddress(address);
    var r := Loop(cap, dev, reg, data, ack, 0, Open(dev, reg), []);
    assert r.trace[0].reg == reg by { LoopFirstRegister(cap, dev, reg, data, ack, 0, Open(dev, reg)); }
    LoopStopsEverySegment(cap, dev, reg, data, ack, 0, Open(dev, reg), []);
    r
  }

  /** The transactions of `trace` from index `from` on all go to `dev` and end with a STOP. */
  ghost predicate AllStopped(trace: seq<Txn>, from: nat, dev: nat)
  {
    forall k :: from <= k < |trace| ==> trace[k].stop && trace[k].dev == dev
  }

  /** Every transaction a run sends goes to `dev` and ends with a STOP. */
  lemma {:induction false} LoopStopsEverySegment(cap: Capacity, dev: nat, reg: u16, data: seq<byte>, ack: nat -> byte,
                                                 i: nat, open: Pending, sent: seq<Txn>)
    requires i <= |data| && open.dev == dev
    ensures AllStopped(Loop(cap, dev, reg, data, ack, i, open, sent).trace, |sent|, dev)
    decreases |data| - i
  {
    if i < |data| {
      var open' := Write(open, data[i], cap);
      if BreaksAfter(i, |data|) {
        var sent' := sent + [Close(open', true)];
        var restart := Open(dev, RegisterAt(reg, i + 1));
        if Accepts(restart, cap) {
          var r := Loop(cap, dev, reg, data, ack, i, open, sent);
          LoopStopsEverySegment(cap, dev, reg, data, ack, i + 2, Write(restart, data[i + 1], cap), sent');
          assert r.trace[|sent|] == Close(open', true) by {
            assert r.trace[..|sent'|] == sent';
          }
        }
      } else {
        LoopStopsEverySegment(cap, dev, reg, data, ack, i + 1, open', sent);
      }
    }
  }

  /**
   * `WrByte`: `WrMulti` of the one byte. It is a single STOP-terminated
   * transaction holding the byte, or, when the buffer has no room for a
   * data byte, holding nothing, since a refused write is not checked.
   */
  function WrByte(cap: Capacity, address: u16, reg: u16, value: byte, ack: nat -> byte): (r: WriteOutcome)
    ensures r == Returned([Txn(DeviceAddress(address), reg, if cap >= 3 then [value] else [], true)], ack(0))
  {
    var dev := DeviceAddress(address);
    var filled := Write(Open(dev, reg), value, cap);
    assert filled.payload == if cap >= 3 then [value] else [];
    assert Loop(cap, dev, reg, [value], ack, 0, Open(dev, reg), [])
        == Loop(cap, dev, reg, [value], ack, 1, filled, []);
    assert Loop(cap, dev, reg, [value], ack, 1, filled, []) == Returned([Close(filled, true)], ack(0));
    WrMulti(cap, address, reg, [value], ack)
  }

  /** The first transaction of a run that starts with nothing sent is the one opened first. */
  lemma {:induction false} LoopFirstRegister(cap: Capacity, dev: nat, reg: u16, data: seq<byte>, ack: nat -> byte,
                                             i: nat, open: Pending)
    requires i <= |data| && open.dev == dev
    ensures Loop(cap, dev, reg, data, ack, i, open, []).trace[0].reg == open.reg
    decreases |data| - i
  {
    if i < |data| && !BreaksAfter(i, |data|) {
      LoopFirstRegister(cap, dev, reg, data, ack, i + 1, Write(open, data[i], cap));
    }
  }

  // ---------------------------------------------------------------------
  // The segmentation the loop is meant to produce
  // ---------------------------------------------------------------------

  /** Where the segment starting at data index `s` ends (exclusive). */
  function SegmentEnd(s: nat, size: nat): (e: nat)
    requires s <= size
    ensures s <= e <= size
    ensures e < size ==> e > s
  {
    var limit := if s == 0 then FirstSegmentLength else s + SegmentLength;
    if limit < size then limit else size
  }

  /**
   * Reference segmentation of `data[s..]`: the first segment holds data
   * bytes 0..16, each later one the next 16 bytes, each addressed at the
   * register of its first byte and closed with a STOP.
   */
  function Segments(dev: nat, reg: u16, data: seq<byte>, s: nat): seq<Txn>
    requires s <= |data|
    decreases |data| - s
  {
    var e := SegmentEnd(s, |data|);
    [Txn(dev, RegisterAt(reg, s), data[s..e], true)] +
      (if e < |data| then Segments(dev, reg, data, e) else [])
  }

  /** The reference segments from `s` carry `data[s..]`, contiguously, to `dev`, each with a STOP. */
  lemma {:induction false} SegmentsFraming(dev: nat, reg: u16, data: seq<byte>, s: nat)
    requires s <= |data|
    ensures var tr := Segments(dev, reg, data, s);
      && |tr| > 0
      && Flatten(tr) == data[s..]
      && Contiguous(reg, s, tr)
      && (forall k :: 0 <= k < |tr| ==> tr[k].dev == dev && tr[k].stop)
      && (s < |data| ==> forall k :: 0 <= k < |tr| ==> |tr[k].payload| > 0)
    decreases |data| - s
  {
    var tr := Segments(dev, reg, data, s);
    var e := SegmentEnd(s, |data|);
    var head := Txn(dev, RegisterAt(reg, s), data[s..e], true);
    if e < |data| {
      SegmentsFraming(dev, reg, data, e);
      var rest := Segments(dev, reg, data, e);
      assert tr == [head] + rest;
      assert tr[1..] == rest;
      assert Flatten(tr) == data[s..e] + data[e..];
      assert data[s..e] + data[e..] == data[s..];
    } else {
      assert tr == [head];
      assert tr[1..] == [];
      assert Flatten(tr) == data[s..e] + [];
    }
  }

  /**
   * Segments that start at data index `s` with `s % 16 == 1`: the `k`-th
   * starts at register `reg + s + 16 k` and holds 16 bytes, except the last,
   * which holds between 1 and 16.
   */
  ghost predicate TailShape(reg: u16, s: nat, tr: seq<Txn>)
  {
    && (forall k :: 0 <= k < |tr| ==> tr[k].reg == RegisterAt(reg, s + SegmentLength * k))
    && (forall k :: 0 <= k < |tr| ==> 0 < |tr[k].payload| <= SegmentLength)
    && (forall k :: 0 <= k < |tr| - 1 ==> |tr[k].payload| == SegmentLength)
  }

  lemma {:induction false} TailSegmentsShape(dev: nat, reg: u16, data: seq<byte>, s: nat)
    requires 0 < s < |data| && s % SegmentLength == 1
    ensures TailShape(reg, s, Segments(dev, reg, data, s))
    decreases |data| - s
  {
    var tr := Segments(dev, reg, data, s);
    var e := SegmentEnd(s, |data|);
    if e < |data| {
      assert e == s + SegmentLength;
      TailSegmentsShape(dev, reg, data, e);
      var rest := Segments(dev, reg, data, e);
      assert TailShape(reg, e, rest);
      assert tr[1..] == rest;
      forall k | 1 <= k < |tr|
        ensures tr[k].reg == RegisterAt(reg, s + SegmentLength * k)
        ensures 0 < |tr[k].payload| <= SegmentLength
        ensures k < |tr| - 1 ==> |tr[k].payload| == SegmentLength
      {
        assert tr[k] == rest[k - 1];
        assert rest[k - 1].reg == RegisterAt(reg, e + SegmentLength * (k - 1));
        assert e + SegmentLength * (k - 1) == s + SegmentLength * k;
      }
    }
  }

  /**
   * The reference segmentation of a whole write: the first segment holds
   * `min(17, size)` bytes at `reg`, the `k`-th later one starts at
   * register `reg + 16 k + 1` and holds at most 16 bytes, and a write of
   * nothing is one transaction holding only the register index.
   */
  lemma SegmentsShape(dev: nat, reg: u16, data: seq<byte>)
    ensures var tr := Segments(dev, reg, data, 0);
      && WellFramed(dev, reg, data, tr)
      && (forall k :: 0 <= k < |tr| ==> tr[k].stop)
      && tr[0].reg == reg
      && |tr[0].payload| == (if |data| < FirstSegmentLength then |data| else FirstSegmentLength)
      && (forall k :: 1 <= k < |tr| ==> tr[k].reg == RegisterAt(reg, SegmentLength * k + 1))
      && (forall k :: 1 <= k < |tr| ==> 0 < |tr[k].payload| <= SegmentLength)
      && (|data| == 0 ==> tr == [Txn(dev, reg, [], true)])
  {
    var tr := Segments(dev, reg, data, 0);
    SegmentsFraming(dev, reg, data, 0);
    assert data[0..] == data;
    var e := SegmentEnd(0, |data|);
    if e < |data| {
      TailSegmentsShape(dev, reg, data, e);
      var rest := Segments(dev, reg, data, e);
      assert TailShape(reg, e, rest);
      assert tr[1..] == rest;
      assert e == FirstSegmentLength;
      forall k | 1 <= k < |tr|
        ensures tr[k].reg == RegisterAt(reg, SegmentLength * k + 1)
        ensures 0 < |tr[k].payload| <= SegmentLength
      {
        assert tr[k] == rest[k - 1];
        assert rest[k - 1].reg == RegisterAt(reg, e + SegmentLength * (k - 1));
        assert 0 < |rest[k - 1].payload| <= SegmentLength;
        assert e + SegmentLength * (k - 1) == SegmentLength * k + 1;
      }
    }
  }

  // ---------------------------------------------------------------------
  // The loop produces the reference segmentation
  // ---------------------------------------------------------------------

  /**
   * Inside the segment that starts at `s`, the break condition of the loop
   * holds exactly at the last byte of a segment that is not the final one;
   * the next segment then starts at an index `e` with `e % 16 == 1`.
   */
  lemma BreakAtSegmentEnd(s: nat, i: nat, n: nat)
    requires s == 0 || s % SegmentLength == 1
    requires s <= n && s <= i < SegmentEnd(s, n)
    ensures BreaksAfter(i, n) <==> (i == SegmentEnd(s, n) - 1 && SegmentEnd(s, n) < n)
    ensures SegmentEnd(s, n) < n ==> SegmentEnd(s, n) % SegmentLength == 1
  {
    var e := SegmentEnd(s, n);
    if s != 0 && i % SegmentLength == 0 {
      assert (i - s) % SegmentLength == 15;
    }
  }

  // ---------------------------------------------------------------------
  // The loop against the segmentation, on any buffer
  // ---------------------------------------------------------------------

  /** The first `w` bytes of `p`: what a buffer with room for `w` data bytes keeps of it. */
  function Clip(p: seq<byte>, w: nat): (q: seq<byte>)
    ensures |q| == if |p| <= w then |p| else w
    ensures q == p[..|q|]
  {
    if |p| <= w then p else p[..w]
  }

  /** Every transaction of `segs` with its payload cut to its first `w` bytes. */
  function Clipped(segs: seq<Txn>, w: nat): (r: seq<Txn>)
    ensures |r| == |segs|
  {
    if |segs| == 0 then []
    else [segs[0].(payload := Clip(segs[0].payload, w))] + Clipped(segs[1..], w)
  }

  /**
   * The main loop's `wire->write(p_values[i])` is not checked: a byte the
   * full buffer refuses is lost, so an open transaction always holds the
   * first `cap - 2` bytes of what was written to it.
   */
  lemma WriteClips(dev: nat, r: u16, p: seq<byte>, b: byte, cap: Capacity)
    ensures Write(Pending(dev, r, Clip(p, cap - 2)), b, cap) == Pending(dev, r, Clip(p + [b], cap - 2))
  {
    if |p| < cap - 2 {
      assert Clip(p + [b], cap - 2) == p + [b];
    } else {
      assert (p + [b])[..cap - 2] == p[..cap - 2];
    }
  }

  /**
   * Loop invariant of `WrMulti`: while filling the segment that starts at
   * data index `s`, the rest of the run sends the reference segments from
   * `s`, each cut to the `cap - 2` bytes the transmit buffer has room for,
   * and returns the status of the last of them.
   */
  lemma {:induction false} LoopFollowsSegments(cap: Capacity, dev: nat, reg: u16, data: seq<byte>, ack: nat -> byte,
                                               s: nat, i: nat, sent: seq<Txn>)
    requires cap >= 3
    requires s == 0 || s % SegmentLength == 1
    requires s <= i <= |data|
    requires i <= SegmentEnd(s, |data|)
    requires i == SegmentEnd(s, |data|) ==> i == |data|
    ensures var segs := Segments(dev, reg, data, s);
      Loop(cap, dev, reg, data, ack, i, Pending(dev, RegisterAt(reg, s), Clip(data[s..i], cap - 2)), sent)
        == Returned(sent + Clipped(segs, cap - 2), ack(|sent| + |segs| - 1))
    decreases |data| - i
  {
    var n := |data|;
    var w := cap - 2;
    var e := SegmentEnd(s, n);
    var open := Pending(dev, RegisterAt(reg, s), Clip(data[s..i], w));
    var segs := Segments(dev, reg, data, s);
    var head := Txn(dev, RegisterAt(reg, s), data[s..e], true);
    if i == n {
      assert segs == [head];
      assert Clipped(segs, w) == [Close(open, true)];
    } else {
      BreakAtSegmentEnd(s, i, n);
      WriteClips(dev, RegisterAt(reg, s), data[s..i], data[i], cap);
      assert data[s..i] + [data[i]] == data[s..i + 1];
      if BreaksAfter(i, n) {
        LoopBreaks(cap, dev, reg, data, ack, s, i, sent);
      } else {
        LoopFollowsSegments(cap, dev, reg, data, ack, s, i + 1, sent);
      }
    }
  }

  /**
   * One break of the loop: the byte at `i` is the last of its segment, so
   * the segment is closed with a STOP and a new transmission opens at the
   * register of the next segment, holding its first byte.
   */
  lemma BreakStep(cap: Capacity, dev: nat, reg: u16, data: seq<byte>, ack: nat -> byte,
                  s: nat, i: nat, sent: seq<Txn>)
    requires cap >= 3
    requires s == 0 || s % SegmentLength == 1
    requires s <= i < |data| && i == SegmentEnd(s, |data|) - 1 && SegmentEnd(s, |data|) < |data|
    requires BreaksAfter(i, |data|)
    ensures var e := SegmentEnd(s, |data|);
      Loop(cap, dev, reg, data, ack, i, Pending(dev, RegisterAt(reg, s), Clip(data[s..i], cap - 2)), sent)
        == Loop(cap, dev, reg, data, ack, e + 1, Pending(dev, RegisterAt(reg, e), Clip(data[e..e + 1], cap - 2)),
                sent + [Txn(dev, RegisterAt(reg, s), Clip(data[s..e], cap - 2), true)])
  {
    var w := cap - 2;
    var e := SegmentEnd(s, |data|);
    WriteClips(dev, RegisterAt(reg, s), data[s..i], data[i], cap);
    assert data[s..i] + [data[i]] == data[s..e];
    WriteClips(dev, RegisterAt(reg, e), [], data[e], cap);
    assert [] + [data[e]] == data[e..e + 1];
    assert Open(dev, RegisterAt(reg, e)) == Pending(dev, RegisterAt(reg, e), Clip([], w));
    assert RegisterAt(reg, i + 1) == RegisterAt(reg, e);
  }

  /** The break step of `LoopFollowsSegments`: closing a segment and restarting at the next one. */
  lemma {:induction false} LoopBreaks(cap: Capacity, dev: nat, reg: u16, data: seq<byte>, ack: nat -> byte,
                                      s: nat, i: nat, sent: seq<Txn>)
    requires cap >= 3
    requires s == 0 || s % SegmentLength == 1
    requires s <= i < |data| && i == SegmentEnd(s, |data|) - 1 && SegmentEnd(s, |data|) < |data|
    requires BreaksAfter(i, |data|)
    ensures var segs := Segments(dev, reg, data, s);
      Loop(cap, dev, reg, data, ack, i, Pending(dev, RegisterAt(reg, s), Clip(data[s..i], cap - 2)), sent)
        == Returned(sent + Clipped(segs, cap - 2), ack(|sent| + |segs| - 1))
    decreases |data| - i, 0
  {
    var n := |data|;
    var w := cap - 2;
    var e := SegmentEnd(s, n);
    BreakStep(cap, dev, reg, data, ack, s, i, sent);
    var head := Txn(dev, RegisterAt(reg, s), data[s..e], true);
    var clippedHead := Txn(dev, RegisterAt(reg, s), Clip(data[s..e], w), true);
    var sent' := sent + [clippedHead];
    var rest := Segments(dev, reg, data, e);
    var segs := Segments(dev, reg, data, s);
    assert segs == [head] + rest;
    assert segs[1..] == rest;
    assert Clipped(segs, w) == [clippedHead] + Clipped(rest, w);
    BreakAtSegmentEnd(s, i, n);
    assert e + 1 <= SegmentEnd(e, n);
    LoopFollowsSegments(cap, dev, reg, data, ack, e, e + 1, sent');
    assert sent' + Clipped(rest, w) == sent + Clipped(segs, w);
  }

  /**
   * On any buffer with room for one data byte, `WrMulti` sends the
   * reference segments, each cut to the `cap - 2` bytes the buffer holds,
   * and returns the status of the last one.
   */
  lemma WrMultiClipped(cap: Capacity, address: u16, reg: u16, data: seq<byte>, ack: nat -> byte)
    requires cap >= 3
    ensures var segs := Segments(DeviceAddress(address), reg, data, 0);
      WrMulti(cap, address, reg, data, ack) == Returned(Clipped(segs, cap - 2), ack(|segs| - 1))
  {
    var dev := DeviceAddress(address);
    assert data[0..0] == [];
    assert Clip([], cap - 2) == [];
    LoopFollowsSegments(cap, dev, reg, data, ack, 0, 0, []);
  }

  /** Cutting payloads that already fit changes nothing. */
  lemma {:induction false} ClippedFits(segs: seq<Txn>, w: nat)
    requires forall k :: 0 <= k < |segs| ==> |segs[k].payload| <= w
    ensures Clipped(segs, w) == segs
    decreases |segs|
  {
    if |segs| > 0 {
      ClippedFits(segs[1..], w);
      assert segs == [segs[0]] + segs[1..];
    }
  }

  /**
   * With a transmit buffer of at least 19 bytes (2 index bytes + 17 data
   * bytes), `WrMulti` sends exactly the reference segments and returns the
   * status of the last one.
   */
  lemma WrMultiSegments(cap: Capacity, address: u16, reg: u16, data: seq<byte>, ack: nat -> byte)
    requires cap >= 2 + FirstSegmentLength
    ensures var segs := Segments(DeviceAddress(address), reg, data, 0);
      WrMulti(cap, address, reg, data, ack) == Returned(segs, ack(|segs| - 1))
  {
    var dev := DeviceAddress(address);
    var segs := Segments(dev, reg, data, 0);
    WrMultiClipped(cap, address, reg, data, ack);
    SegmentsShape(dev, reg, data);
    ClippedFits(segs, cap - 2);
  }

  /** Cutting payloads never adds bytes, and loses some when the first payload does not fit. */
  lemma {:induction false} ClippedLoses(segs: seq<Txn>, w: nat)
    ensures |Flatten(Clipped(segs, w))| <= |Flatten(segs)|
    ensures |segs| > 0 && |segs[0].payload| > w ==> |Flatten(Clipped(segs, w))| < |Flatten(segs)|
    decreases |segs|
  {
    if |segs| > 0 {
      ClippedLoses(segs[1..], w);
      var c := Clipped(segs, w);
      assert c[1..] == Clipped(segs[1..], w);
      assert segs[1..] == segs[1..];
    }
  }

  /**
   * Below 19 bytes the loss is silent: the write still returns the last
   * status, but the first segment keeps only the `cap - 2` bytes that fit
   * and fewer bytes than were given reach the device.
   */
  lemma WrMultiDropsBytes(cap: Capacity, address: u16, reg: u16, data: seq<byte>, ack: nat -> byte)
    requires 3 <= cap < 2 + FirstSegmentLength && |data| > cap - 2
    ensures var r := WrMulti(cap, address, reg, data, ack);
      && r.Returned?
      && r.trace[0].payload == data[..cap - 2]
      && |Flatten(r.trace)| < |data|
  {
    var dev := DeviceAddress(address);
    var segs := Segments(dev, reg, data, 0);
    WrMultiClipped(cap, address, reg, data, ack);
    SegmentsShape(dev, reg, data);
    SegmentsFraming(dev, reg, data, 0);
    assert data[0..] == data;
    ClippedLoses(segs, cap - 2);
    assert Clipped(segs, cap - 2)[0].payload == Clip(segs[0].payload, cap - 2);
  }

  /**
   * With a buffer of at least 19 bytes every input byte is sent exactly
   * once and in order, every segment is addressed at the register of its
   * first byte, and the device ends up with the same registers as after
   * one unsegmented write.
   */
  lemma WrMultiDelivers(cap: Capacity, address: u16, reg: u16, data: seq<byte>, ack: nat -> byte, mem: Memory)
    requires cap >= 2 + FirstSegmentLength
    ensures var r := WrMulti(cap, address, reg, data, ack);
      && r.Returned?
      && WellFramed(DeviceAddress(address), reg, data, r.trace)
      && Deliver(mem, r.trace) == Store(mem, reg, data)
  {
    var dev := DeviceAddress(address);
    WrMultiSegments(cap, address, reg, data, ack);
    SegmentsShape(dev, reg, data);
    WellFramedDelivers(mem, dev, reg, data, Segments(dev, reg, data, 0));
  }

  /**
   * `VL53L1CX_WriteMulti`, written as the source writes it: a `for` loop
   * whose body advances `i` a second time after a break. It produces the
   * same outcome as `WrMulti` of src/vendor/platform.cpp on every input.
   */
  method WriteMulti(cap: Capacity, address: u16, rgstr: u16, data: seq<byte>, ack: nat -> byte)
    returns (r: WriteOutcome)
    ensures r == WrMulti(cap, address, rgstr, data, ack)
  {
    var dev := DeviceAddress(address);
    var open := Open(dev, rgstr);
    var sent: seq<Txn> := [];
    var i := 0;
    while i < |data|
      invariant i <= |data| && open.dev == dev
      invariant Loop(cap, dev, rgstr, data, ack, i, open, sent) == WrMulti(cap, address, rgstr, data, ack)
      decreases |data| - i
    {
      ghost var i0, open0 := i, open;
      open := Write(open, data[i], cap);
      if 0 < i && i < |data| - 1 && i % 16 == 0 {
        sent := sent + [Close(open, true)];
        i := i + 1;
        open := Open(dev, RegisterAt(rgstr, i));
        if !Accepts(open, cap) {
          r := Halted(sent);
          return;
        }
        open := Write(open, data[i], cap);
      }
      i := i + 1;
    }
    r := Returned(sent + [Close(open, true)], ack(|sent|));
  }
}
