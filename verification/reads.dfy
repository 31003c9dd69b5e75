/**
 * The multi-byte register read of the transport shims (`RdMulti`,
 * `VL53L1CX_ReadMulti`, `RdByte`).
 *
 * A read first sends the register index and ends that transmission with a
 * repeated START; it then asks the device for the data with `requestFrom`,
 * in requests of at most 32 bytes when more than 32 bytes are wanted, and
 * stores every byte the bus makes available at the next index of the
 * caller's buffer.
 */
module Reads {
  import opened Bus

  /** The largest `requestFrom` the chunked read issues. */
  const ChunkLimit: nat := 32

  /**
   * One `requestFrom(dev, count)`, issued when `at` bytes had already been
   * stored: the bytes it delivers land at `p_values[at..]`.
   */
  datatype Request = Request(dev: nat, count: nat, at: nat)

  /**
   * The read oracle standing in for the bus: `answer(k, n)` is what the
   * device delivers to the `k`-th `requestFrom` of the read, which asked
   * for `n` bytes.
   */
  type Answer = (nat, nat) -> seq<byte>

  /** The bus never delivers more than was requested. */
  ghost predicate Bounded(answer: Answer)
  {
    forall k, n :: |answer(k, n)| <= n
  }

  /** The bus delivers at least one byte to every non-empty request. */
  ghost predicate Progressing(answer: Answer)
  {
    forall k, n :: 0 < n ==> 0 < |answer(k, n)|
  }

  /** The bus delivers exactly what was requested. */
  ghost predicate Exact(answer: Answer)
  {
    forall k, n :: |answer(k, n)| == n
  }

  /**
   * How the data phase of a read ends:
   * - `Completed`: the shim returned `status` (`i != size`) after storing `values`;
   * - `Overrun`: the bus delivered more bytes than the buffer holds, and the
   *   shim stored past `p_values[size - 1]`;
   * - `Stalled`: the chunk loop was still waiting for bytes when the fuel
   *   ran out (on a bus that keeps delivering nothing, the source loops forever).
   */
  datatype ReadOutcome =
    | Completed(requests: seq<Request>, values: seq<byte>, status: byte)
    | Overrun(requests: seq<Request>, values: seq<byte>)
    | Stalled(requests: seq<Request>, values: seq<byte>)

  /** A whole read: the address-phase transaction, then the data phase. */
  datatype Read = Read(address: Txn, outcome: ReadOutcome)

  /** `size - i > 32 ? 32 : size - i`: the size of the next chunk request. */
  function NextChunk(size: nat, i: nat): (n: nat)
    requires i < size
    ensures 1 <= n <= ChunkLimit && n <= size - i
    ensures n == ChunkLimit || n == size - i
  {
    if size - i > ChunkLimit then ChunkLimit else size - i
  }

  /** The bytes the bus delivered to `reqs`, reply after reply, in request order. */
  function Received(answer: Answer, reqs: seq<Request>): seq<byte>
  {
    if |reqs| == 0 then []
    else Received(answer, reqs[..|reqs| - 1]) + answer(|reqs| - 1, reqs[|reqs| - 1].count)
  }

  /**
   * What lands in `p_values`: exactly the delivered bytes in order, and
   * every request from `from` on issued when the replies to the earlier
   * requests had been stored.
   */
  ghost predicate StoredInOrder(answer: Answer, reqs: seq<Request>, values: seq<byte>, from: nat)
  {
    && values == Received(answer, reqs)
    && forall k :: from <= k < |reqs| ==> reqs[k].at == |Received(answer, reqs[..k])|
  }

  /** Every request is the chunk size the loop computes from the store index it was issued at. */
  ghost predicate ChunkRequests(dev: nat, size: nat, reqs: seq<Request>, from: nat)
  {
    forall k :: from <= k < |reqs| ==>
      reqs[k].dev == dev && reqs[k].at < size && reqs[k].count == NextChunk(size, reqs[k].at)
  }

  /**
   * The `while (i < size)` chunk loop, with `reqs` the requests issued and
   * `got` the bytes stored so far (`i == |got|`). `fuel` bounds the number
   * of further requests.
   */
  function ChunkLoop(dev: nat, size: nat, answer: Answer, fuel: nat, reqs: seq<Request>, got: seq<byte>)
    : (r: ReadOutcome)
    requires |got| <= size
    decreases fuel
    ensures |r.requests| >= |reqs| && r.requests[..|reqs|] == reqs
    ensures ChunkRequests(dev, size, r.requests, |reqs|)
    ensures |r.values| >= |got| && r.values[..|got|] == got
    ensures r.Completed? ==> |r.values| == size && r.status == 0
    ensures r.Stalled? ==> |r.values| < size
    ensures r.Overrun? ==> |r.values| > size
    ensures Bounded(answer) ==> !r.Overrun?
  {
    if |got| == size then Completed(reqs, got, 0)
    else if fuel == 0 then Stalled(reqs, got)
    else
      var n := NextChunk(size, |got|);
      var reqs' := reqs + [Request(dev, n, |got|)];
      var got' := got + answer(|reqs|, n);
      if |got'| > size then Overrun(reqs', got')
      else ChunkLoop(dev, size, answer, fuel - 1, reqs', got')
  }

  /**
   * The chunk loop stores exactly the bytes the bus delivered, reply after
   * reply, and issues each request at the store index the earlier replies
   * have reached.
   */
  lemma {:induction false} ChunkLoopStores(dev: nat, size: nat, answer: Answer, fuel: nat, reqs: seq<Request>, got: seq<byte>)
    requires |got| <= size
    requires got == Received(answer, reqs)
    ensures var r := ChunkLoop(dev, size, answer, fuel, reqs, got);
      StoredInOrder(answer, r.requests, r.values, |reqs|)
    decreases fuel
  {
    if |got| < size && fuel > 0 {
      var n := NextChunk(size, |got|);
      var reqs' := reqs + [Request(dev, n, |got|)];
      var got' := got + answer(|reqs|, n);
      assert reqs'[..|reqs|] == reqs;
      assert got' == Received(answer, reqs');
      if |got'| <= size {
        ChunkLoopStores(dev, size, answer, fuel - 1, reqs', got');
        var r := ChunkLoop(dev, size, answer, fuel - 1, reqs', got');
        assert r.requests[..|reqs'|] == reqs';
        assert r.requests[..|reqs|] == reqs;
      }
    }
  }

  /**
   * `RdMulti`: the address phase (modelled as one transmission that the
   * device acknowledges), then either the chunk loop when `size > 32` or a
   * single `requestFrom(dev, size)`. The returned status is `i != size`.
   */
  function RdMulti(address: u16, reg: u16, size: nat, answer: Answer, fuel: nat): (r: Read)
    ensures r.address == Txn(DeviceAddress(address), reg, [], false)
    ensures forall k :: 0 <= k < |r.outcome.requests| ==> r.outcome.requests[k].dev == DeviceAddress(address)
    ensures size <= ChunkLimit ==> r.outcome.requests == [Request(DeviceAddress(address), size, 0)]
    ensures size > ChunkLimit ==> ChunkRequests(DeviceAddress(address), size, r.outcome.requests, 0)
    ensures r.outcome.Completed? ==> (r.outcome.status == 0 <==> |r.outcome.values| == size)
    ensures r.outcome.Overrun? <==> |r.outcome.values| > size
    ensures r.outcome.Stalled? ==> size > ChunkLimit && |r.outcome.values| < size
    ensures Bounded(answer) ==> !r.outcome.Overrun?
    ensures size <= ChunkLimit ==> r.outcome.values == answer(0, size)
    ensures StoredInOrder(answer, r.outcome.requests, r.outcome.values, 0)
  {
    var dev := DeviceAddress(address);
    var phase := Txn(dev, reg, [], false);
    if size > ChunkLimit then
      ChunkLoopStores(dev, size, answer, fuel, [], []);
      Read(phase, ChunkLoop(dev, size, answer, fuel, [], []))
    else
      var got := answer(0, size);
      var reqs := [Request(dev, size, 0)];
      assert reqs[..0] == [];
      if |got| > size then Read(phase, Overrun(reqs, got))
      else Read(phase, Completed(reqs, got, if |got| == size then 0 else 1))
  }

  /**
   * On a bus that delivers at most what is asked and at least one byte per
   * request, the chunk loop fills the whole buffer within `size` requests.
   */
  lemma {:induction false} ChunkLoopCompletes(dev: nat, size: nat, answer: Answer, fuel: nat, reqs: seq<Request>, got: seq<byte>)
    requires |got| <= size
    requires Bounded(answer) && Progressing(answer)
    requires fuel >= size - |got|
    ensures ChunkLoop(dev, size, answer, fuel, reqs, got).Completed?
    decreases fuel
  {
    if |got| < size {
      var n := NextChunk(size, |got|);
      var reply := answer(|reqs|, n);
      assert 0 < |reply| <= n;
      ChunkLoopCompletes(dev, size, answer, fuel - 1, reqs + [Request(dev, n, |got|)], got + reply);
    }
  }

  /**
   * With a well-behaved bus and enough fuel, `RdMulti` of more than 32
   * bytes stores exactly `size` bytes, all inside `p_values[0..size)`, and
   * returns 0.
   */
  lemma ChunkedReadSucceeds(address: u16, reg: u16, size: nat, answer: Answer, fuel: nat)
    requires size > ChunkLimit
    requires Bounded(answer) && Progressing(answer)
    requires fuel >= size
    ensures var o := RdMulti(address, reg, size, answer, fuel).outcome;
      o.Completed? && |o.values| == size && o.status == 0
  {
    ChunkLoopCompletes(DeviceAddress(address), size, answer, fuel, [], []);
  }

  /**
   * When the bus delivers exactly what is asked, the chunk loop issues its
   * requests at store offsets 0, 32, 64, …, one per started block of 32
   * bytes, and every request but the last asks for 32 bytes.
   */
  lemma {:induction false} ExactChunkLoop(dev: nat, size: nat, answer: Answer, fuel: nat, reqs: seq<Request>, got: seq<byte>)
    requires Exact(answer)
    requires |got| == ChunkLimit * |reqs| <= size
    requires fuel * ChunkLimit >= size - |got|
    ensures var r := ChunkLoop(dev, size, answer, fuel, reqs, got);
      && r.Completed?
      && |r.requests| == (size + ChunkLimit - 1) / ChunkLimit
      && (forall k :: |reqs| <= k < |r.requests| ==> r.requests[k].at == ChunkLimit * k)
      && (forall k :: |reqs| <= k < |r.requests| - 1 ==> r.requests[k].count == ChunkLimit)
    decreases fuel
  {
    var r := ChunkLoop(dev, size, answer, fuel, reqs, got);
    if |got| == size {
      assert r.requests == reqs;
      DivMod(|reqs|, ChunkLimit - 1, ChunkLimit);
    } else {
      var n := NextChunk(size, |got|);
      var reqs' := reqs + [Request(dev, n, |got|)];
      var got' := got + answer(|reqs|, n);
      assert |got'| == |got| + n;
      if n == ChunkLimit {
        ExactChunkLoop(dev, size, answer, fuel - 1, reqs', got');
        assert r == ChunkLoop(dev, size, answer, fuel - 1, reqs', got');
        assert r.requests[|reqs|] == reqs'[|reqs|];
      } else {
        assert |got'| == size;
        assert ChunkLoop(dev, size, answer, fuel - 1, reqs', got') == Completed(reqs', got', 0);
        assert r == Completed(reqs', got', 0);
        DivMod(|reqs| + 1, n - 1, ChunkLimit);
        assert size + ChunkLimit - 1 == (|reqs| + 1) * ChunkLimit + (n - 1);
      }
    }
  }

  /**
   * `RdByte` is `RdMulti` of one byte: one request for one byte; it returns
   * 0 with that byte when the bus delivers exactly one, 1 when it delivers
   * none.
   */
  function RdByte(address: u16, reg: u16, answer: Answer): (r: Read)
    ensures r.address == Txn(DeviceAddress(address), reg, [], false)
    ensures r.outcome.requests == [Request(DeviceAddress(address), 1, 0)]
    ensures |answer(0, 1)| == 1 ==> r.outcome == Completed(r.outcome.requests, answer(0, 1), 0)
    ensures |answer(0, 1)| == 0 ==> r.outcome == Completed(r.outcome.requests, [], 1)
    ensures |answer(0, 1)| > 1 ==> r.outcome.Overrun?
  {
    RdMulti(address, reg, 1, answer, 0)
  }

  /**
   * The `while (i < count)` chunk loop of `VL53L1CX_ReadMulti`, written as
   * the source writes it: each request is followed by an inner
   * `while (wire->available())` loop that stores one byte at a time at
   * `data[i++]`.
   */
  method ReadChunks(dev: nat, count: nat, answer: Answer, fuel: nat) returns (outcome: ReadOutcome)
    ensures outcome == ChunkLoop(dev, count, answer, fuel, [], [])
  {
    var data: seq<byte> := [];
    var reqs: seq<Request> := [];
    var i := 0;
    var left := fuel;
    ghost var whole := ChunkLoop(dev, count, answer, fuel, [], []);
    while i < count && left > 0
      invariant i == |data|
      invariant i <= count ==> ChunkLoop(dev, count, answer, left, reqs, data) == whole
      invariant i > count ==> whole == Overrun(reqs, data)
      decreases left
    {
      var n := NextChunk(count, i);
      var reply := answer(|reqs|, n);
      ghost var before, reqsBefore := data, reqs;
      reqs := reqs + [Request(dev, n, i)];
      var j := 0;
      while j < |reply|
        invariant 0 <= j <= |reply|
        invariant data == before + reply[..j] && i == |data|
      {
        data := data + [reply[j]];
        i := i + 1;
        j := j + 1;
      }
      assert reply[..j] == reply;
      assert ChunkLoop(dev, count, answer, left, reqsBefore, before) ==
        if i > count then Overrun(reqs, data) else ChunkLoop(dev, count, answer, left - 1, reqs, data);
      left := left - 1;
    }
    outcome :=
      if i > count then Overrun(reqs, data)
      else if i == count then Completed(reqs, data, 0)
      else Stalled(reqs, data);
  }

  /**
   * `VL53L1CX_ReadMulti`, written as the source writes it: the chunk loop
   * when more than 32 bytes are wanted, otherwise one request whose bytes
   * are stored one at a time. It produces the same requests, stored bytes
   * and status as the block-level `RdMulti`.
   */
  method ReadMulti(address: u16, rgstr: u16, count: nat, answer: Answer, fuel: nat) returns (r: Read)
    ensures r == RdMulti(address, rgstr, count, answer, fuel)
  {
    var dev := DeviceAddress(address);
    var phase := Txn(dev, rgstr, [], false);
    if count > ChunkLimit {
      var outcome := ReadChunks(dev, count, answer, fuel);
      r := Read(phase, outcome);
    } else {
      var data: seq<byte> := [];
      var i := 0;
      var reply := answer(0, count);
      var reqs := [Request(dev, count, 0)];
      var j := 0;
      while j < |reply|
        invariant 0 <= j <= |reply|
        invariant data == reply[..j] && i == |data|
      {
        data := data + [reply[j]];
        i := i + 1;
        j := j + 1;
      }
      assert reply[..j] == reply;
      var outcome :=
        if i > count then Overrun(reqs, data)
        else Completed(reqs, data, if i != count then 1 else 0);
      r := Read(phase, outcome);
    }
  }
}
