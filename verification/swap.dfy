/**
 * `SwapBuffer` of src/st/platform.cpp and src/platform.cpp (the two bodies
 * are the same algorithm): each 4-byte group of the buffer is read as a
 * big-endian 32-bit word and stored back with `memcpy`, which on the
 * little-endian hosts the driver runs on lays the word out low byte first.
 *
 * `SwapInPlace` is that loop, arithmetic included. `SwapBuffer` is the
 * reference it is proved equal to: the same loop with each step stated by
 * its effect, the reversal of one 4-byte group.
 */
module Swap {
  import opened Bus

  /** `(b[0] << 24) | (b[1] << 16) | (b[2] << 8) | b[3]`: the four bytes read big-endian. */
  function PackWord(b0: byte, b1: byte, b2: byte, b3: byte): (w: nat)
    ensures w < 0x1_0000_0000
  {
    b0 * 0x100_0000 + b1 * 0x1_0000 + b2 * 0x100 + b3
  }

  /** `memcpy` of a `uint32_t` on a little-endian host: the least significant byte first. */
  function LittleEndian(w: nat): (bs: seq<byte>)
    requires w < 0x1_0000_0000
    ensures |bs| == 4
  {
    [w % 0x100, (w / 0x100) % 0x100, (w / 0x1_0000) % 0x100, w / 0x100_0000]
  }

  /** Packing big-endian and storing little-endian reverses the four bytes. */
  lemma StoreReversesWord(b0: byte, b1: byte, b2: byte, b3: byte)
    ensures LittleEndian(PackWord(b0, b1, b2, b3)) == [b3, b2, b1, b0]
  {
    DivMod(b0 * 0x1_0000 + b1 * 0x100 + b2, b3, 0x100);
    DivMod(b0 * 0x100 + b1, b2 * 0x100 + b3, 0x1_0000);
    DivMod(b0, b1 * 0x1_0000 + b2 * 0x100 + b3, 0x100_0000);
    DivMod(b0 * 0x100 + b1, b2, 0x100);
    DivMod(b0, b1, 0x100);
  }

  /**
   * The position whose byte lands at `j` when the 4-byte group holding `j`
   * is reversed: the group's first index plus the mirror of `j`'s offset.
   */
  function Mirror(j: nat): nat
  {
    j - j % 4 + (3 - j % 4)
  }

  /** Mirroring stays inside the group, and mirroring twice is the identity. */
  lemma MirrorInGroup(j: nat)
    ensures Mirror(j) / 4 == j / 4
    ensures Mirror(Mirror(j)) == j
  {
    DivMod(j / 4, 3 - j % 4, 4);
  }

  /** A group boundary `g` separates the same positions before and after mirroring. */
  lemma MirrorBounds(j: nat, g: nat)
    requires g % 4 == 0
    ensures g <= j <==> g <= Mirror(j)
  {
    DivMod(j / 4, 3 - j % 4, 4);
    DivMod(g / 4, 0, 4);
  }

  /** Every 4-byte group of `buf` reversed: the reference meaning of the swap. */
  ghost predicate GroupsReversed(buf: seq<byte>, r: seq<byte>)
  {
    && |r| == |buf|
    && forall j {:trigger r[j]} :: 0 <= j < |r| ==> Mirror(j) < |buf| && r[j] == buf[Mirror(j)]
  }

  /** One iteration of the loop, by its effect: the four bytes at `i` in reverse order. */
  function SwapWordAt(buf: seq<byte>, i: nat): (r: seq<byte>)
    requires i + 4 <= |buf|
    ensures |r| == |buf|
    ensures forall j :: 0 <= j < |buf| && (j < i || i + 4 <= j) ==> r[j] == buf[j]
  {
    buf[..i] + [buf[i + 3], buf[i + 2], buf[i + 1], buf[i]] + buf[i + 4..]
  }

  /** A group that starts inside a buffer of whole groups ends inside it, where the next group starts. */
  lemma NextGroupFits(n: nat, i: nat)
    requires n % 4 == 0 && i % 4 == 0 && i < n
    ensures i + 4 <= n && (i + 4) % 4 == 0
  {}

  /** The `for (i = …; i < size; i = i + 4)` loop from index `i` on. */
  function SwapFrom(buf: seq<byte>, i: nat): (r: seq<byte>)
    requires |buf| % 4 == 0 && i % 4 == 0 && i <= |buf|
    decreases |buf| - i
  {
    if i >= |buf| then buf
    else
      NextGroupFits(|buf|, i);
      SwapFrom(SwapWordAt(buf, i), i + 4)
  }

  /**
   * `SwapBuffer(buffer, size)` with `size == |buf|`; the source reads
   * `buffer[i + 3]` in each group, so the size must be a multiple of 4.
   */
  function SwapBuffer(buf: seq<byte>): seq<byte>
    requires |buf| % 4 == 0
  {
    SwapFrom(buf, 0)
  }

  /** One loop step reverses exactly the group at `i`. */
  lemma SwapWordAtReverses(buf: seq<byte>, i: nat)
    requires i % 4 == 0 && i + 4 <= |buf|
    ensures forall j :: i <= j < i + 4 ==> Mirror(j) < |buf| && SwapWordAt(buf, i)[j] == buf[Mirror(j)]
  {
  }

  /**
   * Loop invariant: from index `i` on, the loop reverses every group at or
   * after `i` and leaves the groups before `i` as they are.
   */
  lemma {:induction false} SwapFromReverses(buf: seq<byte>, i: nat)
    requires |buf| % 4 == 0 && i % 4 == 0 && i <= |buf|
    ensures |SwapFrom(buf, i)| == |buf|
    ensures forall j :: 0 <= j < i ==> SwapFrom(buf, i)[j] == buf[j]
    ensures forall j :: i <= j < |buf| ==> Mirror(j) < |buf| && SwapFrom(buf, i)[j] == buf[Mirror(j)]
    decreases |buf| - i
  {
    if i < |buf| {
      NextGroupFits(|buf|, i);
      var next := SwapWordAt(buf, i);
      var r := SwapFrom(buf, i);
      assert r == SwapFrom(next, i + 4);
      SwapFromReverses(next, i + 4);
      SwapWordAtReverses(buf, i);
      forall j | i + 4 <= j < |buf|
        ensures Mirror(j) < |buf| && r[j] == buf[Mirror(j)]
      {
        MirrorBounds(j, i + 4);
        MirrorBounds(j, |buf|);
      }
    }
  }

  /** The swap reverses every 4-byte group of the buffer and keeps its length. */
  lemma SwapBufferReverses(buf: seq<byte>)
    requires |buf| % 4 == 0
    ensures GroupsReversed(buf, SwapBuffer(buf))
  {
    SwapFromReverses(buf, 0);
  }

  /** Reversing the groups twice gives the buffer back. */
  lemma GroupsReversedTwice(a: seq<byte>, b: seq<byte>, c: seq<byte>)
    requires GroupsReversed(a, b) && GroupsReversed(b, c)
    ensures c == a
  {
    forall j | 0 <= j < |c|
      ensures c[j] == a[j]
    {
      MirrorInGroup(j);
    }
  }

  /**
   * `SwapBuffer` is its own inverse: swapping, reading the words, and
   * swapping again restores the calibration buffer byte for byte.
   */
  lemma SwapInvolution(buf: seq<byte>)
    requires |buf| % 4 == 0
    ensures |SwapBuffer(buf)| == |buf|
    ensures SwapBuffer(SwapBuffer(buf)) == buf
  {
    SwapBufferReverses(buf);
    var once := SwapBuffer(buf);
    SwapBufferReverses(once);
    GroupsReversedTwice(buf, once, SwapBuffer(once));
  }

  /** Two buffers that both reverse the groups of `buf` are the same buffer. */
  lemma GroupsReversedUnique(buf: seq<byte>, r1: seq<byte>, r2: seq<byte>)
    requires GroupsReversed(buf, r1) && GroupsReversed(buf, r2)
    ensures r1 == r2
  {
  }

  /**
   * The source loop: each iteration packs four bytes big-endian into a
   * 32-bit word and stores the word back with a little-endian `memcpy`.
   * It reverses every 4-byte group and so agrees with the reference.
   */
  method SwapInPlace(buf: seq<byte>) returns (r: seq<byte>)
    requires |buf| % 4 == 0
    ensures GroupsReversed(buf, r)
    ensures r == SwapBuffer(buf)
  {
    r := buf;
    var i := 0;
    while i < |buf|
      invariant i % 4 == 0 && i <= |buf| && |r| == |buf|
      invariant forall j :: 0 <= j < i ==> Mirror(j) < |buf| && r[j] == buf[Mirror(j)]
      invariant forall j :: i <= j < |buf| ==> r[j] == buf[j]
      decreases |buf| - i
    {
      NextGroupFits(|buf|, i);
      var tmp := PackWord(r[i], r[i + 1], r[i + 2], r[i + 3]);
      var next := r[..i] + LittleEndian(tmp) + r[i + 4..];
      StoreReversesWord(r[i], r[i + 1], r[i + 2], r[i + 3]);
      assert next == SwapWordAt(r, i);
      SwapWordAtReverses(r, i);
      forall j | i <= j < i + 4
        ensures Mirror(j) < |buf| && next[j] == buf[Mirror(j)]
      {
        MirrorBounds(j, i);
        MirrorBounds(j, i + 4);
      }
      r := next;
      i := i + 4;
    }
    SwapBufferReverses(buf);
    GroupsReversedUnique(buf, r, SwapBuffer(buf));
  }
}
