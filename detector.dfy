/**
 * The state of the flash detector: its three tuning parameters, a bounded
 * FIFO of recent frames (`collections.deque` with a `maxlen`) and a
 * brightness cache (a dictionary), as set up by the constructor.
 */
module Detector {
  import opened Arith

  /** Constructor defaults. */
  const DefaultBufferSize: nat := 5
  const DefaultRegionSize: int := 20
  const DefaultDiffThreshold: int := 30

  /** The last `n` items of `xs` (all of them when there are fewer). This
      is what a deque with `maxlen == n` holds after receiving `xs`. */
  function Newest<T>(xs: seq<T>, n: nat): (r: seq<T>)
    ensures |r| == Min(|xs|, n)
    ensures forall i :: 0 <= i < |r| ==> r[i] == xs[|xs| - |r| + i]
  {
    xs[|xs| - Min(|xs|, n)..]
  }

  /** `deque.append(x)` on a deque holding `items` with bound `maxlen`: the
      item goes at the right end; a full deque first drops its leftmost
      (oldest) item; a deque with `maxlen == 0` stays empty. */
  function DequeAppend<T>(items: seq<T>, x: T, maxlen: nat): (r: seq<T>)
    requires |items| <= maxlen
    ensures |r| <= maxlen
    ensures maxlen == 0 ==> r == []
    ensures |items| < maxlen ==> r == items + [x]
    ensures 0 < maxlen == |items| ==> r == items[1..] + [x]
  {
    var all := items + [x];
    if |items| < maxlen then
      assert Newest(all, maxlen) == all;
      Newest(all, maxlen)
    else
      assert maxlen > 0 ==> all[1..] == items[1..] + [x];
      Newest(all, maxlen)
  }

  /** Appending to a deque that already holds the newest items of a history
      gives the newest items of the extended history. */
  lemma NewestAppend<T>(history: seq<T>, x: T, n: nat)
    ensures DequeAppend(Newest(history, n), x, n) == Newest(history + [x], n)
  {
    var before := Newest(history, n);
    var after := DequeAppend(before, x, n);
    var expected := Newest(history + [x], n);
    assert |after| == |expected|;
    forall i | 0 <= i < |after|
      ensures after[i] == expected[i]
    {
      if |before| < n {
        assert after == before + [x];
      } else if n > 0 {
        assert after == before[1..] + [x];
      }
    }
  }

  /** The buffer after appending every item of `xs` in order. */
  function AppendAll<T>(items: seq<T>, xs: seq<T>, maxlen: nat): (r: seq<T>)
    requires |items| <= maxlen
    ensures |r| <= maxlen
    decreases |xs|
  {
    if xs == [] then items
    else AppendAll(DequeAppend(items, xs[0], maxlen), xs[1..], maxlen)
  }

  /** Any run of appends keeps exactly the newest `maxlen` items of
      everything received, in arrival order. */
  lemma {:induction false} AppendAllKeepsNewest<T>(history: seq<T>, xs: seq<T>, maxlen: nat)
    ensures AppendAll(Newest(history, maxlen), xs, maxlen) == Newest(history + xs, maxlen)
    decreases |xs|
  {
    if xs == [] {
      assert history + xs == history;
    } else {
      NewestAppend(history, xs[0], maxlen);
      AppendAllKeepsNewest(history + [xs[0]], xs[1..], maxlen);
      assert history + [xs[0]] + xs[1..] == history + xs;
    }
  }

  /** From an empty buffer, `n` appends leave the last `min(n, maxlen)`
      items, oldest first. */
  lemma AppendAllFromEmpty<T>(xs: seq<T>, maxlen: nat)
    ensures AppendAll([], xs, maxlen) == Newest(xs, maxlen)
    ensures |AppendAll([], xs, maxlen)| == Min(|xs|, maxlen)
  {
    AppendAllKeepsNewest([], xs, maxlen);
    assert [] + xs == xs;
  }

  /** A full buffer loses exactly its oldest frame and keeps the rest in
      order, the new frame last. */
  lemma FullBufferDropsOldest<T>(items: seq<T>, x: T, maxlen: nat)
    requires 0 < |items| == maxlen
    ensures |DequeAppend(items, x, maxlen)| == maxlen
    ensures DequeAppend(items, x, maxlen)[..maxlen - 1] == items[1..]
    ensures DequeAppend(items, x, maxlen)[maxlen - 1] == x
  {
  }

  /**
   * `FlashDetectorBuffer`: the parameters are fixed at construction; the
   * frame buffer and the brightness cache are updated in place. The ghost
   * `History` records every frame ever appended.
   */
  class FlashDetectorBuffer<Frame, Key(==), Entry> {
    const bufferSize: nat
    const regionSize: int
    const diffThreshold: int
    var frameBuffer: seq<Frame>
    var brightnessCache: map<Key, Entry>
    ghost var History: seq<Frame>

    /** The buffer is the newest `bufferSize` frames of the history. */
    ghost predicate Valid()
      reads this
    {
      frameBuffer == Newest(History, bufferSize)
    }

    constructor (bufferSize: nat := DefaultBufferSize, regionSize: int := DefaultRegionSize,
                 diffThreshold: int := DefaultDiffThreshold)
      ensures Valid()
      ensures this.bufferSize == bufferSize && this.regionSize == regionSize
      ensures this.diffThreshold == diffThreshold
      ensures frameBuffer == [] && brightnessCache == map[] && History == []
    {
      this.bufferSize := bufferSize;
      this.regionSize := regionSize;
      this.diffThreshold := diffThreshold;
      frameBuffer := [];
      brightnessCache := map[];
      History := [];
    }

    /** `frame_buffer.append(frame)`. */
    method AppendFrame(frame: Frame)
      requires Valid()
      modifies this
      ensures Valid()
      ensures History == old(History) + [frame]
      ensures frameBuffer == DequeAppend(old(frameBuffer), frame, bufferSize)
      ensures brightnessCache == old(brightnessCache)
    {
      NewestAppend(History, frame, bufferSize);
      frameBuffer := DequeAppend(frameBuffer, frame, bufferSize);
      History := History + [frame];
    }

    /** `len(frame_buffer)`, never more than `bufferSize`. */
    method BufferedCount() returns (n: nat)
      requires Valid()
      ensures n == |frameBuffer| && n <= bufferSize
      ensures n == Min(|History|, bufferSize)
    {
      n := |frameBuffer|;
    }
  }

  /** The detector built with the default arguments. */
  method NewDefaultDetector<Frame, Key(==), Entry>() returns (d: FlashDetectorBuffer<Frame, Key, Entry>)
    ensures fresh(d) && d.Valid()
    ensures d.bufferSize == 5 && d.regionSize == 20 && d.diffThreshold == 30
    ensures d.frameBuffer == [] && d.brightnessCache == map[]
  {
    d := new FlashDetectorBuffer();
  }
}
