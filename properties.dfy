/**
 * What the decoder promises about whole byte streams: splitting a stream
 * does not matter, published values are in range and never repeat the
 * previous one, a frame costs four bytes, well-formed frames decode to
 * their deduplicated payloads, and a spurious marker is recovered from.
 */
module UpliftProperties {
  import opened UpliftProtocol

  /** Receiving one more byte `x` after `s`. */
  lemma RunSnoc(d: Decoder, s: seq<Byte>, x: Byte)
    ensures Run(d, s + [x]) ==
      Decoded(Step(Run(d, s).next, x).next, Run(d, s).published + Step(Run(d, s).next, x).published)
  {
    assert (s + [x])[..|s|] == s;
  }

  /** One more byte `x` after `s` ends one more frame exactly when it ends a frame. */
  lemma FramesEndedSnoc(d: Decoder, s: seq<Byte>, x: Byte)
    ensures FramesEnded(d, s + [x]) ==
      FramesEnded(d, s) + if EndsFrame(Run(d, s).next, x) then 1 else 0
  {
    assert (s + [x])[..|s|] == s;
  }

  /** Receiving the two bytes `x` and `y`. */
  lemma RunPair(d: Decoder, x: Byte, y: Byte)
    ensures Run(d, [x, y]) ==
      Decoded(Step(Step(d, x).next, y).next, Step(d, x).published + Step(Step(d, x).next, y).published)
  {
    RunSnoc(d, [], x);
    assert [] + [x] == [x];
    RunSnoc(d, [x], y);
    assert [x] + [y] == [x, y];
  }

  /** Receiving byte `i` of `s` after the bytes before it. */
  lemma RunExtend(d: Decoder, s: seq<Byte>, i: nat)
    requires i < |s|
    ensures Run(d, s[..i + 1]).next == Step(Run(d, s[..i]).next, s[i]).next
    ensures Run(d, s[..i + 1]).published == Run(d, s[..i]).published + Step(Run(d, s[..i]).next, s[i]).published
    ensures FramesEnded(d, s[..i + 1]) ==
      FramesEnded(d, s[..i]) + if EndsFrame(Run(d, s[..i]).next, s[i]) then 1 else 0
  {
    assert s[..i + 1] == s[..i] + [s[i]];
    RunSnoc(d, s[..i], s[i]);
    FramesEndedSnoc(d, s[..i], s[i]);
  }

  /** Receiving `a` and then `b` is receiving `a + b`: how the bytes are split across calls does not matter. */
  lemma {:induction false} RunAppend(d: Decoder, a: seq<Byte>, b: seq<Byte>)
    ensures Run(d, a + b).next == Run(Run(d, a).next, b).next
    ensures Run(d, a + b).published == Run(d, a).published + Run(Run(d, a).next, b).published
    decreases |b|
  {
    if b == [] {
      assert a + b == a;
    } else {
      var b', x := b[..|b| - 1], b[|b| - 1];
      assert a + b == (a + b') + [x];
      assert b == b' + [x];
      RunAppend(d, a, b');
      RunSnoc(d, a + b', x);
      RunSnoc(Run(d, a).next, b', x);
      var first, middle := Run(d, a).published, Run(Run(d, a).next, b').published;
      var last := Step(Run(d, a + b').next, x).published;
      assert (first + middle) + last == first + (middle + last);
    }
  }

  /** `RunAppend` for the `n` bytes after the first `i` bytes of `s`, as consecutive calls see them. */
  lemma RunSplit(d: Decoder, s: seq<Byte>, i: nat, n: nat)
    requires i + n <= |s|
    ensures Run(d, s[..i + n]).next == Run(Run(d, s[..i]).next, s[i..][..n]).next
    ensures Run(d, s[..i + n]).published ==
      Run(d, s[..i]).published + Run(Run(d, s[..i]).next, s[i..][..n]).published
  {
    assert s[..i] + s[i..][..n] == s[..i + n];
    RunAppend(d, s[..i], s[i..][..n]);
  }

  /** Frames ended by `a + b` are those ended by `a` and then by `b`. */
  lemma {:induction false} FramesEndedAppend(d: Decoder, a: seq<Byte>, b: seq<Byte>)
    ensures FramesEnded(d, a + b) == FramesEnded(d, a) + FramesEnded(Run(d, a).next, b)
    decreases |b|
  {
    if b == [] {
      assert a + b == a;
    } else {
      var b', x := b[..|b| - 1], b[|b| - 1];
      assert a + b == (a + b') + [x];
      assert b == b' + [x];
      FramesEndedAppend(d, a, b');
      RunAppend(d, a, b');
      FramesEndedSnoc(d, a + b', x);
      FramesEndedSnoc(Run(d, a).next, b', x);
    }
  }

  /** Every published raw value lies in 0..511: the high byte is at most 1 and the low byte at most 255. */
  lemma {:induction false} PublishedInRange(d: Decoder, s: seq<Byte>)
    requires Valid(d)
    ensures forall i :: 0 <= i < |Run(d, s).published| ==> 0 <= Run(d, s).published[i] <= 511
    decreases |s|
  {
    if s != [] {
      var s', x := s[..|s| - 1], s[|s| - 1];
      assert s == s' + [x];
      PublishedInRange(d, s');
      RunSnoc(d, s', x);
    }
  }

  /** The published values, one after another, each differ from the one published before (or, for the first, from `prev`). */
  ghost predicate Deduplicated(prev: int, out: seq<int>)
  {
    && (out != [] ==> out[0] != prev)
    && forall i :: 0 < i < |out| ==> out[i] != out[i - 1]
  }

  /** Appending at most one value, which differs from the last one, keeps a sequence deduplicated. */
  lemma DeduplicatedAppend(prev: int, out: seq<int>, more: seq<int>)
    requires Deduplicated(prev, out) && |more| <= 1
    requires more != [] ==> more[0] != (if out == [] then prev else out[|out| - 1])
    ensures Deduplicated(prev, out + more)
  {
    var out' := out + more;
    forall i | 0 < i < |out'|
      ensures out'[i] != out'[i - 1]
    {
      if i < |out| {
        assert out'[i] == out[i] && out'[i - 1] == out[i - 1];
      }
    }
  }

  /** `previousRawData` is always the value published last. */
  lemma {:induction false} RunRemembersLast(d: Decoder, s: seq<Byte>)
    ensures Run(d, s).next.previousRawData ==
      (if Run(d, s).published == [] then d.previousRawData
       else Run(d, s).published[|Run(d, s).published| - 1])
    decreases |s|
  {
    if s != [] {
      var s', x := s[..|s| - 1], s[|s| - 1];
      assert s == s' + [x];
      RunRemembersLast(d, s');
      RunSnoc(d, s', x);
    }
  }

  /**
   * No value is published twice in a row, and the first one differs from
   * the previous value the decoder started with.
   */
  lemma {:induction false} RunDeduplicates(d: Decoder, s: seq<Byte>)
    ensures Deduplicated(d.previousRawData, Run(d, s).published)
    decreases |s|
  {
    if s != [] {
      var s', x := s[..|s| - 1], s[|s| - 1];
      assert s == s' + [x];
      RunDeduplicates(d, s');
      RunRemembersLast(d, s');
      RunSnoc(d, s', x);
      DeduplicatedAppend(d.previousRawData, Run(d, s').published, Step(Run(d, s').next, x).published);
    }
  }

  /** Since `previous_raw_data` starts at 0, the sensor never publishes 0 as its first value. */
  lemma FirstPublishedNonZero(s: seq<Byte>)
    ensures Run(Init(), s).published != [] ==> Run(Init(), s).published[0] != 0
  {
    RunDeduplicates(Init(), s);
  }

  /** One more byte `x` after `s` completes one more frame exactly when it is a low byte. */
  lemma FramesCompletedSnoc(d: Decoder, s: seq<Byte>, x: Byte)
    ensures FramesCompleted(d, s + [x]) ==
      FramesCompleted(d, s) + if CompletesFrame(Run(d, s).next) then 1 else 0
  {
    assert (s + [x])[..|s|] == s;
  }

  /**
   * Every publish completes a frame, so there is at most one publish per
   * completed frame; and a completed frame is one of the frames ended.
   */
  lemma {:induction false} PublishesAtMostFramesCompleted(d: Decoder, s: seq<Byte>)
    ensures |Run(d, s).published| <= FramesCompleted(d, s) <= FramesEnded(d, s)
    decreases |s|
  {
    if s != [] {
      var s', x := s[..|s| - 1], s[|s| - 1];
      assert s == s' + [x];
      PublishesAtMostFramesCompleted(d, s');
      RunSnoc(d, s', x);
      FramesEndedSnoc(d, s', x);
      FramesCompletedSnoc(d, s', x);
    }
  }

  /**
   * A publish costs four bytes (marker, high, low), less those of the
   * current frame already received.
   */
  lemma FourBytesPerPublish(d: Decoder, s: seq<Byte>)
    requires Valid(d)
    ensures 4 * |Run(d, s).published| <= |s| + Credit(d)
  {
    FourBytesCredit(d, s);
  }

  /** `Credit` of the state reached is accounted for by the bytes received. */
  lemma {:induction false} FourBytesCredit(d: Decoder, s: seq<Byte>)
    requires Valid(d)
    ensures 4 * |Run(d, s).published| + Credit(Run(d, s).next) <= |s| + Credit(d)
    decreases |s|
  {
    if s != [] {
      var s', x := s[..|s| - 1], s[|s| - 1];
      assert s == s' + [x];
      FourBytesCredit(d, s');
      RunSnoc(d, s', x);
      var prior := Run(d, s').next;
      var step := Step(prior, x);
      assert 4 * |step.published| + Credit(step.next) <= 1 + Credit(prior);
    }
  }

  /** The first byte of the first `k` bytes, then the rest of them. */
  lemma FramesEndedTake(d: Decoder, s: seq<Byte>, k: nat)
    requires 0 < k <= |s|
    ensures FramesEnded(d, s[..k]) ==
      (if EndsFrame(d, s[0]) then 1 else 0) + FramesEnded(Step(d, s[0]).next, s[1..][..k - 1])
  {
    assert s[..k] == [s[0]] + s[1..][..k - 1];
    FramesEndedAppend(d, [s[0]], s[1..][..k - 1]);
    assert [s[0]][..0] == [];
  }

  /**
   * One call of `loop` ends at most one frame: no byte before the last one
   * it reads ends a frame, and when it leaves bytes unread, its last byte
   * ends one.
   */
  lemma {:induction false} LoopEndsOneFrame(d: Decoder, s: seq<Byte>)
    ensures FramesEnded(d, s[..LoopReads(d, s)]) <= 1
    ensures s != [] ==> FramesEnded(d, s[..LoopReads(d, s) - 1]) == 0
    ensures LoopReads(d, s) < |s| ==> FramesEnded(d, s[..LoopReads(d, s)]) == 1
    decreases |s|
  {
    if s != [] {
      var n := LoopReads(d, s);
      FramesEndedTake(d, s, n);
      if !EndsFrame(d, s[0]) {
        LoopEndsOneFrame(Step(d, s[0]).next, s[1..]);
        if 1 < n {
          FramesEndedTake(d, s, n - 1);
        }
      }
    }
  }

  /** The payload of one frame. */
  datatype Payload = Payload(high: Byte, low: Byte)

  /** The height in tenths that a payload carries. */
  function Raw(p: Payload): (r: int)
    ensures p.high <= 1 ==> 0 <= r <= 511
  {
    256 * p.high + p.low
  }

  /** A payload whose high byte passes the plausibility check. */
  predicate WellFormed(p: Payload)
  {
    p.high <= 1
  }

  /** The four bytes of a frame on the wire. */
  function Frame(p: Payload): (s: seq<Byte>)
    ensures |s| == 4 && s[0] == s[1] == 1
  {
    [1, 1, p.high, p.low]
  }

  /** Frames sent back to back. */
  function Frames(ps: seq<Payload>): (s: seq<Byte>)
    ensures |s| == 4 * |ps|
  {
    if ps == [] then [] else Frame(ps[0]) + Frames(ps[1..])
  }

  /** Raw values carried by the payloads, in order. */
  function Values(ps: seq<Payload>): (vs: seq<int>)
    ensures |vs| == |ps|
    ensures forall i :: 0 <= i < |ps| ==> vs[i] == Raw(ps[i])
  {
    if ps == [] then [] else [Raw(ps[0])] + Values(ps[1..])
  }

  /**
   * Reference behaviour of the sink: a value is passed on when it differs
   * from the one before it (the first is compared with `prev`).
   */
  function Dedup(prev: int, vs: seq<int>): (out: seq<int>)
    ensures |out| <= |vs|
    decreases |vs|
  {
    if vs == [] then []
    else (if vs[0] != prev then [vs[0]] else []) + Dedup(vs[0], vs[1..])
  }

  /** The reference sink never passes on the same value twice in a row. */
  lemma {:induction false} DedupDeduplicated(prev: int, vs: seq<int>)
    ensures Deduplicated(prev, Dedup(prev, vs))
    decreases |vs|
  {
    if vs != [] {
      DedupDeduplicated(vs[0], vs[1..]);
    }
  }

  /** Seeking, with a lookback that cannot complete a marker on its own. */
  ghost predicate Synced(d: Decoder)
  {
    Valid(d) && !d.mode && d.lastCh != 1
  }

  /** A marker after a non-1 byte enters the frame, awaiting the high byte. */
  lemma MarkerEntersFrame(d: Decoder)
    requires Synced(d)
    ensures Run(d, [1, 1]).next == d.(lastCh := 0, mode := true, firstByte := true)
    ensures Run(d, [1, 1]).published == []
  {
    RunSnoc(d, [], 1);
    assert [] + [1] == [1];
    RunSnoc(d, [1], 1);
    assert [1] + [1] == [1, 1];
  }

  /**
   * A well-formed frame received in sync is decoded: the raw value is
   * `256 * high + low`, published if it differs from the previous one, and
   * the decoder is back in sync.
   */
  lemma FrameDecodes(d: Decoder, p: Payload)
    requires Synced(d) && WellFormed(p)
    ensures Run(d, Frame(p)).next ==
      d.(lastCh := 0, mode := false, firstByte := false, rawData := Raw(p), previousRawData := Raw(p))
    ensures Run(d, Frame(p)).published == if Raw(p) != d.previousRawData then [Raw(p)] else []
  {
    MarkerEntersFrame(d);
    RunSnoc(d, [1, 1], p.high);
    assert [1, 1] + [p.high] == [1, 1, p.high];
    RunSnoc(d, [1, 1, p.high], p.low);
    assert [1, 1, p.high] + [p.low] == Frame(p);
  }

  /**
   * A high byte above 1 after a marker abandons the frame without
   * publishing and without touching `previousRawData`.
   */
  lemma SpuriousMarkerDiscarded(d: Decoder, high: Byte)
    requires Synced(d) && high > 1
    ensures Run(d, [1, 1, high]).next ==
      d.(lastCh := 0, mode := false, firstByte := false, rawData := 256 * high)
    ensures Run(d, [1, 1, high]).published == []
    ensures Synced(Run(d, [1, 1, high]).next)
  {
    MarkerEntersFrame(d);
    RunSnoc(d, [1, 1], high);
    assert [1, 1] + [high] == [1, 1, high];
  }

  /**
   * Back-to-back well-formed frames received in sync publish exactly the
   * deduplicated sequence of their raw values.
   */
  lemma {:induction false} FramesDecode(d: Decoder, ps: seq<Payload>)
    requires Synced(d)
    requires forall i :: 0 <= i < |ps| ==> WellFormed(ps[i])
    ensures Synced(Run(d, Frames(ps)).next)
    ensures Run(d, Frames(ps)).published == Dedup(d.previousRawData, Values(ps))
    decreases |ps|
  {
    if ps == [] {
      assert Frames(ps) == [];
    } else {
      var first := Frame(ps[0]);
      RunAppend(d, first, Frames(ps[1..]));
      FrameDecodes(d, ps[0]);
      FramesDecode(Run(d, first).next, ps[1..]);
    }
  }

  /**
   * After a spurious marker with an implausible high byte, the decoder
   * resynchronises on the next frames and decodes them all.
   */
  lemma ResyncAfterSpuriousMarker(d: Decoder, high: Byte, ps: seq<Payload>)
    requires Synced(d) && high > 1
    requires forall i :: 0 <= i < |ps| ==> WellFormed(ps[i])
    ensures Run(d, [1, 1, high] + Frames(ps)).published == Dedup(d.previousRawData, Values(ps))
  {
    RunAppend(d, [1, 1, high], Frames(ps));
    SpuriousMarkerDiscarded(d, high);
    FramesDecode(Run(d, [1, 1, high]).next, ps);
  }

  /** The same frame twice publishes at most once. */
  lemma RepeatedFramePublishesOnce(d: Decoder, p: Payload)
    requires Synced(d) && WellFormed(p)
    ensures Run(d, Frame(p) + Frame(p)).published == if Raw(p) != d.previousRawData then [Raw(p)] else []
  {
    RunAppend(d, Frame(p), Frame(p));
    FrameDecodes(d, p);
    FrameDecodes(Run(d, Frame(p)).next, p);
  }

  /** A frame with a changed value publishes again. */
  lemma ChangedFramePublishesAgain(d: Decoder, p: Payload, q: Payload)
    requires Synced(d) && WellFormed(p) && WellFormed(q)
    requires Raw(p) != d.previousRawData && Raw(q) != Raw(p)
    ensures Run(d, Frame(p) + Frame(q)).published == [Raw(p), Raw(q)]
  {
    RunAppend(d, Frame(p), Frame(q));
    FrameDecodes(d, p);
    FrameDecodes(Run(d, Frame(p)).next, q);
  }

  /**
   * A stray 1 just before a marker, received in sync, completes the marker
   * one byte early, and the marker's second 1 is read as a high byte: 256
   * passes the plausibility check.
   */
  lemma StrayOneTakesMarkerAsHigh(d: Decoder)
    requires Synced(d)
    ensures Run(d, [1, 1, 1]).next ==
      d.(lastCh := 0, mode := true, firstByte := false, rawData := 256)
    ensures Run(d, [1, 1, 1]).published == []
  {
    MarkerEntersFrame(d);
    RunSnoc(d, [1, 1], 1);
    assert [1, 1] + [1] == [1, 1, 1];
  }

  /**
   * So a stray 1 before a frame received in sync makes the payload's high
   * byte the low byte, and the payload's low byte is taken while seeking
   * again: the decoder publishes `256 + high` (when new) instead of the
   * frame's value.
   */
  lemma StrayOneMisreadsFrame(d: Decoder, p: Payload)
    requires Synced(d)
    ensures Run(d, [1] + Frame(p)).published ==
      if 256 + p.high != d.previousRawData then [256 + p.high] else []
  {
    StrayOneTakesMarkerAsHigh(d);
    var taken := d.(lastCh := 0, mode := true, firstByte := false, rawData := 256);
    assert [1, 1, 1] + [p.high, p.low] == [1] + Frame(p);
    RunAppend(d, [1, 1, 1], [p.high, p.low]);
    RunPair(taken, p.high, p.low);
    var low := Step(taken, p.high);
    assert ToU16(256 + p.high) == 256 + p.high;
    assert low.published == if 256 + p.high != d.previousRawData then [256 + p.high] else [];
    assert !low.next.mode && Step(low.next, p.low).published == [];
  }

  /** From power-up, `1, 1, 1, 0, 150` publishes 256 (25.6), not 150. */
  lemma StrayOneAtPowerUp(p: Payload)
    ensures Run(Init(), [1] + Frame(p)).published == [256 + p.high]
  {
    StrayOneMisreadsFrame(Init(), p);
  }

  /**
   * From power-up, a leading noise byte (anything but 1, which would start a
   * marker) followed by well-formed frames publishes their deduplicated raw
   * values, a leading 0 excepted.
   */
  lemma {:induction false} NoiseThenFramesDecode(noise: Byte, ps: seq<Payload>)
    requires noise != 1
    requires forall i :: 0 <= i < |ps| ==> WellFormed(ps[i])
    ensures Run(Init(), [noise] + Frames(ps)).published == Dedup(0, Values(ps))
  {
    RunAppend(Init(), [noise], Frames(ps));
    RunSnoc(Init(), [], noise);
    assert [] + [noise] == [noise];
    FramesDecode(Run(Init(), [noise]).next, ps);
  }

  /**
   * A leading noise byte, two identical frames of 150 and a frame of 151:
   * the sensor publishes 150 and 151 (15.0 and 15.1 after scaling).
   */
  lemma NoisyStreamExample(noise: Byte)
    requires noise != 1
    ensures Run(Init(), [noise, 1, 1, 0, 150, 1, 1, 0, 150, 1, 1, 0, 151]).published == [150, 151]
  {
    var ps := [Payload(0, 150), Payload(0, 150), Payload(0, 151)];
    NoiseThenFramesDecode(noise, ps);
    assert [noise, 1, 1, 0, 150, 1, 1, 0, 150, 1, 1, 0, 151] == [noise] + Frames(ps);
    assert Values(ps) == [150, 150, 151];
    assert Dedup(150, [150, 151]) == [151];
  }
}
