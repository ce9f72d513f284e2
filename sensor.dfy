/**
 * `UartUpliftSensor` (esphome/uplift_uart.h): the `static` locals of
 * `startcode` and `loop` become the fields of one object, the UART's
 * pending bytes become the sequence `avail`, and `publish_state` becomes
 * the sequence of raw values a call returns (the sink divides by 10).
 * In the source the `static` locals are shared by all instances; each
 * object here has its own, which is the same for a single sensor.
 */
module UpliftUart {
  import opened UpliftProtocol
  import UpliftProperties

  class UartUpliftSensor {
    var lastCh: int
    var mode: bool
    var firstByte: bool
    var rawData: int
    var previousRawData: int

    /** The fields as a protocol state. */
    function State(): Decoder
      reads this
    {
      Decoder(lastCh, mode, firstByte, rawData, previousRawData)
    }

    ghost predicate Valid()
      reads this
    {
      UpliftProtocol.Valid(State())
    }

    /** The initial values of the `static` locals. */
    constructor ()
      ensures Valid() && State() == Init()
    {
      lastCh, mode, firstByte, rawData, previousRawData := 0, false, true, 0, 0;
    }

    /** The two-byte start-marker detector with its one-byte lookback. */
    method StartCode(readCh: Byte) returns (found: bool)
      modifies this`lastCh
      ensures found <==> readCh == 1 && old(lastCh) == 1
      ensures lastCh == if found then 0 else readCh
      ensures (found, lastCh) == UpliftProtocol.StartCode(old(lastCh), readCh)
    {
      if readCh == 1 && lastCh == 1 {
        lastCh := 0;
        return true;
      } else {
        lastCh := readCh;
      }
      return false;
    }

    /**
     * One call of `loop` with the bytes `avail` waiting at the UART: seek a
     * marker, then read frame bytes until the frame ends or the bytes run
     * out.  It reads the first `consumed` bytes, exactly as if they were
     * received one by one.
     */
    method Loop(avail: seq<Byte>) returns (consumed: nat, published: seq<int>)
      requires Valid()
      modifies this
      ensures Valid()
      ensures consumed == LoopReads(old(State()), avail)
      ensures State() == Run(old(State()), avail[..consumed]).next
      ensures published == Run(old(State()), avail[..consumed]).published
    {
      ghost var start := State();
      consumed := 0;
      published := [];
      // wait for the start code to be detected
      while !mode && consumed < |avail|
        invariant Valid()
        invariant consumed <= |avail|
        invariant consumed + LoopReads(State(), avail[consumed..]) == LoopReads(start, avail)
        invariant State() == Run(start, avail[..consumed]).next
        invariant published == Run(start, avail[..consumed]).published == []
      {
        UpliftProperties.RunExtend(start, avail, consumed);
        assert avail[consumed..][1..] == avail[consumed + 1..];
        SeekByte(avail[consumed]);
        consumed := consumed + 1;
      }
      // get the actual data
      while mode && consumed < |avail|
        invariant Valid()
        invariant consumed <= |avail|
        invariant mode ==> consumed + LoopReads(State(), avail[consumed..]) == LoopReads(start, avail)
        invariant !mode ==> consumed == LoopReads(start, avail)
        invariant State() == Run(start, avail[..consumed]).next
        invariant published == Run(start, avail[..consumed]).published
      {
        UpliftProperties.RunExtend(start, avail, consumed);
        assert avail[consumed..][1..] == avail[consumed + 1..];
        var out := FrameByte(avail[consumed]);
        published := published + out;
        consumed := consumed + 1;
      }
    }

    /** One pass of the seeking loop of `loop`. */
    method SeekByte(b: Byte)
      requires Valid() && !mode
      modifies this
      ensures Valid()
      ensures State() == Step(old(State()), b).next
    {
      mode := StartCode(b);
      firstByte := true;
    }

    /**
     * One pass of the frame loop of `loop`: byte `b` is the high byte or
     * the low byte of the frame, as `firstByte` says.
     */
    method FrameByte(b: Byte) returns (out: seq<int>)
      requires Valid() && mode
      modifies this
      ensures Valid()
      ensures State() == Step(old(State()), b).next
      ensures out == Step(old(State()), b).published
    {
      out := [];
      if firstByte {
        rawData := ToU16(256 * (b as int));
        firstByte := false;
        if rawData > 256 {
          // data is being interpreted out of sequence: restart the process
          mode := false;
        }
      } else {
        rawData := ToU16(rawData + (b as int));
        mode := false;
        if previousRawData != rawData {
          out := [rawData];
          previousRawData := rawData;
        }
      }
    }

    /**
     * `loop` called until the UART has no byte left: whatever the calls
     * read, the sensor ends where receiving all of `avail` at once leads,
     * having published the same values.
     */
    method Drain(avail: seq<Byte>) returns (published: seq<int>)
      requires Valid()
      modifies this
      ensures Valid()
      ensures State() == Run(old(State()), avail).next
      ensures published == Run(old(State()), avail).published
    {
      ghost var start := State();
      var done := 0;
      published := [];
      while done < |avail|
        invariant Valid()
        invariant done <= |avail|
        invariant State() == Run(start, avail[..done]).next
        invariant published == Run(start, avail[..done]).published
        decreases |avail| - done
      {
        ghost var before := Run(start, avail[..done]);
        var consumed, out := Loop(avail[done..]);
        ghost var call := Run(before.next, avail[done..][..consumed]);
        assert State() == call.next && out == call.published;
        UpliftProperties.RunSplit(start, avail, done, consumed);
        published := published + out;
        done := done + consumed;
        assert Run(start, avail[..done]) == Decoded(call.next, before.published + out);
        assert State() == Run(start, avail[..done]).next;
        assert published == Run(start, avail[..done]).published;
      }
      assert avail[..done] == avail;
    }
  }
}
