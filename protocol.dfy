/**
 * The wire protocol of the Uplift desk controller, as decoded by
 * `UartUpliftSensor` (esphome/uplift_uart.h), stated on values.
 *
 * A frame on the serial line is a start marker (two bytes equal to 1)
 * followed by a high and a low payload byte; the payload is the height in
 * tenths, `256 * high + low`.  The decoder keeps five persistent variables
 * (the `static` locals of the source); `Decoder` holds them, `Step` is what
 * one received byte does to them, and `Run` is a whole byte stream.
 * The class in sensor.dfy is proved against these functions.
 */
module UpliftProtocol {

  /** A value returned by the UART's `read()` once `available()` holds. */
  type Byte = b: int | 0 <= b < 256

  /** `unsigned short`, the type of `raw_data` and `previous_raw_data`. */
  const U16_MODULUS: int := 0x1_0000

  /** The implicit conversion of an `int` assigned to an `unsigned short`. */
  function ToU16(x: int): (r: int)
    ensures 0 <= r < U16_MODULUS
    ensures 0 <= x < U16_MODULUS ==> r == x
  {
    x % U16_MODULUS
  }

  /**
   * The persistent decoder state: `lastch` of `startcode`, and `mode`,
   * `first_byte`, `raw_data` and `previous_raw_data` of `loop`.
   * `mode` is false while seeking a marker and true inside a frame;
   * `firstByte` says that the next frame byte is the high byte.
   */
  datatype Decoder = Decoder(
    lastCh: int,
    mode: bool,
    firstByte: bool,
    rawData: int,
    previousRawData: int)

  /**
   * An invariant: it holds in every state reachable from `Init()` (and in
   * some others).  Inside a frame the marker has reset `lastCh`; once the
   * high byte has been accepted the accumulator holds 0 or 256; only raw
   * values of accepted frames are remembered.
   */
  ghost predicate Valid(d: Decoder)
  {
    && 0 <= d.lastCh < 256
    && 0 <= d.rawData < U16_MODULUS
    && 0 <= d.previousRawData <= 511
    && (d.mode ==> d.lastCh == 0)
    && (d.mode && !d.firstByte ==> d.rawData == 0 || d.rawData == 256)
  }

  /** The values of the `static` locals when the sensor starts. */
  function Init(): (d: Decoder)
    ensures Valid(d) && !d.mode && d.firstByte
    ensures d.previousRawData == 0
  {
    Decoder(0, false, true, 0, 0)
  }

  /** What receiving some bytes did: the new state and the raw values published. */
  datatype Decoded = Decoded(next: Decoder, published: seq<int>)

  /**
   * `startcode(readch)` on lookback `lastCh`: whether the marker is
   * complete, and the new lookback.
   */
  function StartCode(lastCh: int, readCh: Byte): (r: (bool, int))
  {
    if readCh == 1 && lastCh == 1 then (true, 0) else (false, readCh)
  }

  /**
   * One received byte: a pass of the seeking loop of `loop` when `mode` is
   * false, a pass of the frame loop otherwise.
   */
  function Step(d: Decoder, b: Byte): (r: Decoded)
    ensures Valid(d) ==> Valid(r.next)
    ensures |r.published| <= 1
    // marker detection runs only while seeking, with a one-byte lookback
    ensures !d.mode ==> (r.next.mode <==> b == 1 && d.lastCh == 1)
    ensures !d.mode ==> r.next.lastCh == (if r.next.mode then 0 else b) && r.next.firstByte
    // a high byte above 1 abandons the frame
    ensures d.mode && d.firstByte ==> (r.next.mode <==> b <= 1) && !r.next.firstByte
    // the low byte always ends the frame
    ensures d.mode && !d.firstByte ==> !r.next.mode
    // only a completed frame publishes; it publishes a new value in 0..511 and remembers it
    ensures r.published != [] ==> d.mode && !d.firstByte
    ensures r.published != [] && Valid(d) ==> 0 <= r.published[0] <= 511
    ensures r.published != [] ==>
      r.published[0] != d.previousRawData &&
      r.next.previousRawData == r.published[0]
    ensures r.published == [] ==> r.next.previousRawData == d.previousRawData
  {
    if !d.mode then
      var (found, lookback) := StartCode(d.lastCh, b);
      Decoded(d.(lastCh := lookback, mode := found, firstByte := true), [])
    else if d.firstByte then
      var raw := ToU16(256 * (b as int));
      Decoded(d.(rawData := raw, firstByte := false, mode := !(raw > 256)), [])
    else
      var raw := ToU16(d.rawData + (b as int));
      if d.previousRawData != raw then
        Decoded(d.(rawData := raw, mode := false, previousRawData := raw), [raw])
      else
        Decoded(d.(rawData := raw, mode := false), [])
  }

  /** The bytes of `s`, received one after another, in order. */
  function Run(d: Decoder, s: seq<Byte>): (r: Decoded)
    ensures Valid(d) ==> Valid(r.next)
    ensures |r.published| <= |s|
    decreases |s|
  {
    if s == [] then Decoded(d, [])
    else
      var prior := Run(d, s[..|s| - 1]);
      var last := Step(prior.next, s[|s| - 1]);
      Decoded(last.next, prior.published + last.published)
  }

  /** Byte `b` is the last byte of a frame, or the high byte that abandons one. */
  predicate EndsFrame(d: Decoder, b: Byte)
  {
    d.mode && !Step(d, b).next.mode
  }

  /** How many frames (completed or abandoned) the bytes of `s` end. */
  function FramesEnded(d: Decoder, s: seq<Byte>): (n: nat)
    decreases |s|
  {
    if s == [] then 0
    else
      FramesEnded(d, s[..|s| - 1]) + (if EndsFrame(Run(d, s[..|s| - 1]).next, s[|s| - 1]) then 1 else 0)
  }

  /** The next byte received in state `d` is a low byte: it completes its frame. */
  predicate CompletesFrame(d: Decoder)
  {
    d.mode && !d.firstByte
  }

  /** How many frames the bytes of `s` complete (abandoned frames excluded). */
  function FramesCompleted(d: Decoder, s: seq<Byte>): (n: nat)
    decreases |s|
  {
    if s == [] then 0
    else
      FramesCompleted(d, s[..|s| - 1]) + (if CompletesFrame(Run(d, s[..|s| - 1]).next) then 1 else 0)
  }

  /**
   * How many of the waiting bytes `s` one call of `loop` reads from state
   * `d`: it reads on while seeking or inside a frame, and returns right after
   * the byte that ends a frame.
   */
  function LoopReads(d: Decoder, s: seq<Byte>): (n: nat)
    ensures n <= |s|
    ensures s != [] ==> 0 < n
    decreases |s|
  {
    if s == [] then 0
    else if EndsFrame(d, s[0]) then 1
    else 1 + LoopReads(Step(d, s[0]).next, s[1..])
  }

  /** How many bytes of the next frame `d` has already received. */
  function Credit(d: Decoder): (n: nat)
  {
    if !d.mode then (if d.lastCh == 1 then 1 else 0)
    else if d.firstByte then 2
    else 3
  }
}
