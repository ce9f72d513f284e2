# Uplift desk height decoder

`UartUpliftSensor` (esphome/uplift_uart.h) is an ESPHome component. It
listens to the serial line of an Uplift desk controller and publishes the
desk height.

On the wire, a frame is:

- a start marker, which is two bytes equal to 1;
- a high payload byte;
- a low payload byte.

The payload is the height in tenths, `256 * high + low`. The decoder:

- hunts for the marker with a one-byte lookback (`startcode`);
- assembles the payload;
- abandons the frame when the high byte exceeds 1 (the raw value is then
  above 256);
- publishes `raw / 10.0` only when the raw value differs from the one
  published before.

All decoder state lives in `static` locals of `startcode` and `loop`.

The project has three modules:

- `UpliftProtocol` (protocol.dfy) states the decoder on values:
  - `Decoder` holds the five persistent variables;
  - `Step` is one received byte;
  - `Run` is a stream of bytes;
  - `LoopReads` is how many bytes one call of `loop` takes;
  - `FramesEnded` counts frames completed or abandoned;
  - `FramesCompleted` counts frames completed.
- `UpliftUart` (sensor.dfy) is the component as a class.
  - The `static` locals are its fields.
  - The bytes waiting at the UART are a sequence.
  - Values handed to `publish_state` are returned as raw integers.
  - Each method is proved against `Step`, `Run` and `LoopReads`.
- `UpliftProperties` (properties.dfy) holds the lemmas about the protocol
  functions:
  - splitting a stream across calls does not matter;
  - published values stay in range;
  - a value is never published twice in a row;
  - a publish costs four bytes;
  - one call of `loop` ends at most one frame;
  - well-formed frames decode to the deduplicated sequence of their payloads;
  - the decoder recovers from a spurious marker whose high byte is above 1;
  - a stray 1 just before a marker makes it misread the frame.

`previous_raw_data` is assigned only when the value changed
(esphome/uplift_uart.h:46-49); assigning it after every low byte would only
store the value it already holds.

Recovery is proved only from a synchronised state: seeking, with a lookback
other than 1. A 1 received just before a marker completes the marker one
byte early. The marker's second 1 is then read as the high byte (256 passes
the plausibility check), and the decoder publishes 256 plus the payload's
high byte instead of the frame's value. For example, `1, 1, 1, 0, 150` from
power-up publishes 256 (25.6), not 150.

## Model

| member | source | states |
|---|---|---|
| UpliftProtocol.ToU16 | esphome/uplift_uart.h:27-28 | storing into an `unsigned short` gives a value below 65536 and keeps any value already in range |
| UpliftProtocol.Init | esphome/uplift_uart.h:25-28 | the decoder starts seeking, expecting a high byte, with previous value 0, and satisfies the invariant `Valid` |
| UpliftProtocol.Step | esphome/uplift_uart.h:30-51 | one byte preserves the invariant `Valid` and publishes at most one value. While seeking it enters a frame exactly when it and the lookback are both 1, and the lookback becomes the byte, or 0 on a marker. A high byte keeps the frame exactly when it is at most 1. A low byte always ends the frame. Only a low byte publishes: a value in 0..511 that differs from the previous one and becomes the new previous one. |
| UpliftProtocol.Run | esphome/uplift_uart.h:30-51 | receiving a stream preserves the invariant `Valid` and publishes at most one value per byte |
| UpliftProtocol.LoopReads | esphome/uplift_uart.h:22-52 | one call of `loop` reads at most the waiting bytes, and at least one when any is waiting |
| UpliftProperties.RunAppend | esphome/uplift_uart.h:22-52 | receiving `a` and then `b` ends in the state of receiving `a + b` and publishes the same values, so how the bytes are split across calls of `loop` does not matter |
| UpliftProperties.FramesEndedAppend | esphome/uplift_uart.h:36-51 | the frames ended by `a + b` are those ended by `a` plus those ended by `b` afterwards |
| UpliftProperties.PublishedInRange | esphome/uplift_uart.h:38-47 | every published raw value is in 0..511, because a high byte above 1 never reaches the low byte |
| UpliftProperties.RunRemembersLast | esphome/uplift_uart.h:46-49 | `previous_raw_data` is always the value published last, or its starting value when nothing was published |
| UpliftProperties.RunDeduplicates | esphome/uplift_uart.h:46-49 | no value is published twice in a row, and the first one differs from the previous value the decoder started with |
| UpliftProperties.FirstPublishedNonZero | esphome/uplift_uart.h:28 | from power-up, the first published value is never 0 |
| UpliftProperties.PublishesAtMostFramesCompleted | esphome/uplift_uart.h:43-49 | every publish completes a frame: there are no more publishes than completed frames (low bytes received), and no more completed frames than ended (completed or abandoned) ones |
| UpliftProperties.FourBytesPerPublish | esphome/uplift_uart.h:30-51 | each publish costs four received bytes, less the bytes of the current frame already received |
| UpliftProperties.FourBytesCredit | esphome/uplift_uart.h:30-51 | the inductive form of the byte budget, which also accounts for the part of a frame left pending at the end |
| UpliftProperties.LoopEndsOneFrame | esphome/uplift_uart.h:31-51 | one call of `loop` ends at most one frame: no byte before the last one it reads ends a frame, and when it leaves bytes unread, its last byte ends one |
| UpliftProperties.DedupDeduplicated | esphome/uplift_uart.h:46-49 | the reference sink (pass a value on when it differs from the one before) never passes the same value twice in a row |
| UpliftProperties.MarkerEntersFrame | esphome/uplift_uart.h:10-20 | after a byte other than 1, the marker `1, 1` enters the frame, awaiting the high byte, with the lookback reset |
| UpliftProperties.FrameDecodes | esphome/uplift_uart.h:36-51 | a well-formed frame received in sync decodes to `256 * high + low`. It is published exactly when it differs from the previous value, becomes the previous value, and leaves the decoder seeking again. |
| UpliftProperties.SpuriousMarkerDiscarded | esphome/uplift_uart.h:38-42 | a high byte above 1 after a marker abandons the frame, publishes nothing, keeps the previous value and leaves the decoder in sync |
| UpliftProperties.FramesDecode | esphome/uplift_uart.h:30-51 | back-to-back well-formed frames received in sync publish exactly the deduplicated sequence of their raw values |
| UpliftProperties.ResyncAfterSpuriousMarker | esphome/uplift_uart.h:40-41 | after a spurious marker, the following well-formed frames are all decoded |
| UpliftProperties.RepeatedFramePublishesOnce | esphome/uplift_uart.h:46-49 | the same frame twice publishes its value at most once |
| UpliftProperties.ChangedFramePublishesAgain | esphome/uplift_uart.h:46-49 | a frame whose value differs from the one before it is published again |
| UpliftProperties.StrayOneTakesMarkerAsHigh | esphome/uplift_uart.h:31-42 | from a synchronised state, `1, 1, 1` completes the marker on the second byte and takes the third as a high byte of 1, keeping the frame (raw value 256) |
| UpliftProperties.StrayOneMisreadsFrame | esphome/uplift_uart.h:36-49 | from a synchronised state, a 1 followed by a frame publishes `256 + high` (when it differs from the previous value) instead of the frame's value |
| UpliftProperties.StrayOneAtPowerUp | esphome/uplift_uart.h:22-52 | from power-up, a 1 followed by any frame publishes exactly `256 + high` |
| UpliftProperties.NoiseThenFramesDecode | esphome/uplift_uart.h:22-52 | from power-up, a noise byte (anything but 1) followed by well-formed frames publishes their deduplicated raw values, compared first against 0 |
| UpliftProperties.NoisyStreamExample | esphome/uplift_uart.h:22-52 | a noise byte, then frames carrying 150, 150 and 151, publishes exactly 150 and 151 |
| UpliftUart.UartUpliftSensor.constructor | esphome/uplift_uart.h:25-28 | the fields start with the initial values of the `static` locals |
| UpliftUart.UartUpliftSensor.StartCode | esphome/uplift_uart.h:10-20 | reports a marker exactly when the byte and the previous lookback are both 1; the lookback becomes 0 on a marker and the byte otherwise |
| UpliftUart.UartUpliftSensor.SeekByte | esphome/uplift_uart.h:31-34 | one pass of the seeking loop is one `Step` of the protocol |
| UpliftUart.UartUpliftSensor.FrameByte | esphome/uplift_uart.h:37-50 | one pass of the frame loop is one `Step`, and it publishes what that step publishes |
| UpliftUart.UartUpliftSensor.Loop | esphome/uplift_uart.h:22-52 | one call reads exactly `LoopReads` of the waiting bytes, and ends in the state and with the publishes of receiving those bytes one by one |
| UpliftUart.UartUpliftSensor.Drain | esphome/uplift_uart.h:22-52 | calling `loop` until no byte is waiting ends in the state and with the publishes of `Run` over all the bytes |

## Left out

- The ESPHome base classes (`Component`, `UARTDevice`, `Sensor`) are not modelled. Nor are the constructor taking the UART parent and the empty `setup`.
- UART I/O is not modelled as I/O. The bytes `available()` would report are the sequence passed to `Loop`, and `read()` returns its next element. `read()` returning -1 is not modelled, because `available()` is checked first.
- `publish_state(raw_data / 10.0)` is not modelled as a floating-point value. The model returns the raw integer, and the division by 10 is left to the sink.
- The unused `buffer` and `max_line_length` locals of `loop` are not modelled.
- The `unsigned short` truncation of `raw_data` is written out with `ToU16`, but it never changes a value. The high byte gives at most 65280, and a low byte is only added to 0 or 256.
- The scheduling of `loop` calls by the framework is not modelled. `Drain` stands for calls repeated until no byte is waiting.
- Each `UartUpliftSensor` object holds its own decoder state. In the source, the `static` locals of `startcode` and `loop` are shared by every instance, so two sensors would feed both streams through one state. The model is faithful for a single sensor only.
