# hacking-mario, modelled in Dafny

`mario.py` turns a LEGO Mario figure into a jump button. It finds the toy
over Bluetooth Low Energy and subscribes to its IMU notifications. Each
notification with packet tag 7 carries three signed 8-bit accelerometer
readings `x, y, z` in bytes 4 to 6. The script watches `y`. When `y` crosses
100 upwards, it presses and releases the space bar.

The model has five modules:

- `Wrappers` (`wrappers.dfy`): `Option` and `Result`.
- `Packet` (`packet.dfy`): `raw_handler`'s decoding of one payload.
  - `Decode` returns one of three outcomes: a sample, `None` for a packet of another type, or the error the source raises.
  - `EncodeImu` is its inverse. It frames a sample the way the device does.
- `Detector` (`detector.dfy`): `DataHandler`, as a class.
  - Fields: `prevY`, and a key-event trace that stands in for the keyboard controller.
  - Pure functions describe a whole stream of readings: `Decisions` (the fold of the fire rule), `Trace`, `FireIndices` and `CrossingIndices`.
- `Discovery` (`discovery.dfy`): `discover`'s loop, which picks the first device whose name contains `"Mario"`.
- `Session` (`session.dfy`): the path from a notification to the handler.
  - `HandleNotification` models `raw_handler` calling `dh.xyz`.
  - `Deliver` models notifications reaching one handler in arrival order while `read_data` waits.
  - `RunSession` models `main` building one fresh handler for the session.

The main theorem is `Detector.PressesAreCrossings`, which `Session.RunSession` restates for a packet stream. It says that on a fresh handler the number of space-bar presses equals the number of indices `i > 0` with `y[i-1] < 100` and `y[i] > 100`. `Detector.FiresAtCrossings` is stronger: the fires happen exactly at those indices.

Three details of the code the model keeps:

- An empty payload fails at `data[0]`. This is `EmptyPayload`, a different error from the short IMU packet (`ShortImuPayload`, `struct.unpack` on fewer than three bytes).
- Bytes after offset 6 are ignored.
- Fires are never dropped or overlapped. `xyz` blocks for its press, sleep and release before the next notification is handled, so the trace gets each press/release pair in order.

## Model

| member | source | states |
|---|---|---|
| `Packet.ToSigned8` | mario.py:34 | the "b" reading of a byte is the unique value in [-128, 127] congruent to it modulo 256 |
| `Packet.FromSigned8` | mario.py:34 | the byte holding a signed 8-bit value's two's complement; non-negative values map below 128 |
| `Packet.Signed8RoundTrip` | mario.py:34 | reading and writing a signed byte are inverse to each other, in both directions |
| `Packet.Int8Congruence` | mario.py:34 | two signed 8-bit values equal modulo 256 are equal, so the signed reading is unique |
| `Packet.Decode` | mario.py:33-34 | empty payload is `EmptyPayload`; tag other than 7 is `None` at any length; tag 7 shorter than 7 bytes is `ShortImuPayload`; otherwise a sample whose x, y, z are the signed 8-bit readings of bytes 4, 5, 6 |
| `Packet.EncodeImu` | mario.py:33-34 | the IMU frame of a sample: tag 7 at byte 0, header bytes 1..3, readings 4..6, then the trailer |
| `Packet.DecodeEncodeImu` | mario.py:33-34 | every signed 8-bit sample, framed with any header and trailer, decodes back to itself |
| `Packet.EncodeDecodeImu` | mario.py:33-34 | every payload that decodes to a sample is exactly that sample's frame |
| `Packet.DecodeExamples` | mario.py:33-34 | `[7,0,0,0,10,200,30]` gives (10, -56, 30); tag 3 gives `None`; `[7,0,0,0]` and `[]` are errors |
| `Detector.DataHandler.constructor` | mario.py:16-18 | a new handler has no previous reading and has sent no key events |
| `Detector.DataHandler.Observe` | mario.py:20-25 | fires iff a previous y exists, is below 100, and the current y is above 100; afterwards the previous y is the current y, fire or not; the trace grows by exactly that sample's key stroke |
| `Detector.Decisions` | mario.py:20-25 | one decision per reading of the stream |
| `Detector.DecisionAt` | mario.py:20-25 | decision `i` applies the fire rule to reading `i` and reading `i-1` (the held previous reading for `i = 0`) |
| `Detector.DecisionsSnoc` | mario.py:20-25 | one more reading adds one decision, taken against the last reading seen |
| `Detector.TraceSnoc` | mario.py:20-25 | one more reading extends the trace by its key stroke and becomes the held previous reading |
| `Detector.FiresAtCrossings` | mario.py:17-25 | a fresh handler fires at exactly the indices `i > 0` with `y[i-1] < 100 < y[i]` |
| `Detector.FirstNeverFires` | mario.py:17-21 | the first reading after construction never fires |
| `Detector.ThresholdNeverFires` | mario.py:21 | a reading equal to 100 fires neither as the current reading nor as the previous one |
| `Detector.NoConsecutiveFires` | mario.py:21-25 | two consecutive readings never both fire |
| `Detector.FireIndicesSnoc` | mario.py:21-25 | the fire positions of a decision stream are those of its prefix plus its last position if that fires |
| `Detector.TraceShape` | mario.py:21-24 | the key trace alternates press and release of the space bar and has two events per fire |
| `Detector.TraceCounts` | mario.py:21-24 | the trace holds exactly as many presses, and as many releases, as there are fires |
| `Detector.PressesAreCrossings` | mario.py:17-25 | on a fresh handler, the number of space presses equals the number of strict upward crossings of 100 |
| `Detector.DecisionExamples` | mario.py:21 | `[50,100,101,50,150]` fires only on the last reading; `[0,150,0,150]` fires on the 2nd and 4th; `[100,100]` never fires; a sustained high reading fires once |
| `Discovery.ContainsSpec` | mario.py:42 | the substring test holds iff the pattern occurs at some offset of the name |
| `Discovery.IsMarioSpec` | mario.py:42 | a device matches iff it has a name in which "Mario" occurs; the emptiness test never decides the outcome |
| `Discovery.Discover` | mario.py:41-44 | returns the first device in scan order whose name is present, non-empty and contains "Mario"; returns `None` iff no device matches |
| `Session.HandleNotification` | mario.py:32-35 | the result is the payload's decoding; only a decoded sample reaches the handler, which then behaves as `Observe`; a foreign or malformed payload leaves the handler untouched and fires nothing |
| `Session.ReadingOf` | mario.py:33-35 | a payload contributes at most one reading to the detector |
| `Session.Readings` | mario.py:33-35 | the handler sees no more readings than there were notifications |
| `Session.ReadingsAreInt8` | mario.py:34 | every reading that reaches the handler lies in [-128, 127] |
| `Session.Rejected` | mario.py:33-34 | no more payloads are rejected than were delivered |
| `Session.ReadingsStep` | mario.py:32-35 | readings and rejections grow one payload at a time, in arrival order |
| `Session.ReadingsAndRejected` | mario.py:33-35 | each payload is a sample, a foreign packet or an error; when every payload is IMU-tagged, each is a sample or an error |
| `Session.DeliverStep` | mario.py:32-35 | one notification moves the handler from its state after readings `ys` to its state after those readings plus this payload's |
| `Session.Deliver` | mario.py:47-62 | after a stream of notifications, the handler's previous y and key trace are those of observing the decoded readings alone, in order; the returned count is the number of payloads whose decoding raises (a diagnostic of the model; the source keeps no such count) |
| `Session.RunSession` | mario.py:74-76 | a session on a fresh handler presses and releases the space bar once per upward crossing of the decoded readings, and never otherwise |

## Left out

- Bluetooth scanning, connection, `start_notify` and the two `write_gatt_char` subscription writes (mario.py:40, mario.py:48-58) call into the `bleak` library. The scan result is a parameter of `Discover`, and the notification stream is a parameter of `Deliver`.
- The subscription command bytes and the characteristic UUID (mario.py:11-13) are plain data with no behaviour in the model.
- The 300 ms `time.sleep` between press and release (mario.py:23) is wall-clock timing. Only the order press, then release, is modelled.
- The `pynput` keyboard controller (mario.py:18, mario.py:22-24) is a foreign library. It is replaced by the `events` trace of `DataHandler`.
- The timestamp and the `print` of each sample (mario.py:26-28) are output only and do not affect any decision. `Observe` accepts `x` and `z` but does not use them.
- The asyncio sleeps, the keep-alive `while True` loop and the `CancelledError` / `KeyboardInterrupt` handling (mario.py:53-64, mario.py:75-78) are concurrency and cancellation. `Deliver` models only the finite stream of notifications delivered meanwhile.
- `main`'s messages, `sys.exit(1)` when no device is found, and `asyncio.run` (mario.py:67-82) are process I/O. `Discover` returning `None` is the no-device outcome.
- Session.Deliver: the returned count of rejected payloads is the model's own diagnostic; `read_data` keeps no count, and a failing decode just raises out of `raw_handler`.
- Session.HandleNotification: when decoding raises, the source propagates the exception into `bleak`'s callback machinery, and what that does is not part of this model. The model returns the error and carries on with the next notification.
