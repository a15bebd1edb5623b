# IMU publisher: poll-and-decode cycle

A Dafny model of the sensor poll cycle of the ROS 2 IMU publisher node. On
every timer tick the node does four things:

1. It writes the fixed 4-byte command `[3, 59, 67, 3]` to the sensor's serial port.
2. It reads an 18-byte response frame.
3. It decodes the frame into nine big-endian signed 16-bit fields.
4. It publishes two messages: acceleration and angular velocity on
   `imu/data_raw`, then the magnetic field on `mag/data_raw`.

A failed write or a failed read ends the cycle silently. At start-up, `main`
exits with -1 when the port does not open, and in that case no node or timer
is ever created.

Files and modules:

- `wire.dfy` (`Wire`): bytes, `int16`, the byte-pair decode of line 60 and its
  big-endian two's-complement encoder, and the whole-frame decode.
- `conversion.dfy` (`Conversion`): the message datatypes and the unit
  conversions of lines 63-75, as exact real arithmetic.
- `port.dfy` (`SerialPort`): the serial port as a class. It records every
  request made of it. A `Device` value decides how each open, write and read
  is answered.
- `publisher.dfy` (`Publisher`): the node.
  - `MakeImuMsg` keeps the source's counted loop over a local array.
  - `TimerCallback` keeps the write/read/decode/publish sequence with its early returns.
  - `Startup` models the open-failure guard of `main`.

The node keeps an invariant, `Valid()`: the published messages are exactly
the (inertial, magnetic) pairs of the frames decoded so far, in order.

In the decode of line 60 the byte is a `uint8_t`, so `static_cast<int16_t>`
gives 0..255 and the word `(hi << 8) | lo` lies in 0..65535. The sign comes
from narrowing that word into `int16_t` when it is stored. `Word` and
`Narrow16` model those two steps. Reading the high byte as sign-extended
would give the same value for every pair (`DecodePairCases`).

## Model

| member | source | states |
|---|---|---|
| `Wire.Narrow16` | imu_kalman_filter/src/IMUPublisher.cpp:56-60 | storing an `int` into `int16_t` gives the one 16-bit value congruent to it modulo 2^16, and leaves values already in range unchanged |
| `Wire.Word` | imu_kalman_filter/src/IMUPublisher.cpp:60 | `(hi << 8) OR lo` with an unsigned high byte lies in 0..65535, and both bytes can be recovered from it (`w / 256 == hi`, `w % 256 == lo`) |
| `Wire.DecodePair` | imu_kalman_filter/src/IMUPublisher.cpp:60 | a decoded field is congruent to `hi*256+lo` modulo 2^16, and is negative exactly when the high byte's top bit is set |
| `Wire.EncodePair` | imu_kalman_filter/src/IMUPublisher.cpp:60 | the encoder used as partner: its bytes form the 16-bit two's-complement pattern of the value |
| `Wire.DecodePairCases` | imu_kalman_filter/src/IMUPublisher.cpp:56-60 | a field is `hi*256+lo` when `hi < 0x80` and `hi*256+lo-65536` otherwise, which is the same as reading the high byte as a signed byte |
| `Wire.DecodePairExamples` | imu_kalman_filter/src/IMUPublisher.cpp:60 | `FF FF` is -1 (not 65535), `80 00` is -32768, `7F FF` is 32767, `40 00` is 16384 |
| `Wire.PairRoundTrip` | imu_kalman_filter/src/IMUPublisher.cpp:60 | decoding the big-endian two's-complement bytes of any int16 gives it back |
| `Wire.PairRoundTripBytes` | imu_kalman_filter/src/IMUPublisher.cpp:60 | encoding a decoded pair gives the same two bytes back, so no two byte pairs decode to the same value |
| `Wire.DecodeValues` | imu_kalman_filter/src/IMUPublisher.cpp:56-61 | an even-length byte sequence decodes to half as many fields, and field `i` is the decode of bytes `2i` (high) and `2i+1` (low) |
| `Wire.EncodeValues` | imu_kalman_filter/src/IMUPublisher.cpp:58-61 | the encoder of a whole sequence of fields gives two bytes per field |
| `Wire.DecodeEncode` | imu_kalman_filter/src/IMUPublisher.cpp:58-61 | round trip: decoding the encoding of any sequence of int16 values gives the values back |
| `Wire.EncodeDecode` | imu_kalman_filter/src/IMUPublisher.cpp:58-61 | round trip: encoding the decoded fields of any even-length byte sequence gives the bytes back |
| `Wire.DecodeInjective` | imu_kalman_filter/src/IMUPublisher.cpp:58-61 | two frames with equal decoded fields are equal frames; decoding loses no information |
| `Wire.DecodeValueIsLocal` | imu_kalman_filter/src/IMUPublisher.cpp:58-61 | field `i` of two frames is equal whenever bytes `2i` and `2i+1` are, whatever the other bytes are |
| `Conversion.Acceleration` | imu_kalman_filter/src/IMUPublisher.cpp:63-65 | acceleration keeps the sign of the raw count, is zero only for zero, and stays within the ±2 g full scale |
| `Conversion.AngularVelocity` | imu_kalman_filter/src/IMUPublisher.cpp:67-69 | angular velocity keeps the sign of the raw count and is zero only for zero |
| `Conversion.MagneticField` | imu_kalman_filter/src/IMUPublisher.cpp:73-75 | the magnetic field keeps the sign of the raw count, is zero only for zero, and lies in [-9600, 9600) |
| `Conversion.ScalesArePositiveMultiples` | imu_kalman_filter/src/IMUPublisher.cpp:63-75 | each conversion multiplies the raw count by one fixed positive factor: 9.80665/16384, M_PI/(131*180) and 1200/4096 |
| `Conversion.ConversionsAreMonotone` | imu_kalman_filter/src/IMUPublisher.cpp:63-75 | a larger raw count never gives a smaller reading, on any channel |
| `Conversion.Calibration` | imu_kalman_filter/src/IMUPublisher.cpp:63-75 | 16384 counts give 9.80665 m/s^2, 131 counts give M_PI/180 rad/s, 4096 counts give 1200; zero gives 0.0 on every channel |
| `Conversion.ChannelsComeFromTheirFields` | imu_kalman_filter/src/IMUPublisher.cpp:63-75 | acceleration is equal for two frames exactly when fields 0-2 are equal, angular velocity exactly when fields 3-5 are, the magnetic field exactly when fields 6-8 are |
| `Conversion.ImuOf` | imu_kalman_filter/src/IMUPublisher.cpp:63-71 | the inertial message carries the cycle's stamp, and each acceleration component lies within the ±2 g full scale |
| `Conversion.MagOf` | imu_kalman_filter/src/IMUPublisher.cpp:73-75 | each magnetic-field component lies in [-9600, 9600) |
| `Conversion.ChannelsKeepSign` | imu_kalman_filter/src/IMUPublisher.cpp:63-75 | each of the nine components of both messages is positive, negative or zero exactly as the field it comes from is |
| `SerialPort.PortHandler.GetPortHandler` | imu_kalman_filter/src/IMUPublisher.cpp:80 | a handler is obtained for the named device, closed, with no requests made yet |
| `SerialPort.PortHandler.OpenPort` | imu_kalman_filter/src/IMUPublisher.cpp:81 | opening reports the device's answer, leaves the port open exactly when it succeeded, and records the baud rate |
| `SerialPort.PortHandler.WritePort` | imu_kalman_filter/src/IMUPublisher.cpp:34 | a write records exactly the first `length` bytes sent and reports the device's answer |
| `SerialPort.PortHandler.ReadPort` | imu_kalman_filter/src/IMUPublisher.cpp:41 | a read records the requested length; on success the first `length` bytes of the buffer hold the device's bytes and the rest is unchanged; on failure the buffer is unchanged |
| `Publisher.Publications` | imu_kalman_filter/src/IMUPublisher.cpp:46-51 | a decoded frame publishes exactly two messages, the inertial one first, stamped with the cycle's time |
| `Publisher.Stream` | imu_kalman_filter/src/IMUPublisher.cpp:50-51 | a history of decoded frames publishes exactly two messages per frame |
| `Publisher.StreamAt` | imu_kalman_filter/src/IMUPublisher.cpp:50-51 | positions 2k and 2k+1 of everything published are the inertial and magnetic messages of the k-th frame; every pair comes from one frame |
| `Publisher.StreamSnoc` | imu_kalman_filter/src/IMUPublisher.cpp:50-51 | decoding one more frame appends exactly that frame's two messages to the stream |
| `Publisher.CycleRequests` | imu_kalman_filter/src/IMUPublisher.cpp:30-44 | a cycle always writes the command first, and makes a second request, the 18-byte read, exactly when the write succeeded |
| `Publisher.CycleOutput` | imu_kalman_filter/src/IMUPublisher.cpp:30-52 | a cycle publishes nothing unless both the write and the read succeed, and otherwise two messages: the inertial one, with the cycle's stamp, then the magnetic-field one |
| `Publisher.CycleShortCircuits` | imu_kalman_filter/src/IMUPublisher.cpp:30-44 | a cycle always writes `[3, 59, 67, 3]` first and requests nothing but that write and an 18-byte read; it reads exactly when the write succeeded; it publishes exactly when the write and the read both succeeded |
| `Publisher.SuccessfulCyclePublishesPair` | imu_kalman_filter/src/IMUPublisher.cpp:46-51 | when both I/O steps succeed, the cycle publishes the inertial then the magnetic-field message, both decoded from the first 18 bytes of the reply |
| `Publisher.ZeroFramePublishesZeros` | imu_kalman_filter/src/IMUPublisher.cpp:54-76 | an all-zero frame gives all-zero acceleration, angular velocity and magnetic field |
| `Publisher.OneGOnXFrame` | imu_kalman_filter/src/IMUPublisher.cpp:54-76 | a frame holding 0x4000 in field 0 and zeros elsewhere gives an x acceleration of 9.80665 and 0.0 on every other component |
| `Publisher.ImuPublisher.constructor` | imu_kalman_filter/src/IMUPublisher.cpp:14-23 | a node over an open port has published nothing and satisfies its invariant |
| `Publisher.ImuPublisher.MakeImuMsg` | imu_kalman_filter/src/IMUPublisher.cpp:54-76 | the counted loop fills the local array with the decoded fields of the frame, and the two messages are exactly those fields mapped to their channels |
| `Publisher.ImuPublisher.Publish` | imu_kalman_filter/src/IMUPublisher.cpp:50-51 | the inertial message is published, then the magnetic-field message, and the stream invariant is kept |
| `Publisher.ImuPublisher.TimerCallback` | imu_kalman_filter/src/IMUPublisher.cpp:30-52 | one cycle adds exactly the requests of `CycleRequests` to the port's log and exactly the messages of `CycleOutput` to what was published, keeping the node's invariant |
| `Publisher.Startup` | imu_kalman_filter/src/IMUPublisher.cpp:78-94 | the port for `/dev/ttyACM1` is opened at 38400 baud; if that fails, the status is -1, no node exists and no other request was made; otherwise the status is 0 and a fresh node over the open port has published nothing |

## Left out

- Floating point: the source scales in IEEE doubles. The model uses exact
  reals, and `M_PI` is the decimal literal of the C macro, not pi itself and
  not its double rounding.
- The timestamp from the node's clock is an external, nondeterministic
  input. It is a parameter (`stamp`) of `MakeImuMsg` and `TimerCallback`.
- The serial transport (`PortHandler`) is not part of this model. The port is
  a class that records requests and answers from a `Device` value. The
  numeric result codes are reduced to `CommSuccess` and `CommFailure`.
- SerialPort.PortHandler.ReadPort: a successful read must cover the requested
  length. The source never checks how many bytes arrived and trusts the
  success flag, so short successful reads are not modelled.
- Publisher.ImuPublisher.TimerCallback: requires that a successful read has
  at least 18 bytes to return, for the same reason.
- ROS 2 plumbing is not modelled: node creation, the QoS profile,
  `create_publisher`, the 1 ms wall timer, `rclcpp::init`/`spin`/`shutdown`
  and logging. The two publishers are one sequence of published messages,
  each tagged with its topic.
- Publisher.Startup: returns the node instead of spinning it. The status 0
  stands for the normal return after `spin` and `shutdown`. The `printf`
  before returning -1 is not modelled.
- The global `imu_port` pointer is the node's `port` field. The `delete` in
  the destructor is not modelled, because memory release has no observable
  behaviour here.
- `makeImuMsg` writes through two out-pointers to messages that are locals of
  the caller. The model returns the two messages as out-parameters, which is
  the same since nothing else aliases them.
- The narrowing into `int16_t` is taken as two's-complement wrap-around. C++20
  requires that behaviour, and earlier standards leave it to the
  implementation.
