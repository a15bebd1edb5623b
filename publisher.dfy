/**
 * The publisher node: one poll cycle per timer tick (write the command
 * frame, read the response frame, decode it, publish two messages), and the
 * start-up guard that refuses to create the node when the port will not open.
 */
module Publisher {
  import opened Wire
  import opened Conversion
  import opened SerialPort

  /** Baud rate the port is opened at. */
  const Baudrate: nat := 38400

  /** Device path of the sensor's serial port. */
  const ImuDevice: string := "/dev/ttyACM1"

  /** The request frame written at the start of every cycle. */
  const Command: seq<byte> := [3, 59, 67, 3]

  /** A published message: on topic "imu/data_raw" or on topic "mag/data_raw". */
  datatype Outgoing = ImuOut(imu: ImuMsg) | MagOut(mag: MagMsg)

  /** A frame that was decoded and published, with the time it was stamped with. */
  datatype Sample = Sample(frame: Frame, stamp: nat)

  /**
   * What one successful cycle publishes for a frame: the inertial message,
   * then the magnetic-field message, both from the same decoded fields.
   */
  function Publications(frame: Frame, stamp: nat): (out: seq<Outgoing>)
    ensures |out| == 2 && out[0].ImuOut? && out[1].MagOut?
    ensures out[0].imu.stamp == stamp
  {
    var vals := DecodeValues(frame);
    [ImuOut(ImuOf(vals, stamp)), MagOut(MagOf(vals))]
  }

  /** Everything published for a history of decoded frames, oldest first. */
  function Stream(history: seq<Sample>): (out: seq<Outgoing>)
    ensures |out| == 2 * |history|
  {
    if history == [] then []
    else
      var last := history[|history| - 1];
      Stream(history[..|history| - 1]) + Publications(last.frame, last.stamp)
  }

  /**
   * The published stream is made of pairs: positions 2k and 2k+1 are the
   * inertial and magnetic-field messages of the k-th decoded frame.
   */
  lemma {:induction false} StreamAt(history: seq<Sample>, k: nat)
    requires k < |history|
    ensures Stream(history)[2 * k] == Publications(history[k].frame, history[k].stamp)[0]
    ensures Stream(history)[2 * k + 1] == Publications(history[k].frame, history[k].stamp)[1]
  {
    var n := |history| - 1;
    var prefix := history[..n];
    var pair := Publications(history[n].frame, history[n].stamp);
    var before := Stream(prefix);
    assert Stream(history) == before + pair;
    if k < n {
      StreamAt(prefix, k);
      assert prefix[k] == history[k];
      assert Stream(history)[2 * k] == before[2 * k];
      assert Stream(history)[2 * k + 1] == before[2 * k + 1];
    } else {
      assert Stream(history)[2 * k] == pair[0];
      assert Stream(history)[2 * k + 1] == pair[1];
    }
  }

  /** Decoding one more frame appends its two messages to the stream. */
  lemma StreamSnoc(history: seq<Sample>, sample: Sample)
    ensures Stream(history + [sample]) == Stream(history) + Publications(sample.frame, sample.stamp)
  {
    assert (history + [sample])[..|history|] == history;
  }

  /**
   * The requests one cycle makes of a port whose device answers as `device`:
   * the command write always, then the frame read only when the write
   * succeeded.
   */
  function CycleRequests(device: Device): (requests: seq<PortRequest>)
    ensures 1 <= |requests| <= 2 && requests[0] == WriteRequest(Command)
    ensures |requests| == 2 <==> device.writeResult == CommSuccess
    ensures |requests| == 2 ==> requests[1] == ReadRequest(FrameLength)
  {
    if device.writeResult != CommSuccess then [WriteRequest(Command)]
    else [WriteRequest(Command), ReadRequest(FrameLength)]
  }

  /**
   * What one cycle publishes when the port's device answers as `device`:
   * nothing unless both the write and the read succeed, and otherwise an
   * inertial message stamped with the cycle's time followed by a
   * magnetic-field message.
   */
  function CycleOutput(device: Device, stamp: nat): (out: seq<Outgoing>)
    requires device.readResult == CommSuccess ==> |device.reply| >= FrameLength
    ensures |out| == 0 || |out| == 2
    ensures out != [] <==> device.writeResult == CommSuccess && device.readResult == CommSuccess
    ensures out != [] ==> out[0].ImuOut? && out[0].imu.stamp == stamp && out[1].MagOut?
  {
    if device.writeResult != CommSuccess || device.readResult != CommSuccess then []
    else Publications(device.reply[..FrameLength], stamp)
  }

  /**
   * The short-circuit rules of a cycle: the command `[3, 59, 67, 3]` is
   * always written first; an 18-byte read is requested exactly when the
   * write succeeded; something is published exactly when both succeeded.
   */
  lemma CycleShortCircuits(device: Device, stamp: nat)
    requires device.readResult == CommSuccess ==> |device.reply| >= FrameLength
    ensures CycleRequests(device)[0] == WriteRequest([3, 59, 67, 3])
    ensures forall r :: r in CycleRequests(device) ==> r == WriteRequest([3, 59, 67, 3]) || r == ReadRequest(18)
    ensures ReadRequest(18) in CycleRequests(device) <==> device.writeResult == CommSuccess
    ensures CycleOutput(device, stamp) != [] <==> device.writeResult == CommSuccess && device.readResult == CommSuccess
  {
  }

  /**
   * A cycle whose write and read both succeed publishes exactly two
   * messages, the inertial one first, both decoded from the first eighteen
   * bytes of the reply.
   */
  lemma SuccessfulCyclePublishesPair(device: Device, stamp: nat)
    requires device.writeResult == CommSuccess && device.readResult == CommSuccess
    requires |device.reply| >= FrameLength
    ensures var vals := DecodeValues(device.reply[..FrameLength]);
      CycleOutput(device, stamp) == [ImuOut(ImuOf(vals, stamp)), MagOut(MagOf(vals))]
  {
  }

  /** Appending two elements one at a time is appending the pair. */
  lemma AppendTwice<T>(s: seq<T>, a: T, b: T)
    ensures s + [a] + [b] == s + [a, b]
  {
  }

  /** An all-zero frame publishes all-zero readings. */
  lemma ZeroFramePublishesZeros(frame: Frame, stamp: nat)
    requires forall i :: 0 <= i < FrameLength ==> frame[i] == 0
    ensures var zero := Vector3(0.0, 0.0, 0.0);
      Publications(frame, stamp) == [ImuOut(ImuMsg(stamp, zero, zero)), MagOut(MagMsg(zero))]
  {
    var vals := DecodeValues(frame);
    forall i | 0 <= i < FieldCount
      ensures vals[i] == 0
    {
      assert frame[2 * i] == 0 && frame[2 * i + 1] == 0;
    }
  }

  /** A frame whose first field is 0x4000 and all others zero: one g on the x axis, every other reading zero. */
  lemma OneGOnXFrame(frame: Frame, stamp: nat)
    requires frame[0] == 0x40 && forall i :: 1 <= i < FrameLength ==> frame[i] == 0
    ensures var zero := Vector3(0.0, 0.0, 0.0);
      Publications(frame, stamp) == [ImuOut(ImuMsg(stamp, Vector3(9.80665, 0.0, 0.0), zero)), MagOut(MagMsg(zero))]
  {
    var vals := DecodeValues(frame);
    forall i | 0 <= i < FieldCount
      ensures vals[i] == if i == 0 then 0x4000 else 0
    {
      assert frame[2 * i + 1] == 0;
    }
  }

  class ImuPublisher {
    /** The port the node polls; opened before the node exists. */
    const port: PortHandler
    /** Every message published so far, on either topic, in publication order. */
    var published: seq<Outgoing>
    /** The frames decoded so far. */
    ghost var history: seq<Sample>

    /** The port is open, and what was published is exactly the pairs of the decoded frames. */
    ghost predicate Valid()
      reads this, port
    {
      port.isOpen && published == Stream(history)
    }

    constructor (port: PortHandler)
      requires port.isOpen
      ensures this.port == port && published == [] && history == []
      ensures Valid()
    {
      this.port := port;
      published := [];
      history := [];
    }

    /**
     * `makeImuMsg`: decodes the nine fields of a frame into a local array,
     * then builds the two messages from them.
     */
    method MakeImuMsg(raw: array<byte>, stamp: nat) returns (imu: ImuMsg, mag: MagMsg)
      requires raw.Length == FrameLength
      ensures imu == ImuOf(DecodeValues(raw[..]), stamp)
      ensures mag == MagOf(DecodeValues(raw[..]))
      ensures Publications(raw[..], stamp) == [ImuOut(imu), MagOut(mag)]
    {
      var data := new int16[FieldCount];
      for s := 0 to FieldCount
        invariant forall k :: 0 <= k < s ==> data[k] == DecodePair(raw[2 * k], raw[2 * k + 1])
      {
        data[s] := Narrow16(Word(raw[s * 2], raw[s * 2 + 1]));
      }
      assert data[..] == DecodeValues(raw[..]);
      imu := ImuMsg(stamp,
                    Vector3(Acceleration(data[0]), Acceleration(data[1]), Acceleration(data[2])),
                    Vector3(AngularVelocity(data[3]), AngularVelocity(data[4]), AngularVelocity(data[5])));
      mag := MagMsg(Vector3(MagneticField(data[6]), MagneticField(data[7]), MagneticField(data[8])));
    }

    /**
     * The two `publish` calls: the inertial message on "imu/data_raw", then
     * the magnetic-field message on "mag/data_raw". Both come from `frame`,
     * which joins the decoded history.
     */
    method Publish(imuMsg: ImuMsg, magMsg: MagMsg, ghost frame: Frame, ghost stamp: nat)
      requires Valid()
      requires Publications(frame, stamp) == [ImuOut(imuMsg), MagOut(magMsg)]
      modifies this
      ensures Valid()
      ensures published == old(published) + [ImuOut(imuMsg), MagOut(magMsg)]
      ensures history == old(history) + [Sample(frame, stamp)]
    {
      AppendTwice(published, ImuOut(imuMsg), MagOut(magMsg));
      StreamSnoc(history, Sample(frame, stamp));
      published := published + [ImuOut(imuMsg)];
      published := published + [MagOut(magMsg)];
      history := history + [Sample(frame, stamp)];
    }

    /**
     * `timer_callback`: one poll cycle. A failed write ends the cycle before
     * any read; a failed read ends it with nothing published; otherwise the
     * two messages of the frame are published, inertial first.
     */
    method TimerCallback(stamp: nat)
      requires Valid()
      requires port.device.readResult == CommSuccess ==> |port.device.reply| >= FrameLength
      modifies this, port
      ensures Valid() && port.device == old(port.device)
      ensures port.log == old(port.log) + CycleRequests(old(port.device))
      ensures published == old(published) + CycleOutput(old(port.device), stamp)
    {
      ghost var device := port.device;
      ghost var log := port.log;
      var writeData: seq<byte> := [3, 59, 67, 3];
      var writeLength: nat := 4;
      assert writeData[..writeLength] == Command;
      var result := port.WritePort(writeData, writeLength);
      if result != CommSuccess {
        assert CycleRequests(device) == [WriteRequest(Command)] && CycleOutput(device, stamp) == [];
        return;
      }

      var readData := new byte[18];
      var readLength: nat := 18;
      AppendTwice(log, WriteRequest(Command), ReadRequest(FrameLength));
      result := port.ReadPort(readData, readLength);
      assert port.log == log + CycleRequests(device);
      if result != CommSuccess {
        assert CycleOutput(device, stamp) == [];
        return;
      }

      ghost var frame: Frame := readData[..];
      assert frame == device.reply[..FrameLength];
      var imuMsg, magMsg := MakeImuMsg(readData, stamp);
      assert CycleOutput(device, stamp) == Publications(frame, stamp) == [ImuOut(imuMsg), MagOut(magMsg)];
      Publish(imuMsg, magMsg, frame, stamp);
    }
  }

  /**
   * `main`: obtains the port for the sensor's device and opens it. When it
   * does not open, the exit status is -1 and no node (hence no timer) is
   * created; otherwise the node is created over the open port and the
   * status after spinning is 0.
   */
  method Startup(device: Device) returns (status: int, port: PortHandler, node: ImuPublisher?)
    ensures fresh(port) && port.portName == ImuDevice && port.device == device
    ensures port.log == [OpenRequest(Baudrate)]
    ensures !device.opens ==> status == -1 && node == null && !port.isOpen
    ensures device.opens ==> status == 0 && node != null && fresh(node)
    ensures node != null ==> node.port == port && node.Valid() && node.published == []
  {
    port := new PortHandler.GetPortHandler(ImuDevice, device);
    var result := port.OpenPort(Baudrate);
    if result == false {
      status := -1;
      node := null;
      return;
    }
    node := new ImuPublisher(port);
    status := 0;
  }
}
