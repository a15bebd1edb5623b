/**
 * The serial port seen from the publisher: open, write and read, each
 * reporting success or failure. The transport itself is outside the model;
 * a port here records the requests it receives and answers them as the
 * device it stands for is configured to.
 */
module SerialPort {
  import opened Wire

  /** The outcome of a write or a read: `COMM_SUCCESS` or any failure code. */
  datatype CommResult = CommSuccess | CommFailure

  /** A request made of the port, in the order it was made. */
  datatype PortRequest =
    | OpenRequest(baudrate: nat)
    | WriteRequest(data: seq<byte>)
    | ReadRequest(length: nat)

  /** How the device behind the port answers: whether it opens, what writes and reads report, and the bytes a read returns. */
  datatype Device = Device(opens: bool, writeResult: CommResult, readResult: CommResult, reply: seq<byte>)

  class PortHandler {
    /** The device path the handler was obtained for. */
    const portName: string
    var isOpen: bool
    /** Every request made of this port so far. */
    var log: seq<PortRequest>
    var device: Device

    /** `PortHandler::getPortHandler`: a closed handler for the named device. */
    constructor GetPortHandler(portName: string, device: Device)
      ensures this.portName == portName && this.device == device
      ensures !isOpen && log == []
    {
      this.portName := portName;
      this.device := device;
      isOpen := false;
      log := [];
    }

    /** `openPort`: true when the device opens at the given baud rate. */
    method OpenPort(baudrate: nat) returns (ok: bool)
      modifies this
      ensures ok == old(device).opens && isOpen == ok
      ensures log == old(log) + [OpenRequest(baudrate)]
      ensures device == old(device)
    {
      ok := device.opens;
      isOpen := ok;
      log := log + [OpenRequest(baudrate)];
    }

    /** `writePort`: sends the first `length` bytes of `data`. */
    method WritePort(data: seq<byte>, length: nat) returns (result: CommResult)
      requires length <= |data|
      modifies this
      ensures result == old(device).writeResult
      ensures log == old(log) + [WriteRequest(data[..length])]
      ensures device == old(device) && isOpen == old(isOpen)
    {
      result := device.writeResult;
      log := log + [WriteRequest(data[..length])];
    }

    /**
     * `readPort`: asks for `length` bytes into `buf`. A successful read
     * fills the first `length` bytes with the device's reply, which must be
     * long enough; a failed read leaves `buf` as it was.
     */
    method ReadPort(buf: array<byte>, length: nat) returns (result: CommResult)
      requires length <= buf.Length
      requires device.readResult == CommSuccess ==> length <= |device.reply|
      modifies this, buf
      ensures result == old(device).readResult
      ensures log == old(log) + [ReadRequest(length)]
      ensures device == old(device) && isOpen == old(isOpen)
      ensures result == CommSuccess ==> buf[..length] == device.reply[..length]
      ensures result == CommSuccess ==> buf[length..] == old(buf[length..])
      ensures result != CommSuccess ==> buf[..] == old(buf[..])
    {
      result := device.readResult;
      log := log + [ReadRequest(length)];
      if result == CommSuccess {
        forall i | 0 <= i < length {
          buf[i] := device.reply[i];
        }
      }
    }
  }
}
