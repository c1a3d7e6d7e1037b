/** The browser-side serial monitor: the `COMPortManager` object keeps the
    connection flags, the received-byte counter, the on-screen buffer (the
    last 10000 characters) and the full capture buffer.  The browser's port,
    reader, writer, `TextDecoder` and DOM are outside the model; their
    outcomes are parameters. */
module WebSerial {
  import opened Bytes
  import opened Optional
  import TextFormat

  /** The number of characters the display keeps. */
  const DisplayLimit := 10000

  /** `buffer.slice(-10000)` when the buffer is longer than the limit. */
  function Trimmed(s: string): (r: string)
    ensures |r| <= DisplayLimit
    ensures |s| <= DisplayLimit ==> r == s
    ensures |s| > DisplayLimit ==> |r| == DisplayLimit
    ensures r == s[|s| - |r|..]
  {
    if |s| > DisplayLimit then s[|s| - DisplayLimit..] else s
  }

  /** Trimming twice is trimming once. */
  lemma TrimIdempotent(s: string)
    ensures Trimmed(Trimmed(s)) == Trimmed(s)
  {
  }

  /** Trimming after every chunk shows the same text as trimming the whole
      capture once: the tail of `a + b` depends on `a` only through its tail. */
  lemma TrimAppend(a: string, b: string)
    ensures Trimmed(Trimmed(a) + b) == Trimmed(a + b)
  {
    var t := Trimmed(a);
    assert t == a[|a| - |t|..];
    if |t + b| > DisplayLimit {
      assert (t + b)[|t + b| - DisplayLimit..] == (a + b)[|a + b| - DisplayLimit..];
    } else if |a + b| > DisplayLimit {
      assert |t| == DisplayLimit;
    }
  }

  /** `arrayBufferToHex`: each byte as two lower-case digits, joined by spaces. */
  function ArrayBufferToHex(bytes: seq<byte>): (r: string)
    ensures |r| == if bytes == [] then 0 else 3 * |bytes| - 1
  {
    TextFormat.HexJoin(bytes, ' ', false)
  }

  /** The hex view can be read back into the bytes it shows. */
  lemma HexViewRoundTrip(bytes: seq<byte>)
    ensures TextFormat.HexSplit(ArrayBufferToHex(bytes)) == seq(|bytes|, k requires 0 <= k < |bytes| => bytes[k] as int)
  {
    TextFormat.HexSplitJoin(bytes, ' ', false);
  }

  /** Byte k is shown at 3k, lower case, with a space after all but the last. */
  lemma HexViewLayout(bytes: seq<byte>, k: nat)
    requires k < |bytes|
    ensures ArrayBufferToHex(bytes)[3 * k..3 * k + 2] == TextFormat.HexPair(bytes[k], false)
    ensures k < |bytes| - 1 ==> ArrayBufferToHex(bytes)[3 * k + 2] == ' '
  {
    TextFormat.HexJoinAt(bytes, ' ', false, k);
  }

  /** The text a chunk adds: what the decoder returns, or the hex view when
      the decoder throws (`None`). */
  function DecodedText(data: seq<byte>, decoded: Option<string>): string
  {
    match decoded
    case Some(text) => text
    case None => ArrayBufferToHex(data)
  }

  /** What `sendData` does: refuse without a connection, refuse an empty
      input, or write the input with a newline. */
  datatype SendOutcome = NotConnected | NothingToSend | Sent(payload: string)

  class COMPortManager {
    /** `this.port !== null`. */
    var hasPort: bool
    var isConnected: bool
    var isPaused: bool
    var receivedBytes: nat
    /** The text on screen. */
    var buffer: string
    /** Everything received since the last clear, for saving. */
    var dataBuffer: string

    /** The screen shows the last 10000 characters of the capture. */
    ghost predicate Valid()
      reads this
    {
      buffer == Trimmed(dataBuffer)
    }

    constructor ()
      ensures Valid()
      ensures !hasPort && !isConnected && !isPaused && receivedBytes == 0
      ensures buffer == "" && dataBuffer == ""
    {
      hasPort := false;
      isConnected := false;
      isPaused := false;
      receivedBytes := 0;
      buffer := "";
      dataBuffer := "";
    }

    /** `connect`: the chosen port is kept even when opening it fails; only
        an opened port marks the manager connected.  `chosen` is false when
        the port dialog was dismissed. */
    method Connect(chosen: bool, openOk: bool)
      modifies this`hasPort, this`isConnected
      ensures hasPort == (old(hasPort) || chosen)
      ensures isConnected == (old(isConnected) || (chosen && openOk))
    {
      if chosen {
        hasPort := true;
        if openOk {
          isConnected := true;
        }
      }
    }

    /** `disconnect`: the port object is kept; the flag drops unless closing threw. */
    method Disconnect(closed: bool)
      modifies this`isConnected
      ensures isConnected == (old(isConnected) && !closed)
    {
      if closed {
        isConnected := false;
      }
    }

    /** `displayData`: trim the on-screen buffer to the limit. */
    method DisplayData()
      modifies this`buffer
      ensures buffer == Trimmed(old(buffer))
    {
      buffer := Trimmed(buffer);
    }

    /** `processData`: count the bytes, append the decoded text to both buffers, display. */
    method ProcessData(data: seq<byte>, decoded: Option<string>)
      requires Valid()
      modifies this`receivedBytes, this`buffer, this`dataBuffer
      ensures Valid()
      ensures receivedBytes == old(receivedBytes) + |data|
      ensures dataBuffer == old(dataBuffer) + DecodedText(data, decoded)
      ensures buffer == Trimmed(old(dataBuffer) + DecodedText(data, decoded))
    {
      receivedBytes := receivedBytes + |data|;
      var decodedData := DecodedText(data, decoded);
      TrimAppend(dataBuffer, decodedData);
      buffer := buffer + decodedData;
      dataBuffer := dataBuffer + decodedData;
      DisplayData();
    }

    /** One read of the `readData` loop: a chunk is processed unless the
        monitor is paused; a paused chunk is dropped, not queued. */
    method OnRead(value: Option<seq<byte>>, decoded: Option<string>)
      requires Valid()
      modifies this`receivedBytes, this`buffer, this`dataBuffer
      ensures Valid()
      ensures (value.None? || old(isPaused)) ==>
        receivedBytes == old(receivedBytes) && buffer == old(buffer) && dataBuffer == old(dataBuffer)
      ensures value.Some? && !old(isPaused) ==>
        && receivedBytes == old(receivedBytes) + |value.value|
        && dataBuffer == old(dataBuffer) + DecodedText(value.value, decoded)
    {
      if value.Some? && !isPaused {
        ProcessData(value.value, decoded);
      }
    }

    /** `clearData`: empty both buffers and reset the counter. */
    method ClearData()
      modifies this`buffer, this`dataBuffer, this`receivedBytes
      ensures Valid()
      ensures buffer == "" && dataBuffer == "" && receivedBytes == 0
    {
      buffer := "";
      dataBuffer := "";
      receivedBytes := 0;
    }

    /** `togglePause`. */
    method TogglePause()
      modifies this`isPaused
      ensures isPaused == !old(isPaused)
    {
      isPaused := !isPaused;
    }

    /** `sendData`: the connection is checked before the input; what is
        written is the input followed by a newline. */
    method SendData(input: string) returns (outcome: SendOutcome)
      ensures outcome == NotConnected <==> !isConnected || !hasPort
      ensures outcome == NothingToSend <==> isConnected && hasPort && input == ""
      ensures outcome.Sent? ==> outcome.payload == input + "\n"
    {
      if !isConnected || !hasPort {
        return NotConnected;
      }
      if input == "" {
        return NothingToSend;
      }
      outcome := Sent(input + "\n");
    }
  }
}
