/** The in-memory stand-in for an OS socket and the reliability layer `Socket` wrapped around it. */
module Sockets {
  import opened Wrappers
  import opened Binary
  import opened Values

  /** `n` copies of `s`, one after the other. */
  function Repeat(s: Bytes, n: nat): (r: Bytes)
    ensures |r| == |s| * n
  {
    if n == 0 then [] else Repeat(s, n - 1) + s
  }

  function Min(a: int, b: int): int
  {
    if a <= b then a else b
  }

  /** MockPythonSocket: whatever is sent lands in one buffer, and receiving reads it back. */
  class MockPythonSocket {
    var sendBuffer: Bytes       // `_send`
    var sendallBuffer: Bytes    // `_sendall`
    var listening: bool         // `_listen`
    var connected: bool         // `_isconnected`
    var closed: bool            // `_closed`
    var sockname: Option<(Value, Value)>   // `_sockname`, absent until `bind`

    constructor ()
      ensures sendBuffer == [] && sendallBuffer == []
      ensures !listening && !connected && !closed && sockname == None
    {
      sendBuffer := [];
      sendallBuffer := [];
      listening := false;
      connected := false;
      closed := false;
      sockname := None;
    }

    /** `bind(address)`: the address must be a pair; an empty host is recorded as `0.0.0.0`. */
    method Bind(address: seq<Value>) returns (o: Outcome)
      modifies this
      ensures |address| != 2 ==> o == Fail(TypeError) && sockname == old(sockname)
      ensures |address| == 2 ==>
                o == Pass &&
                sockname == Some((if address[0] == Str("") then Str("0.0.0.0") else address[0], address[1]))
      ensures sendBuffer == old(sendBuffer) && sendallBuffer == old(sendallBuffer)
      ensures listening == old(listening) && connected == old(connected) && closed == old(closed)
    {
      if |address| != 2 {
        return Fail(TypeError);
      }
      if address[0] == Str("") {
        sockname := Some((Str("0.0.0.0"), address[1]));
      } else {
        sockname := Some((address[0], address[1]));
      }
      return Pass;
    }

    method Listen()
      modifies this
      ensures listening
      ensures sendBuffer == old(sendBuffer) && sendallBuffer == old(sendallBuffer) && sockname == old(sockname)
      ensures connected == old(connected) && closed == old(closed)
    {
      listening := true;
    }

    /** `accept()`: the mock is its own peer, and the peer address is always `0.0.0.0`. */
    method Accept() returns (conn: MockPythonSocket, address: string)
      ensures conn == this && address == "0.0.0.0"
    {
      return this, "0.0.0.0";
    }

    /** `getsockname()`: the recorded name; before any `bind` the attribute does not exist. */
    method GetSockName() returns (r: Result<(Value, Value)>)
      ensures sockname.Some? ==> r == Ok(sockname.value)
      ensures sockname.None? ==> r == Err(AttributeError)
    {
      if sockname.None? {
        return Err(AttributeError);
      }
      return Ok(sockname.value);
    }

    method Connect()
      modifies this
      ensures connected
      ensures sendBuffer == old(sendBuffer) && sendallBuffer == old(sendallBuffer) && sockname == old(sockname)
      ensures listening == old(listening) && closed == old(closed)
    {
      connected := true;
    }

    /** `send(data)`: appends all of `data` to the buffer and reports its length; only bytes
        can be appended to a bytes buffer. */
    method Send(data: Value) returns (r: Result<nat>)
      modifies this
      ensures data.ByteStr? ==> r == Ok(|data.raw|) && sendBuffer == old(sendBuffer) + data.raw
      ensures !data.ByteStr? ==> r == Err(TypeError) && sendBuffer == old(sendBuffer)
      ensures sendallBuffer == old(sendallBuffer) && sockname == old(sockname)
      ensures listening == old(listening) && connected == old(connected) && closed == old(closed)
    {
      if !data.ByteStr? {
        return Err(TypeError);
      }
      sendBuffer := sendBuffer + data.raw;
      return Ok(|data.raw|);
    }

    /** `sendall(data)`: appends `data` to the separate `_sendall` buffer. */
    method SendAll(data: Value) returns (o: Outcome)
      modifies this
      ensures data.ByteStr? ==> o == Pass && sendallBuffer == old(sendallBuffer) + data.raw
      ensures !data.ByteStr? ==> o == Fail(TypeError) && sendallBuffer == old(sendallBuffer)
      ensures sendBuffer == old(sendBuffer) && sockname == old(sockname)
      ensures listening == old(listening) && connected == old(connected) && closed == old(closed)
    {
      if !data.ByteStr? {
        return Fail(TypeError);
      }
      sendallBuffer := sendallBuffer + data.raw;
      return Pass;
    }

    /** `recv(length)`: removes and returns the first `length` buffered bytes, or all of them
        when fewer are buffered. */
    method Recv(length: nat) returns (chunk: Bytes)
      modifies this
      ensures chunk + sendBuffer == old(sendBuffer)
      ensures |chunk| == Min(length, |old(sendBuffer)|)
      ensures sendallBuffer == old(sendallBuffer) && sockname == old(sockname)
      ensures listening == old(listening) && connected == old(connected) && closed == old(closed)
    {
      var k := Min(length, |sendBuffer|);
      chunk := sendBuffer[..k];
      sendBuffer := sendBuffer[k..];
    }

    method Close()
      modifies this
      ensures closed
      ensures sendBuffer == old(sendBuffer) && sendallBuffer == old(sendallBuffer) && sockname == old(sockname)
      ensures listening == old(listening) && connected == old(connected)
    {
      closed := true;
    }
  }

  /** Socket: delegates to the socket it wraps and adds the two looping transfer primitives. */
  class Socket {
    const socket: MockPythonSocket

    constructor (s: MockPythonSocket)
      ensures socket == s
    {
      socket := s;
    }

    method Bind(address: seq<Value>) returns (o: Outcome)
      modifies socket
      ensures |address| != 2 ==> o == Fail(TypeError) && socket.sockname == old(socket.sockname)
      ensures |address| == 2 ==>
                o == Pass &&
                socket.sockname
                == Some((if address[0] == Str("") then Str("0.0.0.0") else address[0], address[1]))
      ensures socket.sendBuffer == old(socket.sendBuffer) && socket.sendallBuffer == old(socket.sendallBuffer)
      ensures socket.listening == old(socket.listening) && socket.connected == old(socket.connected)
      ensures socket.closed == old(socket.closed)
    {
      o := socket.Bind(address);
    }

    method Listen()
      modifies socket
      ensures socket.listening
      ensures socket.sendBuffer == old(socket.sendBuffer) && socket.sendallBuffer == old(socket.sendallBuffer)
      ensures socket.sockname == old(socket.sockname)
      ensures socket.connected == old(socket.connected) && socket.closed == old(socket.closed)
    {
      socket.Listen();
    }

    /** `accept()`: the accepted connection, wrapped in a new `Socket`, and the peer address. */
    method Accept() returns (conn: Socket, address: string)
      ensures fresh(conn) && conn.socket == socket && address == "0.0.0.0"
    {
      var s;
      s, address := socket.Accept();
      conn := new Socket(s);
    }

    method GetSockName() returns (r: Result<(Value, Value)>)
      ensures socket.sockname.Some? ==> r == Ok(socket.sockname.value)
      ensures socket.sockname.None? ==> r == Err(AttributeError)
    {
      r := socket.GetSockName();
    }

    method Connect()
      modifies socket
      ensures socket.connected
      ensures socket.sendBuffer == old(socket.sendBuffer) && socket.sendallBuffer == old(socket.sendallBuffer)
      ensures socket.sockname == old(socket.sockname)
      ensures socket.listening == old(socket.listening) && socket.closed == old(socket.closed)
    {
      socket.Connect();
    }

    method Send(data: Value) returns (r: Result<nat>)
      modifies socket
      ensures data.ByteStr? ==> r == Ok(|data.raw|) && socket.sendBuffer == old(socket.sendBuffer) + data.raw
      ensures !data.ByteStr? ==> r == Err(TypeError) && socket.sendBuffer == old(socket.sendBuffer)
      ensures socket.sendallBuffer == old(socket.sendallBuffer) && socket.sockname == old(socket.sockname)
      ensures socket.listening == old(socket.listening) && socket.connected == old(socket.connected)
      ensures socket.closed == old(socket.closed)
    {
      r := socket.Send(data);
    }

    method SendAll(data: Value) returns (o: Outcome)
      modifies socket
      ensures data.ByteStr? ==> o == Pass && socket.sendallBuffer == old(socket.sendallBuffer) + data.raw
      ensures !data.ByteStr? ==> o == Fail(TypeError) && socket.sendallBuffer == old(socket.sendallBuffer)
      ensures socket.sendBuffer == old(socket.sendBuffer) && socket.sockname == old(socket.sockname)
      ensures socket.listening == old(socket.listening) && socket.connected == old(socket.connected)
      ensures socket.closed == old(socket.closed)
    {
      o := socket.SendAll(data);
    }

    method Recv(length: nat) returns (chunk: Bytes)
      modifies socket
      ensures chunk + socket.sendBuffer == old(socket.sendBuffer)
      ensures |chunk| == Min(length, |old(socket.sendBuffer)|)
      ensures socket.sendallBuffer == old(socket.sendallBuffer) && socket.sockname == old(socket.sockname)
      ensures socket.listening == old(socket.listening) && socket.connected == old(socket.connected)
      ensures socket.closed == old(socket.closed)
    {
      chunk := socket.Recv(length);
    }

    method Close()
      modifies socket
      ensures socket.closed
      ensures socket.sendBuffer == old(socket.sendBuffer) && socket.sendallBuffer == old(socket.sendallBuffer)
      ensures socket.sockname == old(socket.sockname)
      ensures socket.listening == old(socket.listening) && socket.connected == old(socket.connected)
    {
      socket.Close();
    }

    /** `check_sended(data)`: keeps calling `send` on the part not yet confirmed until every
        byte of `data` is out; anything but bytes is refused before sending. */
    method CheckSended(data: Value) returns (o: Outcome)
      modifies socket
      ensures !data.ByteStr? ==> o == Fail(TypeError) && socket.sendBuffer == old(socket.sendBuffer)
      ensures data.ByteStr? ==> o == Pass && socket.sendBuffer == old(socket.sendBuffer) + data.raw
      ensures socket.sendallBuffer == old(socket.sendallBuffer) && socket.sockname == old(socket.sockname)
      ensures socket.listening == old(socket.listening) && socket.connected == old(socket.connected)
      ensures socket.closed == old(socket.closed)
    {
      if !data.ByteStr? {
        return Fail(TypeError);
      }
      var raw := data.raw;
      var sent := 0;
      while sent < |raw|
        invariant 0 <= sent <= |raw|
        invariant socket.sendBuffer == old(socket.sendBuffer) + raw[..sent]
        invariant socket.sendallBuffer == old(socket.sendallBuffer) && socket.sockname == old(socket.sockname)
        invariant socket.listening == old(socket.listening) && socket.connected == old(socket.connected)
        invariant socket.closed == old(socket.closed)
        decreases |raw| - sent
      {
        var n := socket.Send(ByteStr(raw[sent..]));
        assert raw[..sent] + raw[sent..] == raw;
        sent := sent + n.value;
      }
      assert raw[..sent] == raw;
      return Pass;
    }

    /** `check_received_length(length)`: receives in chunks of at most `chunk` bytes, asking
        only for what is still missing once fewer than `chunk` remain, until `length` bytes
        have arrived. A receive that returns nothing means the peer has gone. */
    method CheckReceivedLength(length: int, chunk: nat) returns (r: Result<Bytes>)
      requires chunk > 0
      modifies socket
      ensures length <= 0 ==> r == Ok([]) && socket.sendBuffer == old(socket.sendBuffer)
      ensures 0 <= length <= |old(socket.sendBuffer)| ==>
                r == Ok(old(socket.sendBuffer)[..length]) && socket.sendBuffer == old(socket.sendBuffer)[length..]
      ensures length > |old(socket.sendBuffer)| ==> r == Err(ConnectionClosed) && socket.sendBuffer == []
      ensures socket.sendallBuffer == old(socket.sendallBuffer) && socket.sockname == old(socket.sockname)
      ensures socket.listening == old(socket.listening) && socket.connected == old(socket.connected)
      ensures socket.closed == old(socket.closed)
    {
      var received: Bytes := [];
      while |received| < length
        invariant received + socket.sendBuffer == old(socket.sendBuffer)
        invariant length <= 0 ==> received == []
        invariant length > 0 ==> |received| <= length
        invariant socket.sendallBuffer == old(socket.sendallBuffer) && socket.sockname == old(socket.sockname)
        invariant socket.listening == old(socket.listening) && socket.connected == old(socket.connected)
        invariant socket.closed == old(socket.closed)
        decreases length - |received|
      {
        var ask := if |received| < length - chunk then chunk else length - |received|;
        var part := socket.Recv(ask);
        if part == [] {
          return Err(ConnectionClosed);
        }
        received := received + part;
      }
      assert received == old(socket.sendBuffer)[..|received|];
      return Ok(received);
    }
  }

  /** The mock half of `test_base_fun`, driven through `Socket`: bind to `('', 5544)`, listen,
      read the name, accept, connect, send and sendall `test`, receive 4 bytes, close. */
  method BaseFunScenario()
    returns (listening: bool, name: Result<(Value, Value)>, peerAddress: string, connected: bool,
             sentAfterSend: Bytes, sentAfterSendAll: Bytes, sentAfterRecv: Bytes, closed: bool)
    ensures listening && connected && closed
    ensures name == Ok((Str("0.0.0.0"), Int(5544)))
    ensures peerAddress == "0.0.0.0"
    ensures sentAfterSend == [116, 101, 115, 116] && sentAfterSendAll == [116, 101, 115, 116]
    ensures sentAfterRecv == []
  {
    var peer := new MockPythonSocket();
    var s := new Socket(peer);
    var o := s.Bind([Str(""), Int(5544)]);
    s.Listen();
    listening := peer.listening;
    name := s.GetSockName();
    var conn;
    conn, peerAddress := s.Accept();
    s.Connect();
    connected := peer.connected;
    var n := s.Send(ByteStr([116, 101, 115, 116]));
    sentAfterSend := peer.sendBuffer;
    var p := s.SendAll(ByteStr([116, 101, 115, 116]));
    sentAfterSendAll := peer.sendallBuffer;
    var chunk := s.Recv(4);
    sentAfterRecv := peer.sendBuffer;
    s.Close();
    closed := peer.closed;
  }

  /** Bytes handed to `check_sended` come back unchanged from `check_received_length` on the
      same mock, and nothing stays buffered. */
  method SendThenReceive(data: Bytes, chunk: nat) returns (r: Result<Bytes>, left: Bytes)
    requires chunk > 0
    ensures r == Ok(data) && left == []
  {
    var peer := new MockPythonSocket();
    var s := new Socket(peer);
    var o := s.CheckSended(ByteStr(data));
    assert peer.sendBuffer == data;
    r := s.CheckReceivedLength(|data|, chunk);
    assert data[..|data|] == data;
    left := peer.sendBuffer;
  }

  /** The test scenario: 1025 sends of `test`, then one `check_received_length(4100)` with a
      1024-byte receive cap, drains exactly what was sent. */
  method ManySendsDrained() returns (r: Result<Bytes>, left: Bytes)
    ensures r == Ok(Repeat([116, 101, 115, 116], 1025)) && left == []
  {
    var peer := new MockPythonSocket();
    var s := new Socket(peer);
    var i := 0;
    while i < 1025
      invariant 0 <= i <= 1025
      invariant peer.sendBuffer == Repeat([116, 101, 115, 116], i)
    {
      var n := s.Send(ByteStr([116, 101, 115, 116]));
      i := i + 1;
    }
    ghost var sent := peer.sendBuffer;
    assert |sent| == 4100;
    r := s.CheckReceivedLength(4100, 1024);
    assert sent[..4100] == sent;
    left := peer.sendBuffer;
  }
}
