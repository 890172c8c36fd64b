/**
 * Packet framing and the handshake of the Server List Ping exchange
 * (minecraft.go:48-64, 90).
 */
module Packet {
  import opened Results
  import opened VarInt

  /** A Go `uint16`. */
  type uint16 = p: int | 0 <= p < 0x1_0000

  /** createPacket: VarInt(length of VarInt(id) ++ data) ++ VarInt(id) ++ data. */
  function CreatePacket(packetId: int, data: seq<byte>): seq<byte>
  {
    var payload := EncodeVarInt(packetId) + data;
    EncodeVarInt(|payload|) + payload
  }

  /**
   * Unframing what createPacket framed: the leading VarInt reads back as the
   * payload length, the next as the packet id (both reduced to 32 bits, so
   * exactly for ids and lengths below 2^32), and the data follows them.
   */
  lemma FrameRoundTrip(packetId: int, data: seq<byte>, rest: seq<byte>)
    ensures var p := CreatePacket(packetId, data) + rest;
      var idBytes := |EncodeVarInt(packetId)|;
      var n := |EncodeVarInt(idBytes + |data|)|;
      && DecodeVarInt(p) == Success(Decoded((idBytes + |data|) % 0x1_0000_0000, n))
      && DecodeVarInt(p[n..]) == Success(Decoded(packetId % 0x1_0000_0000, idBytes))
      && p[n + idBytes..] == data + rest
  {
    var afterLength := FrameLength(packetId, data, rest);
    FrameId(packetId, data, rest, afterLength);
  }

  /** The leading VarInt of a frame reads back as the payload length; what follows is the payload. */
  lemma FrameLength(packetId: int, data: seq<byte>, rest: seq<byte>) returns (afterLength: seq<byte>)
    ensures afterLength == EncodeVarInt(packetId) + (data + rest)
    ensures var p := CreatePacket(packetId, data) + rest;
      var len := |EncodeVarInt(packetId)| + |data|;
      && DecodeVarInt(p) == Success(Decoded(len % 0x1_0000_0000, |EncodeVarInt(len)|))
      && p[|EncodeVarInt(len)|..] == afterLength
  {
    var idBytes := EncodeVarInt(packetId);
    var lengthBytes := EncodeVarInt(|idBytes| + |data|);
    afterLength := idBytes + (data + rest);
    var p := CreatePacket(packetId, data) + rest;
    assert p == lengthBytes + afterLength;
    VarIntRoundTrip(|idBytes| + |data|, afterLength);
  }

  /** After the length, the packet id reads back and the data follows it. */
  lemma FrameId(packetId: int, data: seq<byte>, rest: seq<byte>, afterLength: seq<byte>)
    requires afterLength == EncodeVarInt(packetId) + (data + rest)
    ensures DecodeVarInt(afterLength) == Success(Decoded(packetId % 0x1_0000_0000, |EncodeVarInt(packetId)|))
    ensures afterLength[|EncodeVarInt(packetId)|..] == data + rest
  {
    VarIntRoundTrip(packetId, data + rest);
  }

  /** The status request `createPacket(0x00, [])` is the two bytes 0x01 0x00. */
  lemma StatusRequestBytes()
    ensures CreatePacket(0x00, []) == [0x01, 0x00]
  {
  }

  /**
   * The handshake payload as laid out on the wire: protocol version 765 as a
   * VarInt (0xFD 0x05), the host's byte length as a VarInt, the host bytes,
   * the port big-endian, and next state 1 (status).
   */
  function HandshakePayload(host: seq<byte>, port: uint16): seq<byte>
  {
    [0xFD, 0x05] + EncodeVarInt(|host|) + host + [port / 0x100, port % 0x100, 0x01]
  }

  /**
   * createHandshakePacket: the fields written one after another into a
   * buffer, then framed with packet id 0x00. `host` stands for the UTF-8
   * bytes of the Go string, whose `len` is its byte count.
   */
  method CreateHandshakePacket(host: seq<byte>, port: uint16) returns (packet: seq<byte>)
    ensures packet == CreatePacket(0x00, HandshakePayload(host, port))
  {
    var protocolVersion := 765;
    var data: seq<byte> := [];
    var version := WriteVarInt(protocolVersion);
    data := data + version;
    var hostLength := WriteVarInt(|host|);
    data := data + hostLength;
    data := data + host;
    data := data + [port / 0x100, port % 0x100];
    var nextState := WriteVarInt(1);
    data := data + nextState;
    HandshakeLayout(version, hostLength, nextState, host, port);
    packet := CreatePacket(0x00, data);
  }

  /** The buffer written field by field is the handshake payload. */
  lemma HandshakeLayout(version: seq<byte>, hostLength: seq<byte>, nextState: seq<byte>, host: seq<byte>, port: uint16)
    requires version == EncodeVarInt(765) && hostLength == EncodeVarInt(|host|) && nextState == EncodeVarInt(1)
    ensures [] + version + hostLength + host + [port / 0x100, port % 0x100] + nextState == HandshakePayload(host, port)
  {
    VersionBytes();
    var portBytes: seq<byte> := [port / 0x100, port % 0x100];
    var tail := portBytes + nextState;
    assert tail == [port / 0x100, port % 0x100, 0x01];
    assert [] + version == version;
    assert version + hostLength + host + portBytes + nextState == version + hostLength + host + tail;
  }

  /**
   * A server reading the handshake payload field by field gets back protocol
   * version 765, the host's length and bytes, the port and next state 1.
   */
  lemma HandshakeFields(host: seq<byte>, port: uint16)
    requires |host| < 0x1_0000_0000
    ensures var p := HandshakePayload(host, port);
      var h := 2 + |EncodeVarInt(|host|)|;
      var q := h + |host|;
      && |p| == q + 3
      && DecodeVarInt(p) == Success(Decoded(765, 2))
      && DecodeVarInt(p[2..]) == Success(Decoded(|host|, h - 2))
      && p[h..q] == host
      && (p[q] as int) * 0x100 + (p[q + 1] as int) == port
      && DecodeVarInt(p[q + 2..]) == Success(Decoded(1, 1))
  {
    HandshakeHead(host, port);
    HandshakeTail(host, port);
  }

  lemma HandshakeHead(host: seq<byte>, port: uint16)
    requires |host| < 0x1_0000_0000
    ensures var p := HandshakePayload(host, port);
      && DecodeVarInt(p) == Success(Decoded(765, 2))
      && DecodeVarInt(p[2..]) == Success(Decoded(|host|, |EncodeVarInt(|host|)|))
  {
    var lengthBytes := EncodeVarInt(|host|);
    var tail: seq<byte> := [port / 0x100, port % 0x100, 0x01];
    var p := HandshakePayload(host, port);
    var afterVersion := lengthBytes + (host + tail);
    VersionBytes();
    assert p == EncodeVarInt(765) + afterVersion;
    VarIntRoundTrip(765, afterVersion);
    assert p[2..] == afterVersion;
    VarIntRoundTripUnsigned(|host|, host + tail);
    assert DecodeVarInt(afterVersion) == Success(Decoded(|host|, |lengthBytes|));
  }

  /** Protocol version 765 is the VarInt 0xFD 0x05. */
  lemma VersionBytes()
    ensures EncodeVarInt(765) == [0xFD, 0x05]
  {
    assert NextGroup(765) == 5;
  }

  lemma HandshakeTail(host: seq<byte>, port: uint16)
    ensures var p := HandshakePayload(host, port);
      var q := 2 + |EncodeVarInt(|host|)| + |host|;
      && |p| == q + 3
      && p[q - |host|..q] == host
      && (p[q] as int) * 0x100 + (p[q + 1] as int) == port
      && DecodeVarInt(p[q + 2..]) == Success(Decoded(1, 1))
  {
  }
}
