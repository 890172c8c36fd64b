/**
 * What getPingResult does with the server's reply once the connection is
 * open (minecraft.go:97-137): read one framed status response, take the
 * JSON bytes it declares, decode them and strip the favicon and the Forge
 * mod list.
 */
module Status {
  import opened Results
  import opened VarInt
  import opened Packet

  /** Why reading the JSON content with io.ReadFull failed: nothing arrived, or only part of it. */
  datatype ShortRead = EOF | UnexpectedEOF

  /** Each early return of the response reader, in the order getPingResult checks them. */
  datatype ResponseError =
    | PacketLengthError(cause: VarIntError)
    | PacketIdError(cause: VarIntError)
    | UnexpectedPacketId(id: int)
    | JsonLengthError(cause: VarIntError)
    | InvalidJsonLength
    | JsonContentError(short: ShortRead)
    | MalformedJson

  /**
   * Reads a status response from the bytes the connection delivers: the
   * packet length (read and not checked), then the rest of the packet.
   */
  function ParseStatusResponse(s: seq<byte>): Result<seq<byte>, ResponseError>
  {
    match DecodeVarInt(s)
    case Failure(e) => Failure(PacketLengthError(e))
    case Success(packetLength) => ReadPacketBody(s[packetLength.length..])
  }

  /** After the packet length: the packet id, which must be 0, then the JSON string. */
  function ReadPacketBody(s: seq<byte>): Result<seq<byte>, ResponseError>
  {
    match DecodeVarInt(s)
    case Failure(e) => Failure(PacketIdError(e))
    case Success(packetId) =>
      if packetId.value != 0x00 then Failure(UnexpectedPacketId(packetId.value))
      else ReadJsonString(s[packetId.length..])
  }

  /** After the packet id: the JSON length, which must be positive, then exactly that many bytes. */
  function ReadJsonString(s: seq<byte>): Result<seq<byte>, ResponseError>
  {
    match DecodeVarInt(s)
    case Failure(e) => Failure(JsonLengthError(e))
    case Success(jsonLength) =>
      if jsonLength.value <= 0 then Failure(InvalidJsonLength)
      else
        var content := s[jsonLength.length..];
        if |content| < jsonLength.value then
          Failure(JsonContentError(if |content| == 0 then EOF else UnexpectedEOF))
        else Success(content[..jsonLength.value])
  }

  /** Reading the packet length of what writeVarInt wrote leaves the reader right after it. */
  lemma SkipPacketLength(packetLength: int, t: seq<byte>)
    ensures ParseStatusResponse(EncodeVarInt(packetLength) + t) == ReadPacketBody(t)
  {
    VarIntRoundTrip(packetLength, t);
    assert (EncodeVarInt(packetLength) + t)[|EncodeVarInt(packetLength)|..] == t;
  }

  /**
   * The reply a conforming server sends, a status packet holding the JSON
   * length and the JSON, followed by anything, reads back as exactly that
   * JSON.
   */
  lemma ResponseRoundTrip(json: seq<byte>, rest: seq<byte>)
    requires 0 < |json| < 0x1_0000_0000
    ensures ParseStatusResponse(CreatePacket(0x00, EncodeVarInt(|json|) + json) + rest) == Success(json)
  {
    var packetLength := ResponseLayout(EncodeVarInt(|json|) + json, rest);
    SkipPacketLength(packetLength, [0x00] + (EncodeVarInt(|json|) + json + rest));
    PacketBodyRoundTrip(json, rest);
  }

  /** A status packet is its length prefix, the id byte 0x00 and the data. */
  lemma ResponseLayout(data: seq<byte>, rest: seq<byte>) returns (packetLength: int)
    ensures CreatePacket(0x00, data) + rest == EncodeVarInt(packetLength) + ([0x00] + (data + rest))
  {
    assert EncodeVarInt(0x00) == [0x00];
    var payload := [0x00] + data;
    packetLength := |payload|;
    var lengthPrefix := EncodeVarInt(packetLength);
    assert CreatePacket(0x00, data) == lengthPrefix + payload;
    assert payload + rest == [0x00] + (data + rest);
  }

  lemma PacketBodyRoundTrip(json: seq<byte>, rest: seq<byte>)
    requires 0 < |json| < 0x1_0000_0000
    ensures ReadPacketBody([0x00] + (EncodeVarInt(|json|) + json + rest)) == Success(json)
  {
    var t := EncodeVarInt(|json|) + json + rest;
    assert DecodeVarInt([0x00] + t) == Success(Decoded(0, 1));
    assert ([0x00] + t)[1..] == t;
    JsonStringRoundTrip(json, rest);
  }

  lemma JsonStringRoundTrip(json: seq<byte>, rest: seq<byte>)
    requires 0 < |json| < 0x1_0000_0000
    ensures ReadJsonString(EncodeVarInt(|json|) + json + rest) == Success(json)
  {
    var lengthBytes := EncodeVarInt(|json|);
    var t := lengthBytes + (json + rest);
    assert lengthBytes + json + rest == t;
    VarIntRoundTripUnsigned(|json|, json + rest);
    assert DecodeVarInt(t) == Success(Decoded(|json|, |lengthBytes|));
    assert t[|lengthBytes|..] == json + rest;
    assert (json + rest)[..|json|] == json;
  }

  /** The leading packet length is never checked: any value there reads the same. */
  lemma PacketLengthIgnored(a: int, b: int, t: seq<byte>)
    ensures ParseStatusResponse(EncodeVarInt(a) + t) == ParseStatusResponse(EncodeVarInt(b) + t)
  {
    SkipPacketLength(a, t);
    SkipPacketLength(b, t);
  }

  /**
   * A packet id that reads as anything but 0, in whatever encoding, is
   * rejected with the value read.
   */
  lemma UnexpectedIdRejected(s: seq<byte>, a: nat, b: nat, id: int)
    requires DecodeVarInt(s).Success? && DecodeVarInt(s).value.length == a
    requires a <= |s| && DecodeVarInt(s[a..]) == Success(Decoded(id, b)) && id != 0
    ensures ParseStatusResponse(s) == Failure(UnexpectedPacketId(id))
  {
  }

  /** A JSON length that reads as 0, in whatever encoding, is rejected as invalid. */
  lemma ZeroJsonLengthRejected(s: seq<byte>, a: nat, b: nat, c: nat)
    requires DecodeVarInt(s).Success? && DecodeVarInt(s).value.length == a
    requires a + b <= |s| && DecodeVarInt(s[a..]) == Success(Decoded(0, b))
    requires DecodeVarInt(s[a + b..]) == Success(Decoded(0, c))
    ensures ParseStatusResponse(s) == Failure(InvalidJsonLength)
  {
    var u := JsonStringAfter(s, a, b);
  }

  /** In particular, the canonical encodings of a non-zero id below 2^32 and of a zero length. */
  lemma CanonicalRejections(packetLength: int, id: int, t: seq<byte>)
    requires 0 < id < 0x1_0000_0000
    ensures ParseStatusResponse(EncodeVarInt(packetLength) + EncodeVarInt(id) + t) == Failure(UnexpectedPacketId(id))
    ensures ParseStatusResponse(EncodeVarInt(packetLength) + [0x00, 0x00] + t) == Failure(InvalidJsonLength)
  {
    var s := EncodeVarInt(packetLength) + EncodeVarInt(id) + t;
    var a := |EncodeVarInt(packetLength)|;
    VarIntRoundTrip(packetLength, EncodeVarInt(id) + t);
    assert s == EncodeVarInt(packetLength) + (EncodeVarInt(id) + t);
    assert s[a..] == EncodeVarInt(id) + t;
    VarIntRoundTripUnsigned(id, t);
    UnexpectedIdRejected(s, a, |EncodeVarInt(id)|, id);

    var z := EncodeVarInt(packetLength) + [0x00, 0x00] + t;
    VarIntRoundTrip(packetLength, [0x00, 0x00] + t);
    assert z == EncodeVarInt(packetLength) + ([0x00, 0x00] + t);
    var body: seq<byte> := [0x00, 0x00] + t;
    assert z[a..] == body && body[1..] == [0x00] + t && z[a + 1..] == [0x00] + t;
    assert DecodeVarInt(body) == Success(Decoded(0, 1));
    assert DecodeVarInt([0x00] + t) == Success(Decoded(0, 1));
    ZeroJsonLengthRejected(z, a, 1, 1);
  }

  /**
   * What a successful read took from the input: the packet length (`a`
   * bytes), a packet id that reads as 0 (`b` bytes), a JSON length that
   * reads as the size of the result (`c` bytes), and then the result itself,
   * the bytes right after them. Whatever arrives after those bytes is never
   * read.
   */
  lemma ParsedContent(s: seq<byte>, more: seq<byte>) returns (a: nat, b: nat, c: nat)
    requires ParseStatusResponse(s).Success?
    ensures var json := ParseStatusResponse(s).value;
      && DecodeVarInt(s).Success? && DecodeVarInt(s).value.length == a
      && a + b + c + |json| <= |s|
      && DecodeVarInt(s[a..]) == Success(Decoded(0, b))
      && DecodeVarInt(s[a + b..]) == Success(Decoded(|json|, c))
      && 0 < |json| && s[a + b + c..a + b + c + |json|] == json
      && ParseStatusResponse(s + more) == ParseStatusResponse(s)
  {
    a, b, c := ParsedFields(s);
    ParsedExtend(s, more);
  }

  lemma ParsedFields(s: seq<byte>) returns (a: nat, b: nat, c: nat)
    requires ParseStatusResponse(s).Success?
    ensures var json := ParseStatusResponse(s).value;
      && DecodeVarInt(s).Success? && DecodeVarInt(s).value.length == a
      && a + b + c + |json| <= |s|
      && DecodeVarInt(s[a..]) == Success(Decoded(0, b))
      && DecodeVarInt(s[a + b..]) == Success(Decoded(|json|, c))
      && 0 < |json| && s[a + b + c..a + b + c + |json|] == json
  {
    var json := ParseStatusResponse(s).value;
    a := DecodeVarInt(s).value.length;
    var t := s[a..];
    assert ParseStatusResponse(s) == ReadPacketBody(t);
    b := DecodeVarInt(t).value.length;
    var u := s[a + b..];
    assert t[b..] == u;
    assert ReadPacketBody(t) == ReadJsonString(u);
    c := DecodeVarInt(u).value.length;
    assert u[c..][..|json|] == s[a + b + c..a + b + c + |json|];
  }

  /**
   * Conversely, input that starts with any packet length, a packet id
   * reading as 0 and a positive JSON length n, all three in any encoding the
   * reader accepts, reads as the n bytes after them when they all arrive...
   */
  lemma ParseFromFields(s: seq<byte>, a: nat, b: nat, c: nat, n: int)
    requires 0 < n && a + b + c + n <= |s|
    requires DecodeVarInt(s).Success? && DecodeVarInt(s).value.length == a
    requires DecodeVarInt(s[a..]) == Success(Decoded(0, b))
    requires DecodeVarInt(s[a + b..]) == Success(Decoded(n, c))
    ensures ParseStatusResponse(s) == Success(s[a + b + c..a + b + c + n])
  {
    var u := JsonStringAfter(s, a, b);
    JsonStringFields(u, c, n);
    assert u[c..c + n] == s[a + b + c..a + b + c + n];
  }

  /** The JSON string reader, once its length has been read as n > 0. */
  lemma JsonStringFields(u: seq<byte>, c: nat, n: int)
    requires 0 < n && c <= |u| && DecodeVarInt(u) == Success(Decoded(n, c))
    ensures ReadJsonString(u) ==
      if c + n <= |u| then Success(u[c..c + n])
      else Failure(JsonContentError(if |u| == c then EOF else UnexpectedEOF))
  {
    var content := u[c..];
    if c + n <= |u| {
      assert content[..n] == u[c..c + n];
    }
  }

  /** With a packet id reading as 0 after the packet length, the reader goes on to the JSON string. */
  lemma JsonStringAfter(s: seq<byte>, a: nat, b: nat) returns (u: seq<byte>)
    requires DecodeVarInt(s).Success? && DecodeVarInt(s).value.length == a
    requires a + b <= |s| && DecodeVarInt(s[a..]) == Success(Decoded(0, b))
    ensures u == s[a + b..] && ParseStatusResponse(s) == ReadJsonString(u)
  {
    var t := s[a..];
    assert ParseStatusResponse(s) == ReadPacketBody(t);
    u := t[b..];
    assert u == s[a + b..];
  }

  /**
   * ...and is a short read when fewer than n bytes follow: `EOF` when
   * nothing follows the JSON length, `UnexpectedEOF` when some bytes do.
   */
  lemma ShortJsonRejected(s: seq<byte>, a: nat, b: nat, c: nat, n: int)
    requires 0 < n && a + b + c <= |s| < a + b + c + n
    requires DecodeVarInt(s).Success? && DecodeVarInt(s).value.length == a
    requires DecodeVarInt(s[a..]) == Success(Decoded(0, b))
    requires DecodeVarInt(s[a + b..]) == Success(Decoded(n, c))
    ensures ParseStatusResponse(s) == Failure(JsonContentError(if |s| == a + b + c then EOF else UnexpectedEOF))
  {
    var u := JsonStringAfter(s, a, b);
    JsonStringFields(u, c, n);
  }

  /**
   * Fields are checked by the value read, not by their bytes: a zero JSON
   * length padded to 0x80 0x00 is rejected, a five-byte packet id reading as
   * 2^32 is rejected with that id, and a JSON length of 5 followed by one
   * byte is a short read.
   */
  lemma ReadByValueExamples(t: seq<byte>)
    ensures ParseStatusResponse([0x03, 0x00, 0x80, 0x00] + t) == Failure(InvalidJsonLength)
    ensures ParseStatusResponse([0x05, 0x80, 0x80, 0x80, 0x80, 0x10] + t) == Failure(UnexpectedPacketId(0x1_0000_0000))
    ensures ParseStatusResponse([0x03, 0x00, 0x05, 0x7B]) == Failure(JsonContentError(UnexpectedEOF))
  {
    var s1: seq<byte> := [0x03, 0x00, 0x80, 0x00] + t;
    assert DecodeVarInt(s1) == Success(Decoded(3, 1));
    assert s1[1..] == [0x00, 0x80, 0x00] + t;
    assert DecodeVarInt(s1[1..]) == Success(Decoded(0, 1));
    var z: seq<byte> := [0x80, 0x00];
    assert z[1..] == [0x00];
    assert DecodeVarInt(z) == Success(Decoded(0, 2));
    DecodeExtend(z, t);
    assert s1[1..][1..] == z + t;

    var s2: seq<byte> := [0x05, 0x80, 0x80, 0x80, 0x80, 0x10] + t;
    var id: seq<byte> := [0x80, 0x80, 0x80, 0x80, 0x10];
    assert id[1..][1..][1..][1..] == [0x10];
    assert DecodeVarInt(id) == Success(Decoded(0x1_0000_0000, 5));
    DecodeExtend(id, t);
    assert DecodeVarInt(s2) == Success(Decoded(5, 1));
    assert s2[1..] == id + t;

    var s3: seq<byte> := [0x03, 0x00, 0x05, 0x7B];
    assert s3[1..][1..] == [0x05, 0x7B];
    assert [0x05, 0x7B][1..] == [0x7B];
  }

  lemma ParsedExtend(s: seq<byte>, more: seq<byte>)
    requires ParseStatusResponse(s).Success?
    ensures ParseStatusResponse(s + more) == ParseStatusResponse(s)
  {
    var l := DecodeVarInt(s).value;
    DecodeExtend(s, more);
    var a := s[l.length..];
    assert (s + more)[l.length..] == a + more;
    PacketBodyExtend(a, more);
  }

  lemma PacketBodyExtend(s: seq<byte>, more: seq<byte>)
    requires ReadPacketBody(s).Success?
    ensures ReadPacketBody(s + more) == ReadPacketBody(s)
  {
    var id := DecodeVarInt(s).value;
    DecodeExtend(s, more);
    var b := s[id.length..];
    assert (s + more)[id.length..] == b + more;
    JsonStringExtend(b, more);
  }

  lemma JsonStringExtend(s: seq<byte>, more: seq<byte>)
    requires ReadJsonString(s).Success?
    ensures ReadJsonString(s + more) == ReadJsonString(s)
  {
    var n := DecodeVarInt(s).value;
    DecodeExtend(s, more);
    var c := s[n.length..];
    assert (s + more)[n.length..] == c + more;
    assert (c + more)[..n.value] == c[..n.value];
  }

  /** The decoded status document: Go's `map[string]interface{}` tree, numbers left abstract. */
  datatype Json =
    | Null
    | Bool(b: bool)
    | Number(n: real)
    | String(s: string)
    | Array(items: seq<Json>)
    | Object(fields: map<string, Json>)

  /**
   * The document with top-level `favicon` removed and, when `forgeData` is
   * an object, its `d` removed; every other key keeps its value.
   */
  function Sanitized(doc: map<string, Json>): (r: map<string, Json>)
    ensures r.Keys == doc.Keys - {"favicon"}
    ensures forall k :: k in r && k != "forgeData" ==> r[k] == doc[k]
    ensures "forgeData" in r ==>
      r["forgeData"] == if doc["forgeData"].Object?
                        then Object(doc["forgeData"].fields - {"d"})
                        else doc["forgeData"]
  {
    var withoutFavicon := doc - {"favicon"};
    if "forgeData" in withoutFavicon && withoutFavicon["forgeData"].Object? then
      withoutFavicon["forgeData" := Object(withoutFavicon["forgeData"].fields - {"d"})]
    else withoutFavicon
  }

  /** Sanitizing twice is sanitizing once. */
  lemma SanitizeIdempotent(doc: map<string, Json>)
    ensures Sanitized(Sanitized(doc)) == Sanitized(doc)
  {
    var once := Sanitized(doc);
    var twice := Sanitized(once);
    assert twice.Keys == once.Keys;
    forall k | k in twice
      ensures twice[k] == once[k]
    {
      if k == "forgeData" && once[k].Object? {
        assert once[k].fields - {"d"} == once[k].fields;
      }
    }
  }

  /** Removing `d` leaves `forgeData` in place even when it becomes empty. */
  lemma ForgeDataKept(doc: map<string, Json>)
    requires "forgeData" in doc && doc["forgeData"].Object? && doc["forgeData"].fields.Keys == {"d"}
    ensures "forgeData" in Sanitized(doc) && Sanitized(doc)["forgeData"] == Object(map[])
  {
    var fields := doc["forgeData"].fields;
    assert (fields - {"d"}).Keys == {};
  }

  /**
   * The rest of getPingResult from reading the response: `unmarshal` stands
   * for `json.Unmarshal` into a `map[string]interface{}` (None when it
   * fails). A JSON `null` leaves the map nil, so nothing is deleted; any other
   * non-object is an unmarshal error. The two `delete` calls work on the
   * decoded map, which nothing else refers to. Marshalling back to text is
   * not modelled: the result is the sanitized document.
   */
  method ProcessStatusResponse(response: seq<byte>, unmarshal: seq<byte> -> Option<Json>)
    returns (r: Result<Json, ResponseError>)
    ensures ParseStatusResponse(response).Failure? ==> r == Failure(ParseStatusResponse(response).error)
    ensures ParseStatusResponse(response).Success? ==>
      var decoded := unmarshal(ParseStatusResponse(response).value);
      r == match decoded
           case Some(Object(fields)) => Success(Object(Sanitized(fields)))
           case Some(Null) => Success(Null)
           case _ => Failure(MalformedJson)
  {
    var read := ParseStatusResponse(response);
    if read.Failure? {
      return Failure(read.error);
    }
    var decoded := unmarshal(read.value);
    if decoded.None? || !(decoded.value.Object? || decoded.value.Null?) {
      return Failure(MalformedJson);
    }
    if decoded.value.Null? {
      return Success(Null);
    }
    var statusObject := decoded.value.fields;
    statusObject := statusObject - {"favicon"};
    if "forgeData" in statusObject {
      var forgeData := statusObject["forgeData"];
      if forgeData.Object? {
        statusObject := statusObject["forgeData" := Object(forgeData.fields - {"d"})];
      }
    }
    r := Success(Object(statusObject));
  }
}
