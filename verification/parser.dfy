/** The DHCPOFFER recogniser: an IPv4 packet with protocol 17, a UDP
    datagram from port 67 to port 68, and among the options that follow the
    (unchecked) magic cookie, option 53 with the one-byte value 2.

    The scan reads each option as code, length, value, code 0 included,
    and indexes the buffer without bounds checks: an option that runs past
    the end makes the source panic, which this model reports as
    `OutOfBounds` and `Panic`. */
module Parser {
  import opened Bytes
  import opened Headers
  import Forge

  /** `DHCPOption`; its length field is the length of `payload`. */
  datatype DhcpOption = DhcpOption(code: uint8, payload: seq<uint8>)

  /** The scan's outcome: the options read, or an index past the end. */
  datatype ParseResult = Parsed(options: seq<DhcpOption>) | OutOfBounds

  /** What `is_dhcp_offer` does with a buffer: answer true, answer false, or
      panic on an out-of-range index. */
  datatype Verdict = Offer | NotOffer | Panic

  const EndCode: uint8 := 0xFF
  const MessageTypeCode: uint8 := 53
  const MessageTypeOffer: uint8 := 2
  const CookieLen: nat := 4

  /** An option the scan can produce: not the end marker, and a value short
      enough for its one-byte length. */
  predicate ValidOption(o: DhcpOption)
  {
    o.code != EndCode && |o.payload| < 0x100
  }

  predicate ValidOptions(opts: seq<DhcpOption>)
  {
    forall k :: 0 <= k < |opts| ==> ValidOption(opts[k])
  }

  /** The wire form of an option: code, length, value. */
  function Encode(o: DhcpOption): seq<uint8>
    requires |o.payload| < 0x100
  {
    [o.code, |o.payload|] + o.payload
  }

  /** The options laid out back to back, in order. */
  function Encoding(opts: seq<DhcpOption>): seq<uint8>
    requires ValidOptions(opts)
  {
    if |opts| == 0 then [] else Encode(opts[0]) + Encoding(opts[1..])
  }

  /** Where a successful scan stops: at the end of the buffer or on an End
      code (whatever follows it is never read). */
  predicate Terminated(rest: seq<uint8>)
  {
    |rest| == 0 || rest[0] == EndCode
  }

  /** `parse_dhcp_options`, as a recursion on the unread suffix: stop at the
      end or on an End code, fail when the length byte or the value would
      lie past the end, otherwise read code, length and value and go on
      after them. */
  function ParseOptions(buffer: seq<uint8>): (r: ParseResult)
    ensures r.Parsed? ==> forall o :: o in r.options ==> ValidOption(o)
    decreases |buffer|
  {
    if |buffer| == 0 then Parsed([])
    else if buffer[0] == EndCode then Parsed([])
    else if |buffer| < 2 then OutOfBounds
    else
      var length := buffer[1] as nat;
      if |buffer| < 2 + length then OutOfBounds
      else
        var option := DhcpOption(buffer[0], buffer[2..2 + length]);
        Prepend([option], ParseOptions(buffer[2 + length..]))
  }

  /** A successful scan has read a contiguous run of options from the start
      of the buffer, in buffer order, each taking 2 + length bytes, and
      stopped at the end of the buffer or at an End code. */
  lemma {:induction false} ParseOptionsSound(buffer: seq<uint8>)
    ensures var r := ParseOptions(buffer);
            r.Parsed? ==> ValidOptions(r.options) && Encoding(r.options) <= buffer
                          && Terminated(buffer[|Encoding(r.options)|..])
    decreases |buffer|
  {
    if |buffer| >= 2 && buffer[0] != EndCode && |buffer| >= 2 + buffer[1] as nat {
      var length := buffer[1] as nat;
      var option, tail := DhcpOption(buffer[0], buffer[2..2 + length]), buffer[2 + length..];
      SplitFirstOption(buffer, option, tail);
      ParseOptionsSound(tail);
      if ParseOptions(tail).Parsed? {
        SoundCons(buffer, option, tail, ParseOptions(tail).options);
      }
    }
  }

  /** A buffer that starts with a whole option is that option's encoding
      followed by the rest. */
  lemma SplitFirstOption(buffer: seq<uint8>, option: DhcpOption, tail: seq<uint8>)
    requires |buffer| >= 2 && buffer[0] != EndCode && |buffer| >= 2 + buffer[1] as nat
    requires option == DhcpOption(buffer[0], buffer[2..2 + buffer[1] as nat])
    requires tail == buffer[2 + buffer[1] as nat..]
    ensures ValidOption(option) && buffer == Encode(option) + tail
  {
    assert Encode(option) == buffer[..2 + buffer[1] as nat];
  }

  lemma SoundCons(buffer: seq<uint8>, o: DhcpOption, tail: seq<uint8>, rest: seq<DhcpOption>)
    requires ValidOption(o) && buffer == Encode(o) + tail
    requires ValidOptions(rest) && Encoding(rest) <= tail && Terminated(tail[|Encoding(rest)|..])
    ensures ValidOptions([o] + rest) && Encoding([o] + rest) <= buffer
    ensures Terminated(buffer[|Encoding([o] + rest)|..])
  {
    EncodingCons(o, rest);
    assert buffer[|Encode(o) + Encoding(rest)|..] == tail[|Encoding(rest)|..];
  }

  lemma EncodingCons(o: DhcpOption, rest: seq<DhcpOption>)
    requires ValidOption(o) && ValidOptions(rest)
    ensures ValidOptions([o] + rest)
    ensures Encoding([o] + rest) == Encode(o) + Encoding(rest)
  {
    assert ([o] + rest)[1..] == rest;
  }

  /** Prefixes already-read options to the outcome of the rest of the scan. */
  function Prepend(options: seq<DhcpOption>, r: ParseResult): ParseResult
  {
    match r
    case OutOfBounds => OutOfBounds
    case Parsed(rest) => Parsed(options + rest)
  }

  /** `parse_dhcp_options` as written: the index loop. */
  method ScanOptions(buffer: seq<uint8>) returns (r: ParseResult)
    ensures r == ParseOptions(buffer)
  {
    var options: seq<DhcpOption> := [];
    var i := 0;
    ScanStarts(buffer);
    while i < |buffer|
      invariant 0 <= i <= |buffer|
      invariant ParseOptions(buffer) == Prepend(options, ParseOptions(buffer[i..]))
      decreases |buffer| - i
    {
      var opCode := buffer[i];
      if opCode == EndCode {
        break;
      }
      if i + 1 >= |buffer| {
        ScanRunsOut(buffer, i, options);
        return OutOfBounds;
      }
      var opLength := buffer[i + 1] as nat;
      if i + 2 + opLength > |buffer| {
        ScanRunsOut(buffer, i, options);
        return OutOfBounds;
      }
      var next := i + 2 + opLength;
      ScanAdvance(buffer, i, options);
      options := options + [DhcpOption(opCode, buffer[i + 2..next])];
      i := next;
    }
    ScanStops(buffer, i, options);
    return Parsed(options);
  }

  lemma ScanStarts(buffer: seq<uint8>)
    ensures ParseOptions(buffer) == Prepend([], ParseOptions(buffer[0..]))
  {
    assert buffer[0..] == buffer;
    if ParseOptions(buffer).Parsed? {
      assert [] + ParseOptions(buffer).options == ParseOptions(buffer).options;
    }
  }

  /** One turn of the scan loop at index `i` keeps the loop invariant. */
  lemma ScanAdvance(buffer: seq<uint8>, i: nat, options: seq<DhcpOption>)
    requires i + 1 < |buffer| && buffer[i] != EndCode
    requires i + 2 + buffer[i + 1] <= |buffer|
    requires ParseOptions(buffer) == Prepend(options, ParseOptions(buffer[i..]))
    ensures var next := i + 2 + buffer[i + 1];
            ParseOptions(buffer)
            == Prepend(options + [DhcpOption(buffer[i], buffer[i + 2..next])], ParseOptions(buffer[next..]))
  {
    var next := i + 2 + buffer[i + 1];
    ParseOptionsStep(buffer, i);
    PrependAppend(options, [DhcpOption(buffer[i], buffer[i + 2..next])], ParseOptions(buffer[next..]));
  }

  /** The loop leaves at the end of the buffer or on an End code with the
      options read so far. */
  lemma ScanStops(buffer: seq<uint8>, i: nat, options: seq<DhcpOption>)
    requires i <= |buffer| && (i == |buffer| || buffer[i] == EndCode)
    requires ParseOptions(buffer) == Prepend(options, ParseOptions(buffer[i..]))
    ensures ParseOptions(buffer) == Parsed(options)
  {
    assert ParseOptions(buffer[i..]) == Parsed([]);
    assert options + [] == options;
  }

  /** A code on the last byte, or a length past the end, is out of bounds. */
  lemma ScanRunsOut(buffer: seq<uint8>, i: nat, options: seq<DhcpOption>)
    requires i < |buffer| && buffer[i] != EndCode
    requires i + 1 >= |buffer| || i + 2 + buffer[i + 1] > |buffer|
    requires ParseOptions(buffer) == Prepend(options, ParseOptions(buffer[i..]))
    ensures ParseOptions(buffer) == OutOfBounds
  {
    var rest := buffer[i..];
    assert rest[0] == buffer[i];
    assert |rest| >= 2 ==> rest[1] == buffer[i + 1];
  }

  /** One turn of the scan loop at index `i`, on a well-formed option. */
  lemma ParseOptionsStep(buffer: seq<uint8>, i: nat)
    requires i + 1 < |buffer| && buffer[i] != EndCode
    requires i + 2 + buffer[i + 1] <= |buffer|
    ensures var next := i + 2 + buffer[i + 1];
            ParseOptions(buffer[i..])
            == Prepend([DhcpOption(buffer[i], buffer[i + 2..next])], ParseOptions(buffer[next..]))
  {
    var next := i + 2 + buffer[i + 1];
    var rest := buffer[i..];
    assert rest[2 + buffer[i + 1]..] == buffer[next..];
    assert rest[2..2 + buffer[i + 1]] == buffer[i + 2..next];
  }

  lemma PrependAppend(a: seq<DhcpOption>, b: seq<DhcpOption>, r: ParseResult)
    ensures Prepend(a, Prepend(b, r)) == Prepend(a + b, r)
  {
    if r.Parsed? {
      assert a + (b + r.options) == (a + b) + r.options;
    }
  }

  /** The `for opt in ...` search for option 53 with value exactly [2]. */
  function HasOfferType(options: seq<DhcpOption>): (b: bool)
    ensures b <==> exists k :: 0 <= k < |options| && IsOfferType(options[k])
  {
    if |options| == 0 then false
    else IsOfferType(options[0]) || HasOfferType(options[1..])
  }

  predicate IsOfferType(o: DhcpOption)
  {
    o.code == MessageTypeCode && o.payload == [MessageTypeOffer]
  }

  /** The buffer is an IPv4 packet with protocol 17 carrying a UDP datagram
      from port 67 to port 68 whose payload holds a DHCP fixed part. */
  predicate IsServerReply(buffer: seq<uint8>)
  {
    && |buffer| >= Ipv4MinHeaderLen
    && Ipv4Protocol(buffer) == ProtocolUdp
    && |Ipv4Payload(buffer)| >= UdpHeaderLen
    && UdpSource(Ipv4Payload(buffer)) == DhcpServerPort
    && UdpDestination(Ipv4Payload(buffer)) == DhcpClientPort
    && |UdpPayload(Ipv4Payload(buffer))| >= DhcpFixedLen
  }

  /** The options field (cookie included) of a server reply. */
  function ReplyOptions(buffer: seq<uint8>): seq<uint8>
    requires IsServerReply(buffer)
  {
    DhcpOptions(UdpPayload(Ipv4Payload(buffer)))
  }

  /** `is_dhcp_offer`. Anything that is not a server reply is not an offer;
      a reply is an offer exactly when the scan after the cookie succeeds
      and finds option 53 = [2]; a scan that runs off the end panics. */
  function IsDhcpOffer(buffer: seq<uint8>): (v: Verdict)
    ensures !IsServerReply(buffer) ==> v == NotOffer
    ensures v == Offer <==>
              && IsServerReply(buffer)
              && |ReplyOptions(buffer)| >= CookieLen
              && ParseOptions(ReplyOptions(buffer)[CookieLen..]).Parsed?
              && exists k :: 0 <= k < |ParseOptions(ReplyOptions(buffer)[CookieLen..]).options|
                             && IsOfferType(ParseOptions(ReplyOptions(buffer)[CookieLen..]).options[k])
    ensures v == Panic <==>
              && IsServerReply(buffer)
              && (|ReplyOptions(buffer)| < CookieLen || ParseOptions(ReplyOptions(buffer)[CookieLen..]).OutOfBounds?)
  {
    if |buffer| < Ipv4MinHeaderLen then NotOffer
    else if Ipv4Protocol(buffer) != ProtocolUdp then NotOffer
    else
      var udp := Ipv4Payload(buffer);
      if |udp| < UdpHeaderLen then NotOffer
      else if !(UdpSource(udp) == DhcpServerPort && UdpDestination(udp) == DhcpClientPort) then NotOffer
      else
        var dhcp := UdpPayload(udp);
        if |dhcp| < DhcpFixedLen then NotOffer
        else
          var options := DhcpOptions(dhcp);
          assert IsServerReply(buffer) && options == ReplyOptions(buffer);
          if |options| < CookieLen then Panic
          else
            var scan := ParseOptions(options[CookieLen..]);
            if scan.OutOfBounds? then Panic
            else if HasOfferType(scan.options) then Offer
            else NotOffer
  }

  // ------------------------------------------------------------ properties

  /** Options laid out back to back and followed by the end of the buffer or
      an End code scan back to exactly those options, whatever follows the
      End code. */
  lemma {:induction false} ParseEncodingRoundTrip(opts: seq<DhcpOption>, rest: seq<uint8>)
    requires ValidOptions(opts) && Terminated(rest)
    ensures ParseOptions(Encoding(opts) + rest) == Parsed(opts)
    decreases |opts|
  {
    if |opts| == 0 {
      assert Encoding(opts) + rest == rest;
    } else {
      var o := opts[0];
      assert Encoding(opts) + rest == Encode(o) + (Encoding(opts[1..]) + rest);
      ParseEncodingRoundTrip(opts[1..], rest);
      ParseOptionsCons(o, Encoding(opts[1..]) + rest);
      assert [o] + opts[1..] == opts;
    }
  }

  /** One well-formed option in front of a buffer is read first, then the
      scan goes on with the buffer. */
  lemma ParseOptionsCons(o: DhcpOption, buffer: seq<uint8>)
    requires ValidOption(o)
    ensures ParseOptions(Encode(o) + buffer) == Prepend([o], ParseOptions(buffer))
  {
    var b := Encode(o) + buffer;
    var n := |o.payload|;
    assert b[0] == o.code && b[1] == n;
    assert b[2..2 + n] == o.payload;
    assert b[2 + n..] == buffer;
  }

  /** The scan stays inside the buffer exactly when the buffer starts with
      well-formed options followed by the end of the buffer or an End code. */
  lemma ParseSucceedsIff(buffer: seq<uint8>)
    ensures ParseOptions(buffer).Parsed? <==>
              exists opts :: ValidOptions(opts) && Encoding(opts) <= buffer
                             && Terminated(buffer[|Encoding(opts)|..])
  {
    ParseOptionsSound(buffer);
    if ParseOptions(buffer).Parsed? {
      var opts := ParseOptions(buffer).options;
      assert ValidOptions(opts) && Encoding(opts) <= buffer && Terminated(buffer[|Encoding(opts)|..]);
    }
    if opts :| ValidOptions(opts) && Encoding(opts) <= buffer && Terminated(buffer[|Encoding(opts)|..]) {
      var rest := buffer[|Encoding(opts)|..];
      assert buffer == Encoding(opts) + rest;
      ParseEncodingRoundTrip(opts, rest);
    }
  }

  /** Pad (code 0, section 3.1 of RFC 2132) has no length byte, but the scan
      reads it as an ordinary option: a Pad before an Offer message type
      takes 53 as its length and runs off the end of the buffer. */
  lemma PadIsReadAsOption()
    ensures ParseOptions([0, 53, 1, 2, EndCode]) == OutOfBounds
  {
  }

  /** The options region the forge writes scans, after its cookie, to
      message type Discover, the host name and the parameter request list. */
  lemma ForgedOptionsParse()
    ensures ParseOptions(Forge.OptionsField[CookieLen..])
            == Parsed([DhcpOption(53, [1]), DhcpOption(12, Forge.HostName), DhcpOption(55, Forge.ParameterRequestList)])
  {
    var opts := [DhcpOption(53, [1]), DhcpOption(12, Forge.HostName), DhcpOption(55, Forge.ParameterRequestList)];
    assert Encoding(opts[2..]) == Encode(opts[2]) by {
      assert opts[2..][1..] == [];
    }
    assert Encoding(opts[1..]) == Encode(opts[1]) + Encode(opts[2]) by {
      assert opts[1..][1..] == opts[2..];
    }
    assert Encoding(opts) == Forge.DiscoverOptionBytes;
    assert Forge.OptionsField[CookieLen..] == Encoding(opts) + ([EndCode] + Zeros(22));
    ParseEncodingRoundTrip(opts, [EndCode] + Zeros(22));
  }

  /** The forged Discover, seen from the Ethernet payload, is never taken
      for an offer: its ports are 68 -> 67. */
  lemma ForgedFrameIsNotOffer(mac: MacAddr, xid: uint32, secs: uint16)
    ensures IsDhcpOffer(EthPayload(Forge.ForgeDiscover(mac, xid, secs))) == NotOffer
  {
  }

  /** The offset of the magic cookie in a server reply. */
  function CookieOffset(buffer: seq<uint8>): nat
    requires |buffer| >= Ipv4MinHeaderLen
  {
    Ipv4PayloadOffset(buffer) + UdpHeaderLen + DhcpFixedLen
  }

  /** The cookie's value is never checked: overwriting it does not change
      the verdict. */
  lemma CookieIsIgnored(buffer: seq<uint8>, cookie: seq<uint8>)
    requires |buffer| >= Ipv4MinHeaderLen && CookieOffset(buffer) + CookieLen <= |buffer|
    requires |cookie| == CookieLen
    ensures var c := CookieOffset(buffer);
            IsDhcpOffer(buffer[..c] + cookie + buffer[c + CookieLen..]) == IsDhcpOffer(buffer)
  {
    var c := CookieOffset(buffer);
    var other := buffer[..c] + cookie + buffer[c + CookieLen..];
    var off := Ipv4PayloadOffset(buffer);
    assert other[0] == buffer[0] && other[9] == buffer[9];
    assert Ipv4PayloadOffset(other) == off;
    var udp, udp' := Ipv4Payload(buffer), Ipv4Payload(other);
    assert udp[..UdpHeaderLen] == udp'[..UdpHeaderLen];
    assert UdpSource(udp) == UdpSource(udp') && UdpDestination(udp) == UdpDestination(udp');
    assert |udp| == |udp'|;
    assert IsServerReply(buffer) <==> IsServerReply(other);
    if IsServerReply(buffer) {
      assert ReplyOptions(buffer)[CookieLen..] == buffer[c + CookieLen..];
      assert ReplyOptions(other)[CookieLen..] == other[c + CookieLen..];
      assert other[c + CookieLen..] == buffer[c + CookieLen..];
    }
  }

  /** The IPv4 header of a hand-built reply: version 4, IHL 5, the given
      total length, protocol 17. */
  function ReplyIpv4Header(total: uint16): (h: seq<uint8>)
    ensures |h| == Ipv4MinHeaderLen
    ensures Ipv4Ihl(h) == 5 && Ipv4Protocol(h) == ProtocolUdp && Ipv4TotalLength(h) == total
  {
    var h := [0x45, 0] + BE16(total) + [0, 0, 0, 0, 64, ProtocolUdp, 0, 0, 0, 0, 0, 0, 0, 0, 0, 0];
    assert h[2..4] == BE16(total);
    ReadBE16Slice(h, 2);
    h
  }

  /** The UDP header of a hand-built reply: port 67 to port 68 and the given
      length. */
  function ReplyUdpHeader(length: uint16): (u: seq<uint8>)
    ensures |u| == UdpHeaderLen
    ensures UdpSource(u) == DhcpServerPort && UdpDestination(u) == DhcpClientPort && UdpLength(u) == length
  {
    var u := BE16(DhcpServerPort) + BE16(DhcpClientPort) + BE16(length) + [0, 0];
    assert u[0..2] == BE16(DhcpServerPort) && u[2..4] == BE16(DhcpClientPort) && u[4..6] == BE16(length);
    ReadBE16Slice(u, 0);
    ReadBE16Slice(u, 2);
    ReadBE16Slice(u, 4);
    u
  }

  /** The length of a hand-built reply: IPv4 and UDP headers, the DHCP fixed
      part, the cookie and the option bytes. */
  function ReplyLength(cookie: seq<uint8>, optionBytes: seq<uint8>): nat
  {
    Ipv4MinHeaderLen + UdpHeaderLen + DhcpFixedLen + |cookie| + |optionBytes|
  }

  /** A minimal server reply: an IPv4 header whose total length is the
      packet's length, a UDP header from port 67 to port 68 whose length is
      the datagram's length, a zero DHCP fixed part, a cookie and the given
      option bytes. */
  function ReplyPacket(cookie: seq<uint8>, optionBytes: seq<uint8>): seq<uint8>
    requires ReplyLength(cookie, optionBytes) <= 0xFFFF
  {
    var total := ReplyLength(cookie, optionBytes);
    ReplyIpv4Header(total) + (ReplyUdpHeader(total - Ipv4MinHeaderLen) + (Zeros(DhcpFixedLen) + cookie + optionBytes))
  }

  /** A hand-built reply is a server reply whose IPv4 total length and UDP
      length match the bytes present, so no payload is cut short, and whose
      options after the cookie are the given bytes. */
  lemma ReplyPacketOptions(cookie: seq<uint8>, optionBytes: seq<uint8>)
    requires |cookie| == CookieLen && ReplyLength(cookie, optionBytes) <= 0xFFFF
    ensures var b := ReplyPacket(cookie, optionBytes);
            && IsServerReply(b)
            && Ipv4TotalLength(b) == |b|
            && UdpLength(Ipv4Payload(b)) == |Ipv4Payload(b)|
    ensures ReplyOptions(ReplyPacket(cookie, optionBytes))[CookieLen..] == optionBytes
  {
    var total := ReplyLength(cookie, optionBytes);
    var body := Zeros(DhcpFixedLen) + cookie + optionBytes;
    ReplyLayout(ReplyIpv4Header(total), ReplyUdpHeader(total - Ipv4MinHeaderLen), body);
    assert body[DhcpFixedLen..][CookieLen..] == optionBytes;
  }

  /** An IPv4 header with IHL 5 followed by a UDP header: the accessors see
      through them to the body. */
  lemma ReplyLayout(h: seq<uint8>, u: seq<uint8>, body: seq<uint8>)
    requires |h| == Ipv4MinHeaderLen && Ipv4Ihl(h) == 5 && |u| == UdpHeaderLen
    ensures var b := h + (u + body);
            && |b| >= Ipv4MinHeaderLen
            && Ipv4Protocol(b) == Ipv4Protocol(h) && Ipv4TotalLength(b) == Ipv4TotalLength(h)
            && Ipv4Payload(b) == u + body
            && UdpSource(u + body) == UdpSource(u) && UdpDestination(u + body) == UdpDestination(u)
            && UdpLength(u + body) == UdpLength(u)
            && UdpPayload(u + body) == body
  {
    var b := h + (u + body);
    assert b[..Ipv4MinHeaderLen] == h;
    assert b[Ipv4MinHeaderLen..] == u + body;
    assert (u + body)[..UdpHeaderLen] == u;
  }

  /** For a reply whose options are well formed, the verdict is Offer
      exactly when some option is message type 53 with value [2], whatever
      the cookie, and the recogniser never panics. */
  lemma OfferIffMessageTypeOffer(cookie: seq<uint8>, opts: seq<DhcpOption>, tail: seq<uint8>)
    requires |cookie| == CookieLen && ValidOptions(opts) && Terminated(tail)
    requires ReplyLength(cookie, Encoding(opts) + tail) <= 0xFFFF
    ensures var v := IsDhcpOffer(ReplyPacket(cookie, Encoding(opts) + tail));
            && v != Panic
            && (v == Offer <==> exists k :: 0 <= k < |opts| && IsOfferType(opts[k]))
  {
    ParseEncodingRoundTrip(opts, tail);
    ReplyVerdict(cookie, Encoding(opts) + tail, opts);
  }

  /** The verdict on a hand-built reply whose option bytes scan to `opts`. */
  lemma ReplyVerdict(cookie: seq<uint8>, optionBytes: seq<uint8>, opts: seq<DhcpOption>)
    requires |cookie| == CookieLen && ParseOptions(optionBytes) == Parsed(opts)
    requires ReplyLength(cookie, optionBytes) <= 0xFFFF
    ensures IsDhcpOffer(ReplyPacket(cookie, optionBytes)) == if HasOfferType(opts) then Offer else NotOffer
  {
    ReplyPacketOptions(cookie, optionBytes);
    VerdictOfParsedReply(ReplyPacket(cookie, optionBytes), opts);
  }

  /** The verdict on a server reply whose options scan to `opts`. */
  lemma VerdictOfParsedReply(buffer: seq<uint8>, opts: seq<DhcpOption>)
    requires IsServerReply(buffer) && |ReplyOptions(buffer)| >= CookieLen
    requires ParseOptions(ReplyOptions(buffer)[CookieLen..]) == Parsed(opts)
    ensures IsDhcpOffer(buffer) == if HasOfferType(opts) then Offer else NotOffer
  {
  }

  /** Hand-built replies: option 53 = [2] is an offer. */
  lemma OfferExample(cookie: seq<uint8>)
    requires |cookie| == CookieLen
    ensures IsDhcpOffer(ReplyPacket(cookie, [53, 1, 2, EndCode])) == Offer
  {
    var o := DhcpOption(53, [2]);
    assert Encode(o) + [EndCode] == [53, 1, 2, EndCode];
    SingleOptionReply(cookie, o);
  }

  /** Option 53 with value [1], [5] or [2, 0], or code 54 with [2], is not. */
  lemma NotOfferExamples(cookie: seq<uint8>)
    requires |cookie| == CookieLen
    ensures IsDhcpOffer(ReplyPacket(cookie, [53, 1, 1, EndCode])) == NotOffer
    ensures IsDhcpOffer(ReplyPacket(cookie, [53, 1, 5, EndCode])) == NotOffer
    ensures IsDhcpOffer(ReplyPacket(cookie, [53, 2, 2, 0, EndCode])) == NotOffer
    ensures IsDhcpOffer(ReplyPacket(cookie, [54, 1, 2, EndCode])) == NotOffer
  {
    var a, b, c, d := DhcpOption(53, [1]), DhcpOption(53, [5]), DhcpOption(53, [2, 0]), DhcpOption(54, [2]);
    assert Encode(a) + [EndCode] == [53, 1, 1, EndCode];
    assert Encode(b) + [EndCode] == [53, 1, 5, EndCode];
    assert Encode(c) + [EndCode] == [53, 2, 2, 0, EndCode];
    assert Encode(d) + [EndCode] == [54, 1, 2, EndCode];
    SingleOptionReply(cookie, a);
    SingleOptionReply(cookie, b);
    SingleOptionReply(cookie, c);
    SingleOptionReply(cookie, d);
  }

  /** An option whose length runs past the end panics instead of answering
      false. */
  lemma PanicExample(cookie: seq<uint8>)
    requires |cookie| == CookieLen
    ensures IsDhcpOffer(ReplyPacket(cookie, [53, 9, 2])) == Panic
  {
    ReplyPacketOptions(cookie, [53, 9, 2]);
    assert ParseOptions([53, 9, 2]) == OutOfBounds;
  }

  lemma SingleOptionReply(cookie: seq<uint8>, o: DhcpOption)
    requires |cookie| == CookieLen && ValidOption(o)
    ensures IsDhcpOffer(ReplyPacket(cookie, Encode(o) + [EndCode]))
            == if IsOfferType(o) then Offer else NotOffer
  {
    assert Encoding([o]) == Encode(o) by {
      assert [o][1..] == [];
    }
    OfferIffMessageTypeOffer(cookie, [o], [EndCode]);
  }
}
