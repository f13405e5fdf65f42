/** src/sources/pcap.rs: the userland frame parser, its agreement with the
    kernel filter, and routing of a captured frame to sources. */
module Pcap {
  import opened Bytes
  import opened Sequences
  import opened BpfFilter
  import opened Shred

  type Ipv4Addr = a: Buffer | |a| == 4 witness [0, 0, 0, 0]

  function IpHeaderOffset(buf: Buffer): Option<nat> {
    if |buf| < 14 then None
    else
      var ethertype := Be16(buf, 12);
      if ethertype == 0x0800 then Some(14)
      else if ethertype == 0x8100 then
        if |buf| < 18 then None
        else
          var inner := Be16(buf, 16);
          if inner == 0x0800 then Some(18) else None
      else None
  }

  function ExtractSrcIp(buf: Buffer): Option<Ipv4Addr> {
    match IpHeaderOffset(buf)
    case None => None
    case Some(ipStart) =>
      var srcOff := ipStart + 12;
      if |buf| < srcOff + 4 then None else Some(buf[srcOff..srcOff + 4])
  }

  /** The header length in bytes, from the byte that holds version and IHL. */
  function Ihl(b: u8): (n: nat)
    ensures n == 4 * (b % 16)
  {
    Masks(b);
    BitAnd(b, 0x0f) * 4
  }

  function FragmentOffset(w: u16): (n: nat)
    ensures n == w % 8192
  {
    Masks(w);
    BitAnd(w, 0x1fff)
  }

  function ExtractUdpPayload(buf: Buffer): Option<Buffer> {
    match IpHeaderOffset(buf)
    case None => None
    case Some(ipStart) =>
      if |buf| < ipStart + 20 then None
      else
        var ihl := Ihl(buf[ipStart]);
        if ihl < 20 || |buf| < ipStart + ihl + 8 then None
        else if buf[ipStart + 9] != 17 then None
        else if FragmentOffset(Be16(buf, ipStart + 6)) != 0 then None
        else
          var udpStart := ipStart + ihl;
          var payloadStart := udpStart + 8;
          var udpLen := Be16(buf, udpStart + 4);
          var payloadLen := SaturatingSub(udpLen, 8);
          if payloadStart + payloadLen > |buf| then None
          else Some(buf[payloadStart..payloadStart + payloadLen])
  }

  /** The size of the buffer that capture_loop receives into. */
  const RECEIVE_BUFFER: nat := 2048

  /** What is received of a frame on the wire: whatever exceeds the buffer is lost. */
  function Received(wire: Buffer): Buffer {
    if |wire| <= RECEIVE_BUFFER then wire else wire[..RECEIVE_BUFFER]
  }

  // ---- Agreement with the kernel filter ----

  lemma OffsetIsIpv4At(f: Buffer, ip: nat)
    ensures Ipv4At(f, ip) <==> IpHeaderOffset(f) == Some(ip)
  {
  }

  /** The length-field checks userland adds to the kernel's: a header of at
      least 20 bytes, whole IPv4 and UDP headers, and a UDP length (RFC 768)
      that stays inside the frame. */
  predicate WellSized(f: Buffer, ip: nat) {
    && |f| >= ip + 20
    && HeaderLength(f, ip) >= 20
    && |f| >= ip + HeaderLength(f, ip) + 8
    && |f| >= ip + HeaderLength(f, ip) + 8 + SaturatingSub(Be16(f, ip + HeaderLength(f, ip) + 4), 8)
  }

  lemma PayloadAt(f: Buffer, ip: nat)
    requires IpHeaderOffset(f) == Some(ip)
    ensures ExtractUdpPayload(f).Some? <==> UnfragmentedUdp(f, ip) && WellSized(f, ip)
  {
  }

  /** Userland sees a payload exactly in well-sized, unfragmented UDP over IPv4. */
  lemma PayloadExactly(f: Buffer)
    ensures ExtractUdpPayload(f).Some?
       <==> exists ip: nat :: Ipv4At(f, ip) && UnfragmentedUdp(f, ip) && WellSized(f, ip)
  {
    forall ip: nat ensures Ipv4At(f, ip) <==> IpHeaderOffset(f) == Some(ip) { OffsetIsIpv4At(f, ip); }
    if IpHeaderOffset(f).Some? {
      PayloadAt(f, IpHeaderOffset(f).value);
    }
  }

  /** The bytes after the 8-byte UDP header, as many as the UDP length announces. */
  ghost predicate IsPayload(p: Buffer, f: Buffer, ip: nat)
    requires WellSized(f, ip)
  {
    var udp := ip + HeaderLength(f, ip);
    && |p| == SaturatingSub(0x100 * Byte(f, udp + 4) + Byte(f, udp + 5), 8)
    && udp + 8 + |p| <= |f|
    && forall i | 0 <= i < |p| :: p[i] == f[udp + 8 + i]
  }

  ghost predicate HasPayload(f: Buffer, ip: nat, p: Buffer) {
    Ipv4At(f, ip) && UnfragmentedUdp(f, ip) && WellSized(f, ip) && IsPayload(p, f, ip)
  }

  lemma PayloadReadAt(f: Buffer, ip: nat, p: Buffer)
    requires IpHeaderOffset(f) == Some(ip)
    ensures ExtractUdpPayload(f) == Some(p) <==> HasPayload(f, ip, p)
  {
    PayloadAt(f, ip);
    if UnfragmentedUdp(f, ip) && WellSized(f, ip) {
      var q := ExtractUdpPayload(f).value;
      assert IsPayload(q, f, ip);
      if IsPayload(p, f, ip) {
        assert p == q;
      }
    }
  }

  /** For every frame and buffer: the buffer is what userland reads exactly if it
      is the UDP payload, byte for byte, of a frame that has one. */
  lemma PayloadBytes(f: Buffer, p: Buffer)
    ensures ExtractUdpPayload(f) == Some(p) <==> exists ip: nat :: HasPayload(f, ip, p)
  {
    forall ip: nat ensures Ipv4At(f, ip) <==> IpHeaderOffset(f) == Some(ip) { OffsetIsIpv4At(f, ip); }
    if IpHeaderOffset(f).Some? {
      PayloadReadAt(f, IpHeaderOffset(f).value, p);
    }
  }

  /** The four bytes at the place of the source address (section 3.1 of RFC 791). */
  ghost predicate HasSource(f: Buffer, ip: nat, a: Ipv4Addr) {
    Ipv4At(f, ip) && ip + 16 <= |f| && forall i | 0 <= i < 4 :: a[i] == f[ip + 12 + i]
  }

  lemma SourceBytes(f: Buffer, a: Ipv4Addr)
    ensures ExtractSrcIp(f) == Some(a) <==> exists ip: nat :: HasSource(f, ip, a)
  {
    forall ip: nat ensures Ipv4At(f, ip) <==> IpHeaderOffset(f) == Some(ip) { OffsetIsIpv4At(f, ip); }
    if IpHeaderOffset(f).Some? {
      var ip := IpHeaderOffset(f).value;
      if ip + 16 <= |f| && HasSource(f, ip, a) {
        assert f[ip + 12..ip + 16] == a;
      }
    }
  }

  // ---- What is received of a frame ----

  lemma ReceivedHeader(w: Buffer, ip: nat)
    ensures Ipv4At(Received(w), ip) <==> Ipv4At(w, ip)
    ensures Ipv4At(w, ip) ==> (UnfragmentedUdp(Received(w), ip) <==> UnfragmentedUdp(w, ip))
    ensures Ipv4At(w, ip) && ip < |w| ==> ip < |Received(w)| && HeaderLength(Received(w), ip) == HeaderLength(w, ip)
  {
  }

  lemma ReceivedSizes(w: Buffer, ip: nat)
    requires Ipv4At(w, ip)
    ensures WellSized(Received(w), ip) ==> WellSized(w, ip)
    ensures WellSized(w, ip) ==>
              (WellSized(Received(w), ip)
               <==> ip + HeaderLength(w, ip) + 8 + SaturatingSub(Be16(w, ip + HeaderLength(w, ip) + 4), 8) <= 2048)
  {
    ReceivedHeader(w, ip);
  }

  lemma ReceivedPayloadAt(w: Buffer, ip: nat, p: Buffer)
    ensures HasPayload(Received(w), ip, p)
       <==> HasPayload(w, ip, p) && ip + HeaderLength(w, ip) + 8 + |p| <= 2048
  {
    hide Ipv4At, UnfragmentedUdp;
    ReceivedHeader(w, ip);
    if Ipv4At(w, ip) && UnfragmentedUdp(w, ip) {
      ReceivedSizes(w, ip);
    }
  }

  /** A frame on the wire has its payload read exactly if that ends within the first 2,048 bytes. */
  lemma ReceivedPayload(w: Buffer, p: Buffer)
    ensures ExtractUdpPayload(Received(w)) == Some(p)
       <==> exists ip: nat :: HasPayload(w, ip, p) && ip + HeaderLength(w, ip) + 8 + |p| <= 2048
  {
    hide ExtractUdpPayload, Ipv4At, UnfragmentedUdp, Received;
    PayloadBytes(Received(w), p);
    forall ip: nat
      ensures HasPayload(Received(w), ip, p)
         <==> HasPayload(w, ip, p) && ip + HeaderLength(w, ip) + 8 + |p| <= 2048
    {
      ReceivedPayloadAt(w, ip, p);
    }
  }

  /** The cut never reaches the source address. */
  lemma ReceivedSource(w: Buffer)
    ensures ExtractSrcIp(Received(w)) == ExtractSrcIp(w)
  {
    forall a: Ipv4Addr ensures ExtractSrcIp(Received(w)) == Some(a) <==> ExtractSrcIp(w) == Some(a) {
      SourceBytes(w, a);
      SourceBytes(Received(w), a);
      forall ip: nat ensures HasSource(Received(w), ip, a) <==> HasSource(w, ip, a) { ReceivedHeader(w, ip); }
    }
  }

  /** A frame with a payload makes the filter load nothing out of bounds,
      and the filter passes it exactly on its destination port. */
  lemma KernelAgreesOnPayload(f: Buffer, port: u16)
    requires ExtractUdpPayload(f).Some?
    ensures var ip := IpHeaderOffset(f).value;
            && ip < |f| && ip + HeaderLength(f, ip) + 4 <= |f|
            && Execute(BuildBpfFilter(port), f, RESET).outcome ==
               if Be16(f, ip + HeaderLength(f, ip) + 2) == port then Returned(ACCEPT) else Returned(DROP)
  {
    var ip := IpHeaderOffset(f).value;
    PayloadAt(f, ip);
    VerdictAt(port, f, ip);
  }

  /** Of the frames the kernel passes, userland rejects exactly the badly sized ones. */
  lemma UserlandRejectsOnlySizes(f: Buffer, port: u16)
    requires KernelPasses(port, f)
    ensures IpHeaderOffset(f).Some?
    ensures ExtractUdpPayload(f).None? <==> !WellSized(f, IpHeaderOffset(f).value)
  {
    KernelPassesWanted(port, f);
    PayloadExactly(f);
    forall ip: nat ensures Ipv4At(f, ip) <==> IpHeaderOffset(f) == Some(ip) { OffsetIsIpv4At(f, ip); }
  }

  /** Such frames exist: 24 bytes whose IHL is 0 pass the kernel on port 0x0800 and carry no payload. */
  lemma KernelPassesHeaderlessFrame()
    ensures var f := seq(12, _ => 0) + [0x08, 0, 0, 0, 0x08, 0, 0, 0, 0, 0, 0, 17];
            KernelPasses(0x0800, f) && ExtractUdpPayload(f).None?
  {
    var f: Buffer := seq(12, _ => 0) + [0x08, 0, 0, 0, 0x08, 0, 0, 0, 0, 0, 0, 17];
    assert Be16(f, 12) == 0x0800 && Be16(f, 16) == 0x0800 && Be16(f, 20) == 0;
    assert Ipv4At(f, 14) && UnfragmentedUdp(f, 14) && DestinationPort(f, 14, 0x0800);
    KernelPassesWanted(0x0800, f);
  }

  /** So the filter takes nothing from what is received of a frame. */
  lemma ReceivedPastFilter(port: u16, w: Buffer)
    requires KernelPasses(port, w)
    ensures Received(Snapped(Execute(BuildBpfFilter(port), w, RESET).outcome, w)) == Received(w)
  {
    KernelKeeps(port, w);
  }

  // ---- Building a frame and reading it back ----

  function LinkHeader(vlanTag: Option<u16>): Buffer {
    (match vlanTag
     case None => [0, 0, 0, 0, 0, 0, 0, 0, 0, 0, 0, 0]
     case Some(vid) =>
       Masks(vid);
       [0, 0, 0, 0, 0, 0, 0, 0, 0, 0, 0, 0] + [0x81, 0x00] + ToBe16(BitAnd(vid, 0x0fff)))
    + [0x08, 0x00]
  }

  function Frame(vlanTag: Option<u16>, srcIp: Ipv4Addr, dstPort: u16, payload: Buffer): Buffer {
    LinkHeader(vlanTag)
    + [0x45] + [0x00] + ToBe16((20 + 8 + |payload|) % TWO_TO_THE_16) + [0x00, 0x00] + [0x00, 0x00] + [64] + [17]
    + [0x00, 0x00] + srcIp + [10, 0, 0, 1]
    + ToBe16(1234) + ToBe16(dstPort) + ToBe16((8 + |payload|) % TWO_TO_THE_16) + [0x00, 0x00]
    + payload
  }

  /** An Ethernet + optional 802.1Q + IPv4 + UDP frame; both 16-bit lengths wrap as in the source. */
  method BuildFrame(vlanTag: Option<u16>, srcIp: Ipv4Addr, dstPort: u16, payload: Buffer) returns (buf: Buffer)
    ensures buf == Frame(vlanTag, srcIp, dstPort, payload)
  {
    buf := [0, 0, 0, 0, 0, 0, 0, 0, 0, 0, 0, 0];
    if vlanTag.Some? {
      buf := buf + [0x81, 0x00];
      Masks(vlanTag.value);
      buf := buf + ToBe16(BitAnd(vlanTag.value, 0x0fff));
    }
    buf := buf + [0x08, 0x00];
    var totalLen := (20 + 8 + |payload|) % TWO_TO_THE_16;
    buf := buf + [0x45];
    buf := buf + [0x00];
    buf := buf + ToBe16(totalLen);
    buf := buf + [0x00, 0x00];
    buf := buf + [0x00, 0x00];
    buf := buf + [64];
    buf := buf + [17];
    buf := buf + [0x00, 0x00];
    buf := buf + srcIp;
    buf := buf + [10, 0, 0, 1];
    buf := buf + ToBe16(1234);
    buf := buf + ToBe16(dstPort);
    var udpLen := (8 + |payload|) % TWO_TO_THE_16;
    buf := buf + ToBe16(udpLen);
    buf := buf + [0x00, 0x00];
    buf := buf + payload;
  }

  /** Where the parsers look in a built frame, and what they find there. */
  predicate HasFields(f: Buffer, ip: nat, srcIp: Ipv4Addr, dstPort: u16, payload: Buffer) {
    && IpHeaderOffset(f) == Some(ip)
    && |f| == ip + 28 + |payload|
    && f[ip] == 0x45 && Be16(f, ip + 6) == 0 && f[ip + 9] == 17
    && f[ip + 12..ip + 16] == srcIp
    && Be16(f, ip + 22) == dstPort
    && Be16(f, ip + 24) == (8 + |payload|) % TWO_TO_THE_16
    && f[ip + 28..] == payload
  }

  function IpStart(vlanTag: Option<u16>): nat {
    if vlanTag.Some? then 18 else 14
  }

  lemma FrameFields(vlanTag: Option<u16>, srcIp: Ipv4Addr, dstPort: u16, payload: Buffer)
    ensures HasFields(Frame(vlanTag, srcIp, dstPort, payload), IpStart(vlanTag), srcIp, dstPort, payload)
  {
    var f := Frame(vlanTag, srcIp, dstPort, payload);
    var link := LinkHeader(vlanTag);
    var ip := if vlanTag.Some? then 18 else 14;
    assert |link| == ip && link[ip - 2] == 0x08 && link[ip - 1] == 0x00;
    assert vlanTag.Some? ==> link[12] == 0x81 && link[13] == 0;
    assert forall i | 0 <= i < ip :: f[i] == link[i];
  }

  /** How many bytes of payload the 16-bit UDP length announces. */
  function Announced(payload: Buffer): (n: nat)
    ensures n <= |payload|
    ensures n == |payload| <==> |payload| <= 65527
  {
    assert |payload| > 65527 ==> (8 + |payload|) % TWO_TO_THE_16 < 8 + |payload|;
    SaturatingSub((8 + |payload|) % TWO_TO_THE_16, 8)
  }

  lemma PayloadReadBack(f: Buffer, ip: nat, payload: Buffer)
    requires IpHeaderOffset(f) == Some(ip) && |f| >= ip + 28
    requires f[ip] == 0x45 && Be16(f, ip + 6) == 0 && f[ip + 9] == 17
    requires Be16(f, ip + 24) == (8 + |payload|) % TWO_TO_THE_16
    ensures var end := ip + 28 + Announced(payload);
            ExtractUdpPayload(f) == if end <= |f| then Some(f[ip + 28..end]) else None
  {
  }

  lemma PrefixOfTail(f: Buffer, i: nat, n: nat, tail: Buffer)
    requires i <= |f| && f[i..] == tail && n <= |tail|
    ensures f[i..i + n] == tail[..n]
  {
  }

  /** The cut leaves every header field where it was. */
  lemma ReceivedFields(f: Buffer, ip: nat)
    requires IpHeaderOffset(f) == Some(ip) && |f| >= ip + 28
    ensures var g := Received(f);
            && IpHeaderOffset(g) == Some(ip) && |g| >= ip + 28
            && g[ip] == f[ip] && Be16(g, ip + 6) == Be16(f, ip + 6) && g[ip + 9] == f[ip + 9]
            && g[ip + 12..ip + 16] == f[ip + 12..ip + 16]
            && Be16(g, ip + 24) == Be16(f, ip + 24)
  {
  }

  lemma PayloadWithin(f: Buffer, ip: nat, payload: Buffer)
    requires IpHeaderOffset(f) == Some(ip) && |f| >= ip + 28
    requires f[ip] == 0x45 && Be16(f, ip + 6) == 0 && f[ip + 9] == 17
    requires Be16(f, ip + 24) == (8 + |payload|) % TWO_TO_THE_16
    requires |f| <= ip + 28 + |payload| && f[ip + 28..] == payload[..|f| - ip - 28]
    ensures ExtractUdpPayload(f)
            == if ip + 28 + Announced(payload) <= |f| then Some(payload[..Announced(payload)]) else None
  {
    PayloadReadBack(f, ip, payload);
    if ip + 28 + Announced(payload) <= |f| {
      PrefixOfTail(f, ip + 28, Announced(payload), payload[..|f| - ip - 28]);
      assert payload[..|f| - ip - 28][..Announced(payload)] == payload[..Announced(payload)];
    }
  }

  /** What the parsers read of a frame with these fields. */
  lemma FieldsReadBack(f: Buffer, ip: nat, srcIp: Ipv4Addr, dstPort: u16, payload: Buffer)
    requires HasFields(f, ip, srcIp, dstPort, payload)
    ensures ExtractSrcIp(f) == Some(srcIp)
    ensures ExtractUdpPayload(f) == Some(payload[..Announced(payload)])
    ensures ExtractUdpPayload(f) == Some(payload) <==> |payload| <= 65527
  {
    PayloadWithin(f, ip, payload);
    assert payload[..Announced(payload)] == payload <==> |payload| <= 65527;
  }

  /** And of what is received of it. */
  lemma ReceivedReadBack(f: Buffer, ip: nat, srcIp: Ipv4Addr, dstPort: u16, payload: Buffer)
    requires HasFields(f, ip, srcIp, dstPort, payload)
    ensures ExtractSrcIp(Received(f)) == Some(srcIp)
    ensures ExtractUdpPayload(Received(f))
            == if ip + 28 + Announced(payload) <= 2048 then Some(payload[..Announced(payload)]) else None
    ensures ExtractUdpPayload(Received(f)) == Some(payload) <==> |f| <= 2048
  {
    ReceivedFields(f, ip);
    PayloadWithin(Received(f), ip, payload);
    assert payload[..Announced(payload)] == payload <==> |payload| <= 65527;
  }

  lemma KernelVerdict(f: Buffer, ip: nat, srcIp: Ipv4Addr, dstPort: u16, payload: Buffer, port: u16)
    requires HasFields(f, ip, srcIp, dstPort, payload)
    ensures Execute(BuildBpfFilter(port), f, RESET).outcome == Returned(if port == dstPort then ACCEPT else DROP)
  {
    VerdictAt(port, f, ip);
  }

  /** Round trip for every tag, address, port and payload: userland reads the
      payload back exactly when its UDP length fits 16 bits, always reads the
      address back, and the kernel passes the frame on its own port only. */
  lemma FrameRoundTrip(vlanTag: Option<u16>, srcIp: Ipv4Addr, dstPort: u16, payload: Buffer, port: u16)
    ensures var f := Frame(vlanTag, srcIp, dstPort, payload);
            && ExtractSrcIp(f) == Some(srcIp)
            && (ExtractUdpPayload(f) == Some(payload) <==> |payload| <= 65527)
            && Execute(BuildBpfFilter(port), f, RESET).outcome == Returned(if port == dstPort then ACCEPT else DROP)
  {
    var f := Frame(vlanTag, srcIp, dstPort, payload);
    assert HasFields(f, IpStart(vlanTag), srcIp, dstPort, payload) by {
      FrameFields(vlanTag, srcIp, dstPort, payload);
    }
    FieldsReadBack(f, IpStart(vlanTag), srcIp, dstPort, payload);
    KernelVerdict(f, IpStart(vlanTag), srcIp, dstPort, payload, port);
  }

  /** What is left of a frame once it was received, for every tag, address, port
      and payload: the announced payload if the buffer holds all of it, else
      none. The payload comes through in full exactly when the buffer holds the frame. */
  lemma ReceivedRoundTrip(vlanTag: Option<u16>, srcIp: Ipv4Addr, dstPort: u16, payload: Buffer)
    ensures var f := Frame(vlanTag, srcIp, dstPort, payload);
            && ExtractSrcIp(Received(f)) == Some(srcIp)
            && ExtractUdpPayload(Received(f))
               == (if IpStart(vlanTag) + 28 + Announced(payload) <= 2048
                   then Some(payload[..Announced(payload)]) else None)
            && (ExtractUdpPayload(Received(f)) == Some(payload) <==> |f| <= 2048)
  {
    FrameFields(vlanTag, srcIp, dstPort, payload);
    ReceivedReadBack(Frame(vlanTag, srcIp, dstPort, payload), IpStart(vlanTag), srcIp, dstPort, payload);
  }

  /** The key of the shred that a received frame carries. */
  function FrameKey(frame: Buffer): Option<ShredKey> {
    match ExtractUdpPayload(frame)
    case None => None
    case Some(payload) => ParseShredKey(payload)
  }

  /** The frame's UDP payload lies within the first 2,048 bytes, is at least 83
      bytes long, and spells the key. */
  ghost predicate Carries(w: Buffer, ip: nat, key: ShredKey) {
    && Ipv4At(w, ip) && UnfragmentedUdp(w, ip) && WellSized(w, ip)
    && var udp := ip + HeaderLength(w, ip);
       var n := SaturatingSub(0x100 * Byte(w, udp + 4) + Byte(w, udp + 5), 8);
       83 <= n <= 2048 - udp - 8 && key.slot != 0 && Spells(w, udp + 8, key)
  }

  lemma SpellsInside(w: Buffer, at: nat, p: Buffer, key: ShredKey)
    requires 77 <= |p| && at + |p| <= |w| && forall i | 0 <= i < |p| :: p[i] == w[at + i]
    ensures Spells(p, 0, key) <==> Spells(w, at, key)
  {
    assert forall i | 0 <= i < 77 :: Byte(p, i) == Byte(w, at + i);
  }

  lemma CarriedKey(w: Buffer, ip: nat, p: Buffer, key: ShredKey)
    requires HasPayload(w, ip, p) && ip + HeaderLength(w, ip) + 8 + |p| <= 2048
    ensures ParseShredKey(p) == Some(key) <==> Carries(w, ip, key)
  {
    ParsedBytes(p, key);
    if |p| >= 83 {
      SpellsInside(w, ip + HeaderLength(w, ip) + 8, p, key);
    }
  }

  /** For every frame on the wire and key: capture reads that key exactly if the frame carries it. */
  lemma KeyOfFrame(w: Buffer, key: ShredKey)
    ensures FrameKey(Received(w)) == Some(key) <==> exists ip: nat :: Carries(w, ip, key)
  {
    if ip: nat :| Carries(w, ip, key) {
      var udp := ip + HeaderLength(w, ip);
      var p := w[udp + 8..udp + 8 + SaturatingSub(0x100 * Byte(w, udp + 4) + Byte(w, udp + 5), 8)];
      assert HasPayload(w, ip, p);
      ReceivedPayload(w, p);
      CarriedKey(w, ip, p, key);
    }
    if FrameKey(Received(w)) == Some(key) {
      var p := ExtractUdpPayload(Received(w)).value;
      ReceivedPayload(w, p);
      var ip: nat :| HasPayload(w, ip, p) && ip + HeaderLength(w, ip) + 8 + |p| <= 2048;
      CarriedKey(w, ip, p, key);
    }
  }

  lemma AnnouncedShred(signature: Buffer, variant: u8, slot: u64, index: u32, rest: Buffer)
    requires |signature| == 64
    ensures var shred := ShredBytes(signature, variant, slot, index, rest);
            ParseShredKey(shred[..Announced(shred)])
            == if Announced(shred) < MIN_SHRED_SIZE || slot == 0 then None
               else Some(ShredKey(slot, index, if variant >= 0x80 then Data else Code))
  {
    var shred := ShredBytes(signature, variant, slot, index, rest);
    if Announced(shred) >= MIN_SHRED_SIZE {
      var some := rest[..Announced(shred) - 77];
      assert shred[..Announced(shred)] == ShredBytes(signature, variant, slot, index, some);
      ParseWritten(signature, variant, slot, index, some);
    }
  }

  /** From shred to key through the whole packet path, for every shred: the
      kernel passes the frame, and the shred's own key comes out exactly if its
      slot is not 0 and the announced bytes reach past the shred header and fit
      the receive buffer. Up to 65,527 bytes that is: if the buffer holds the frame. */
  lemma ShredSurvivesCapture(vlanTag: Option<u16>, srcIp: Ipv4Addr, port: u16,
                             signature: Buffer, variant: u8, slot: u64, index: u32, rest: Buffer)
    requires |signature| == 64
    ensures var shred := ShredBytes(signature, variant, slot, index, rest);
            var f, n := Frame(vlanTag, srcIp, port, shred), Announced(shred);
            && KernelPasses(port, f)
            && FrameKey(Received(f))
               == (if slot != 0 && 83 <= n <= 2048 - IpStart(vlanTag) - 28
                   then Some(ShredKey(slot, index, if variant >= 0x80 then Data else Code)) else None)
            && (slot != 0 && 83 <= |shred| <= 65527 ==>
                  (FrameKey(Received(f)).Some? <==> |f| <= 2048))
  {
    var shred := ShredBytes(signature, variant, slot, index, rest);
    FrameRoundTrip(vlanTag, srcIp, port, shred, port);
    FrameFields(vlanTag, srcIp, port, shred);
    ReceivedRoundTrip(vlanTag, srcIp, port, shred);
    AnnouncedShred(signature, variant, slot, index, rest);
  }
}
