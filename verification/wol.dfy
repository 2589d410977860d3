/** The Wake-on-LAN frame builder: the AMD Magic Packet payload, the optional
    IEEE 802.1Q tag (clause 9.6 of IEEE 802.1Q) and the Ethernet II frame that
    carries them, byte for byte. */
module Wol {
  import opened Base

  const SizeDstMac: nat := 6
  const SizeSrcMac: nat := 6
  const SizeEthertype: nat := 2
  const SizeVlanEthertype: nat := 2
  const SizeVlanTag: nat := 2
  const SizeWolPayload: nat := 102

  /** The length of the Ethernet II header: destination, source, EtherType. */
  const SizeEthernetHeader: nat := SizeDstMac + SizeSrcMac + SizeEthertype

  /** The Wake-on-LAN EtherType, 0x0842, as it appears on the wire. */
  const WolEthertype: seq<byte> := [0x08, 0x42]

  /** The EtherTypes the frame header can carry: a VLAN tag follows (0x8100),
      or the Wake-on-LAN payload follows directly (0x0842). */
  const EtherTypeVlan: u16 := 0x8100
  const EtherTypeWakeOnLan: u16 := 0x0842

  /** The errors of building and sending a frame. */
  datatype WolError =
    | InvalidMAC(input: string)
    | InterfaceNotFound(name: string)
    | NetworkError(message: string)
    | WOLPacketError(message: string)

  /** A 48-bit hardware address, most significant octet first. */
  type MacAddr = s: seq<byte> | |s| == 6 witness [0, 0, 0, 0, 0, 0]

  /** The Ethernet broadcast address FF:FF:FF:FF:FF:FF. */
  const Broadcast: MacAddr := [0xFF, 0xFF, 0xFF, 0xFF, 0xFF, 0xFF]

  /** The synchronisation stream that opens a magic packet: six 0xFF octets.
      The octets equal the broadcast address, but they are payload, not an
      address. */
  const SyncStream: seq<byte> := [0xFF, 0xFF, 0xFF, 0xFF, 0xFF, 0xFF]

  /** A local network interface: its name and, when it has one, its hardware
      address. */
  datatype NetworkInterface = NetworkInterface(name: string, mac: Option<MacAddr>)

  // ---------------------------------------------------------------------------
  // Magic packet
  // ---------------------------------------------------------------------------

  /** `p` is the magic packet that wakes `mac`: six 0xFF octets, then `mac`,
      then octets that each repeat the one six places before, up to 102. */
  ghost predicate IsMagicPacket(p: seq<byte>, mac: MacAddr)
  {
    && |p| == SizeWolPayload
    && p[..6] == SyncStream
    && p[6..12] == mac
    && forall i :: 12 <= i < SizeWolPayload ==> p[i] == p[i - 6]
  }

  /** The `k`-th six-octet block after the synchronisation stream. */
  function Block(p: seq<byte>, k: int): seq<byte>
    requires 0 <= k && 12 + 6 * k <= |p|
  {
    p[6 + 6 * k..12 + 6 * k]
  }

  /** A magic packet holds `mac` in each of its sixteen blocks. */
  lemma {:induction false} MagicPacketBlocks(p: seq<byte>, mac: MacAddr, k: int)
    requires IsMagicPacket(p, mac) && 0 <= k < 16
    ensures Block(p, k) == mac
  {
    if k > 0 {
      MagicPacketBlocks(p, mac, k - 1);
      forall j | 0 <= j < 6 ensures Block(p, k)[j] == mac[j] {
        assert Block(p, k)[j] == p[6 + 6 * k + j] == p[6 * k + j];
        assert Block(p, k - 1)[j] == p[6 * k + j];
      }
    }
  }

  /** Builds the magic packet for `mac`. */
  method CreateWolPayload(mac: MacAddr) returns (packet: seq<byte>)
    ensures IsMagicPacket(packet, mac)
  {
    packet := SyncStream;
    var k := 0;
    while k < 16
      invariant 0 <= k <= 16
      invariant |packet| == 6 + 6 * k
      invariant packet[..6] == SyncStream
      invariant k > 0 ==> packet[6..12] == mac && packet[|packet| - 6..] == mac
      invariant forall i :: 12 <= i < |packet| ==> packet[i] == packet[i - 6]
    {
      var before := packet;
      packet := packet + mac;
      assert forall i :: 0 <= i < |before| ==> packet[i] == before[i];
      assert forall j :: 0 <= j < 6 ==> packet[|before| + j] == mac[j];
      k := k + 1;
    }
  }

  /** `n` copies of `mac`, one after the other. */
  function Repeat(mac: MacAddr, n: nat): (r: seq<byte>)
    ensures |r| == 6 * n
  {
    if n == 0 then [] else Repeat(mac, n - 1) + mac
  }

  /** A run of copies starts with the address... */
  lemma {:induction false} RepeatStartsWithMac(mac: MacAddr, n: nat)
    requires n >= 1
    ensures Repeat(mac, n)[..6] == mac
  {
    if n > 1 {
      RepeatStartsWithMac(mac, n - 1);
      assert Repeat(mac, n)[..6] == Repeat(mac, n - 1)[..6];
    }
  }

  /** ...and each of its octets repeats the one six places before. */
  lemma {:induction false} RepeatIsPeriodic(mac: MacAddr, n: nat)
    ensures forall j :: 6 <= j < 6 * n ==> Repeat(mac, n)[j] == Repeat(mac, n)[j - 6]
  {
    if n > 1 {
      RepeatIsPeriodic(mac, n - 1);
      var r := Repeat(mac, n);
      var q := Repeat(mac, n - 1);
      assert r == q + mac;
      forall j | 6 * (n - 1) <= j < 6 * n
        ensures r[j] == r[j - 6]
      {
        var k := j - 6 * (n - 1);
        assert r[j] == mac[k];
        assert q[6 * (n - 2)..] == mac by {
          assert q == Repeat(mac, n - 2) + mac;
        }
        assert r[j - 6] == q[6 * (n - 2)..][k];
      }
    }
  }

  /** The first `n` blocks of a magic packet are `n` copies of its address. */
  lemma {:induction false} MagicPacketPrefix(p: seq<byte>, mac: MacAddr, n: nat)
    requires IsMagicPacket(p, mac) && n <= 16
    ensures p[6..6 + 6 * n] == Repeat(mac, n)
  {
    if n > 0 {
      MagicPacketPrefix(p, mac, n - 1);
      MagicPacketBlocks(p, mac, n - 1);
      assert p[6..6 + 6 * n] == p[6..6 + 6 * (n - 1)] + Block(p, n - 1);
    }
  }

  /** The magic packet for `mac` is exactly six 0xFF octets followed by
      sixteen copies of `mac`, the layout AMD's Magic Packet format fixes. */
  lemma MagicPacketIsRepeat(p: seq<byte>, mac: MacAddr)
    ensures IsMagicPacket(p, mac) <==> p == SyncStream + Repeat(mac, 16)
  {
    if IsMagicPacket(p, mac) {
      MagicPacketPrefix(p, mac, 16);
      assert p == p[..6] + p[6..102];
    }
    if p == SyncStream + Repeat(mac, 16) {
      RepeatStartsWithMac(mac, 16);
      RepeatIsPeriodic(mac, 16);
      assert p[6..12] == Repeat(mac, 16)[..6];
      forall i | 12 <= i < SizeWolPayload ensures p[i] == p[i - 6] {
        assert p[i] == Repeat(mac, 16)[i - 6];
      }
    }
  }

  /** Recognises a magic packet and recovers the address it wakes. */
  function MagicTarget(p: seq<byte>): (r: Option<MacAddr>)
    ensures r.Some? ==> IsMagicPacket(p, r.value)
    ensures forall mac: MacAddr :: IsMagicPacket(p, mac) ==> r == Some(mac)
  {
    if |p| == SizeWolPayload && p[..6] == SyncStream
       && forall i :: 12 <= i < SizeWolPayload ==> p[i] == p[i - 6]
    then Some(p[6..12])
    else None
  }

  // ---------------------------------------------------------------------------
  // VLAN tag
  // ---------------------------------------------------------------------------

  /** The two octets of the tag control information for `vlan`: the low
      twelve bits are the VLAN identifier, the top four (priority and the
      drop-eligible indicator) are left zero, big-endian. */
  function VlanToBytes(vlan: u16): (r: seq<byte>)
    ensures |r| == SizeVlanTag
    ensures r[0] & 0xF0 == 0
    ensures ((r[0] as u16) << 8) | (r[1] as u16) == vlan & 0x0FFF
    // A corollary of the previous clause, stated for readers: ids up to 4095
    // come through unchanged.
    ensures vlan <= 0x0FFF ==> ((r[0] as u16) << 8) | (r[1] as u16) == vlan
  {
    var tag := vlan & 0x0FFF;
    [(tag >> 8) as byte, (tag & 0xFF) as byte]
  }

  /** The VLAN identifier a tag carries: its low twelve bits. */
  function TagVlanId(tag: seq<byte>): (id: u16)
    requires |tag| == SizeVlanTag
    ensures id <= 0x0FFF
  {
    (((tag[0] & 0x0F) as u16) << 8) | (tag[1] as u16)
  }

  lemma VlanTagRoundTrip(vlan: u16)
    ensures TagVlanId(VlanToBytes(vlan)) == vlan & 0x0FFF
  {
  }

  // ---------------------------------------------------------------------------
  // Frame
  // ---------------------------------------------------------------------------

  /** The first interface called `name` (the `find` over the interface list). */
  function FindInterface(interfaces: seq<NetworkInterface>, name: string): (r: Option<NetworkInterface>)
    ensures r.None? <==> forall i :: 0 <= i < |interfaces| ==> interfaces[i].name != name
    ensures r.Some? ==>
      exists i :: 0 <= i < |interfaces| && interfaces[i] == r.value && r.value.name == name
        && forall j :: 0 <= j < i ==> interfaces[j].name != name
  {
    if |interfaces| == 0 then None
    else if interfaces[0].name == name then Some(interfaces[0])
    else
      var r := FindInterface(interfaces[1..], name);
      assert forall i :: 1 <= i < |interfaces| ==> interfaces[i] == interfaces[1..][i - 1];
      assert r.Some? ==>
        exists i :: 0 <= i < |interfaces| && interfaces[i] == r.value && r.value.name == name
          && forall j :: 0 <= j < i ==> interfaces[j].name != name
      by {
        if r.Some? {
          var i :| 0 <= i < |interfaces[1..]| && interfaces[1..][i] == r.value && r.value.name == name
            && forall j :: 0 <= j < i ==> interfaces[1..][j].name != name;
          assert interfaces[i + 1] == r.value;
        }
      }
      r
  }

  /** `buf` with `src` copied over the octets from `offset` on (a
      `copy_from_slice` into a sub-slice). */
  function WriteAt(buf: seq<byte>, offset: nat, src: seq<byte>): (r: seq<byte>)
    requires offset + |src| <= |buf|
    ensures |r| == |buf|
    ensures r[offset..offset + |src|] == src
    ensures forall i :: 0 <= i < |buf| && !(offset <= i < offset + |src|) ==> r[i] == buf[i]
  {
    buf[..offset] + src + buf[offset + |src|..]
  }

  /** Copying into one part of a buffer leaves every range outside that part
      as it was. */
  lemma WriteAtKeeps(buf: seq<byte>, offset: nat, src: seq<byte>, lo: nat, hi: nat)
    requires offset + |src| <= |buf|
    requires lo <= hi <= offset
    ensures WriteAt(buf, offset, src)[lo..hi] == buf[lo..hi]
  {
  }

  /** The two octets of a big-endian 16-bit EtherType. */
  function EtherTypeBytes(t: u16): (r: seq<byte>)
    ensures |r| == SizeEthertype
    ensures ((r[0] as u16) << 8) | (r[1] as u16) == t
  {
    [(t >> 8) as byte, (t & 0xFF) as byte]
  }

  /** The octets of a Wake-on-LAN frame from `source` that wakes `target`,
      untagged (116 octets) or carrying the tag for `vlanId` (120 octets). */
  ghost predicate FrameLayout(frame: seq<byte>, source: MacAddr, target: MacAddr, vlanId: Option<u16>)
  {
    match vlanId
    case None =>
      && |frame| == 116
      && frame[0..6] == Broadcast
      && frame[6..12] == source
      && frame[12..14] == [0x08, 0x42]
      && IsMagicPacket(frame[14..116], target)
    case Some(vlan) =>
      && |frame| == 120
      && frame[0..6] == Broadcast
      && frame[6..12] == source
      && frame[12..14] == [0x81, 0x00]
      && frame[14..16] == VlanToBytes(vlan)
      && frame[16..18] == [0x08, 0x42]
      && IsMagicPacket(frame[18..120], target)
  }

  /** A decoded Wake-on-LAN frame. */
  datatype WolFrame = WolFrame(destination: MacAddr, source: MacAddr, vlanId: Option<u16>, target: MacAddr)

  /** Reads a frame the way a receiver does: the addresses, then either the
      Wake-on-LAN EtherType and the payload, or the VLAN EtherType, the tag, the
      Wake-on-LAN EtherType and the payload. */
  function ParseFrame(frame: seq<byte>): (r: Option<WolFrame>)
    ensures r.Some? ==> |frame| == 116 || |frame| == 120
    ensures r.Some? ==> r.value.destination == frame[0..6] && r.value.source == frame[6..12]
    ensures r.Some? && r.value.vlanId.Some? ==> r.value.vlanId.value <= 0x0FFF
  {
    if |frame| < SizeEthernetHeader then None
    else
      var destination: MacAddr := frame[0..6];
      var source: MacAddr := frame[6..12];
      if frame[12..14] == [0x08, 0x42] && |frame| == 116 then
        match MagicTarget(frame[14..116])
        case None => None
        case Some(target) => Some(WolFrame(destination, source, None, target))
      else if frame[12..14] == [0x81, 0x00] && |frame| == 120 && frame[16..18] == [0x08, 0x42] then
        match MagicTarget(frame[18..120])
        case None => None
        case Some(target) => Some(WolFrame(destination, source, Some(TagVlanId(frame[14..16])), target))
      else None
  }

  /** The id a tag written for `vlanId` carries. */
  function MaskedVlan(vlanId: Option<u16>): Option<u16>
  {
    match vlanId
    case None => None
    case Some(v) => Some(v & 0x0FFF)
  }

  /** A frame laid out for `source`, `target` and `vlanId` reads back as
      exactly those, with the VLAN id cut to twelve bits. */
  lemma FrameRoundTrip(frame: seq<byte>, source: MacAddr, target: MacAddr, vlanId: Option<u16>)
    requires FrameLayout(frame, source, target, vlanId)
    ensures ParseFrame(frame) == Some(WolFrame(Broadcast, source, MaskedVlan(vlanId), target))
  {
    if vlanId.Some? {
      VlanTagRoundTrip(vlanId.value);
      assert frame[12..14] != [0x08, 0x42] by { assert frame[12..14][0] == 0x81; }
    }
  }

  /** Builds the frame that wakes the machine with hardware address
      `maybeMac` through the interface called `interfaceName`, optionally
      tagged for `vlanId`. `interfaces` is the host's interface list and
      `parseMac` the hardware-address parser. */
  method BuildWolPacket(
    maybeMac: string, interfaceName: string, vlanId: Option<u16>,
    interfaces: seq<NetworkInterface>, parseMac: string -> Option<MacAddr>)
    returns (r: Result<(seq<byte>, NetworkInterface), WolError>)
    ensures parseMac(maybeMac).None? ==> r == Err(InvalidMAC(maybeMac))
    ensures parseMac(maybeMac).Some? && FindInterface(interfaces, interfaceName).None? ==>
      r == Err(InterfaceNotFound(interfaceName))
    ensures
      (&& parseMac(maybeMac).Some?
       && FindInterface(interfaces, interfaceName).Some?
       && FindInterface(interfaces, interfaceName).value.mac.None?)
      ==> r.Err? && r.error.NetworkError?
    ensures r.Ok? <==>
      && parseMac(maybeMac).Some?
      && FindInterface(interfaces, interfaceName).Some?
      && FindInterface(interfaces, interfaceName).value.mac.Some?
    ensures r.Ok? ==>
      && r.value.1 == FindInterface(interfaces, interfaceName).value
      && FrameLayout(r.value.0, r.value.1.mac.value, parseMac(maybeMac).value, vlanId)
    ensures r.Ok? ==>
      ParseFrame(r.value.0) == Some(WolFrame(Broadcast, r.value.1.mac.value, MaskedVlan(vlanId), parseMac(maybeMac).value))
  {
    var parsed := parseMac(maybeMac);
    if parsed.None? {
      return Err(InvalidMAC(maybeMac));
    }
    var mac := parsed.value;
    var wolPacket := CreateWolPayload(mac);

    var found := FindInterface(interfaces, interfaceName);
    if found.None? {
      return Err(InterfaceNotFound(interfaceName));
    }
    var iface := found.value;

    var payloadSize := (if vlanId.Some? then SizeVlanTag + SizeVlanEthertype else 0) + SizeWolPayload;
    var packetSize := SizeDstMac + SizeSrcMac + SizeEthertype + payloadSize;
    var zeroed: seq<byte> := seq(packetSize, _ => 0);

    var withDestination := WriteAt(zeroed, 0, Broadcast);
    if iface.mac.None? {
      return Err(NetworkError("failed to get source MAC address of the interface"));
    }
    var withSource := WriteAt(withDestination, SizeDstMac, iface.mac.value);
    WriteAtKeeps(withDestination, SizeDstMac, iface.mac.value, 0, 6);

    var buffer: seq<byte>;
    if vlanId.Some? {
      var withTpid := WriteAt(withSource, SizeDstMac + SizeSrcMac, EtherTypeBytes(EtherTypeVlan));
      WriteAtKeeps(withSource, SizeDstMac + SizeSrcMac, EtherTypeBytes(EtherTypeVlan), 0, 12);
      var withTag := WriteAt(withTpid, SizeEthernetHeader, VlanToBytes(vlanId.value));
      WriteAtKeeps(withTpid, SizeEthernetHeader, VlanToBytes(vlanId.value), 0, 14);
      var withEthertype := WriteAt(withTag, SizeEthernetHeader + SizeVlanTag, WolEthertype);
      WriteAtKeeps(withTag, SizeEthernetHeader + SizeVlanTag, WolEthertype, 0, 16);
      buffer := WriteAt(withEthertype, SizeEthernetHeader + SizeVlanTag + SizeEthertype, wolPacket);
      WriteAtKeeps(withEthertype, SizeEthernetHeader + SizeVlanTag + SizeEthertype, wolPacket, 0, 18);
      assert buffer[0..6] == buffer[0..18][0..6] == withEthertype[0..18][0..6] == withEthertype[0..6];
      assert withEthertype[0..6] == withTag[0..16][0..6] == withTpid[0..14][0..6] == withSource[0..12][0..6];
    } else {
      var withEthertype := WriteAt(withSource, SizeDstMac + SizeSrcMac, EtherTypeBytes(EtherTypeWakeOnLan));
      WriteAtKeeps(withSource, SizeDstMac + SizeSrcMac, EtherTypeBytes(EtherTypeWakeOnLan), 0, 12);
      buffer := WriteAt(withEthertype, SizeEthernetHeader, wolPacket);
      WriteAtKeeps(withEthertype, SizeEthernetHeader, wolPacket, 0, 14);
    }

    r := Ok((buffer, iface));
    FrameRoundTrip(buffer, iface.mac.value, mac, vlanId);
  }
}
