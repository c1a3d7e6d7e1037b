/** The connected-device registry of the WiFi manager: how a station's MAC
    and IP address become text, how a rebuild from the station list fills the
    ten slots, and how a device-info request annotates the slot of a MAC. */
module DeviceRegistry {
  import opened Bytes
  import opened WifiSettings
  import TextFormat

  type Mac = b: seq<byte> | |b| == 6 witness [0, 0, 0, 0, 0, 0]
  type Ipv4 = b: seq<byte> | |b| == 4 witness [0, 0, 0, 0]

  /** An entry of the access point's station list: its address and its MAC. */
  datatype Station = Station(ip: Ipv4, bssid: Mac)

  /** `macToString`: six upper-case hexadecimal pairs separated by colons. */
  function MacToString(mac: Mac): (r: string)
    ensures |r| == 17
  {
    TextFormat.HexJoin(mac, ':', true)
  }

  /** Distinct MACs give distinct strings. */
  lemma MacToStringInjective(a: Mac, b: Mac)
    requires MacToString(a) == MacToString(b)
    ensures a == b
  {
    TextFormat.HexJoinInjective(a, b, ':', true);
  }

  /** Byte k of the MAC is the pair at 3k, and the separators sit between pairs. */
  lemma MacToStringLayout(mac: Mac, k: nat)
    requires k < 6
    ensures MacToString(mac)[3 * k..3 * k + 2] == TextFormat.HexPair(mac[k], true)
    ensures k < 5 ==> MacToString(mac)[3 * k + 2] == ':'
  {
    TextFormat.HexJoinAt(mac, ':', true, k);
  }

  /** `IPAddress::toString`: four decimal octets separated by dots. */
  function IpToString(ip: Ipv4): (r: string)
    ensures 7 <= |r| <= 15
  {
    TextFormat.Decimal(ip[0] as nat) + "." + (TextFormat.Decimal(ip[1] as nat) + "."
    + (TextFormat.Decimal(ip[2] as nat) + "." + TextFormat.Decimal(ip[3] as nat)))
  }

  /** No dot occurs in decimal text. */
  lemma DecimalHasNoDot(n: nat)
    ensures '.' !in TextFormat.Decimal(n)
  {
    var r := TextFormat.Decimal(n);
    assert forall i | 0 <= i < |r| :: r[i] != '.';
  }

  /** A dot-free head is recovered from `head + "." + tail`. */
  lemma SplitAtDot(x: string, y: string, x2: string, y2: string)
    requires '.' !in x && '.' !in x2
    requires x + "." + y == x2 + "." + y2
    ensures x == x2 && y == y2
  {
    var s := x + "." + y;
    forall i | 0 <= i < |x|
      ensures s[i] != '.'
    {
      assert s[i] == x[i];
    }
    forall i | 0 <= i < |x2|
      ensures s[i] != '.'
    {
      assert s[i] == x2[i];
    }
    assert s[|x|] == '.' && s[|x2|] == '.';
    assert x == s[..|x|] == x2;
    assert y == s[|x| + 1..] == y2;
  }

  /** Decimal text determines the number it spells. */
  lemma DecimalInjective(n: nat, m: nat)
    requires TextFormat.Decimal(n) == TextFormat.Decimal(m)
    ensures n == m
  {
    TextFormat.DecimalRoundTrip(n);
    TextFormat.DecimalRoundTrip(m);
  }

  /** Distinct addresses give distinct text: the text splits at its dots
      into the four octets' decimal forms, and each reads back. */
  lemma IpToStringInjective(a: Ipv4, b: Ipv4)
    requires IpToString(a) == IpToString(b)
    ensures a == b
  {
    var a0, a1, a2, a3 := TextFormat.Decimal(a[0] as nat), TextFormat.Decimal(a[1] as nat),
      TextFormat.Decimal(a[2] as nat), TextFormat.Decimal(a[3] as nat);
    var b0, b1, b2, b3 := TextFormat.Decimal(b[0] as nat), TextFormat.Decimal(b[1] as nat),
      TextFormat.Decimal(b[2] as nat), TextFormat.Decimal(b[3] as nat);
    var ta, tb := a1 + "." + (a2 + "." + a3), b1 + "." + (b2 + "." + b3);
    DecimalHasNoDot(a[0] as nat);
    DecimalHasNoDot(b[0] as nat);
    SplitAtDot(a0, ta, b0, tb);
    DecimalHasNoDot(a[1] as nat);
    DecimalHasNoDot(b[1] as nat);
    SplitAtDot(a1, a2 + "." + a3, b1, b2 + "." + b3);
    DecimalHasNoDot(a[2] as nat);
    DecimalHasNoDot(b[2] as nat);
    SplitAtDot(a2, a3, b2, b3);
    DecimalInjective(a[0] as nat, b[0] as nat);
    DecimalInjective(a[1] as nat, b[1] as nat);
    DecimalInjective(a[2] as nat, b[2] as nat);
    DecimalInjective(a[3] as nat, b[3] as nat);
  }

  /** The number of slots a rebuild fills. */
  function RebuiltCount(stations: seq<Station>): (n: nat)
    ensures n <= MaxDevices && n <= |stations|
    ensures n == |stations| || n == MaxDevices
  {
    if |stations| < MaxDevices then |stations| else MaxDevices
  }

  /** A slot refilled from a station: its ip and mac are replaced, its name and comment kept. */
  function Refilled(slot: ConnectedDevice, st: Station): (r: ConnectedDevice)
    ensures r.deviceName == slot.deviceName && r.deviceComment == slot.deviceComment
  {
    slot.(ip := IpToString(st.ip), mac := MacToString(st.bssid))
  }

  /** `updateConnectedDevices` on the slot array: the first stations, in
      list order, give the ip and mac of the first slots; nothing else is written. */
  function Rebuilt(slots: seq<ConnectedDevice>, stations: seq<Station>): (r: seq<ConnectedDevice>)
    requires |slots| == MaxDevices
    ensures |r| == MaxDevices
    ensures forall k | 0 <= k < MaxDevices ::
      r[k].deviceName == slots[k].deviceName && r[k].deviceComment == slots[k].deviceComment
    ensures forall k | 0 <= k < RebuiltCount(stations) ::
      r[k].mac == MacToString(stations[k].bssid) && r[k].ip == IpToString(stations[k].ip)
    ensures forall k | RebuiltCount(stations) <= k < MaxDevices :: r[k] == slots[k]
  {
    seq(MaxDevices, k requires 0 <= k < MaxDevices =>
      if k < RebuiltCount(stations)
      then Refilled(slots[k], stations[k])
      else slots[k])
  }

  /** Slot k of a rebuild. */
  lemma RebuiltSlot(slots: seq<ConnectedDevice>, stations: seq<Station>, k: nat)
    requires |slots| == MaxDevices && k < MaxDevices
    ensures k < RebuiltCount(stations) ==>
      Rebuilt(slots, stations)[k] == Refilled(slots[k], stations[k])
    ensures k >= RebuiltCount(stations) ==> Rebuilt(slots, stations)[k] == slots[k]
  {
  }

  /** The index of the first of the first `count` slots whose mac is `mac`, or -1. */
  function FindMac(slots: seq<ConnectedDevice>, count: nat, mac: string): (i: int)
    requires count <= |slots|
    ensures -1 <= i < count
    ensures i >= 0 ==> slots[i].mac == mac && forall j | 0 <= j < i :: slots[j].mac != mac
    ensures i == -1 ==> forall j | 0 <= j < count :: slots[j].mac != mac
  {
    if count == 0 then -1
    else
      var i := FindMac(slots, count - 1, mac);
      if i >= 0 then i else if slots[count - 1].mac == mac then count - 1 else -1
  }

  /** A slot that matches and is preceded by no match is the one `FindMac` finds. */
  lemma FindMacIsFirst(slots: seq<ConnectedDevice>, count: nat, mac: string, i: nat)
    requires count <= |slots| && i < count
    requires slots[i].mac == mac && forall j | 0 <= j < i :: slots[j].mac != mac
    ensures FindMac(slots, count, mac) == i
  {
  }

  /** `device-info` on the slot array: the first slot in use whose mac matches
      gets the name and comment; no other slot changes. */
  function Annotated(slots: seq<ConnectedDevice>, count: nat, mac: string, name: string, comment: string)
    : (r: seq<ConnectedDevice>)
    requires count <= |slots|
    ensures |r| == |slots|
    ensures forall j | 0 <= j < |slots| :: r[j].ip == slots[j].ip && r[j].mac == slots[j].mac
    ensures forall j | 0 <= j < |slots| && j != FindMac(slots, count, mac) :: r[j] == slots[j]
    ensures FindMac(slots, count, mac) >= 0 ==>
      var i := FindMac(slots, count, mac);
      r[i].deviceName == name && r[i].deviceComment == comment
  {
    var i := FindMac(slots, count, mac);
    if i < 0 then slots else slots[i := slots[i].(deviceName := name, deviceComment := comment)]
  }

  /** The annotation when slot i is the first match. */
  lemma AnnotatedAt(slots: seq<ConnectedDevice>, count: nat, mac: string, name: string, comment: string, i: nat)
    requires count <= |slots| && i < count
    requires slots[i].mac == mac && forall j | 0 <= j < i :: slots[j].mac != mac
    ensures Annotated(slots, count, mac, name, comment) == slots[i := slots[i].(deviceName := name, deviceComment := comment)]
  {
    FindMacIsFirst(slots, count, mac, i);
  }

  /** No slot in use matches: nothing changes. */
  lemma AnnotatedNone(slots: seq<ConnectedDevice>, count: nat, mac: string, name: string, comment: string)
    requires count <= |slots|
    requires forall j | 0 <= j < count :: slots[j].mac != mac
    ensures Annotated(slots, count, mac, name, comment) == slots
  {
  }

  /** No slot in use has mac "null", so a request without a MAC changes nothing. */
  lemma AnnotateWithoutMac(slots: seq<ConnectedDevice>, stations: seq<Station>, name: string, comment: string)
    requires |slots| == MaxDevices
    ensures var r := Rebuilt(slots, stations);
      Annotated(r, RebuiltCount(stations), "null", name, comment) == r
  {
  }
}
