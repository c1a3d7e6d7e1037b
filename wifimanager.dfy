/** The WiFi manager object: the settings it keeps in memory, the emulated
    EEPROM it saves them to, the connected-device registry, and the HTTP
    handlers that change them.  Vendor WiFi calls are inputs: `linkUp(k)` is
    the answer of the k-th `WiFi.status() == WL_CONNECTED` query, and the
    station list of the access point is a sequence. */
module WifiManager {
  import opened Bytes
  import opened CText
  import opened WifiSettings
  import opened JsonDoc
  import opened Optional
  import opened SettingsImage
  import opened SettingsUpdates
  import opened DeviceRegistry

  /** An HTTP reply, or `Crash` where the handler has undefined behaviour. */
  datatype Reply = Reply(code: int, body: Text) | Crash

  const StatusOk: Text := "{\"status\":\"ok\"}"
  const StatusConnecting: Text := "{\"status\":\"connecting\"}"
  const StatusDisconnected: Text := "{\"status\":\"disconnected\"}"
  const NoData: Text := "{\"error\":\"No data\"}"

  /** The poll budget of `connectToWiFi`, one `delay(500)` per poll. */
  const MaxConnectPolls := 20

  /** What `connectToWiFi` did: nothing without an SSID, or polled `polls`
      times and found the link up (`connected`) or not at the final query. */
  datatype StationResult = NotAttempted | Attempted(polls: nat, connected: bool)

  /** What `setupWiFi` started: the soft AP's address when AP mode is on, and
      the station connection attempt. */
  datatype WifiStart = WifiStart(apAddress: Option<seq<int>>, station: StationResult)

  /** The polling loop stopped at the first query that saw the link up, or
      after the budget, and the result is the answer of the next query. */
  predicate PolledLink(linkUp: nat -> bool, polls: nat, connected: bool)
  {
    && polls <= MaxConnectPolls
    && (forall k | 0 <= k < polls :: !linkUp(k))
    && (polls < MaxConnectPolls ==> linkUp(polls))
    && connected == linkUp(polls + 1)
  }

  /** `connectToWiFi` for the stored SSID. */
  predicate ConnectedAsConfigured(s: Settings, linkUp: nat -> bool, r: StationResult)
  {
    if |s.staSsid| == 0 then r == NotAttempted
    else r.Attempted? && PolledLink(linkUp, r.polls, r.connected)
  }

  /** `setupWiFi` for a settings record: the soft AP on 192.168.<subnet>.1
      (the octet converted to `uint8_t`) when AP mode is on, and a station
      connection only when client mode is on and an SSID is stored. */
  predicate StartedAsConfigured(s: Settings, linkUp: nat -> bool, start: WifiStart)
  {
    && (start.apAddress.Some? <==> s.apModeEnabled)
    && (s.apModeEnabled ==> start.apAddress == Some([192, 168, s.subnet % 256, 1]))
    && (ShouldConnectStation(s) ==> ConnectedAsConfigured(s, linkUp, start.station))
    && (!ShouldConnectStation(s) ==> start.station == NotAttempted)
  }

  class WiFiManager {
    var settings: Settings
    /** The emulated EEPROM (the RAM copy that `EEPROM.begin` maps and `commit` flushes). */
    const eeprom: array<byte>
    const devices: array<ConnectedDevice>
    var deviceCount: nat

    ghost predicate Valid()
      reads this
    {
      && eeprom.Length == EepromSize
      && devices.Length == MaxDevices
      && deviceCount <= MaxDevices
      && WifiSettings.Valid(settings)
    }

    /** The member initialisers: default settings, an empty registry. */
    constructor (flash: array<byte>)
      requires flash.Length == EepromSize
      ensures Valid() && fresh(devices) && eeprom == flash
      ensures settings == DefaultSettings() && deviceCount == 0
      ensures forall k | 0 <= k < MaxDevices :: devices[k] == EmptyDevice
    {
      settings := DefaultSettings();
      eeprom := flash;
      devices := new ConnectedDevice[MaxDevices](_ => EmptyDevice);
      deviceCount := 0;
    }

    /** `loadSettings`: read the record, then repair an out-of-range subnet. */
    method LoadSettings()
      requires Valid()
      modifies this`settings
      ensures Valid()
      ensures settings == LoadFrom(old(eeprom[..]))
    {
      settings := RepairSubnet(Decode(eeprom[SettingsAddr..SettingsAddr + ImageSize]));
    }

    /** `saveSettings`: copy the record's image into the EEPROM at its address. */
    method SaveSettings()
      requires Valid()
      modifies eeprom
      ensures eeprom[..] == StoreInto(old(eeprom[..]), settings)
    {
      var image := Encode(settings);
      for i := 0 to ImageSize
        invariant forall j | 0 <= j < i :: eeprom[SettingsAddr + j] == image[j]
        invariant forall j | SettingsAddr + i <= j < EepromSize :: eeprom[j] == old(eeprom[j])
      {
        eeprom[SettingsAddr + i] := image[i];
      }
      assert eeprom[..SettingsAddr + ImageSize] == image;
      assert eeprom[SettingsAddr + ImageSize..] == old(eeprom[..])[SettingsAddr + ImageSize..];
      assert eeprom[..] == eeprom[..SettingsAddr + ImageSize] + eeprom[SettingsAddr + ImageSize..];
    }

    /** `connectToWiFi`: with a stored SSID, poll the link up to 20 times. */
    method ConnectToWiFi(linkUp: nat -> bool) returns (result: StationResult)
      requires Valid()
      ensures ConnectedAsConfigured(settings, linkUp, result)
    {
      if |settings.staSsid| > 0 {
        var attempts := 0;
        while !linkUp(attempts) && attempts < MaxConnectPolls
          invariant 0 <= attempts <= MaxConnectPolls
          invariant forall k | 0 <= k < attempts :: !linkUp(k)
        {
          attempts := attempts + 1;
        }
        result := Attempted(attempts, linkUp(attempts + 1));
      } else {
        result := NotAttempted;
      }
    }

    /** `setupWiFi`: start the soft AP when AP mode is on, then join the
        stored network when client mode is on and an SSID is stored. */
    method SetupWiFi(linkUp: nat -> bool) returns (start: WifiStart)
      requires Valid()
      ensures StartedAsConfigured(settings, linkUp, start)
    {
      var apAddress := None;
      if settings.apModeEnabled {
        apAddress := Some([192, 168, settings.subnet % 256, 1]);
      }
      var station := NotAttempted;
      if settings.clientModeEnabled && |settings.staSsid| > 0 {
        station := ConnectToWiFi(linkUp);
      }
      start := WifiStart(apAddress, station);
    }

    /** `begin(ap_ssid, ap_password, subnet)`: load, override the AP
        credentials and subnet, save, and start WiFi. */
    method Begin(apSsid: Text, apPassword: Text, subnet: int, linkUp: nat -> bool) returns (start: WifiStart)
      requires Valid() && IsInt32(subnet)
      modifies this`settings, eeprom
      ensures Valid()
      ensures settings == ApplyBegin(LoadFrom(old(eeprom[..])), apSsid, apPassword, subnet)
      ensures eeprom[..] == StoreInto(old(eeprom[..]), settings)
      ensures StartedAsConfigured(settings, linkUp, start)
    {
      LoadSettings();
      settings := settings.(apSsid := Strlcpy(apSsid, SsidSize), apPassword := Strlcpy(apPassword, PasswordSize));
      settings := settings.(subnet := subnet);
      SaveSettings();
      start := SetupWiFi(linkUp);
    }

    /** `begin(ap_ssid, ap_password)`: subnet 4. */
    method BeginWithCredentials(apSsid: Text, apPassword: Text, linkUp: nat -> bool) returns (start: WifiStart)
      requires Valid()
      modifies this`settings, eeprom
      ensures Valid()
      ensures settings == ApplyBegin(LoadFrom(old(eeprom[..])), apSsid, apPassword, DefaultSubnet)
      ensures eeprom[..] == StoreInto(old(eeprom[..]), settings)
      ensures StartedAsConfigured(settings, linkUp, start)
    {
      start := Begin(apSsid, apPassword, DefaultSubnet, linkUp);
    }

    /** `begin()`: the default AP credentials and subnet 4. */
    method BeginDefault(linkUp: nat -> bool) returns (start: WifiStart)
      requires Valid()
      modifies this`settings, eeprom
      ensures Valid()
      ensures settings == ApplyBegin(LoadFrom(old(eeprom[..])), DefaultApSsid, DefaultApPassword, DefaultSubnet)
      ensures settings.apSsid == DefaultSettings().apSsid && settings.apPassword == DefaultSettings().apPassword
      ensures eeprom[..] == StoreInto(old(eeprom[..]), settings)
      ensures StartedAsConfigured(settings, linkUp, start)
    {
      DefaultsCopyWhole();
      start := Begin(DefaultApSsid, DefaultApPassword, DefaultSubnet, linkUp);
    }

    /** `GET /api/settings`. */
    method HandleGetSettings() returns (doc: Doc)
      requires Valid()
      ensures doc == SettingsJson(settings)
      ensures Key(StaPassword) !in doc
    {
      doc := SettingsJson(settings);
    }

    /** `POST /api/settings`: no body is a 400 and changes nothing; a body
        updates the fields of the members it has and is saved; a text member
        that is not a string makes `strlcpy` read a null pointer. */
    method HandlePostSettings(body: Option<Doc>) returns (reply: Reply)
      requires Valid()
      modifies this`settings, eeprom
      ensures Valid()
      ensures body.None? ==> reply == Reply(400, NoData) && settings == old(settings) && eeprom[..] == old(eeprom[..])
      ensures body.Some? && !PostWellTyped(body.value) ==>
        reply == Crash && settings == old(settings) && eeprom[..] == old(eeprom[..])
      ensures body.Some? && PostWellTyped(body.value) ==>
        && reply == Reply(200, StatusOk)
        && settings == ApplyPost(old(settings), body.value)
        && eeprom[..] == StoreInto(old(eeprom[..]), settings)
    {
      if body.None? {
        return Reply(400, NoData);
      }
      var doc := body.value;
      if !PostWellTyped(doc) {
        return Crash;
      }
      settings := ApplyPost(settings, doc);
      SaveSettings();
      reply := Reply(200, StatusOk);
    }

    /** `POST /api/wifi-connect`: store the credentials, switch client mode
        on, save, then try to connect; no body is a 400 and changes nothing. */
    method HandleApiWifiConnect(body: Option<Doc>, linkUp: nat -> bool) returns (reply: Reply, station: StationResult)
      requires Valid()
      modifies this`settings, eeprom
      ensures Valid()
      ensures body.None? ==>
        reply == Reply(400, NoData) && station == NotAttempted
        && settings == old(settings) && eeprom[..] == old(eeprom[..])
      ensures body.Some? ==>
        && reply == Reply(200, StatusConnecting)
        && settings == ApplyConnect(old(settings), body.value)
        && eeprom[..] == StoreInto(old(eeprom[..]), settings)
        && ConnectedAsConfigured(settings, linkUp, station)
    {
      if body.None? {
        return Reply(400, NoData), NotAttempted;
      }
      var doc := body.value;
      settings := ApplyConnect(settings, doc);
      SaveSettings();
      station := ConnectToWiFi(linkUp);
      reply := Reply(200, StatusConnecting);
    }

    /** `POST /api/wifi-disconnect`: wipe the station credentials, switch
        client mode off, save. */
    method HandleApiWifiDisconnect() returns (reply: Reply)
      requires Valid()
      modifies this`settings, eeprom
      ensures Valid()
      ensures settings == ApplyDisconnect(old(settings))
      ensures eeprom[..] == StoreInto(old(eeprom[..]), settings)
      ensures reply == Reply(200, StatusDisconnected)
    {
      settings := settings.(staSsid := [], staPassword := []);
      settings := settings.(clientModeEnabled := false);
      SaveSettings();
      reply := Reply(200, StatusDisconnected);
    }

    /** `POST /api/clear-settings`: write back the compiled-in defaults and save. */
    method HandleApiClearSettings() returns (reply: Reply)
      requires Valid()
      modifies this`settings, eeprom
      ensures Valid()
      ensures settings == DefaultSettings()
      ensures eeprom[..] == StoreInto(old(eeprom[..]), DefaultSettings())
      ensures reply == Reply(200, StatusOk)
    {
      DefaultsCopyWhole();
      settings := settings.(
        apSsid := Strlcpy(DefaultApSsid, SsidSize),
        apPassword := Strlcpy(DefaultApPassword, PasswordSize),
        deviceName := Strlcpy(DefaultDeviceName, NameSize),
        deviceComment := Strlcpy(DefaultDeviceComment, CommentSize),
        subnet := DefaultSubnet,
        apModeEnabled := true,
        clientModeEnabled := false,
        staSsid := [],
        staPassword := []);
      assert settings == DefaultSettings();
      SaveSettings();
      reply := Reply(200, StatusOk);
    }

    /** `updateConnectedDevices`: refill the registry from the station list,
        at most ten stations, writing only ip and mac of each slot. */
    method UpdateConnectedDevices(stations: seq<Station>)
      requires Valid()
      modifies devices, this`deviceCount
      ensures Valid()
      ensures deviceCount == RebuiltCount(stations)
      ensures devices[..] == Rebuilt(old(devices[..]), stations)
    {
      ghost var slots := devices[..];
      ghost var target := Rebuilt(slots, stations);
      deviceCount := 0;
      var station := 0;
      while station < |stations| && deviceCount < MaxDevices
        invariant devices.Length == MaxDevices
        invariant station == deviceCount <= RebuiltCount(stations)
        invariant forall k | 0 <= k < deviceCount :: devices[k] == target[k]
        invariant forall k | deviceCount <= k < MaxDevices :: devices[k] == slots[k]
      {
        var ip, mac := IpToString(stations[station].ip), MacToString(stations[station].bssid);
        RebuiltSlot(slots, stations, deviceCount);
        devices[deviceCount] := devices[deviceCount].(ip := ip, mac := mac);
        deviceCount := deviceCount + 1;
        station := station + 1;
      }
      forall k | deviceCount <= k < MaxDevices
        ensures target[k] == slots[k]
      {
        RebuiltSlot(slots, stations, k);
      }
      assert devices[..] == target;
    }

    /** The loop of `handleApiDeviceInfo`: the first slot in use with the
        MAC gets the name and comment, and the search stops there. */
    method AnnotateDevice(mac: string, name: string, comment: string)
      requires Valid()
      modifies devices
      ensures devices[..] == Annotated(old(devices[..]), deviceCount, mac, name, comment)
    {
      ghost var before := devices[..];
      ghost var found := false;
      for i := 0 to deviceCount
        invariant forall j | 0 <= j < i :: before[j].mac != mac
        invariant devices[..] == before
      {
        if devices[i].mac == mac {
          devices[i] := devices[i].(deviceName := name, deviceComment := comment);
          AnnotatedAt(before, deviceCount, mac, name, comment, i);
          found := true;
          break;
        }
      }
      if !found {
        AnnotatedNone(before, deviceCount, mac, name, comment);
      }
    }

    /** `POST /api/device-info`: name the first registered device with the
        given MAC; no body is a 400 and changes nothing. */
    method HandleApiDeviceInfo(body: Option<Doc>) returns (reply: Reply)
      requires Valid()
      modifies devices
      ensures Valid()
      ensures body.None? ==> reply == Reply(400, NoData) && devices[..] == old(devices[..])
      ensures body.Some? ==>
        && reply == Reply(200, StatusOk)
        && devices[..] == Annotated(old(devices[..]), deviceCount, AsString(Member(body.value, "mac")),
                                    AsString(Member(body.value, "device_name")),
                                    AsString(Member(body.value, "device_comment")))
    {
      if body.None? {
        return Reply(400, NoData);
      }
      var doc := body.value;
      var mac := AsString(Member(doc, "mac"));
      var name := AsString(Member(doc, "device_name"));
      var comment := AsString(Member(doc, "device_comment"));
      AnnotateDevice(mac, name, comment);
      reply := Reply(200, StatusOk);
    }
  }
}
