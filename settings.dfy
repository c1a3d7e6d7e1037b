/** The declarations of the WiFi manager's header: the persisted settings
    record with its buffer sizes and compiled-in defaults, the record of a
    connected station, and the storage and registry constants. */
module WifiSettings {
  import opened CText
  import JsonDoc

  /** Sizes of the `char` buffers of the settings record, terminator included. */
  const SsidSize := 32
  const PasswordSize := 32
  const NameSize := 32
  const CommentSize := 64

  /** Size of the emulated EEPROM and the address of the settings record in it. */
  const EepromSize := 512
  const SettingsAddr := 0

  /** Capacity of the connected-device registry. */
  const MaxDevices := 10

  /** The default subnet octet (the access point is 192.168.4.1). */
  const DefaultSubnet := 4

  /** The compiled-in AP credentials, device name and comment. */
  const DefaultApSsid: Text := "VR_APP_ESP"
  const DefaultApPassword: Text := "12345678"
  const DefaultDeviceName: Text := "ESP8266_Device"
  const DefaultDeviceComment: Text := "Default Comment"

  /** The persisted settings.  The text fields hold the C strings of the
      corresponding buffers. */
  datatype Settings = Settings(
    apSsid: Text,
    apPassword: Text,
    deviceName: Text,
    deviceComment: Text,
    subnet: int,
    apModeEnabled: bool,
    clientModeEnabled: bool,
    staSsid: Text,
    staPassword: Text)

  /** Every string fits its buffer with its terminator, and the subnet is a C `int`. */
  predicate Valid(s: Settings)
  {
    && FitsBuffer(s.apSsid, SsidSize)
    && FitsBuffer(s.apPassword, PasswordSize)
    && FitsBuffer(s.deviceName, NameSize)
    && FitsBuffer(s.deviceComment, CommentSize)
    && JsonDoc.IsInt32(s.subnet)
    && FitsBuffer(s.staSsid, SsidSize)
    && FitsBuffer(s.staPassword, PasswordSize)
  }

  /** The subnet range that loading the settings enforces. */
  predicate SubnetInRange(subnet: int)
  {
    1 <= subnet <= 255
  }

  /** `setupWiFi` joins a network only when client mode is on and a station SSID is stored. */
  predicate ShouldConnectStation(s: Settings)
  {
    s.clientModeEnabled && |s.staSsid| > 0
  }

  /** The record as default member initialisers build it. */
  function DefaultSettings(): (s: Settings)
    ensures Valid(s)
    ensures SubnetInRange(s.subnet)
    ensures !ShouldConnectStation(s)
    ensures s.apModeEnabled && s.staSsid == [] && s.staPassword == []
  {
    Settings(
      apSsid := DefaultApSsid,
      apPassword := DefaultApPassword,
      deviceName := DefaultDeviceName,
      deviceComment := DefaultDeviceComment,
      subnet := DefaultSubnet,
      apModeEnabled := true,
      clientModeEnabled := false,
      staSsid := "",
      staPassword := "")
  }

  /** The compiled-in texts fit their buffers. */
  lemma DefaultsFit()
    ensures FitsBuffer(DefaultApSsid, SsidSize) && FitsBuffer(DefaultApPassword, PasswordSize)
    ensures FitsBuffer(DefaultDeviceName, NameSize) && FitsBuffer(DefaultDeviceComment, CommentSize)
  {
  }

  /** `strlcpy` of the compiled-in defaults copies them whole. */
  lemma DefaultsCopyWhole()
    ensures Strlcpy(DefaultApSsid, SsidSize) == DefaultApSsid
    ensures Strlcpy(DefaultApPassword, PasswordSize) == DefaultApPassword
    ensures Strlcpy(DefaultDeviceName, NameSize) == DefaultDeviceName
    ensures Strlcpy(DefaultDeviceComment, CommentSize) == DefaultDeviceComment
  {
    DefaultsFit();
    StrlcpyFitting(DefaultApSsid, SsidSize);
    StrlcpyFitting(DefaultApPassword, PasswordSize);
    StrlcpyFitting(DefaultDeviceName, NameSize);
    StrlcpyFitting(DefaultDeviceComment, CommentSize);
  }

  /** A station as the registry keeps it; name and comment live only in memory. */
  datatype ConnectedDevice = ConnectedDevice(ip: string, mac: string, deviceName: string, deviceComment: string)

  /** An Arduino `String` member is empty until assigned. */
  const EmptyDevice := ConnectedDevice("", "", "", "")
}
