/** What each settings handler of the WiFi manager does to the settings
    record, as functions of the old record and the parsed request body,
    and the JSON view of the record that `GET /api/settings` returns. */
module SettingsUpdates {
  import opened Bytes
  import opened CText
  import opened WifiSettings
  import opened JsonDoc
  import SettingsImage

  /** The nine fields of the settings record. */
  datatype Field =
    | ApSsid | ApPassword | DeviceName | DeviceComment | Subnet
    | ApModeEnabled | ClientModeEnabled | StaSsid | StaPassword

  /** The JSON member name of a field. */
  function Key(f: Field): Text
  {
    match f
    case ApSsid => "ap_ssid"
    case ApPassword => "ap_password"
    case DeviceName => "device_name"
    case DeviceComment => "device_comment"
    case Subnet => "subnet"
    case ApModeEnabled => "ap_mode_enabled"
    case ClientModeEnabled => "client_mode_enabled"
    case StaSsid => "sta_ssid"
    case StaPassword => "sta_password"
  }

  /** The fields `POST /api/settings` may change. */
  const PostFields: set<Field> :=
    {ApSsid, ApPassword, DeviceName, DeviceComment, Subnet, ApModeEnabled, ClientModeEnabled}

  /** The fields `POST /api/settings` copies with `strlcpy`. */
  predicate IsTextField(f: Field)
  {
    f.ApSsid? || f.ApPassword? || f.DeviceName? || f.DeviceComment?
  }

  /** A field as a JSON value. */
  function FieldValue(s: Settings, f: Field): JsonValue
  {
    match f
    case ApSsid => JStr(s.apSsid)
    case ApPassword => JStr(s.apPassword)
    case DeviceName => JStr(s.deviceName)
    case DeviceComment => JStr(s.deviceComment)
    case Subnet => JInt(s.subnet)
    case ApModeEnabled => JBool(s.apModeEnabled)
    case ClientModeEnabled => JBool(s.clientModeEnabled)
    case StaSsid => JStr(s.staSsid)
    case StaPassword => JStr(s.staPassword)
  }

  /** The nine fields determine the record. */
  lemma FieldsDetermineSettings(a: Settings, b: Settings)
    requires forall f: Field :: FieldValue(a, f) == FieldValue(b, f)
    ensures a == b
  {
    assert FieldValue(a, ApSsid) == FieldValue(b, ApSsid);
    assert FieldValue(a, ApPassword) == FieldValue(b, ApPassword);
    assert FieldValue(a, DeviceName) == FieldValue(b, DeviceName);
    assert FieldValue(a, DeviceComment) == FieldValue(b, DeviceComment);
    assert FieldValue(a, Subnet) == FieldValue(b, Subnet);
    assert FieldValue(a, ApModeEnabled) == FieldValue(b, ApModeEnabled);
    assert FieldValue(a, ClientModeEnabled) == FieldValue(b, ClientModeEnabled);
    assert FieldValue(a, StaSsid) == FieldValue(b, StaSsid);
    assert FieldValue(a, StaPassword) == FieldValue(b, StaPassword);
  }

  /** The buffer size of a field copied with `strlcpy`. */
  function BufferSize(f: Field): (n: nat)
    ensures n >= 1
  {
    match f
    case ApPassword | StaPassword => PasswordSize
    case DeviceName => NameSize
    case DeviceComment => CommentSize
    case _ => SsidSize
  }

  /** A present text member must hold a string: any other value converts to
      a null `const char*`, which `strlcpy` then reads. */
  predicate TextMemberOk(doc: Doc, f: Field)
  {
    Key(f) in doc ==> AsCString(doc[Key(f)]).Some?
  }

  predicate PostWellTyped(doc: Doc)
  {
    TextMemberOk(doc, ApSsid) && TextMemberOk(doc, ApPassword)
    && TextMemberOk(doc, DeviceName) && TextMemberOk(doc, DeviceComment)
  }

  /** The value a present POST member leaves in its field. */
  function Posted(f: Field, v: JsonValue): (r: JsonValue)
    requires IsTextField(f) ==> v.JStr?
  {
    if IsTextField(f) then JStr(Strlcpy(v.s, BufferSize(f)))
    else if f.Subnet? then JInt(AsInt(v))
    else JBool(AsBool(v))
  }

  function CopyIfPresent(cur: Text, doc: Doc, f: Field): Text
    requires TextMemberOk(doc, f)
  {
    if Key(f) in doc then Strlcpy(doc[Key(f)].s, BufferSize(f)) else cur
  }

  /** `POST /api/settings` with a body. */
  function ApplyPost(s: Settings, doc: Doc): (r: Settings)
    requires PostWellTyped(doc)
    ensures Valid(s) ==> Valid(r)
  {
    Settings(
      apSsid := CopyIfPresent(s.apSsid, doc, ApSsid),
      apPassword := CopyIfPresent(s.apPassword, doc, ApPassword),
      deviceName := CopyIfPresent(s.deviceName, doc, DeviceName),
      deviceComment := CopyIfPresent(s.deviceComment, doc, DeviceComment),
      subnet := if "subnet" in doc then AsInt(doc["subnet"]) else s.subnet,
      apModeEnabled := if "ap_mode_enabled" in doc then AsBool(doc["ap_mode_enabled"]) else s.apModeEnabled,
      clientModeEnabled :=
        if "client_mode_enabled" in doc then AsBool(doc["client_mode_enabled"]) else s.clientModeEnabled,
      staSsid := s.staSsid,
      staPassword := s.staPassword)
  }

  /** A present POST member overwrites its own field with its converted value. */
  lemma PostWritesPresent(s: Settings, doc: Doc, f: Field)
    requires PostWellTyped(doc)
    requires f in PostFields && Key(f) in doc
    ensures IsTextField(f) ==> doc[Key(f)].JStr?
    ensures FieldValue(ApplyPost(s, doc), f) == Posted(f, doc[Key(f)])
  {
  }

  /** Every other field, those of absent members and the station credentials, is kept. */
  lemma PostKeepsOthers(s: Settings, doc: Doc, f: Field)
    requires PostWellTyped(doc)
    requires f !in PostFields || Key(f) !in doc
    ensures FieldValue(ApplyPost(s, doc), f) == FieldValue(s, f)
  {
  }

  /** A body that parsed to no members (or did not parse) changes nothing. */
  lemma PostEmptyBody(s: Settings)
    ensures ApplyPost(s, map[]) == s
  {
  }

  /** `GET /api/settings`: every field except the station password. */
  function SettingsJson(s: Settings): (doc: Doc)
    ensures forall f: Field :: Key(f) in doc <==> f != StaPassword
    ensures forall f: Field | f != StaPassword :: doc[Key(f)] == FieldValue(s, f)
  {
    map[
      "ap_ssid" := JStr(s.apSsid),
      "ap_password" := JStr(s.apPassword),
      "device_name" := JStr(s.deviceName),
      "device_comment" := JStr(s.deviceComment),
      "subnet" := JInt(s.subnet),
      "ap_mode_enabled" := JBool(s.apModeEnabled),
      "client_mode_enabled" := JBool(s.clientModeEnabled),
      "sta_ssid" := JStr(s.staSsid)]
  }

  /** The GET view determines everything but the station password. */
  lemma SettingsJsonDetermines(a: Settings, b: Settings)
    requires SettingsJson(a) == SettingsJson(b) && a.staPassword == b.staPassword
    ensures a == b
  {
    forall f: Field
      ensures FieldValue(a, f) == FieldValue(b, f)
    {
      if f != StaPassword {
        assert SettingsJson(a)[Key(f)] == SettingsJson(b)[Key(f)];
      }
    }
    FieldsDetermineSettings(a, b);
  }

  /** Posting back what GET returned leaves a well-formed record unchanged. */
  lemma PostOfGetIsIdentity(s: Settings)
    requires Valid(s)
    ensures PostWellTyped(SettingsJson(s))
    ensures ApplyPost(s, SettingsJson(s)) == s
  {
    StrlcpyFitting(s.apSsid, SsidSize);
    StrlcpyFitting(s.apPassword, PasswordSize);
    StrlcpyFitting(s.deviceName, NameSize);
    StrlcpyFitting(s.deviceComment, CommentSize);
  }

  /** A POSTed record survives save and reload when its subnet is in range;
      POST does not check the range, so an out-of-range subnet comes back as 4. */
  lemma PostThenReload(eeprom: seq<byte>, s: Settings, doc: Doc)
    requires |eeprom| == EepromSize && Valid(s) && PostWellTyped(doc)
    ensures var r := ApplyPost(s, doc);
      SettingsImage.LoadFrom(SettingsImage.StoreInto(eeprom, r))
        == if SubnetInRange(r.subnet) then r else r.(subnet := DefaultSubnet)
  {
    SettingsImage.LoadAfterStore(eeprom, ApplyPost(s, doc));
  }

  /** `POST /api/wifi-connect` with a body: the credentials become the
      station credentials and client mode is switched on. */
  function ApplyConnect(s: Settings, doc: Doc): (r: Settings)
    ensures Valid(s) ==> Valid(r)
    ensures r.clientModeEnabled
    ensures r.staSsid == Strlcpy(AsString(Member(doc, "ssid")), SsidSize)
    ensures r.staPassword == Strlcpy(AsString(Member(doc, "password")), PasswordSize)
    ensures forall f: Field | !(f.StaSsid? || f.StaPassword? || f.ClientModeEnabled?) ::
      FieldValue(r, f) == FieldValue(s, f)
  {
    s.(staSsid := Strlcpy(AsString(Member(doc, "ssid")), SsidSize),
       staPassword := Strlcpy(AsString(Member(doc, "password")), PasswordSize),
       clientModeEnabled := true)
  }

  /** A body without "ssid" (or one that did not parse) stores the SSID
      "null", so the next boot tries to join a network of that name. */
  lemma ConnectWithoutSsid(s: Settings, doc: Doc)
    requires "ssid" !in doc
    ensures ApplyConnect(s, doc).staSsid == "null"
    ensures ShouldConnectStation(ApplyConnect(s, doc))
  {
    CStrOfCString("null");
  }

  /** `POST /api/wifi-disconnect`: the station credentials are wiped and
      client mode is switched off. */
  function ApplyDisconnect(s: Settings): (r: Settings)
    ensures Valid(s) ==> Valid(r)
    ensures !ShouldConnectStation(r)
    ensures r.staSsid == [] && r.staPassword == [] && !r.clientModeEnabled
    ensures forall f: Field | !(f.StaSsid? || f.StaPassword? || f.ClientModeEnabled?) ::
      FieldValue(r, f) == FieldValue(s, f)
  {
    s.(staSsid := [], staPassword := [], clientModeEnabled := false)
  }

  /** Disconnecting after connecting restores the record when it had no
      station configuration. */
  lemma DisconnectUndoesConnect(s: Settings, doc: Doc)
    requires s.staSsid == [] && s.staPassword == [] && !s.clientModeEnabled
    ensures ApplyDisconnect(ApplyConnect(s, doc)) == s
  {
  }

  /** `begin(ap_ssid, ap_password, subnet)` after loading: the AP
      credentials and the subnet are replaced, the subnet without a range check. */
  function ApplyBegin(s: Settings, apSsid: Text, apPassword: Text, subnet: int): (r: Settings)
    requires IsInt32(subnet)
    ensures Valid(s) ==> Valid(r)
    ensures r.apSsid == Strlcpy(apSsid, SsidSize) && r.apPassword == Strlcpy(apPassword, PasswordSize)
    ensures r.subnet == subnet
    ensures forall f: Field | !(f.ApSsid? || f.ApPassword? || f.Subnet?) ::
      FieldValue(r, f) == FieldValue(s, f)
  {
    s.(apSsid := Strlcpy(apSsid, SsidSize), apPassword := Strlcpy(apPassword, PasswordSize), subnet := subnet)
  }

  /** The defaults that `clear-settings` writes come back unchanged from storage. */
  lemma ClearedSettingsReload(eeprom: seq<byte>)
    requires |eeprom| == EepromSize
    ensures SettingsImage.LoadFrom(SettingsImage.StoreInto(eeprom, DefaultSettings())) == DefaultSettings()
  {
    SettingsImage.LoadAfterStore(eeprom, DefaultSettings());
  }
}
