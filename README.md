# Settings firmware, serial monitor and Bluetooth serial client — a Dafny model

This project models three tools of one repository.

The first is the ESP8266 WiFi manager (`WiFiManager`). It keeps a settings record of nine fields:
- the access-point SSID and password;
- the device name and comment;
- the subnet octet;
- the AP-mode and client-mode flags;
- the station SSID and password.

The record is saved into a 512-byte emulated EEPROM at address 0 and loaded back with a subnet range check. HTTP handlers read and rewrite it: `GET`/`POST /api/settings`, `wifi-connect`, `wifi-disconnect`, `clear-settings` and the three `begin` overloads. Text from requests and from `begin` is written with `strlcpy` into a fixed `char` buffer; the station credentials are cleared with `memset`. The manager also keeps a ten-slot registry of connected stations. The registry is rebuilt from the access point's station list, and a `device-info` request annotates the slot whose MAC matches.

The second is the browser serial monitor (`COMPortManager`). It keeps:
- a byte counter;
- the full capture buffer;
- an on-screen buffer trimmed to its last 10000 characters;
- a pause flag;
- a hex view of chunks that do not decode.

The third is the desktop Bluetooth serial client (`ESP32BluetoothSerial`). It chooses a port by the first-match rule and frames received text into stripped, non-empty lines. When sending, it adds a newline only if the data lacks one.

Layout:
- `bytes.dfy`, `optional.dfy`: the octet type and `Option`.
- `ctext.dfy`: C strings in fixed buffers, and `strlcpy`.
- `textfmt.dfy`: hexadecimal and decimal formatting, with their parsers.
- `json.dfy`: a parsed ArduinoJson document, and the value conversions the handlers use.
- `settings.dfy`: the header, with the record, its buffer sizes, the defaults and the constants.
- `image.dfy`: the byte image of the record, and load/save on an EEPROM image.
- `updates.dfy`: each handler's effect on the record, as a function.
- `registry.dfy`: MAC and IP formatting, plus rebuild and annotate on the slot array.
- `wifimanager.dfy`: the `WiFiManager` class, holding the record, the EEPROM `array`, the slot `array` and the count.
- `webserial.dfy`: the `COMPortManager` class.
- `bleclient.dfy`: the `ESP32BluetoothSerial` class, with the line framer and the port rule.

Calls into the vendor WiFi stack, ArduinoJson, Web Serial and pySerial are not modelled. Their results become method parameters:
- `linkUp(k)` is the answer of the k-th `WiFi.status()` query;
- the station list is a sequence;
- the parsed body is `Option<Doc>`, where `None` means the request had no body;
- the decoder's output is `Option<string>`, where `None` means it threw;
- the port list and the open/write outcomes are plain values.

## Model

| member | source | states |
|---|---|---|
| CText.Strlcpy | VR_ESP8266_ServerClient_v3/AppRestApi5/Wifi_ESP8266.cpp:611-614 | the stored text fits the buffer with its terminator, is a prefix of the source C string, and is either the whole string or exactly size−1 characters |
| CText.StrlcpyLongestPrefix | VR_ESP8266_ServerClient_v3/AppRestApi5/Wifi_ESP8266.cpp:29-30 | every prefix of the source that fits the buffer is a prefix of what is stored, so the stored text is the longest such prefix |
| CText.StrlcpyFitting | VR_ESP8266_ServerClient_v3/AppRestApi5/Wifi_ESP8266.cpp:654-655 | a C string that already fits is copied unchanged |
| CText.StrlcpyIdempotent | VR_ESP8266_ServerClient_v3/AppRestApi5/Wifi_ESP8266.cpp:611-614 | copying the copy again into the same buffer size changes nothing |
| CText.CStr | VR_ESP8266_ServerClient_v3/AppRestApi5/Wifi_ESP8266.h:14-22 | the C string of a buffer is the part before the first NUL: it contains no NUL, is a prefix, and is followed by a NUL when shorter than the buffer |
| CText.CStrOfCString | VR_ESP8266_ServerClient_v3/AppRestApi5/Wifi_ESP8266.h:14-22 | text without NUL is its own C string |
| WifiSettings.DefaultSettings | VR_ESP8266_ServerClient_v3/AppRestApi5/Wifi_ESP8266.h:14-22 | the compiled-in record is well formed, its subnet is in the load range, AP mode is on, the station credentials are empty, and it starts no station connection |
| WifiSettings.DefaultsFit | VR_ESP8266_ServerClient_v3/AppRestApi5/Wifi_ESP8266.h:14-17 | each default string fits its buffer with room for the terminator |
| WifiSettings.DefaultsCopyWhole | VR_ESP8266_ServerClient_v3/AppRestApi5/Wifi_ESP8266.cpp:747-750 | `strlcpy` of each compiled-in default stores it whole |
| JsonDoc.AsCString | VR_ESP8266_ServerClient_v3/AppRestApi5/Wifi_ESP8266.cpp:611-614 | conversion to `const char*` yields a string exactly when the value is a string, and null otherwise |
| JsonDoc.AsString | VR_ESP8266_ServerClient_v3/AppRestApi5/Wifi_ESP8266.cpp:650-651 | conversion to `String` yields text without NUL |
| JsonDoc.AsInt | VR_ESP8266_ServerClient_v3/AppRestApi5/Wifi_ESP8266.cpp:615 | conversion to `int` yields a 32-bit value, and an integer that fits is kept |
| JsonDoc.AsBool | VR_ESP8266_ServerClient_v3/AppRestApi5/Wifi_ESP8266.cpp:616-617 | conversion to `bool` keeps a boolean, and null reads as false |
| TextFormat.HexJoinAt | VR_ESP8266_ServerClient_v3/AppRestApi5/Wifi_ESP8266.cpp:817-819 | byte k of a joined hex string is the two-digit pair at 3k, followed by the separator unless it is the last byte |
| TextFormat.HexJoinInjective | VR_ESP8266_ServerClient_v3/AppRestApi5/Wifi_ESP8266.cpp:817-819 | equal joined hex strings of equally long byte sequences come from equal bytes |
| TextFormat.HexSplitJoin | MPU6050_ESP8266_to_ESP32_I2C_v1/WEB_SERIAL/script.js:215-219 | splitting a joined hex string at every third character reads back exactly the bytes |
| TextFormat.HexPairRoundTrip | MPU6050_ESP8266_to_ESP32_I2C_v1/WEB_SERIAL/script.js:217 | a byte's two-digit hex pair parses back to the byte, in either case |
| TextFormat.HexPair | VR_ESP8266_ServerClient_v3/AppRestApi5/Wifi_ESP8266.cpp:818 | a byte is exactly two ASCII hexadecimal digits, letters in the requested case (upper for `%02X`, lower for `toString(16)`) |
| TextFormat.HexJoin | MPU6050_ESP8266_to_ESP32_I2C_v1/WEB_SERIAL/script.js:216-218 | n joined pairs are 3n−1 characters long, or empty for no bytes |
| TextFormat.DecimalRoundTrip | VR_ESP8266_ServerClient_v3/AppRestApi5/Wifi_ESP8266.cpp:807 | the decimal text of a number parses back to the number |
| TextFormat.Decimal | VR_ESP8266_ServerClient_v3/AppRestApi5/Wifi_ESP8266.cpp:807 | decimal text is non-empty, holds only digits, has no leading zero, and is one digit below ten |
| SettingsImage.Encode | VR_ESP8266_ServerClient_v3/AppRestApi5/Wifi_ESP8266.h:13-23 | the image of a record is `sizeof(Settings)` = 232 bytes |
| SettingsImage.Decode | VR_ESP8266_ServerClient_v3/AppRestApi5/Wifi_ESP8266.cpp:786 | every image decodes to a well-formed record, whatever its bytes |
| SettingsImage.RepairSubnet | VR_ESP8266_ServerClient_v3/AppRestApi5/Wifi_ESP8266.cpp:788-791 | after the check the subnet is in 1..255; an in-range subnet is kept and any other becomes 4, with nothing else changed |
| SettingsImage.LoadFrom | VR_ESP8266_ServerClient_v3/AppRestApi5/Wifi_ESP8266.cpp:785-792 | loading yields a well-formed record whose subnet is in range |
| SettingsImage.StoreInto | VR_ESP8266_ServerClient_v3/AppRestApi5/Wifi_ESP8266.cpp:794-797 | saving writes the record's image at address 0 and keeps every byte after it |
| SettingsImage.ImageFitsEeprom | VR_ESP8266_ServerClient_v3/AppRestApi5/Wifi_ESP8266.h:62-63 | the image fits in the 512-byte EEPROM at address 0 |
| SettingsImage.TextRoundTrip | VR_ESP8266_ServerClient_v3/AppRestApi5/Wifi_ESP8266.h:14-17 | a string that fits its buffer reads back unchanged from the buffer's bytes |
| SettingsImage.Int32RoundTrip | VR_ESP8266_ServerClient_v3/AppRestApi5/Wifi_ESP8266.h:18 | a 32-bit `int` reads back unchanged from its four little-endian bytes |
| SettingsImage.DecodeEncode | VR_ESP8266_ServerClient_v3/AppRestApi5/Wifi_ESP8266.h:13-23 | decoding a well-formed record's image gives back the record |
| SettingsImage.LoadAfterStore | VR_ESP8266_ServerClient_v3/AppRestApi5/Wifi_ESP8266.cpp:785-797 | save followed by load gives back the record when its subnet is in range, and the record with subnet 4 otherwise |
| SettingsImage.StoreTwice | VR_ESP8266_ServerClient_v3/AppRestApi5/Wifi_ESP8266.cpp:794-797 | saving the same record twice leaves the same EEPROM as saving it once |
| SettingsUpdates.FieldsDetermineSettings | VR_ESP8266_ServerClient_v3/AppRestApi5/Wifi_ESP8266.h:13-23 | two records that agree on all nine fields are equal |
| SettingsUpdates.BufferSize | VR_ESP8266_ServerClient_v3/AppRestApi5/Wifi_ESP8266.h:14-17 | every text buffer has room for at least its terminator |
| SettingsUpdates.ApplyPost | VR_ESP8266_ServerClient_v3/AppRestApi5/Wifi_ESP8266.cpp:606-625 | posting keeps a well-formed record well formed |
| SettingsUpdates.PostWritesPresent | VR_ESP8266_ServerClient_v3/AppRestApi5/Wifi_ESP8266.cpp:611-617 | each present member among the seven POST fields overwrites its own field: text with `strlcpy` to the field's size, subnet as `int`, flags as `bool` |
| SettingsUpdates.PostKeepsOthers | VR_ESP8266_ServerClient_v3/AppRestApi5/Wifi_ESP8266.cpp:611-617 | a field whose member is absent keeps its value, and the station SSID and password are never changed by POST |
| SettingsUpdates.PostEmptyBody | VR_ESP8266_ServerClient_v3/AppRestApi5/Wifi_ESP8266.cpp:609 | a body that parsed to no members (a failed parse included) changes nothing |
| SettingsUpdates.SettingsJson | VR_ESP8266_ServerClient_v3/AppRestApi5/Wifi_ESP8266.cpp:589-604 | the GET document has a member for exactly the fields other than the station password, each holding that field's value |
| SettingsUpdates.SettingsJsonDetermines | VR_ESP8266_ServerClient_v3/AppRestApi5/Wifi_ESP8266.cpp:589-604 | the GET document and the station password together determine the record |
| SettingsUpdates.PostOfGetIsIdentity | VR_ESP8266_ServerClient_v3/AppRestApi5/Wifi_ESP8266.cpp:606-625 | posting back the GET document of a well-formed record is well typed and leaves the record unchanged |
| SettingsUpdates.PostThenReload | VR_ESP8266_ServerClient_v3/AppRestApi5/Wifi_ESP8266.cpp:615 | a posted record survives save and reload when its subnet is in range; POST does no range check, so an out-of-range subnet comes back as 4 |
| SettingsUpdates.ApplyConnect | VR_ESP8266_ServerClient_v3/AppRestApi5/Wifi_ESP8266.cpp:650-656 | wifi-connect stores the truncated SSID and password and switches client mode on; AP, device, subnet and AP-mode fields stay as they were |
| SettingsUpdates.ConnectWithoutSsid | VR_ESP8266_ServerClient_v3/AppRestApi5/Wifi_ESP8266.cpp:650 | a body without "ssid" stores the SSID "null", and the record then asks for a station connection |
| SettingsUpdates.ApplyDisconnect | VR_ESP8266_ServerClient_v3/AppRestApi5/Wifi_ESP8266.cpp:672-674 | wifi-disconnect empties both station strings and switches client mode off, leaving every other field; no station connection follows |
| SettingsUpdates.DisconnectUndoesConnect | VR_ESP8266_ServerClient_v3/AppRestApi5/Wifi_ESP8266.cpp:645-678 | disconnecting after connecting restores a record that had no station configuration |
| SettingsUpdates.ApplyBegin | VR_ESP8266_ServerClient_v3/AppRestApi5/Wifi_ESP8266.cpp:29-31 | begin replaces only the truncated AP credentials and the subnet, the subnet without a range check |
| SettingsUpdates.ClearedSettingsReload | VR_ESP8266_ServerClient_v3/AppRestApi5/Wifi_ESP8266.cpp:747-757 | the defaults that clear-settings saves load back unchanged |
| DeviceRegistry.MacToString | VR_ESP8266_ServerClient_v3/AppRestApi5/Wifi_ESP8266.cpp:816-821 | the text of a MAC is 17 characters |
| DeviceRegistry.MacToStringLayout | VR_ESP8266_ServerClient_v3/AppRestApi5/Wifi_ESP8266.cpp:817-819 | byte k of the MAC is the upper-case two-digit pair at 3k, and a colon separates consecutive pairs |
| DeviceRegistry.MacToStringInjective | VR_ESP8266_ServerClient_v3/AppRestApi5/Wifi_ESP8266.cpp:817-819 | distinct MACs give distinct strings |
| DeviceRegistry.IpToString | VR_ESP8266_ServerClient_v3/AppRestApi5/Wifi_ESP8266.cpp:807 | dotted-quad text is between 7 and 15 characters |
| DeviceRegistry.SplitAtDot | VR_ESP8266_ServerClient_v3/AppRestApi5/Wifi_ESP8266.cpp:807 | text of the form head, dot, tail with a dot-free head determines both head and tail |
| DeviceRegistry.IpToStringInjective | VR_ESP8266_ServerClient_v3/AppRestApi5/Wifi_ESP8266.cpp:807 | two stations with the same address text have the same IP address |
| DeviceRegistry.RebuiltCount | VR_ESP8266_ServerClient_v3/AppRestApi5/Wifi_ESP8266.cpp:806 | the rebuilt count is min(n, 10) |
| DeviceRegistry.Refilled | VR_ESP8266_ServerClient_v3/AppRestApi5/Wifi_ESP8266.cpp:807-808 | refilling a slot from a station keeps the slot's name and comment |
| DeviceRegistry.Rebuilt | VR_ESP8266_ServerClient_v3/AppRestApi5/Wifi_ESP8266.cpp:799-814 | after a rebuild every slot keeps its name and comment by index; the first min(n, 10) slots carry the ip and MAC text of the stations of the same index, in list order; every later slot is unchanged |
| DeviceRegistry.RebuiltSlot | VR_ESP8266_ServerClient_v3/AppRestApi5/Wifi_ESP8266.cpp:799-814 | a slot below the new count is refilled from the station of the same index, and a slot at or above it is left as it was |
| DeviceRegistry.FindMac | VR_ESP8266_ServerClient_v3/AppRestApi5/Wifi_ESP8266.cpp:731-737 | the search yields the first slot in use with the MAC, or −1 exactly when no slot in use has it |
| DeviceRegistry.FindMacIsFirst | VR_ESP8266_ServerClient_v3/AppRestApi5/Wifi_ESP8266.cpp:731-737 | a matching slot with no match before it is the one the search finds |
| DeviceRegistry.Annotated | VR_ESP8266_ServerClient_v3/AppRestApi5/Wifi_ESP8266.cpp:731-737 | no slot changes its ip or mac; every slot other than the first match is unchanged; the first match, if any, gets the name and comment |
| DeviceRegistry.AnnotatedAt | VR_ESP8266_ServerClient_v3/AppRestApi5/Wifi_ESP8266.cpp:732-736 | when slot i is the first match, only slot i changes, and only in name and comment |
| DeviceRegistry.AnnotatedNone | VR_ESP8266_ServerClient_v3/AppRestApi5/Wifi_ESP8266.cpp:731-737 | with no match among the slots in use, the registry is unchanged |
| DeviceRegistry.AnnotateWithoutMac | VR_ESP8266_ServerClient_v3/AppRestApi5/Wifi_ESP8266.cpp:726 | a request without "mac" searches for "null", which no rebuilt slot holds, so nothing changes |
| WifiManager.WiFiManager.constructor | VR_ESP8266_ServerClient_v3/AppRestApi5/Wifi_ESP8266.h:55-59 | a new manager holds the default settings, ten empty slots and count 0 |
| WifiManager.WiFiManager.LoadSettings | VR_ESP8266_ServerClient_v3/AppRestApi5/Wifi_ESP8266.cpp:785-792 | the settings become the record loaded from the EEPROM, with the subnet repaired |
| WifiManager.WiFiManager.SaveSettings | VR_ESP8266_ServerClient_v3/AppRestApi5/Wifi_ESP8266.cpp:794-797 | the EEPROM becomes the old EEPROM with the record's image at address 0 |
| WifiManager.WiFiManager.ConnectToWiFi | VR_ESP8266_ServerClient_v3/AppRestApi5/Wifi_ESP8266.cpp:87-106 | without an SSID nothing is attempted; otherwise polling stops at the first link-up or after 20 polls, and the outcome is the answer of the next query |
| WifiManager.WiFiManager.SetupWiFi | VR_ESP8266_ServerClient_v3/AppRestApi5/Wifi_ESP8266.cpp:60-84 | the soft AP 192.168.subnet.1 starts exactly when AP mode is on, and a station connection is attempted exactly when client mode is on and an SSID is stored |
| WifiManager.WiFiManager.Begin | VR_ESP8266_ServerClient_v3/AppRestApi5/Wifi_ESP8266.cpp:19-45 | the settings become the loaded record with the given AP credentials and subnet; that record is saved and WiFi starts as it says |
| WifiManager.WiFiManager.BeginWithCredentials | VR_ESP8266_ServerClient_v3/AppRestApi5/Wifi_ESP8266.cpp:14-17 | begin with the given credentials and subnet 4 |
| WifiManager.WiFiManager.BeginDefault | VR_ESP8266_ServerClient_v3/AppRestApi5/Wifi_ESP8266.cpp:9-12 | begin with the default credentials and subnet 4, which are stored whole |
| WifiManager.WiFiManager.HandleGetSettings | VR_ESP8266_ServerClient_v3/AppRestApi5/Wifi_ESP8266.cpp:589-604 | the reply document is the GET view of the current record and never holds the station password |
| WifiManager.WiFiManager.HandlePostSettings | VR_ESP8266_ServerClient_v3/AppRestApi5/Wifi_ESP8266.cpp:606-625 | no body gives 400 and leaves settings and EEPROM untouched; a text member that is not a string crashes; otherwise the settings become `ApplyPost` of the body and are saved, with reply 200 |
| WifiManager.WiFiManager.HandleApiWifiConnect | VR_ESP8266_ServerClient_v3/AppRestApi5/Wifi_ESP8266.cpp:645-666 | no body gives 400 and changes nothing; otherwise the settings become `ApplyConnect` of the body and are saved, then a connection is attempted, with reply "connecting" |
| WifiManager.WiFiManager.HandleApiWifiDisconnect | VR_ESP8266_ServerClient_v3/AppRestApi5/Wifi_ESP8266.cpp:668-678 | the settings become `ApplyDisconnect` of the old ones and are saved, with reply "disconnected" |
| WifiManager.WiFiManager.HandleApiClearSettings | VR_ESP8266_ServerClient_v3/AppRestApi5/Wifi_ESP8266.cpp:745-760 | the settings become exactly the default record and are saved; with `StoreTwice`, clearing twice equals clearing once |
| WifiManager.WiFiManager.UpdateConnectedDevices | VR_ESP8266_ServerClient_v3/AppRestApi5/Wifi_ESP8266.cpp:799-814 | the count becomes min(n, 10) and the slot array becomes `Rebuilt` of the old one: the first stations, in list order, give ip and mac, and nothing else is written |
| WifiManager.WiFiManager.AnnotateDevice | VR_ESP8266_ServerClient_v3/AppRestApi5/Wifi_ESP8266.cpp:731-737 | the slot array becomes `Annotated` of the old one: the first slot in use with the MAC gets the name and comment |
| WifiManager.WiFiManager.HandleApiDeviceInfo | VR_ESP8266_ServerClient_v3/AppRestApi5/Wifi_ESP8266.cpp:721-743 | no body gives 400 and changes nothing; otherwise the slots are annotated with the body's mac, name and comment, with reply 200 |
| WebSerial.Trimmed | MPU6050_ESP8266_to_ESP32_I2C_v1/WEB_SERIAL/script.js:226-228 | the trimmed text is at most 10000 characters and a suffix of the input; a short input is unchanged, and a long one keeps exactly 10000 |
| WebSerial.TrimIdempotent | MPU6050_ESP8266_to_ESP32_I2C_v1/WEB_SERIAL/script.js:226-228 | trimming twice is trimming once |
| WebSerial.TrimAppend | MPU6050_ESP8266_to_ESP32_I2C_v1/WEB_SERIAL/script.js:207-211 | trimming after each appended chunk shows the same text as trimming the whole capture |
| WebSerial.ArrayBufferToHex | MPU6050_ESP8266_to_ESP32_I2C_v1/WEB_SERIAL/script.js:215-219 | the hex view of n bytes has length 3n−1, or 0 for no bytes |
| WebSerial.HexViewLayout | MPU6050_ESP8266_to_ESP32_I2C_v1/WEB_SERIAL/script.js:215-219 | byte k appears as its lower-case two-digit pair at 3k, with a single space after every pair but the last |
| WebSerial.HexViewRoundTrip | MPU6050_ESP8266_to_ESP32_I2C_v1/WEB_SERIAL/script.js:215-219 | the hex view reads back into exactly the bytes it shows |
| WebSerial.COMPortManager.constructor | MPU6050_ESP8266_to_ESP32_I2C_v1/WEB_SERIAL/script.js:4-13 | a new manager has no port, is not connected or paused, its counter is 0 and both buffers are empty |
| WebSerial.COMPortManager.Connect | MPU6050_ESP8266_to_ESP32_I2C_v1/WEB_SERIAL/script.js:100-131 | a chosen port is kept even if opening fails, and the manager is connected only if it opened |
| WebSerial.COMPortManager.Disconnect | MPU6050_ESP8266_to_ESP32_I2C_v1/WEB_SERIAL/script.js:134-156 | the connection flag drops unless closing threw |
| WebSerial.COMPortManager.DisplayData | MPU6050_ESP8266_to_ESP32_I2C_v1/WEB_SERIAL/script.js:222-234 | the screen buffer becomes its trimmed self, and the capture buffer is not touched |
| WebSerial.COMPortManager.ProcessData | MPU6050_ESP8266_to_ESP32_I2C_v1/WEB_SERIAL/script.js:190-212 | the counter grows by exactly the chunk's length, the decoded text is appended to the capture, and the screen shows the last 10000 characters of the capture |
| WebSerial.COMPortManager.OnRead | MPU6050_ESP8266_to_ESP32_I2C_v1/WEB_SERIAL/script.js:174-176 | while paused, or without a value, the counter and both buffers are unchanged; otherwise the chunk is processed |
| WebSerial.COMPortManager.ClearData | MPU6050_ESP8266_to_ESP32_I2C_v1/WEB_SERIAL/script.js:271-278 | both buffers become empty and the counter 0 |
| WebSerial.COMPortManager.TogglePause | MPU6050_ESP8266_to_ESP32_I2C_v1/WEB_SERIAL/script.js:281-294 | the pause flag is negated, so toggling twice restores it |
| WebSerial.COMPortManager.SendData | MPU6050_ESP8266_to_ESP32_I2C_v1/WEB_SERIAL/script.js:237-256 | nothing is sent exactly when not connected, when there is no port, or when the input is empty; otherwise the payload is the input followed by one newline |
| BleSerialClient.LowerChar | ESP32_C3/esp32_ble_client.py:39 | an upper-case ASCII letter becomes its lower-case letter, and every other character is kept |
| BleSerialClient.Lower | ESP32_C3/esp32_ble_client.py:39 | lower-casing keeps the length and lowers each character |
| BleSerialClient.FirstMatch | ESP32_C3/esp32_ble_client.py:38-44 | the index found is the first port whose lower-cased description contains "bluetooth", "esp" or "serial", or −1 exactly when none does |
| BleSerialClient.FirstMatchAt | ESP32_C3/esp32_ble_client.py:38-44 | a passing port with no passing port before it is the one found |
| BleSerialClient.ChosenPort | ESP32_C3/esp32_ble_client.py:32-47 | an explicit name is used as is; with no ports there is none; otherwise the first passing port is used when its device name is not empty; with no passing port the first port is used; any other choice is a passing port preceded by none |
| BleSerialClient.NoDescriptionNeverMatches | ESP32_C3/esp32_ble_client.py:39 | a port without a description never passes the test |
| BleSerialClient.LowerIdempotent | ESP32_C3/esp32_ble_client.py:39 | lower-casing twice is lower-casing once |
| BleSerialClient.LooksLikeDeviceIgnoresCase | ESP32_C3/esp32_ble_client.py:39-40 | a description passes the test exactly when its lower-cased form does |
| BleSerialClient.ESP32BluetoothSerial.SelectPort | ESP32_C3/esp32_ble_client.py:32-47 | an explicit name is used as is; otherwise the first passing port, else the first port, else none |
| BleSerialClient.ESP32BluetoothSerial.Connect | ESP32_C3/esp32_ble_client.py:29-80 | connect succeeds exactly when a port was chosen, it opened and the buffer resets did not throw; a port that opened leaves the client connected even when a reset then throws; no port, or a port that did not open, leaves the client as it was |
| BleSerialClient.StripStart | ESP32_C3/esp32_ble_client.py:104 | `lstrip` leaves a suffix that does not start with whitespace |
| BleSerialClient.StripStartDropsSpaces | ESP32_C3/esp32_ble_client.py:104 | everything `lstrip` drops is whitespace |
| BleSerialClient.StripEnd | ESP32_C3/esp32_ble_client.py:104 | `rstrip` leaves a prefix that does not end with whitespace |
| BleSerialClient.StripEndDropsSpaces | ESP32_C3/esp32_ble_client.py:104 | everything `rstrip` drops is whitespace |
| BleSerialClient.StripEnds | ESP32_C3/esp32_ble_client.py:104 | a stripped line has no whitespace at either end |
| BleSerialClient.StripEmpty | ESP32_C3/esp32_ble_client.py:104-105 | a line strips to nothing exactly when it is all whitespace |
| BleSerialClient.StripIdempotent | ESP32_C3/esp32_ble_client.py:104 | stripping twice is stripping once |
| BleSerialClient.StripIsSlice | ESP32_C3/esp32_ble_client.py:104 | what `strip()` keeps is a contiguous piece of the line |
| BleSerialClient.IndexOf | ESP32_C3/esp32_ble_client.py:102-103 | the index found is the first occurrence of the character, or −1 exactly when there is none |
| BleSerialClient.IndexOfFirst | ESP32_C3/esp32_ble_client.py:103 | an occurrence with none before it is the one found |
| BleSerialClient.Frames | ESP32_C3/esp32_ble_client.py:102-103 | no complete line contains a newline |
| BleSerialClient.Remainder | ESP32_C3/esp32_ble_client.py:102 | the text kept after the last newline contains no newline |
| BleSerialClient.Kept | ESP32_C3/esp32_ble_client.py:104-105 | one line delivers at most one stripped line |
| BleSerialClient.Deliverable | ESP32_C3/esp32_ble_client.py:104-108 | every delivered line is non-empty, and there are no more of them than complete lines |
| BleSerialClient.FramesStep | ESP32_C3/esp32_ble_client.py:103 | `split('\n', 1)` takes the first line and continues with what follows its newline |
| BleSerialClient.DeliverStep | ESP32_C3/esp32_ble_client.py:103-108 | one drain step delivers the first line's stripped kept form, then the lines after it |
| BleSerialClient.FramesReassemble | ESP32_C3/esp32_ble_client.py:103 | the consumed lines, each followed by a newline, plus the remainder reproduce the buffer |
| BleSerialClient.FramesAppend | ESP32_C3/esp32_ble_client.py:98-103 | the lines of `a + b` are those of `a` followed by those of `a`'s remainder plus `b`, and the remainders agree |
| BleSerialClient.DeliverableConcat | ESP32_C3/esp32_ble_client.py:104-108 | delivery distributes over concatenated line lists |
| BleSerialClient.SplitReadsDeliverSame | ESP32_C3/esp32_ble_client.py:98-108 | text arriving in two reads delivers the same lines, in the same order, and keeps the same remainder, as in one read |
| BleSerialClient.ESP32BluetoothSerial.DrainLines | ESP32_C3/esp32_ble_client.py:102-108 | the drain loop delivers exactly the stripped non-empty complete lines in order, and leaves the remainder, which contains no newline |
| BleSerialClient.WithNewline | ESP32_C3/esp32_ble_client.py:129-130 | the sent text ends with a newline and starts with the data, and is one character longer exactly when the data did not end with a newline |
| BleSerialClient.WithNewlineIdempotent | ESP32_C3/esp32_ble_client.py:129-130 | applying the newline rule again changes nothing |
| BleSerialClient.ESP32BluetoothSerial.SendData | ESP32_C3/esp32_ble_client.py:122-139 | without a connection nothing is written and the result is false; otherwise the data with its newline is written, and the result is the write's outcome |
| BleSerialClient.ESP32BluetoothSerial.constructor | ESP32_C3/esp32_ble_client.py:8-11 | a new client is not connected and has no serial connection |
| BleSerialClient.ESP32BluetoothSerial.Disconnect | ESP32_C3/esp32_ble_client.py:141-149 | after disconnecting the client is not connected |

## Left out

- `DeviceRegistry.IpToString`: `IPAddress::toString` is a call into the ESP8266 core, which is not part of this model. It is modelled as plain dotted decimal, so the "(IP unset)" text that core prints for an unset address is not modelled.
- Vendor WiFi calls are not modelled; their results are parameters. These are `WiFi.mode`, `softAPConfig`, `softAP`, `WiFi.begin`, `WiFi.status`, `wifi_softap_get_station_info` and `disconnectFromWiFi`. The station list is a sequence, so the linked list and its freeing are absent.
- `handleRoot` and the page-string getters are templating, not logic. `handleNotFound`, `handleApiWifiScan`, `handleApiWifiStatus` and `handleApiRestart` only format vendor state or restart the chip. `handleApiConnectedDevices` rebuilds the registry with `updateConnectedDevices` (modelled) and then serializes it; the serialization is left out.
- ArduinoJson's parser and serializer are left out. A body is a parsed map, and a body that did not parse is the empty map. Conversions follow the library's documented rules, with one simplification: a numeric string converts to `int` 0.
- Floating-point JSON numbers are not modelled.
- Response bodies are not modelled as serialized JSON text. The GET handler returns the document.
- `JsonDoc.AsCString`: a POST text member that is not a string becomes a null `const char*`, and `strlcpy` from a null pointer is undefined behaviour. The model replies `Crash` and leaves the settings unchanged, rather than guessing what the device does.
- `SettingsImage.Decode`: reads at most size−1 characters of each buffer. The device would read past an unterminated buffer.
- `SettingsImage.Encode`: writes zeros after each terminator and in the padding. The device copies whatever was in those bytes of the struct.
- The EEPROM is an `array` of values 0..255 rather than of a bit-vector type.
- `EEPROM.begin` and `EEPROM.commit` (flash I/O), `Serial` logging and `delay` are left out.
- The `millis()` cadence of `update()` is timing, not logic, and is left out.
- The older header copy under `OLD/` declares a variant whose bodies are not available, so it is not modelled.
- `WebSerial.Trimmed`: counts Dafny characters, where JavaScript's `length` and `slice` count UTF-16 code units. The two differ for text outside the Basic Multilingual Plane.
- `WebSerial.COMPortManager.Connect`: the port dialog, `open`, the reader and writer, the async read loop, `TextDecoder` and `TextEncoder` are parameters or left out. So are DOM updates, notifications, `saveData` and the baud-rate fields. The counter is unbounded, where JavaScript numbers lose precision above 2^53.
- `BleSerialClient.LowerChar`: lowers only ASCII letters, where Python's `lower()` is full Unicode. The searched words are ASCII, so the only other characters that matter are the two non-ASCII characters that lower to ASCII letters: U+0130 gives "i" plus a combining dot, and U+212A gives "k". Neither creates or breaks a match for "bluetooth", "esp" or "serial".
- `BleSerialClient.ESP32BluetoothSerial.DrainLines`: models the inner loop on the buffer after a read has been appended. The following parts of the thread are left out:
  - the UTF-8 decoding with `errors='ignore'`, which is a parameter, so a character split across reads is not modelled;
  - the thread;
  - `time.sleep`;
  - the exit on an exception;
  - the callback, whose calls are the delivered lines.
- `list_ports`, the printing, the `serial.Serial` parameters and the interactive main loop are left out. An exception while listing ports counts as an empty list.
- `BleSerialClient.ESP32BluetoothSerial.SendData`: the encoding, `write` and `flush` are one outcome parameter.
