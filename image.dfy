/** The settings record as bytes: `EEPROM.put`/`EEPROM.get` copy the raw
    struct, so the stored image is the struct's memory layout (four `char`
    buffers, a 4-byte little-endian `int`, two one-byte `bool`s, two more
    buffers and two bytes of padding to a multiple of four).  `LoadFrom` is
    `loadSettings` on an EEPROM image: decode, then repair the subnet. */
module SettingsImage {
  import opened Bytes
  import opened CText
  import opened WifiSettings
  import JsonDoc

  const ApSsidOffset := 0
  const ApPasswordOffset := 32
  const DeviceNameOffset := 64
  const DeviceCommentOffset := 96
  const SubnetOffset := 160
  const ApModeOffset := 164
  const ClientModeOffset := 165
  const StaSsidOffset := 166
  const StaPasswordOffset := 198
  /** `sizeof(Settings)`. */
  const ImageSize := 232

  /** A string buffer of `size` bytes: the characters, then NUL bytes. */
  function TextBytes(t: Text, size: nat): (b: seq<byte>)
    requires |t| < size
    ensures |b| == size
  {
    seq(size, i requires 0 <= i < size => if i < |t| then t[i] as int else 0)
  }

  /** The C string held in a buffer, read through at most `|b| - 1` bytes. */
  function TextOf(b: seq<byte>): (t: Text)
    requires |b| >= 1
    ensures FitsBuffer(t, |b|)
  {
    CStr(seq(|b| - 1, i requires 0 <= i < |b| - 1 => b[i] as char))
  }

  /** A C `int` as four little-endian two's-complement bytes. */
  function Int32Bytes(i: int): (b: seq<byte>)
    requires JsonDoc.IsInt32(i)
    ensures |b| == 4
  {
    var u := if i < 0 then i + 0x1_0000_0000 else i;
    [u % 0x100, u / 0x100 % 0x100, u / 0x1_0000 % 0x100, u / 0x100_0000]
  }

  function Int32Of(b: seq<byte>): (i: int)
    requires |b| == 4
    ensures JsonDoc.IsInt32(i)
  {
    var u := b[0] as int + 0x100 * b[1] as int + 0x1_0000 * b[2] as int + 0x100_0000 * b[3] as int;
    if u <= JsonDoc.MaxInt32 then u else u - 0x1_0000_0000
  }

  function BoolByte(x: bool): byte
  {
    if x then 1 else 0
  }

  /** The stored image of a record.  Bytes past a string's terminator and the
      padding are written as zero. */
  function Encode(s: Settings): (b: seq<byte>)
    requires Valid(s)
    ensures |b| == ImageSize
  {
    TextBytes(s.apSsid, SsidSize)
    + TextBytes(s.apPassword, PasswordSize)
    + TextBytes(s.deviceName, NameSize)
    + TextBytes(s.deviceComment, CommentSize)
    + Int32Bytes(s.subnet)
    + [BoolByte(s.apModeEnabled), BoolByte(s.clientModeEnabled)]
    + TextBytes(s.staSsid, SsidSize)
    + TextBytes(s.staPassword, PasswordSize)
    + [0, 0]
  }

  /** The record an image holds.  Any non-zero byte reads as `true`. */
  function Decode(b: seq<byte>): (s: Settings)
    requires |b| == ImageSize
    ensures Valid(s)
  {
    Settings(
      apSsid := TextOf(b[ApSsidOffset..ApPasswordOffset]),
      apPassword := TextOf(b[ApPasswordOffset..DeviceNameOffset]),
      deviceName := TextOf(b[DeviceNameOffset..DeviceCommentOffset]),
      deviceComment := TextOf(b[DeviceCommentOffset..SubnetOffset]),
      subnet := Int32Of(b[SubnetOffset..ApModeOffset]),
      apModeEnabled := b[ApModeOffset] != 0,
      clientModeEnabled := b[ClientModeOffset] != 0,
      staSsid := TextOf(b[StaSsidOffset..StaPasswordOffset]),
      staPassword := TextOf(b[StaPasswordOffset..StaPasswordOffset + PasswordSize]))
  }

  /** The range check of `loadSettings`: an out-of-range subnet becomes the default. */
  function RepairSubnet(s: Settings): (r: Settings)
    ensures SubnetInRange(r.subnet)
    ensures SubnetInRange(s.subnet) ==> r == s
    ensures !SubnetInRange(s.subnet) ==> r == s.(subnet := DefaultSubnet)
  {
    if s.subnet < 1 || s.subnet > 255 then s.(subnet := DefaultSubnet) else s
  }

  /** `loadSettings` on an EEPROM image. */
  function LoadFrom(eeprom: seq<byte>): (s: Settings)
    requires |eeprom| == EepromSize
    ensures Valid(s) && SubnetInRange(s.subnet)
  {
    RepairSubnet(Decode(eeprom[SettingsAddr..SettingsAddr + ImageSize]))
  }

  /** `saveSettings` on an EEPROM image: the record at its address, every other byte kept. */
  function StoreInto(eeprom: seq<byte>, s: Settings): (r: seq<byte>)
    requires |eeprom| == EepromSize && Valid(s)
    ensures |r| == EepromSize
    ensures r[SettingsAddr..SettingsAddr + ImageSize] == Encode(s)
    ensures r[SettingsAddr + ImageSize..] == eeprom[SettingsAddr + ImageSize..]
  {
    eeprom[..SettingsAddr] + Encode(s) + eeprom[SettingsAddr + ImageSize..]
  }

  /** The record fits in the EEPROM region at its address. */
  lemma ImageFitsEeprom()
    ensures 0 <= SettingsAddr && SettingsAddr + ImageSize <= EepromSize
  {
  }

  lemma {:induction false} CStrOfTerminated(t: Text, rest: Text)
    requires Nul !in t
    requires rest == [] || rest[0] == Nul
    ensures CStr(t + rest) == t
  {
    if t == [] {
    } else {
      assert (t + rest)[1..] == t[1..] + rest;
      CStrOfTerminated(t[1..], rest);
    }
  }

  lemma TextRoundTrip(t: Text, size: nat)
    requires FitsBuffer(t, size)
    ensures TextOf(TextBytes(t, size)) == t
  {
    var b := TextBytes(t, size);
    var chars: Text := seq(|b| - 1, i requires 0 <= i < |b| - 1 => b[i] as char);
    var rest := chars[|t|..];
    assert chars == t + rest;
    CStrOfTerminated(t, rest);
  }

  lemma BaseDigits(u: int)
    requires 0 <= u < 0x1_0000_0000
    ensures u % 0x100 + 0x100 * (u / 0x100 % 0x100) + 0x1_0000 * (u / 0x1_0000 % 0x100)
            + 0x100_0000 * (u / 0x100_0000) == u
  {
    var q1, q2 := u / 0x100, u / 0x1_0000;
    assert u == u % 0x100 + 0x100 * q1;
    assert q1 == q1 % 0x100 + 0x100 * (q1 / 0x100);
    assert q1 / 0x100 == q2;
    assert q2 == q2 % 0x100 + 0x100 * (q2 / 0x100);
    assert q2 / 0x100 == u / 0x100_0000;
    assert q1 % 0x100 == u / 0x100 % 0x100;
  }

  lemma Int32RoundTrip(i: int)
    requires JsonDoc.IsInt32(i)
    ensures Int32Of(Int32Bytes(i)) == i
  {
    var u := if i < 0 then i + 0x1_0000_0000 else i;
    var b := Int32Bytes(i);
    BaseDigits(u);
  }

  /** Decoding the image of a well-formed record gives the record back. */
  lemma DecodeEncode(s: Settings)
    requires Valid(s)
    ensures Decode(Encode(s)) == s
  {
    var b := Encode(s);
    assert b[ApSsidOffset..ApPasswordOffset] == TextBytes(s.apSsid, SsidSize);
    assert b[ApPasswordOffset..DeviceNameOffset] == TextBytes(s.apPassword, PasswordSize);
    assert b[DeviceNameOffset..DeviceCommentOffset] == TextBytes(s.deviceName, NameSize);
    assert b[DeviceCommentOffset..SubnetOffset] == TextBytes(s.deviceComment, CommentSize);
    assert b[SubnetOffset..ApModeOffset] == Int32Bytes(s.subnet);
    assert b[StaSsidOffset..StaPasswordOffset] == TextBytes(s.staSsid, SsidSize);
    assert b[StaPasswordOffset..StaPasswordOffset + PasswordSize] == TextBytes(s.staPassword, PasswordSize);
    TextRoundTrip(s.apSsid, SsidSize);
    TextRoundTrip(s.apPassword, PasswordSize);
    TextRoundTrip(s.deviceName, NameSize);
    TextRoundTrip(s.deviceComment, CommentSize);
    Int32RoundTrip(s.subnet);
    TextRoundTrip(s.staSsid, SsidSize);
    TextRoundTrip(s.staPassword, PasswordSize);
  }

  /** Saving and then loading gives back the saved record when its subnet is
      in range, and the record with subnet 4 otherwise. */
  lemma LoadAfterStore(eeprom: seq<byte>, s: Settings)
    requires |eeprom| == EepromSize && Valid(s)
    ensures SubnetInRange(s.subnet) ==> LoadFrom(StoreInto(eeprom, s)) == s
    ensures !SubnetInRange(s.subnet) ==> LoadFrom(StoreInto(eeprom, s)) == s.(subnet := DefaultSubnet)
  {
    DecodeEncode(s);
  }

  /** Storing a record again over its own image changes nothing. */
  lemma StoreTwice(eeprom: seq<byte>, s: Settings)
    requires |eeprom| == EepromSize && Valid(s)
    ensures StoreInto(StoreInto(eeprom, s), s) == StoreInto(eeprom, s)
  {
  }
}
