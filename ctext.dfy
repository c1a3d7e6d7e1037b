/** C strings as the firmware holds them: text in fixed `char` buffers,
    terminated by NUL, written with `strlcpy`. */
module CText {

  /** One byte of a `char` buffer, seen as a character. */
  type ByteChar = c: char | c as int < 256

  /** The contents of a `char` buffer or of a byte string. */
  type Text = seq<ByteChar>

  const Nul: ByteChar := '\0'

  /** Text known to hold only byte-sized characters, such as formatted numbers. */
  function FromString(s: string): (t: Text)
    requires forall i | 0 <= i < |s| :: s[i] as int < 256
    ensures t == s
  {
    s
  }

  /** A C string that fits in a buffer of `size` bytes with its terminator. */
  predicate FitsBuffer(t: Text, size: nat)
  {
    |t| < size && Nul !in t
  }

  /** The C string a buffer holds: everything before its first NUL. */
  function CStr(t: Text): (r: Text)
    ensures Nul !in r
    ensures |r| <= |t| && r == t[..|r|]
    ensures |r| < |t| ==> t[|r|] == Nul
  {
    if t == [] || t[0] == Nul then [] else [t[0]] + CStr(t[1..])
  }

  lemma {:induction false} CStrOfCString(t: Text)
    requires Nul !in t
    ensures CStr(t) == t
  {
    if t != [] {
      CStrOfCString(t[1..]);
    }
  }

  /** `strlcpy(dst, src, size)`: copies the C string `src` into a buffer of
      `size` bytes, truncating it to `size - 1` characters. */
  function Strlcpy(src: Text, size: nat): (r: Text)
    requires size >= 1
    ensures FitsBuffer(r, size)
    ensures r <= CStr(src)
    ensures |r| == size - 1 || r == CStr(src)
  {
    var s := CStr(src);
    if |s| < size then s else s[..size - 1]
  }

  /** What `strlcpy` stores is the longest prefix of the source that fits. */
  lemma StrlcpyLongestPrefix(src: Text, size: nat, p: Text)
    requires size >= 1
    requires FitsBuffer(p, size) && p <= CStr(src)
    ensures p <= Strlcpy(src, size)
  {
  }

  /** A C string that already fits is copied unchanged. */
  lemma StrlcpyFitting(src: Text, size: nat)
    requires size >= 1 && FitsBuffer(src, size)
    ensures Strlcpy(src, size) == src
  {
    CStrOfCString(src);
  }

  /** Copying a copy again into the same buffer size changes nothing. */
  lemma StrlcpyIdempotent(src: Text, size: nat)
    requires size >= 1
    ensures Strlcpy(Strlcpy(src, size), size) == Strlcpy(src, size)
  {
    StrlcpyFitting(Strlcpy(src, size), size);
  }
}
