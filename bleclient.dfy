/** The desktop client of the ESP32 Bluetooth serial link: choosing a port,
    the line framing of the receive thread, and the newline rule of sending.
    The serial library is outside the model: the port list, whether opening
    a port succeeds, the decoded text of each read and whether a write
    succeeds are parameters. */
module BleSerialClient {
  import opened Optional

  /** An entry of the port list: its device name and optional description. */
  datatype PortInfo = PortInfo(device: string, description: Option<string>)

  /** ASCII lower-casing.  Only ASCII letters change; the needles searched
      for below are ASCII, so other characters cannot create or break a match. */
  function LowerChar(c: char): (r: char)
    ensures 'A' <= c <= 'Z' ==> r as int == c as int + 32
    ensures !('A' <= c <= 'Z') ==> r == c
  {
    if 'A' <= c <= 'Z' then (c as int + 32) as char else c
  }

  function Lower(s: string): (r: string)
    ensures |r| == |s| && forall i | 0 <= i < |s| :: r[i] == LowerChar(s[i])
  {
    seq(|s|, i requires 0 <= i < |s| => LowerChar(s[i]))
  }

  predicate OccursAt(s: string, needle: string, i: nat)
    requires i + |needle| <= |s|
  {
    s[i..i + |needle|] == needle
  }

  /** `needle in s` for strings. */
  predicate Contains(s: string, needle: string)
  {
    exists i | 0 <= i <= |s| - |needle| :: OccursAt(s, needle, i)
  }

  /** The description test of automatic port selection; a missing
      description reads as the empty string. */
  predicate LooksLikeDevice(p: PortInfo)
  {
    var d := if p.description.Some? then Lower(p.description.value) else "";
    Contains(d, "bluetooth") || Contains(d, "esp") || Contains(d, "serial")
  }

  /** A port without a description never passes the test. */
  lemma NoDescriptionNeverMatches(p: PortInfo)
    requires p.description.None?
    ensures !LooksLikeDevice(p)
  {
  }

  lemma {:induction false} LowerIdempotent(s: string)
    ensures Lower(Lower(s)) == Lower(s)
  {
    var l := Lower(s);
    assert forall i | 0 <= i < |s| :: LowerChar(l[i]) == l[i];
  }

  /** The test ignores case: a description passes exactly when its
      lower-cased form does. */
  lemma LooksLikeDeviceIgnoresCase(device: string, d: string)
    ensures LooksLikeDevice(PortInfo(device, Some(d))) == LooksLikeDevice(PortInfo(device, Some(Lower(d))))
  {
    LowerIdempotent(d);
  }

  /** The index of the first port whose description passes the test, or -1. */
  function FirstMatch(ports: seq<PortInfo>): (i: int)
    ensures -1 <= i < |ports|
    ensures i >= 0 ==> LooksLikeDevice(ports[i]) && forall j | 0 <= j < i :: !LooksLikeDevice(ports[j])
    ensures i == -1 ==> forall j | 0 <= j < |ports| :: !LooksLikeDevice(ports[j])
  {
    if |ports| == 0 then -1
    else if LooksLikeDevice(ports[0]) then 0
    else
      var k := FirstMatch(ports[1..]);
      if k < 0 then -1 else k + 1
  }

  /** The port `connect` opens; the empty string means none (Python's
      falsy value).  A matching port with an empty device name counts as no
      match, so the first port is used instead. */
  function ChosenPort(portName: string, ports: seq<PortInfo>): (r: string)
    ensures portName != "" ==> r == portName
    ensures portName == "" && FirstMatch(ports) >= 0 && ports[FirstMatch(ports)].device != "" ==>
      r == ports[FirstMatch(ports)].device
    ensures portName == "" && ports == [] ==> r == ""
    ensures portName == "" && ports != [] && (forall j | 0 <= j < |ports| :: !LooksLikeDevice(ports[j])) ==>
      r == ports[0].device
    ensures portName == "" && ports != [] && r != ports[0].device ==>
      exists j | 0 < j < |ports| :: r == ports[j].device && LooksLikeDevice(ports[j])
        && forall k | 0 <= k < j :: !LooksLikeDevice(ports[k])
  {
    if portName != "" then portName
    else
      var i := FirstMatch(ports);
      var found := if i >= 0 then ports[i].device else "";
      if found == "" && |ports| > 0 then ports[0].device else found
  }

  /** Python's `str.isspace` characters, which `strip()` removes. */
  predicate IsSpace(c: char)
  {
    var n := c as int;
    || n == 0x20 || 0x09 <= n <= 0x0D || 0x1C <= n <= 0x1F || n == 0x85 || n == 0xA0
    || n == 0x1680 || 0x2000 <= n <= 0x200A || n == 0x2028 || n == 0x2029
    || n == 0x202F || n == 0x205F || n == 0x3000
  }

  /** `lstrip()`: drop leading whitespace. */
  function StripStart(s: string): (r: string)
    ensures |r| <= |s| && r == s[|s| - |r|..]
    ensures r == [] || !IsSpace(r[0])
  {
    if s != [] && IsSpace(s[0]) then StripStart(s[1..]) else s
  }

  /** Everything `lstrip()` drops is whitespace. */
  lemma {:induction false} StripStartDropsSpaces(s: string)
    ensures forall i | 0 <= i < |s| - |StripStart(s)| :: IsSpace(s[i])
  {
    if s != [] && IsSpace(s[0]) {
      StripStartDropsSpaces(s[1..]);
      assert forall i | 1 <= i < |s| - |StripStart(s)| :: s[i] == s[1..][i - 1];
    }
  }

  /** `rstrip()`: drop trailing whitespace. */
  function StripEnd(s: string): (r: string)
    ensures |r| <= |s| && r == s[..|r|]
    ensures r == [] || !IsSpace(r[|r| - 1])
  {
    if s != [] && IsSpace(s[|s| - 1]) then StripEnd(s[..|s| - 1]) else s
  }

  /** Everything `rstrip()` drops is whitespace. */
  lemma {:induction false} StripEndDropsSpaces(s: string)
    ensures forall i | |StripEnd(s)| <= i < |s| :: IsSpace(s[i])
  {
    if s != [] && IsSpace(s[|s| - 1]) {
      StripEndDropsSpaces(s[..|s| - 1]);
      assert forall i | |StripEnd(s)| <= i < |s| - 1 :: s[i] == s[..|s| - 1][i];
    }
  }

  /** `strip()`: a piece of the line with no whitespace at either end. */
  function Strip(s: string): string
  {
    StripEnd(StripStart(s))
  }

  /** What `strip()` leaves has no whitespace at either end. */
  lemma StripEnds(s: string)
    ensures Strip(s) == [] || (!IsSpace(Strip(s)[0]) && !IsSpace(Strip(s)[|Strip(s)| - 1]))
  {
    var t := StripStart(s);
    var r := StripEnd(t);
    if r != [] {
      assert r[0] == t[0];
    }
  }

  /** What `strip()` keeps is a contiguous piece of the line. */
  lemma StripIsSlice(s: string)
    ensures exists i | 0 <= i <= |s| - |Strip(s)| :: OccursAt(s, Strip(s), i)
  {
    var t := StripStart(s);
    var r := StripEnd(t);
    assert r == Strip(s) && |s| - |t| + |r| <= |s|;
    assert OccursAt(s, r, |s| - |t|) by {
      assert s[|s| - |t|..][..|r|] == r;
    }
  }

  /** A line strips to nothing exactly when it is all whitespace. */
  lemma StripEmpty(s: string)
    ensures Strip(s) == [] <==> forall i | 0 <= i < |s| :: IsSpace(s[i])
  {
    var t := StripStart(s);
    if StripEnd(t) == [] {
      StripEndDropsSpaces(t);
      assert t == [];
      StripStartDropsSpaces(s);
    } else {
      var k := |s| - |t|;
      assert t == s[k..];
      assert s[k] == t[0] == Strip(s)[0];
    }
  }

  lemma StripIdempotent(s: string)
    ensures Strip(Strip(s)) == Strip(s)
  {
    var r := Strip(s);
    StripEnds(s);
    if r != [] {
      assert StripStart(r) == r;
      assert StripEnd(r) == r;
    }
  }

  /** The index of the first `c` in `s`, or -1. */
  function IndexOf(s: string, c: char): (i: int)
    ensures -1 <= i < |s|
    ensures i >= 0 ==> s[i] == c && c !in s[..i]
    ensures i == -1 <==> c !in s
  {
    if |s| == 0 then -1
    else if s[0] == c then 0
    else
      var k := IndexOf(s[1..], c);
      if k < 0 then -1
      else
        assert s[..k + 1] == [s[0]] + s[1..][..k];
        k + 1
  }

  /** The complete lines of `s`: what comes before each newline. */
  function Frames(s: string): (r: seq<string>)
    ensures forall k | 0 <= k < |r| :: '\n' !in r[k]
    decreases |s|
  {
    var i := IndexOf(s, '\n');
    if i < 0 then [] else [s[..i]] + Frames(s[i + 1..])
  }

  /** What follows the last newline: the start of a line still arriving. */
  function Remainder(s: string): (r: string)
    ensures '\n' !in r
    decreases |s|
  {
    var i := IndexOf(s, '\n');
    if i < 0 then s else Remainder(s[i + 1..])
  }

  /** Lines joined back with their newlines. */
  function JoinLines(lines: seq<string>): string
  {
    if lines == [] then "" else lines[0] + "\n" + JoinLines(lines[1..])
  }

  /** A line as delivered: stripped, or nothing when that leaves it empty. */
  function Kept(line: string): (r: seq<string>)
    ensures |r| <= 1
  {
    if Strip(line) != "" then [Strip(line)] else []
  }

  /** The stripped lines that are not empty, in order: what the callback receives. */
  function Deliverable(frames: seq<string>): (r: seq<string>)
    ensures forall k | 0 <= k < |r| :: r[k] != ""
    ensures |r| <= |frames|
  {
    if frames == [] then [] else Kept(frames[0]) + Deliverable(frames[1..])
  }

  /** One step of the framing: the first line, then the framing of what follows its newline. */
  lemma FramesStep(s: string)
    requires '\n' in s
    ensures var i := IndexOf(s, '\n');
      && s == s[..i] + "\n" + s[i + 1..]
      && Frames(s) == [s[..i]] + Frames(s[i + 1..])
      && Remainder(s) == Remainder(s[i + 1..])
  {
    var i := IndexOf(s, '\n');
    assert s == s[..i] + [s[i]] + s[i + 1..];
  }

  lemma ConcatAssoc<T>(a: seq<T>, b: seq<T>, c: seq<T>)
    ensures a + b + c == a + (b + c)
  {
  }

  /** One step of the delivery: the first line, then the lines after it. */
  lemma DeliverStep(s: string)
    requires '\n' in s
    ensures var i := IndexOf(s, '\n');
      && Deliverable(Frames(s)) == Kept(s[..i]) + Deliverable(Frames(s[i + 1..]))
      && Remainder(s) == Remainder(s[i + 1..])
  {
    var i := IndexOf(s, '\n');
    FramesStep(s);
    var f := Frames(s);
    assert f[0] == s[..i] && f[1..] == Frames(s[i + 1..]);
  }

  /** The lines and the remainder are exactly the buffer. */
  lemma {:induction false} FramesReassemble(s: string)
    ensures JoinLines(Frames(s)) + Remainder(s) == s
    decreases |s|
  {
    if '\n' in s {
      var i := IndexOf(s, '\n');
      var line, rest := s[..i], s[i + 1..];
      FramesStep(s);
      FramesReassemble(rest);
      var f := Frames(s);
      assert f[0] == line && f[1..] == Frames(rest);
      assert JoinLines(f) == line + "\n" + JoinLines(Frames(rest));
      assert JoinLines(f) + Remainder(s) == line + "\n" + (JoinLines(Frames(rest)) + Remainder(rest));
    }
  }

  /** Framing does not depend on how the text was split into reads: the
      lines of `a + b` are those of `a` followed by those of what `a` left
      over plus `b`, and the remainders agree. */
  lemma {:induction false} FramesAppend(a: string, b: string)
    ensures Frames(a + b) == Frames(a) + Frames(Remainder(a) + b)
    ensures Remainder(a + b) == Remainder(Remainder(a) + b)
    decreases |a|
  {
    var i := IndexOf(a, '\n');
    if i >= 0 {
      assert (a + b)[..i] == a[..i];
      assert IndexOf(a + b, '\n') == i by {
        assert (a + b)[i] == '\n';
        assert '\n' !in (a + b)[..i];
        IndexOfFirst(a + b, '\n', i);
      }
      assert (a + b)[i + 1..] == a[i + 1..] + b;
      FramesAppend(a[i + 1..], b);
    }
  }

  lemma {:induction false} DeliverableConcat(f: seq<string>, g: seq<string>)
    ensures Deliverable(f + g) == Deliverable(f) + Deliverable(g)
  {
    if f != [] {
      assert (f + g)[1..] == f[1..] + g;
      DeliverableConcat(f[1..], g);
      ConcatAssoc(Kept(f[0]), Deliverable(f[1..]), Deliverable(g));
    } else {
      assert f + g == g;
    }
  }

  /** Text that arrives in two reads delivers the same lines, in the same
      order, as the same text in one read, and leaves the same remainder. */
  lemma SplitReadsDeliverSame(a: string, b: string)
    ensures Deliverable(Frames(a)) + Deliverable(Frames(Remainder(a) + b)) == Deliverable(Frames(a + b))
    ensures Remainder(Remainder(a) + b) == Remainder(a + b)
  {
    FramesAppend(a, b);
    DeliverableConcat(Frames(a), Frames(Remainder(a) + b));
  }

  /** A `c` preceded by none is where `IndexOf` stops. */
  lemma {:induction false} IndexOfFirst(s: string, c: char, i: nat)
    requires i < |s| && s[i] == c && c !in s[..i]
    ensures IndexOf(s, c) == i
  {
    if i > 0 {
      assert s[1..][..i - 1] == s[1..i];
      assert s[1..i] == s[..i][1..];
      assert s[0] == s[..i][0];
      IndexOfFirst(s[1..], c, i - 1);
    }
  }

  /** `send_data`'s newline rule: the payload ends with a newline, starts
      with the data, and adds that newline only when it is missing. */
  function WithNewline(data: string): (r: string)
    ensures |r| > 0 && r[|r| - 1] == '\n'
    ensures |data| <= |r| <= |data| + 1
    ensures r[..|data|] == data
    ensures |r| == |data| <==> |data| > 0 && data[|data| - 1] == '\n'
  {
    if |data| > 0 && data[|data| - 1] == '\n' then data else data + "\n"
  }

  /** Applying the rule again changes nothing. */
  lemma WithNewlineIdempotent(data: string)
    ensures WithNewline(WithNewline(data)) == WithNewline(data)
  {
  }

  class ESP32BluetoothSerial {
    var connected: bool
    /** `self.serial_conn is not None`. */
    var hasSerialConn: bool

    constructor ()
      ensures !connected && !hasSerialConn
    {
      connected := false;
      hasSerialConn := false;
    }

    /** The port choice of `connect`: the explicit name, else the first port
        whose description passes the test, else the first port. */
    static method SelectPort(portName: string, ports: seq<PortInfo>) returns (port: string)
      ensures port == ChosenPort(portName, ports)
    {
      if portName != "" {
        return portName;
      }
      port := "";
      for k := 0 to |ports|
        invariant forall j | 0 <= j < k :: !LooksLikeDevice(ports[j])
      {
        if LooksLikeDevice(ports[k]) {
          port := ports[k].device;
          assert FirstMatch(ports) == k by {
            FirstMatchAt(ports, k);
          }
          break;
        }
      }
      if port == "" && |ports| > 0 {
        port := ports[0].device;
      }
    }

    /** `connect`: nothing to open gives `False` and changes nothing; a port
        that fails to open gives `False` and changes nothing.  An opened port
        sets the connection and the flag before the buffers are reset, so a
        reset that throws (`resetOk` false) gives `False` with the client
        marked connected. */
    method Connect(portName: string, ports: seq<PortInfo>, opens: bool, resetOk: bool) returns (ok: bool)
      modifies this
      ensures ok <==> ChosenPort(portName, ports) != "" && opens && resetOk
      ensures ChosenPort(portName, ports) != "" && opens ==> connected && hasSerialConn
      ensures !(ChosenPort(portName, ports) != "" && opens) ==>
        connected == old(connected) && hasSerialConn == old(hasSerialConn)
    {
      var port := SelectPort(portName, ports);
      if port == "" {
        return false;
      }
      if !opens {
        return false;
      }
      hasSerialConn := true;
      connected := true;
      if !resetOk {
        return false;
      }
      ok := true;
    }

    /** The inner loop of `receive_thread`: take complete lines off the
        buffer, strip them, deliver the non-empty ones, keep the rest. */
    static method DrainLines(received: string) returns (lines: seq<string>, rest: string)
      ensures lines == Deliverable(Frames(received))
      ensures rest == Remainder(received)
      ensures '\n' !in rest
    {
      var buffer := received;
      lines := [];
      while '\n' in buffer
        invariant lines + Deliverable(Frames(buffer)) == Deliverable(Frames(received))
        invariant Remainder(buffer) == Remainder(received)
        decreases |buffer|
      {
        var i := IndexOf(buffer, '\n');
        var line := buffer[..i];
        ghost var before, raw := lines, line;
        DeliverStep(buffer);
        buffer := buffer[i + 1..];
        line := Strip(line);
        if line != "" {
          lines := lines + [line];
        }
        assert lines == before + Kept(raw);
        ConcatAssoc(before, Kept(raw), Deliverable(Frames(buffer)));
      }
      assert IndexOf(buffer, '\n') == -1;
      assert Frames(buffer) == [] && lines + [] == lines;
      rest := buffer;
    }

    /** `send_data`: refused without a connection; otherwise the data with
        its newline is written, and the result is whether the write succeeded. */
    method SendData(data: string, writeOk: bool) returns (ok: bool, written: Option<string>)
      ensures !connected || !hasSerialConn ==> !ok && written == None
      ensures connected && hasSerialConn ==> written == Some(WithNewline(data)) && ok == writeOk
    {
      if !connected || !hasSerialConn {
        return false, None;
      }
      written := Some(WithNewline(data));
      ok := writeOk;
    }

    /** `disconnect`: the flag drops; the closed connection object is kept. */
    method Disconnect()
      modifies this`connected
      ensures !connected
    {
      connected := false;
    }
  }

  /** A passing port preceded by no passing port is the one `FirstMatch` finds. */
  lemma {:induction false} FirstMatchAt(ports: seq<PortInfo>, k: nat)
    requires k < |ports| && LooksLikeDevice(ports[k])
    requires forall j | 0 <= j < k :: !LooksLikeDevice(ports[j])
    ensures FirstMatch(ports) == k
  {
    if k > 0 {
      FirstMatchAt(ports[1..], k - 1);
    }
  }
}
