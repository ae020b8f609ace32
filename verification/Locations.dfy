/**
 Location keys of the active peer list: `host:port` strings built by a template
 literal and taken apart again with `split` and `parseInt`.
 */
module Locations {
  import opened JsMaps

  type Location = string

  /** A port as JavaScript sees it: an integer, or what `parseInt` gives for text that holds none. */
  datatype Port = Num(n: int) | NaN

  datatype Device = Device(hostname: string, portNum: Port)

  function DigitChar(d: nat): char
    requires d < 10
  {
    '0' + d as char
  }

  /** Value of one digit character, or 99 for any other character. */
  function DigitValue(c: char): nat {
    if '0' <= c <= '9' then c as nat - '0' as nat
    else if 'a' <= c <= 'f' then 10 + (c as nat - 'a' as nat)
    else if 'A' <= c <= 'F' then 10 + (c as nat - 'A' as nat)
    else 99
  }

  function Decimal(n: nat): string {
    if n < 10 then [DigitChar(n)] else Decimal(n / 10) + [DigitChar(n % 10)]
  }

  function PortText(p: Port): string {
    match p
    case NaN => "NaN"
    case Num(n) => if n < 0 then "-" + Decimal(-n) else Decimal(n)
  }

  function Key(d: Device): Location {
    d.hostname + ":" + PortText(d.portNum)
  }

  /** The text before the first colon, or all of it. */
  function FirstField(s: string): (r: string)
    ensures r <= s
  {
    if s == "" || s[0] == ':' then "" else [s[0]] + FirstField(s[1..])
  }

  /** White space and line terminators (sections 12.2 and 12.3 of ECMA-262). */
  predicate IsSpace(c: char) {
    var n := c as nat;
    || 9 <= n <= 13 || n == 32 || n == 0xa0 || n == 0x1680 || 0x2000 <= n <= 0x200a
    || n == 0x2028 || n == 0x2029 || n == 0x202f || n == 0x205f || n == 0x3000 || n == 0xfeff
  }

  function TrimStart(s: string): string {
    if s != "" && IsSpace(s[0]) then TrimStart(s[1..]) else s
  }

  function DigitRun(s: string, radix: nat): nat
    ensures DigitRun(s, radix) <= |s|
  {
    if s == "" || DigitValue(s[0]) >= radix then 0 else 1 + DigitRun(s[1..], radix)
  }

  function Value(s: string, radix: nat): nat {
    if s == "" then 0 else Value(s[..|s| - 1], radix) * radix + DigitValue(s[|s| - 1])
  }

  /** The integer an unsigned literal starts with. */
  function Magnitude(text: string): Port {
    var hex := |text| >= 2 && text[0] == '0' && text[1] in "xX";
    var digits := if hex then text[2..] else text;
    var radix := if hex then 16 else 10;
    var n := DigitRun(digits, radix);
    if n == 0 then NaN else Num(Value(digits[..n], radix))
  }

  /** `parseInt` without a radix (section 19.2.5 of ECMA-262), on exact integers. */
  function ParseInt(text: string): Port {
    var s := TrimStart(text);
    if s != "" && s[0] == '-' then
      match Magnitude(s[1..])
      case Num(n) => Num(-n)
      case NaN => NaN
    else if s != "" && s[0] == '+' then Magnitude(s[1..])
    else Magnitude(s)
  }

  /** What every reader of the list makes of a key: the first two colon-separated fields. */
  function Decode(location: Location): Device {
    var host := FirstField(location);
    if |host| == |location| then Device(host, NaN)
    else Device(host, ParseInt(FirstField(location[|host| + 1..])))
  }

  // ---- printing and parsing ports ----

  lemma {:induction false} DecimalDigits(n: nat)
    ensures Decimal(n) != ""
    ensures forall i :: 0 <= i < |Decimal(n)| ==> '0' <= Decimal(n)[i] <= '9'
    ensures Value(Decimal(n), 10) == n
  {
    if n < 10 {
      assert Decimal(n)[..0] == "";
    } else {
      DecimalDigits(n / 10);
      assert Decimal(n)[..|Decimal(n)| - 1] == Decimal(n / 10);
    }
  }

  lemma {:induction false} DigitRunAll(s: string)
    requires forall i :: 0 <= i < |s| ==> '0' <= s[i] <= '9'
    ensures DigitRun(s, 10) == |s|
  {
    if s != "" {
      DigitRunAll(s[1..]);
    }
  }

  lemma ParseDecimal(n: nat)
    ensures Magnitude(Decimal(n)) == Num(n)
    ensures Decimal(n) != "" && '0' <= Decimal(n)[0] <= '9' && ':' !in Decimal(n)
  {
    DecimalDigits(n);
    DigitRunAll(Decimal(n));
    assert Decimal(n)[..|Decimal(n)|] == Decimal(n);
  }

  /** `parseInt` undoes number printing, for every port. */
  lemma ParsePort(p: Port)
    ensures ParseInt(PortText(p)) == p
    ensures ':' !in PortText(p)
  {
    match p
    case NaN =>
      assert PortText(p)[0] == 'N';
    case Num(n) =>
      ParseDecimal(if n < 0 then -n else n);
      if n < 0 {
        assert PortText(p)[1..] == Decimal(-n);
      }
  }

  /** White space in front does not matter. */
  lemma ParseSpace(c: char, s: string)
    requires IsSpace(c)
    ensures ParseInt([c] + s) == ParseInt(s)
  {
    assert ([c] + s)[1..] == s;
  }

  lemma {:induction false} DigitRunStops(digits: string, rest: string, radix: nat)
    requires forall i :: 0 <= i < |digits| ==> DigitValue(digits[i]) < radix
    requires rest == "" || DigitValue(rest[0]) >= radix
    ensures DigitRun(digits + rest, radix) == |digits|
  {
    if digits == "" {
      assert digits + rest == rest;
    } else {
      assert (digits + rest)[1..] == digits[1..] + rest;
      DigitRunStops(digits[1..], rest, radix);
    }
  }

  /** Parsing stops at the first character that is no digit. */
  lemma ParsePrefix(n: nat, rest: string)
    requires rest == "" || DigitValue(rest[0]) >= 10
    requires n == 0 && rest != "" ==> rest[0] !in "xX"
    ensures ParseInt(Decimal(n) + rest) == Num(n)
  {
    var text := Decimal(n) + rest;
    DecimalDigits(n);
    DigitRunStops(Decimal(n), rest, 10);
    DecimalStarts(n);
    assert text[..|Decimal(n)|] == Decimal(n);
    assert !(|text| >= 2 && text[0] == '0' && text[1] in "xX");
  }

  /** One sign in front of the digits counts. */
  lemma ParseSign(n: nat)
    ensures ParseInt("+" + Decimal(n)) == Num(n) && ParseInt("-" + Decimal(n)) == Num(0 - n)
  {
    ParseDecimal(n);
    assert ("+" + Decimal(n))[1..] == Decimal(n) && ("-" + Decimal(n))[1..] == Decimal(n);
  }

  /** No number but zero starts with the digit zero. */
  lemma {:induction false} DecimalStarts(n: nat)
    ensures Decimal(n)[0] == '0' <==> n == 0
    ensures n < 10 ==> |Decimal(n)| == 1
  {
    if n >= 10 {
      DecimalStarts(n / 10);
    }
  }

  lemma MagnitudeHex(text: string, digits: string)
    requires |text| >= 2 && text[0] == '0' && text[1] in "xX" && digits != ""
    requires digits <= text[2..] && DigitRun(text[2..], 16) == |digits|
    ensures ParseInt(text) == Num(Value(digits, 16))
  {
    assert TrimStart(text) == text;
    assert text[2..][..|digits|] == digits;
    assert Magnitude(text) == Num(Value(digits, 16));
  }

  /** A hexadecimal prefix is understood. */
  lemma ParseHex(x: char, digits: string, rest: string)
    requires x in "xX" && digits != "" && forall i :: 0 <= i < |digits| ==> DigitValue(digits[i]) < 16
    requires rest == "" || DigitValue(rest[0]) >= 16
    ensures ParseInt(['0', x] + (digits + rest)) == Num(Value(digits, 16))
  {
    var text := ['0', x] + (digits + rest);
    DigitRunStops(digits, rest, 16);
    assert text[2..] == digits + rest;
    MagnitudeHex(text, digits);
  }

  // ---- keys ----

  lemma {:induction false} FirstFieldOf(a: string, b: string)
    ensures ':' !in a ==> FirstField(a + ":" + b) == a
    ensures ':' in a ==> |FirstField(a + ":" + b)| < |a|
  {
    if a == "" {
      assert a + ":" + b == ":" + b;
    } else {
      FirstFieldOf(a[1..], b);
      assert (a + ":" + b)[1..] == a[1..] + ":" + b;
    }
  }

  lemma {:induction false} FirstFieldAll(a: string)
    requires ':' !in a
    ensures FirstField(a) == a
  {
    if a != "" {
      FirstFieldAll(a[1..]);
    }
  }

  /** Decoding undoes encoding for exactly the hosts without a colon. */
  lemma DecodeKey(d: Device)
    ensures Decode(Key(d)) == d <==> ':' !in d.hostname
  {
    var port := PortText(d.portNum);
    ParsePort(d.portNum);
    FirstFieldOf(d.hostname, port);
    if ':' !in d.hostname {
      assert Key(d)[|d.hostname| + 1..] == port;
      FirstFieldAll(port);
    }
  }

  lemma LastColon(d: Device)
    ensures Key(d)[|d.hostname|] == ':'
    ensures forall i :: |d.hostname| < i < |Key(d)| ==> Key(d)[i] != ':'
  {
    ParsePort(d.portNum);
  }

  /** Two devices share a key only if they are the same device, colons or not. */
  lemma KeyInjective(a: Device, b: Device)
    requires Key(a) == Key(b)
    ensures a == b
  {
    LastColon(a);
    LastColon(b);
    var n := |a.hostname|;
    assert Key(a)[..n] == a.hostname && Key(b)[..n] == b.hostname;
    assert Key(a)[n + 1..] == PortText(a.portNum) && Key(b)[n + 1..] == PortText(b.portNum);
    ParsePort(a.portNum);
    ParsePort(b.portNum);
  }

  // ---- the device list a peer is sent ----

  ghost predicate NoRepeats<T>(s: seq<T>) {
    forall i, j :: 0 <= i < j < |s| ==> s[i] != s[j]
  }

  /** Distinct devices are listed under distinct keys. */
  lemma KeysDistinct(devices: seq<Device>, keys: seq<Location>)
    requires |keys| == |devices| && forall i :: 0 <= i < |keys| ==> keys[i] == Key(devices[i])
    ensures NoRepeats(keys) <==> NoRepeats(devices)
  {
    forall i, j | 0 <= i < j < |devices| ensures keys[i] == keys[j] <==> devices[i] == devices[j] {
      if keys[i] == keys[j] {
        KeyInjective(devices[i], devices[j]);
      }
    }
  }

  /** Keys as the service itself writes them, for hosts without a colon. */
  ghost predicate PlainKey(location: Location) {
    exists d: Device :: ':' !in d.hostname && Key(d) == location
  }

  /** The devices decoded from the live entries, in list order. */
  function DeviceList<V>(slots: seq<Slot<Location, V>>): seq<Device> {
    if slots == [] then []
    else (if slots[0].Live? then [Decode(slots[0].key)] else []) + DeviceList(slots[1..])
  }

  lemma {:induction false} DeviceListFrom<V>(slots: seq<Slot<Location, V>>, d: Device)
    ensures d in DeviceList(slots) <==> exists i :: 0 <= i < |slots| && slots[i].Live? && Decode(slots[i].key) == d
  {
    if slots != [] {
      DeviceListFrom(slots[1..], d);
      if d in DeviceList(slots[1..]) {
        var i :| 0 <= i < |slots[1..]| && slots[1..][i].Live? && Decode(slots[1..][i].key) == d;
        assert slots[i + 1].Live? && Decode(slots[i + 1].key) == d;
      }
      if i :| 0 <= i < |slots| && slots[i].Live? && Decode(slots[i].key) == d && i > 0 {
        assert slots[1..][i - 1].Live? && Decode(slots[1..][i - 1].key) == d;
      }
    }
  }

  /** The text between the first two colons. */
  function SecondField(s: string): string {
    var first := FirstField(s);
    if |first| == |s| then "" else FirstField(s[|first| + 1..])
  }

  /** Two keys name one device: the same host, and ports that parse to the same number or both to none. */
  predicate SameDevice(a: Location, b: Location) {
    FirstField(a) == FirstField(b) && ParseInt(SecondField(a)) == ParseInt(SecondField(b))
  }

  lemma SameDeviceDecodes(a: Location, b: Location)
    ensures SameDevice(a, b) <==> Decode(a) == Decode(b)
  {
    assert ParseInt("") == NaN;
  }

  lemma {:induction false} DeviceListEntries<V>(slots: seq<Slot<Location, V>>)
    ensures |DeviceList(slots)| == |Entries(slots)|
    ensures forall i :: 0 <= i < |Entries(slots)| ==> DeviceList(slots)[i] == Decode(Entries(slots)[i].0)
  {
    if slots != [] {
      DeviceListEntries(slots[1..]);
    }
  }

  /** Two of the listed entries name one device. */
  ghost predicate HoldsTwice<V>(entries: seq<(Location, V)>) {
    exists i, j :: 0 <= i < j < |entries| && SameDevice(entries[i].0, entries[j].0)
  }

  /** Whatever the keys, the list sent repeats a device exactly when two listed entries name one device. */
  lemma DeviceListRepeats<V>(slots: seq<Slot<Location, V>>)
    ensures NoRepeats(DeviceList(slots)) <==> !HoldsTwice(Entries(slots))
  {
    var (devices, entries) := (DeviceList(slots), Entries(slots));
    DeviceListEntries(slots);
    forall i, j | 0 <= i < j < |entries| ensures devices[i] == devices[j] <==> SameDevice(entries[i].0, entries[j].0) {
      SameDeviceDecodes(entries[i].0, entries[j].0);
    }
    RepeatsAlike(devices, entries);
  }

  lemma RepeatsAlike<V>(devices: seq<Device>, entries: seq<(Location, V)>)
    requires |devices| == |entries|
    requires forall i, j :: 0 <= i < j < |entries| ==> (devices[i] == devices[j] <==> SameDevice(entries[i].0, entries[j].0))
    ensures NoRepeats(devices) <==> !HoldsTwice(entries)
  {
  }

  /** A peer list holding only keys of colon-free hosts is sent without repeats, and its keys are the list's own. */
  lemma {:induction false} DeviceListDistinct<V>(slots: seq<Slot<Location, V>>)
    requires Distinct(slots)
    requires forall i :: 0 <= i < |slots| && slots[i].Live? ==> PlainKey(slots[i].key)
    ensures NoRepeats(DeviceList(slots))
    ensures forall d :: d in DeviceList(slots) ==> Key(d) in Contents(slots)
  {
    forall d | d in DeviceList(slots) ensures Key(d) in Contents(slots) {
      DeviceListFrom(slots, d);
      var i :| 0 <= i < |slots| && slots[i].Live? && Decode(slots[i].key) == d;
      DecodePlain(slots[i].key);
      ContentsAt(slots, i);
    }
    if slots != [] {
      var rest := slots[1..];
      assert Distinct(rest);
      DeviceListDistinct(rest);
      if slots[0].Live? {
        var d := Decode(slots[0].key);
        DeviceListFrom(rest, d);
        DecodePlain(slots[0].key);
        forall i | 0 <= i < |rest| && rest[i].Live? ensures Decode(rest[i].key) != d {
          assert rest[i] == slots[i + 1];
          DecodePlain(rest[i].key);
        }
      }
    }
  }

  lemma DecodePlain(location: Location)
    requires PlainKey(location)
    ensures Key(Decode(location)) == location
  {
    var d: Device :| ':' !in d.hostname && Key(d) == location;
    DecodeKey(d);
  }

  /** Ports of one host with a colon have distinct keys that are sent as one device, listed twice. */
  lemma ColonHostsRepeat(a: Port, b: Port)
    requires a != b
    ensures var (x, y) := (Device("fe80:1", a), Device("fe80:1", b));
            Key(x) != Key(y) && DeviceList([Live(Key(x), 0), Live(Key(y), 0)]) == [Device("fe80", Num(1)), Device("fe80", Num(1))]
  {
    var (x, y) := (Device("fe80:1", a), Device("fe80:1", b));
    ColonHostDecodes(a);
    ColonHostDecodes(b);
    if Key(x) == Key(y) {
      KeyInjective(x, y);
    }
    assert DeviceList([Live(Key(y), 0)]) == [Decode(Key(y))];
    assert [Live(Key(x), 0), Live(Key(y), 0)][1..] == [Live(Key(y), 0)];
  }

  lemma ColonHostDecodes(p: Port)
    ensures Decode(Key(Device("fe80:1", p))) == Device("fe80", Num(1))
  {
    var s := Key(Device("fe80:1", p));
    assert s == "fe80" + ":" + ("1:" + PortText(p));
    FirstFieldOf("fe80", "1:" + PortText(p));
    assert s[5..] == "1" + ":" + PortText(p);
    FirstFieldOf("1", PortText(p));
    ParsePort(Num(1));
    assert PortText(Num(1)) == "1";
  }
}
