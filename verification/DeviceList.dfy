/** The device list of vhost-device-i2c: `bus:addr[:addr][,bus:addr[:addr]]`. */
module DeviceLists {
  import opened Common

  const MAX_I2C_VDEV := 128

  datatype AdapterIdentifier = Name(name: string) | Number(no: u32)

  datatype IntError = Empty | InvalidDigit | PosOverflow

  datatype Error =
    | AdapterDuplicate(adapter: AdapterIdentifier)
    | ClientAddressInvalid(addr: u16)
    | ClientAddressDuplicate(addr: u16)
    | ParseFailure(reason: IntError)

  datatype Device = Device(adapter: AdapterIdentifier, addr: seq<u16>)

  // ----- Numbers -----

  predicate IsDigit(c: char) {
    '0' <= c <= '9'
  }

  function Digit(c: char): (d: nat)
    requires IsDigit(c)
  {
    c as int - '0' as int
  }

  /** The number that digits read after `acc` stand for. */
  function Value(acc: nat, digits: string): (v: nat)
    requires forall c | c in digits :: IsDigit(c)
    ensures v >= acc
    decreases |digits|
  {
    if digits == "" then acc else Value(10 * acc + Digit(digits[0]), digits[1..])
  }

  function ParseDigits(acc: nat, s: string, max: nat): (r: Result<nat, IntError>)
    decreases |s|
  {
    if s == "" then Ok(acc)
    else if !IsDigit(s[0]) then Err(InvalidDigit)
    else if 10 * acc + Digit(s[0]) > max then Err(PosOverflow)
    else ParseDigits(10 * acc + Digit(s[0]), s[1..], max)
  }

  /** `str::parse` for an unsigned type with the maximum `max`. */
  function ParseUnsigned(s: string, max: nat): (r: Result<nat, IntError>) {
    if s == "" then Err(Empty)
    else if s == "+" || s == "-" then Err(InvalidDigit)
    else ParseDigits(0, Unsigned(s), max)
  }

  function Unsigned(s: string): (digits: string) {
    if s != "" && s[0] == '+' then s[1..] else s
  }

  predicate IsNumber(s: string, max: nat) {
    var digits := Unsigned(s);
    && digits != ""
    && (forall c | c in digits :: IsDigit(c))
    && Value(0, digits) <= max
  }

  lemma {:induction false} ParseDigitsExactly(acc: nat, s: string, max: nat)
    requires acc <= max
    ensures ParseDigits(acc, s, max).Ok? <==> (forall c | c in s :: IsDigit(c)) && Value(acc, s) <= max
    ensures ParseDigits(acc, s, max).Ok? ==> ParseDigits(acc, s, max).value == Value(acc, s) <= max
    decreases |s|
  {
    if s == "" {
    } else {
      assert s == [s[0]] + s[1..];
      if IsDigit(s[0]) && 10 * acc + Digit(s[0]) <= max {
        ParseDigitsExactly(10 * acc + Digit(s[0]), s[1..], max);
      }
    }
  }

  /** A number is an optional plus sign and digits, of a value that fits; leading zeros do not matter. */
  lemma ParseUnsignedExactly(s: string, max: nat)
    ensures ParseUnsigned(s, max).Ok? <==> IsNumber(s, max)
    ensures ParseUnsigned(s, max).Ok? ==> ParseUnsigned(s, max).value == Value(0, Unsigned(s)) <= max
  {
    ParseDigitsExactly(0, Unsigned(s), max);
    if s == "-" {
      assert !IsDigit(s[0]);
    }
  }

  /** The value is the decimal one: a digit more is ten times the number before it and the digit. */
  lemma {:induction false} ValueIsDecimal(acc: nat, digits: string, c: char)
    requires forall d | d in digits + [c] :: '0' <= d <= '9'
    ensures Value(acc, "") == acc
    ensures (forall d | d in digits :: IsDigit(d)) && Value(acc, digits + [c]) == 10 * Value(acc, digits) + (c as int - '0' as int)
    decreases |digits|
  {
    assert forall d | d in digits :: d in digits + [c];
    if digits == "" {
      assert digits + [c] == [c] && [c][1..] == "";
    } else {
      assert digits[0] in digits;
      var next := 10 * acc + Digit(digits[0]);
      assert (digits + [c])[1..] == digits[1..] + [c];
      assert forall d | d in digits[1..] + [c] :: d in digits + [c];
      ValueIsDecimal(next, digits[1..], c);
    }
  }

  /** What makes a text no number: nothing to read, a character that is no digit, or a value too large. */
  ghost predicate NumberFault(s: string, max: nat, e: IntError) {
    match e
    case Empty => s == ""
    case InvalidDigit => s in {"+", "-"} || exists c :: c in Unsigned(s) && !('0' <= c <= '9')
    case PosOverflow =>
      exists k :: 0 < k <= |Unsigned(s)| && (forall c | c in Unsigned(s)[..k] :: IsDigit(c)) && Value(0, Unsigned(s)[..k]) > max
  }

  lemma {:induction false} ParseDigitsFault(acc: nat, s: string, max: nat)
    ensures ParseDigits(acc, s, max).Err? ==>
              match ParseDigits(acc, s, max).error
              case Empty => false
              case InvalidDigit => exists c :: c in s && !('0' <= c <= '9')
              case PosOverflow =>
                exists k :: 0 < k <= |s| && (forall c | c in s[..k] :: IsDigit(c)) && Value(acc, s[..k]) > max
    decreases |s|
  {
    if s == "" {
    } else if !IsDigit(s[0]) {
      assert s[0] in s;
    } else {
      var next := 10 * acc + Digit(s[0]);
      if next > max {
        assert s[..1] == [s[0]] && [s[0]][1..] == "";
        assert Value(acc, s[..1]) == next;
      } else {
        ParseDigitsFault(next, s[1..], max);
        assert s == [s[0]] + s[1..];
        if ParseDigits(next, s[1..], max) == Err(InvalidDigit) {
          var c :| c in s[1..] && !('0' <= c <= '9');
          assert c in s;
        }
        if ParseDigits(next, s[1..], max) == Err(PosOverflow) {
          var k :| 0 < k <= |s[1..]| && (forall c | c in s[1..][..k] :: IsDigit(c)) && Value(next, s[1..][..k]) > max;
          assert s[..k + 1] == [s[0]] + s[1..][..k];
          assert s[..k + 1][1..] == s[1..][..k];
        }
      }
    }
  }

  lemma ParseUnsignedFault(s: string, max: nat)
    ensures ParseUnsigned(s, max).Err? ==> NumberFault(s, max, ParseUnsigned(s, max).error)
  {
    ParseDigitsFault(0, Unsigned(s), max);
  }

  // ----- Tokens -----

  function Split(s: string, sep: char): (tokens: seq<string>)
    ensures |tokens| > 0
  {
    if s == "" then [""]
    else
      var rest := Split(s[1..], sep);
      if s[0] == sep then [""] + rest else [[s[0]] + rest[0]] + rest[1..]
  }

  function Join(tokens: seq<string>, sep: char): (s: string)
    requires |tokens| > 0
  {
    if |tokens| == 1 then tokens[0] else tokens[0] + [sep] + Join(tokens[1..], sep)
  }

  /** The tokens are the one way to cut the text at its separators. */
  lemma {:induction false} SplitJoins(s: string, sep: char)
    ensures Join(Split(s, sep), sep) == s
    ensures forall t | t in Split(s, sep) :: sep !in t
  {
    if s == "" {
    } else {
      SplitJoins(s[1..], sep);
      var rest := Split(s[1..], sep);
      if s[0] == sep {
        assert ([""] + rest)[1..] == rest;
      } else {
        var tokens := [[s[0]] + rest[0]] + rest[1..];
        assert tokens[1..] == rest[1..];
        assert Join(tokens, sep) == [s[0]] + Join(rest, sep);
        assert forall t | t in tokens :: t == tokens[0] || t in rest;
        assert rest[0] in rest;
      }
    }
  }

  lemma {:induction false} SplitUndoesJoin(tokens: seq<string>, sep: char)
    requires |tokens| > 0
    requires forall t | t in tokens :: sep !in t
    ensures Split(Join(tokens, sep), sep) == tokens
    decreases |tokens|, |tokens[0]|
  {
    var s := Join(tokens, sep);
    if tokens[0] != "" {
      var shorter := tokens[0 := tokens[0][1..]];
      assert tokens[0] == [tokens[0][0]] + shorter[0];
      assert tokens[0] in tokens;
      assert forall t | t in shorter :: t == shorter[0] || t in tokens;
      assert shorter[1..] == tokens[1..];
      assert s[1..] == Join(shorter, sep);
      SplitUndoesJoin(shorter, sep);
    } else if |tokens| > 1 {
      assert s[1..] == Join(tokens[1..], sep);
      SplitUndoesJoin(tokens[1..], sep);
    }
  }

  predicate IsWhitespace(c: char) {
    || '\t' <= c <= '\r'
    || c in {' ', '\U{85}', '\U{A0}', '\U{1680}', '\U{2028}', '\U{2029}', '\U{202F}', '\U{205F}', '\U{3000}'}
    || '\U{2000}' <= c <= '\U{200A}'
  }

  function Trim(s: string): (t: string) {
    if s == "" then ""
    else if IsWhitespace(s[0]) then Trim(s[1..])
    else if IsWhitespace(s[|s| - 1]) then Trim(s[..|s| - 1])
    else s
  }

  /** Trimming cuts whitespace off both ends and nothing else. */
  lemma {:induction false} TrimExactly(s: string) returns (i: nat, j: nat)
    ensures i <= j <= |s| && Trim(s) == s[i..j]
    ensures forall k | 0 <= k < i || j <= k < |s| :: IsWhitespace(s[k])
    ensures Trim(s) != "" ==> !IsWhitespace(Trim(s)[0]) && !IsWhitespace(Trim(s)[|Trim(s)| - 1])
    decreases |s|
  {
    hide IsWhitespace;
    if s == "" {
      i, j := 0, 0;
    } else if IsWhitespace(s[0]) {
      var a, b := TrimExactly(s[1..]);
      i, j := a + 1, b + 1;
      assert forall m | 0 <= m < b - a :: s[i..j][m] == s[1..][a..b][m];
      assert s[i..j] == s[1..][a..b];
      assert forall k | 1 <= k < |s| :: s[k] == s[1..][k - 1];
    } else if IsWhitespace(s[|s| - 1]) {
      i, j := TrimExactly(s[..|s| - 1]);
      assert s[i..j] == s[..|s| - 1][i..j];
      assert forall k | 0 <= k < |s| - 1 :: s[k] == s[..|s| - 1][k];
    } else {
      i, j := 0, |s|;
    }
  }

  // ----- What a list means -----

  function Identifier(token: string): (id: AdapterIdentifier) {
    ParseUnsignedExactly(token, U32_MAX);
    match ParseUnsigned(token, U32_MAX)
    case Ok(no) => Number(no)
    case Err(_) => Name(Trim(token))
  }

  /** A 32-bit number names a bus by its number, any other text by its trimmed name. */
  lemma IdentifierExactly(token: string)
    ensures IsNumber(token, 0xFFFF_FFFF) ==> Identifier(token) == Number(Value(0, Unsigned(token)))
    ensures !IsNumber(token, 0xFFFF_FFFF) ==> Identifier(token) == Name(Trim(token))
  {
    ParseUnsignedExactly(token, 0xFFFF_FFFF);
  }

  predicate IsAddress(token: string) {
    IsNumber(token, MAX_I2C_VDEV)
  }

  function Address(token: string): (addr: u16)
    requires IsAddress(token)
  {
    Value(0, Unsigned(token))
  }

  function Addresses(tokens: seq<string>): (addr: seq<u16>)
    requires forall t | t in tokens :: IsAddress(t)
    ensures |addr| == |tokens|
  {
    if tokens == [] then [] else [Address(tokens[0])] + Addresses(tokens[1..])
  }

  predicate Readable(entry: string) {
    forall t | t in Split(entry, ':')[1..] :: IsAddress(t)
  }

  function Meaning(entry: string): (device: Device)
    requires Readable(entry)
  {
    var tokens := Split(entry, ':');
    Device(Identifier(tokens[0]), Addresses(tokens[1..]))
  }

  function Meanings(entries: seq<string>): (devices: seq<Device>)
    requires forall e | e in entries :: Readable(e)
    ensures |devices| == |entries|
  {
    if entries == [] then [] else [Meaning(entries[0])] + Meanings(entries[1..])
  }

  /** An entry is its bus, then its addresses in order. */
  lemma MeaningExactly(entry: string)
    requires Readable(entry)
    ensures var tokens, device := Split(entry, ':'), Meaning(entry);
            && device.adapter == Identifier(tokens[0])
            && |device.addr| == |tokens| - 1
            && forall k | 1 <= k < |tokens| :: IsAddress(tokens[k]) && device.addr[k - 1] == Address(tokens[k])
  {
    hide IsAddress, Address;
    var tokens := Split(entry, ':');
    forall k | 1 <= k < |tokens|
      ensures IsAddress(tokens[k]) && Meaning(entry).addr[k - 1] == Address(tokens[k])
    {
      assert tokens[1..][k - 1] == tokens[k];
      AddressAt(tokens[1..], k - 1);
    }
  }

  lemma {:induction false} AddressAt(tokens: seq<string>, k: nat)
    requires k < |tokens| && forall t | t in tokens :: IsAddress(t)
    ensures Addresses(tokens)[k] == Address(tokens[k])
  {
    if k == 0 {
    } else {
      AddressAt(tokens[1..], k - 1);
    }
  }

  ghost predicate DistinctAddresses(addr: seq<u16>) {
    forall i, j | 0 <= i < j < |addr| :: addr[i] != addr[j]
  }

  /** No address occurs twice, in one device or in two. */
  ghost predicate Unambiguous(devices: seq<Device>) {
    && (forall i, j | 0 <= i < j < |devices| :: devices[i].adapter != devices[j].adapter)
    && (forall i | 0 <= i < |devices| :: DistinctAddresses(devices[i].addr))
    && (forall i, j, a | 0 <= i < j < |devices| && a in devices[i].addr :: a !in devices[j].addr)
  }

  // ----- How a list is read -----

  function PushAddress(device: Device, addr: u16): (r: Result<Device, Error>) {
    if addr > MAX_I2C_VDEV then Err(ClientAddressInvalid(addr))
    else if addr in device.addr then Err(ClientAddressDuplicate(addr))
    else Ok(device.(addr := device.addr + [addr]))
  }

  function ReadAddresses(device: Device, tokens: seq<string>): (r: Result<Device, Error>)
    decreases |tokens|
  {
    if tokens == [] then Ok(device)
    else
      ParseUnsignedExactly(tokens[0], U16_MAX);
      match ParseUnsigned(tokens[0], U16_MAX)
      case Err(reason) => Err(ParseFailure(reason))
      case Ok(addr) =>
        match PushAddress(device, addr)
        case Err(error) => Err(error)
        case Ok(next) => ReadAddresses(next, tokens[1..])
  }

  function ReadEntry(entry: string): (r: Result<Device, Error>) {
    var tokens := Split(entry, ':');
    ReadAddresses(Device(Identifier(tokens[0]), []), tokens[1..])
  }

  /** The index of the first address already taken, or the number of addresses. */
  function FirstTaken(devices: seq<Device>, addr: seq<u16>): (k: nat)
    ensures k <= |addr|
    ensures forall i | 0 <= i < k :: forall d | d in devices :: addr[i] !in d.addr
    ensures k < |addr| ==> exists d | d in devices :: addr[k] in d.addr
  {
    if addr == [] || exists d | d in devices :: addr[0] in d.addr then 0
    else 1 + FirstTaken(devices, addr[1..])
  }

  function PushDevice(devices: seq<Device>, device: Device): (r: Result<seq<Device>, Error>) {
    var k := FirstTaken(devices, device.addr);
    if exists d | d in devices :: d.adapter == device.adapter then Err(AdapterDuplicate(device.adapter))
    else if k < |device.addr| then Err(ClientAddressDuplicate(device.addr[k]))
    else Ok(devices + [device])
  }

  function ReadEntries(devices: seq<Device>, entries: seq<string>): (r: Result<seq<Device>, Error>)
    decreases |entries|
  {
    if entries == [] then Ok(devices)
    else match ReadEntry(entries[0])
      case Err(error) => Err(error)
      case Ok(device) =>
        match PushDevice(devices, device)
        case Err(error) => Err(error)
        case Ok(next) => ReadEntries(next, entries[1..])
  }

  function ReadList(list: string): (r: Result<seq<Device>, Error>) {
    ReadEntries([], Split(list, ','))
  }

  lemma {:induction false} ReadAddressesExactly(device: Device, tokens: seq<string>)
    requires DistinctAddresses(device.addr)
    ensures ReadAddresses(device, tokens).Ok?
            <==> (forall t | t in tokens :: IsAddress(t)) && DistinctAddresses(device.addr + Addresses(tokens))
    ensures ReadAddresses(device, tokens).Ok? ==>
              ReadAddresses(device, tokens).value == device.(addr := device.addr + Addresses(tokens))
    decreases |tokens|
  {
    hide IsAddress, DistinctAddresses;
    if tokens == [] {
      assert device.addr + [] == device.addr;
    } else {
      var token := tokens[0];
      AddressOrNot(token);
      assert tokens == [token] + tokens[1..];
      if IsAddress(token) {
        var addr := Address(token);
        OneMoreAddress(device.addr, addr);
        if forall t | t in tokens :: IsAddress(t) {
          assert device.addr + [addr] + Addresses(tokens[1..]) == device.addr + Addresses(tokens);
          PrefixDistinct(device.addr + [addr], Addresses(tokens[1..]));
        }
        if addr !in device.addr {
          ReadAddressesExactly(device.(addr := device.addr + [addr]), tokens[1..]);
        }
      }
    }
  }

  lemma OneMoreAddress(addrs: seq<u16>, addr: u16)
    requires DistinctAddresses(addrs)
    ensures DistinctAddresses(addrs + [addr]) <==> addr !in addrs
  {
    if addr in addrs {
      var k :| 0 <= k < |addrs| && addrs[k] == addr;
      assert (addrs + [addr])[k] == (addrs + [addr])[|addrs|];
    }
  }

  lemma PrefixDistinct(addrs: seq<u16>, rest: seq<u16>)
    ensures DistinctAddresses(addrs + rest) ==> DistinctAddresses(addrs)
  {
    assert forall i | 0 <= i < |addrs| :: (addrs + rest)[i] == addrs[i];
  }

  /** What is read as a 16-bit number and passes the bound is what names an address. */
  lemma AddressOrNot(token: string)
    ensures IsAddress(token) <==>
              ParseUnsigned(token, U16_MAX).Ok? && ParseUnsigned(token, U16_MAX).value <= MAX_I2C_VDEV
    ensures IsAddress(token) ==> Address(token) == ParseUnsigned(token, U16_MAX).value
  {
    ParseUnsignedExactly(token, U16_MAX);
  }

  /** An address is a number up to 128. */
  lemma IsAddressExactly(token: string)
    ensures IsAddress(token) <==> IsNumber(token, 128)
    ensures IsAddress(token) ==> Address(token) == Value(0, Unsigned(token)) <= 128
  {
  }

  /** What is wrong with token `k` after the addresses `before`: no 16-bit number, too large, or a repetition. */
  ghost predicate AddressFault(before: seq<u16>, token: string, e: Error) {
    if !IsNumber(token, 0xFFFF) then e.ParseFailure? && NumberFault(token, 0xFFFF, e.reason)
    else
      var addr := Value(0, Unsigned(token));
      if addr > 128 then e == ClientAddressInvalid(addr) else e == ClientAddressDuplicate(addr) && addr in before
  }

  /** A refused entry is refused for its first token that is at fault. */
  lemma {:induction false} ReadAddressesFault(device: Device, tokens: seq<string>) returns (k: nat)
    requires ReadAddresses(device, tokens).Err?
    ensures k < |tokens| && forall t | t in tokens[..k] :: IsAddress(t)
    ensures AddressFault(device.addr + Addresses(tokens[..k]), tokens[k], ReadAddresses(device, tokens).error)
    decreases |tokens|
  {
    hide IsNumber, NumberFault;
    var token := tokens[0];
    ParseUnsignedExactly(token, U16_MAX);
    ParseUnsignedFault(token, U16_MAX);
    AddressOrNot(token);
    IsAddressExactly(token);
    if ParseUnsigned(token, U16_MAX).Err? || PushAddress(device, ParseUnsigned(token, U16_MAX).value).Err? {
      k := 0;
      assert tokens[..0] == [] && device.addr + [] == device.addr;
    } else {
      var next := device.(addr := device.addr + [Address(token)]);
      var rest := ReadAddressesFault(next, tokens[1..]);
      k := rest + 1;
      assert tokens[..k] == [token] + tokens[1..][..rest];
      assert Addresses(tokens[..k]) == [Address(token)] + Addresses(tokens[1..][..rest]) by {
        assert tokens[..k][1..] == tokens[1..][..rest];
      }
      assert device.addr + Addresses(tokens[..k]) == next.addr + Addresses(tokens[1..][..rest]);
    }
  }

  lemma ReadEntryExactly(entry: string)
    ensures ReadEntry(entry).Ok? <==> Readable(entry) && DistinctAddresses(Meaning(entry).addr)
    ensures ReadEntry(entry).Ok? ==> ReadEntry(entry).value == Meaning(entry)
  {
    hide IsAddress;
    var tokens := Split(entry, ':');
    ReadAddressesExactly(Device(Identifier(tokens[0]), []), tokens[1..]);
    if Readable(entry) {
      assert [] + Addresses(tokens[1..]) == Addresses(tokens[1..]);
    }
  }

  lemma PushDeviceExactly(devices: seq<Device>, device: Device)
    requires Unambiguous(devices) && DistinctAddresses(device.addr)
    ensures PushDevice(devices, device).Ok? <==> Unambiguous(devices + [device])
  {
    var all := devices + [device];
    if Unambiguous(all) {
      forall i | 0 <= i < |devices|
        ensures devices[i].adapter != device.adapter
        ensures forall a | a in devices[i].addr :: a !in device.addr
      {
        assert all[i] == devices[i] && all[|devices|] == device;
      }
    }
  }

  lemma {:induction false} ReadEntriesExactly(devices: seq<Device>, entries: seq<string>)
    requires Unambiguous(devices)
    ensures ReadEntries(devices, entries).Ok?
            <==> (forall e | e in entries :: Readable(e)) && Unambiguous(devices + Meanings(entries))
    ensures ReadEntries(devices, entries).Ok? ==>
              ReadEntries(devices, entries).value == devices + Meanings(entries)
    decreases |entries|
  {
    hide Readable, Meaning, ReadEntry, PushDevice, Unambiguous;
    if entries == [] {
      assert devices + [] == devices;
    } else {
      var entry := entries[0];
      assert entries == [entry] + entries[1..];
      ReadEntryExactly(entry);
      if Readable(entry) {
        var device := Meaning(entry);
        if forall e | e in entries :: Readable(e) {
          assert (devices + [device]) + Meanings(entries[1..]) == devices + Meanings(entries);
          PrefixUnambiguous(devices, device, Meanings(entries[1..]));
        }
        if DistinctAddresses(device.addr) {
          PushDeviceExactly(devices, device);
          PushDeviceAppends(devices, device);
          if Unambiguous(devices + [device]) {
            ReadEntriesExactly(devices + [device], entries[1..]);
          }
        }
      }
    }
  }

  lemma PushDeviceAppends(devices: seq<Device>, device: Device)
    ensures PushDevice(devices, device).Ok? ==> PushDevice(devices, device).value == devices + [device]
  {
  }

  lemma PrefixUnambiguous(devices: seq<Device>, device: Device, rest: seq<Device>)
    ensures Unambiguous(devices + [device] + rest) ==>
              Unambiguous(devices + [device]) && DistinctAddresses(device.addr)
  {
    var prefix, all := devices + [device], devices + [device] + rest;
    assert forall i | 0 <= i < |prefix| :: all[i] == prefix[i];
    assert prefix[|devices|] == device;
  }

  /** A list is accepted exactly when every entry can be read, no adapter occurs twice and no address occurs
      twice anywhere; the configuration is then what the entries say, in order. */
  lemma ReadListExactly(list: string)
    ensures var entries := Split(list, ',');
            && (ReadList(list).Ok? <==> (forall e | e in entries :: Readable(e)) && Unambiguous(Meanings(entries)))
            && (ReadList(list).Ok? ==> ReadList(list).value == Meanings(entries))
  {
    hide Readable, Meaning, ReadEntry, PushDevice;
    var entries := Split(list, ',');
    ReadEntriesExactly([], entries);
    if forall e | e in entries :: Readable(e) {
      assert [] + Meanings(entries) == Meanings(entries);
    }
  }

  // ----- The objects that hold it -----

  class DeviceConfig {
    const adapter: AdapterIdentifier
    var addr: seq<u16>

    constructor (adapter: AdapterIdentifier)
      ensures this.adapter == adapter && addr == []
    {
      this.adapter, addr := adapter, [];
    }

    function Contents(): (d: Device)
      reads this
    {
      Device(adapter, addr)
    }

    method Push(a: u16) returns (error: Option<Error>)
      modifies this
      ensures match PushAddress(old(Contents()), a)
              case Ok(device) => error == None && Contents() == device
              case Err(e) => error == Some(e) && Contents() == old(Contents())
      ensures addr == if a <= 128 && a !in old(addr) then old(addr) + [a] else old(addr)
      ensures error == if a > 128 then Some(ClientAddressInvalid(a))
                       else if a in old(addr) then Some(ClientAddressDuplicate(a)) else None
    {
      if a > MAX_I2C_VDEV {
        return Some(ClientAddressInvalid(a));
      }
      if a in addr {
        return Some(ClientAddressDuplicate(a));
      }
      addr := addr + [a];
      return None;
    }
  }

  class AdapterConfig {
    var inner: seq<Device>

    constructor ()
      ensures inner == []
    {
      inner := [];
    }

    predicate ContainsAdapter(adapter: AdapterIdentifier)
      reads this
    {
      exists d | d in inner :: d.adapter == adapter
    }

    predicate ContainsAddr(addr: u16)
      reads this
    {
      exists d | d in inner :: addr in d.addr
    }

    /** A refused device leaves the configuration as it was. */
    method Push(device: Device) returns (error: Option<Error>)
      modifies this
      ensures match PushDevice(old(inner), device)
              case Ok(devices) => error == None && inner == devices
              case Err(e) => error == Some(e) && inner == old(inner)
      ensures error == None ==> inner == old(inner) + [device]
      ensures error == None <==>
              forall d | d in old(inner) :: d.adapter != device.adapter && forall a | a in device.addr :: a !in d.addr
      ensures error.Some? ==>
                match error.value
                case AdapterDuplicate(adapter) => adapter == device.adapter && exists d :: d in inner && d.adapter == adapter
                case ClientAddressDuplicate(a) =>
                  a in device.addr && exists d :: d in inner && a in d.addr
                case _ => false
    {
      if ContainsAdapter(device.adapter) {
        return Some(AdapterDuplicate(device.adapter));
      }
      for i := 0 to |device.addr|
        invariant forall j | 0 <= j < i :: !ContainsAddr(device.addr[j])
      {
        if ContainsAddr(device.addr[i]) {
          return Some(ClientAddressDuplicate(device.addr[i]));
        }
      }
      inner := inner + [device];
      return None;
    }
  }

  method TryFromEntry(entry: string) returns (r: Result<Device, Error>)
    ensures r == ReadEntry(entry)
  {
    var tokens := Split(entry, ':');
    var adapter := new DeviceConfig(Identifier(tokens[0]));
    var rest := tokens[1..];
    for i := 0 to |rest|
      invariant ReadAddresses(adapter.Contents(), rest[i..]) == ReadEntry(entry)
      invariant fresh(adapter)
    {
      ParseUnsignedExactly(rest[i], U16_MAX);
      assert rest[i..][0] == rest[i] && rest[i..][1..] == rest[i + 1..];
      var parsed := ParseUnsigned(rest[i], U16_MAX);
      if parsed.Err? {
        return Err(ParseFailure(parsed.error));
      }
      var error := adapter.Push(parsed.value);
      if error.Some? {
        return Err(error.value);
      }
    }
    return Ok(adapter.Contents());
  }

  /** Reading the list entry by entry into growing objects gives what the list means, or its first error. */
  method TryFrom(list: string) returns (r: Result<seq<Device>, Error>)
    ensures r == ReadList(list)
    ensures r.Ok? ==> Unambiguous(r.value)
  {
    hide ReadEntry, PushDevice, Unambiguous;
    var entries := Split(list, ',');
    var devices := new AdapterConfig();
    for i := 0 to |entries|
      invariant ReadEntries(devices.inner, entries[i..]) == ReadList(list)
      invariant fresh(devices)
    {
      assert entries[i..][0] == entries[i] && entries[i..][1..] == entries[i + 1..];
      var device := TryFromEntry(entries[i]);
      if device.Err? {
        return Err(device.error);
      }
      var error := devices.Push(device.value);
      if error.Some? {
        return Err(error.value);
      }
    }
    ReadListExactly(list);
    return Ok(devices.inner);
  }
}
