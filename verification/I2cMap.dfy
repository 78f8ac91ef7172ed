/** The index of vhost-device-i2c from client addresses to the adapters that serve them. */
module I2cMaps {
  import opened Common
  import opened DeviceLists

  datatype I2cError = ClientAddressInvalid | DeviceFailed(code: int)

  datatype Request = Request(addr: u16, flags: u16, buf: seq<u8>)

  /** What the kernel answers: opening adapter `i`, giving it a client address, carrying out requests. */
  datatype Kernel = Kernel(
    open: AdapterIdentifier -> Option<I2cError>,
    slave: (nat, u16) -> Option<I2cError>,
    transfer: (nat, seq<Request>) -> Option<I2cError>)

  /** The calls an adapter gets for one transfer. */
  datatype Call = SetAddress(adapter: nat, addr: u16) | Transfer(adapter: nat, requests: seq<Request>)

  /** The first adapter that lists the address. */
  function LinearSearch(devices: seq<Device>, addr: u16): (r: Option<nat>)
    ensures r.Some? ==> r.value < |devices| && addr in devices[r.value].addr
    ensures forall i | 0 <= i < if r.Some? then r.value else |devices| :: addr !in devices[i].addr
  {
    if devices == [] then None
    else if addr in devices[0].addr then Some(0)
    else match LinearSearch(devices[1..], addr)
      case None => None
      case Some(i) => Some(i + 1)
  }

  /** The first address that adapter `i` does not take. */
  function AddressError(kernel: Kernel, i: nat, addr: seq<u16>): (error: Option<I2cError>) {
    if addr == [] then None
    else if kernel.slave(i, addr[0]).Some? then kernel.slave(i, addr[0])
    else AddressError(kernel, i, addr[1..])
  }

  /** The first failure of the kernel when the adapters from `i` on are set up in order. */
  function SetUpError(kernel: Kernel, devices: seq<Device>, i: nat): (error: Option<I2cError>)
    requires i <= |devices|
    decreases |devices| - i
  {
    if i == |devices| then None
    else if kernel.open(devices[i].adapter).Some? then kernel.open(devices[i].adapter)
    else if AddressError(kernel, i, devices[i].addr).Some? then AddressError(kernel, i, devices[i].addr)
    else SetUpError(kernel, devices, i + 1)
  }

  /** Setting up from adapter `i` on succeeds exactly when every call does, and otherwise fails with the first
      call that does: adapter `j` is not opened, or does not take its address `k`. */
  lemma SetUpErrorExactly(kernel: Kernel, devices: seq<Device>, i: nat)
    requires i <= |devices|
    ensures SetUpError(kernel, devices, i) == None <==>
            forall j | i <= j < |devices| ::
              kernel.open(devices[j].adapter) == None && forall a | a in devices[j].addr :: kernel.slave(j, a) == None
    ensures SetUpError(kernel, devices, i).Some? ==>
              exists j :: i <= j < |devices| && FailsAt(kernel, devices, i, j, SetUpError(kernel, devices, i))
    decreases |devices| - i
  {
    if i == |devices| {
    } else {
      AddressErrorExactly(kernel, i, devices[i].addr);
      if kernel.open(devices[i].adapter).Some? || AddressError(kernel, i, devices[i].addr).Some? {
        assert FailsAt(kernel, devices, i, i, SetUpError(kernel, devices, i));
      } else {
        SetUpErrorExactly(kernel, devices, i + 1);
        if SetUpError(kernel, devices, i).Some? {
          var j :| i + 1 <= j < |devices| && FailsAt(kernel, devices, i + 1, j, SetUpError(kernel, devices, i + 1));
          assert FailsAt(kernel, devices, i, j, SetUpError(kernel, devices, i));
        }
      }
    }
  }

  /** Adapter `j` is the first from `i` on with a failing call, and `error` its first. */
  ghost predicate FailsAt(kernel: Kernel, devices: seq<Device>, i: nat, j: nat, error: Option<I2cError>)
    requires i <= j < |devices|
  {
    && error.Some?
    && (forall m | i <= m < j ::
          kernel.open(devices[m].adapter) == None && forall a | a in devices[m].addr :: kernel.slave(m, a) == None)
    && (if kernel.open(devices[j].adapter).Some? then error == kernel.open(devices[j].adapter)
        else
          exists k :: 0 <= k < |devices[j].addr| && error == kernel.slave(j, devices[j].addr[k])
            && forall m | 0 <= m < k :: kernel.slave(j, devices[j].addr[m]) == None)
  }

  lemma {:induction false} AddressErrorExactly(kernel: Kernel, i: nat, addr: seq<u16>)
    ensures AddressError(kernel, i, addr) == None <==> forall a | a in addr :: kernel.slave(i, a) == None
    ensures AddressError(kernel, i, addr).Some? ==>
              exists k :: 0 <= k < |addr| && AddressError(kernel, i, addr) == kernel.slave(i, addr[k])
                && forall m | 0 <= m < k :: kernel.slave(i, addr[m]) == None
  {
    if addr == [] {
    } else {
      AddressErrorExactly(kernel, i, addr[1..]);
      if kernel.slave(i, addr[0]).Some? {
        assert addr[0] in addr;
      } else if AddressError(kernel, i, addr[1..]).Some? {
        var k :| 0 <= k < |addr[1..]| && AddressError(kernel, i, addr[1..]) == kernel.slave(i, addr[1..][k])
                 && forall m | 0 <= m < k :: kernel.slave(i, addr[1..][m]) == None;
        assert addr[k + 1] == addr[1..][k];
        forall m | 0 <= m < k + 1
          ensures kernel.slave(i, addr[m]) == None
        {
          if m > 0 {
            assert addr[m] == addr[1..][m - 1];
          }
        }
      } else {
        assert forall a | a in addr :: a == addr[0] || a in addr[1..];
      }
    }
  }

  /** The index gives adapter `i` for address `a` exactly when adapter `i` of the first `n` lists `a`. */
  ghost predicate IndexesFirst(deviceMap: map<u16, nat>, devices: seq<Device>, n: nat)
    requires n <= |devices|
  {
    && (forall a | a in deviceMap :: deviceMap[a] < n && a in devices[deviceMap[a]].addr)
    && (forall i, a | 0 <= i < n && a in devices[i].addr :: a in deviceMap && deviceMap[a] == i)
  }

  ghost predicate Indexes(deviceMap: map<u16, nat>, devices: seq<Device>) {
    IndexesFirst(deviceMap, devices, |devices|)
  }

  /** Any index that gives exactly the listing adapters agrees with a linear search on every address. */
  lemma IndexIsLinearSearch(deviceMap: map<u16, nat>, devices: seq<Device>, addr: u16)
    requires Indexes(deviceMap, devices)
    ensures LinearSearch(devices, addr) == if addr in deviceMap then Some(deviceMap[addr]) else None
  {
    if addr in deviceMap {
      assert addr in devices[deviceMap[addr]].addr;
    }
  }

  /** Such an index exists only for a configuration without an address on two adapters. */
  lemma IndexNeedsUnambiguousAddresses(deviceMap: map<u16, nat>, devices: seq<Device>, i: nat, j: nat, addr: u16)
    requires Indexes(deviceMap, devices)
    requires i < |devices| && j < |devices| && addr in devices[i].addr && addr in devices[j].addr
    ensures i == j
  {
    assert deviceMap[addr] == i;
  }

  /** From the text of an accepted list: a transfer to an address named in entry `i` is routed to adapter
      `i`, whatever the spelling of the number. */
  lemma RoutedByEntry(list: string, i: nat, token: string)
    requires ReadList(list).Ok? && i < |Split(list, ',')| && token in Split(Split(list, ',')[i], ':')[1..]
    ensures IsAddress(token) && LinearSearch(ReadList(list).value, Address(token)) == Some(i)
  {
    hide IsAddress, Address;
    var entries, devices := Split(list, ','), ReadList(list).value;
    ReadListExactly(list);
    assert entries[i] in entries;
    MeaningAt(entries, i);
    AddressListed(Split(entries[i], ':')[1..], token);
    assert Address(token) in devices[i].addr;
    OwnAddresses(devices, i);
  }

  lemma {:induction false} MeaningAt(entries: seq<string>, i: nat)
    requires i < |entries| && forall e | e in entries :: Readable(e)
    ensures Meanings(entries)[i] == Meaning(entries[i])
  {
    if i == 0 {
    } else {
      MeaningAt(entries[1..], i - 1);
    }
  }

  lemma {:induction false} AddressListed(tokens: seq<string>, token: string)
    requires token in tokens && forall t | t in tokens :: IsAddress(t)
    ensures Address(token) in Addresses(tokens)
  {
    if token == tokens[0] {
    } else {
      assert tokens == [tokens[0]] + tokens[1..];
      AddressListed(tokens[1..], token);
    }
  }

  lemma OwnAddresses(devices: seq<Device>, i: nat)
    requires i < |devices| && Unambiguous(devices)
    ensures forall j, a | 0 <= j < i && a in devices[j].addr :: a !in devices[i].addr
  {
  }

  class I2cMap {
    ghost const devices: seq<Device>
    var adapters: seq<AdapterIdentifier>
    var deviceMap: map<u16, nat>

    ghost predicate Valid()
      reads this
    {
      && adapters == seq(|devices|, i requires 0 <= i < |devices| => devices[i].adapter)
      && Indexes(deviceMap, devices)
    }

    constructor (ghost devices: seq<Device>, adapters: seq<AdapterIdentifier>, deviceMap: map<u16, nat>)
      ensures this.devices == devices && this.adapters == adapters && this.deviceMap == deviceMap
    {
      this.devices, this.adapters, this.deviceMap := devices, adapters, deviceMap;
    }

    /** An address no adapter lists is refused without touching any; otherwise the adapter a linear search
        finds, and no other, gets the address of the first request and then all requests. */
    method Transfer(kernel: Kernel, requests: seq<Request>) returns (error: Option<I2cError>, calls: seq<Call>)
      requires Valid()
      requires |requests| > 0
      ensures match LinearSearch(devices, requests[0].addr)
              case None => error == Some(I2cError.ClientAddressInvalid) && calls == []
              case Some(i) =>
                if kernel.slave(i, requests[0].addr).Some? then
                  error == kernel.slave(i, requests[0].addr) && calls == [SetAddress(i, requests[0].addr)]
                else
                  && error == kernel.transfer(i, requests)
                  && calls == [SetAddress(i, requests[0].addr), Call.Transfer(i, requests)]
    {
      var device := requests[0].addr;
      IndexIsLinearSearch(deviceMap, devices, device);
      calls := [];
      if device !in deviceMap {
        return Some(I2cError.ClientAddressInvalid), calls;
      }
      var index := deviceMap[device];
      assert index < |adapters|;
      calls := calls + [SetAddress(index, device)];
      error := kernel.slave(index, device);
      if error.Some? {
        return;
      }
      calls := calls + [Call.Transfer(index, requests)];
      error := kernel.transfer(index, requests);
    }
  }

  /** The map after the addresses of adapter `i` went in. */
  ghost predicate Entered(before: map<u16, nat>, after: map<u16, nat>, addr: seq<u16>, i: nat) {
    && (forall a :: a in after <==> a in before || a in addr)
    && (forall a | a in after :: after[a] == if a in addr then i else before[a])
  }

  method EnterAddresses(kernel: Kernel, i: nat, addr: seq<u16>, before: map<u16, nat>)
    returns (r: Result<map<u16, nat>, I2cError>)
    ensures match AddressError(kernel, i, addr)
            case Some(e) => r == Err(e)
            case None => r.Ok? && Entered(before, r.value, addr, i)
  {
    var deviceMap: map<u16, nat> := before;
    for k := 0 to |addr|
      invariant AddressError(kernel, i, addr[k..]) == AddressError(kernel, i, addr)
      invariant Entered(before, deviceMap, addr[..k], i)
    {
      assert addr[k..][0] == addr[k] && addr[k..][1..] == addr[k + 1..];
      var failed := kernel.slave(i, addr[k]);
      if failed.Some? {
        return Err(failed.value);
      }
      deviceMap := deviceMap[addr[k] := i];
      assert addr[..k + 1] == addr[..k] + [addr[k]];
    }
    assert addr[..|addr|] == addr;
    return Ok(deviceMap);
  }

  /** The map built from an accepted configuration is an index of it, unless the kernel fails a call: then
      the first failure is returned. */
  method New(kernel: Kernel, devices: seq<Device>) returns (r: Result<I2cMap, I2cError>)
    requires Unambiguous(devices)
    ensures match SetUpError(kernel, devices, 0)
            case Some(e) => r == Err(e)
            case None => r.Ok? && fresh(r.value) && r.value.devices == devices && r.value.Valid()
  {
    hide Unambiguous, IndexesFirst, Entered;
    var deviceMap: map<u16, nat> := map[];
    var adapters := [];
    NothingIndexed(devices);
    for i := 0 to |devices|
      invariant adapters == seq(i, j requires 0 <= j < i => devices[j].adapter)
      invariant SetUpError(kernel, devices, i) == SetUpError(kernel, devices, 0)
      invariant IndexesFirst(deviceMap, devices, i)
    {
      var failed := kernel.open(devices[i].adapter);
      if failed.Some? {
        return Err(failed.value);
      }
      var entered := EnterAddresses(kernel, i, devices[i].addr, deviceMap);
      if entered.Err? {
        return Err(entered.error);
      }
      IndexGrows(deviceMap, entered.value, devices, i);
      deviceMap := entered.value;
      adapters := adapters + [devices[i].adapter];
    }
    var i2cMap := new I2cMap(devices, adapters, deviceMap);
    return Ok(i2cMap);
  }

  lemma NothingIndexed(devices: seq<Device>)
    ensures IndexesFirst(map[], devices, 0)
  {
  }

  /** One more adapter with addresses of its own. */
  lemma IndexGrows(before: map<u16, nat>, after: map<u16, nat>, devices: seq<Device>, i: nat)
    requires i < |devices| && Unambiguous(devices)
    requires IndexesFirst(before, devices, i)
    requires Entered(before, after, devices[i].addr, i)
    ensures IndexesFirst(after, devices, i + 1)
  {
    OwnAddresses(devices, i);
    hide Unambiguous;
  }
}
