# pysadp core in Dafny

pysadp is a Python wrapper around Hikvision's SADP discovery library. It finds cameras and
recorders on the local network, keeps a list of the devices it has seen, and changes a device's
network settings. This project models the sequential logic of that wrapper and proves
properties about it:

- **Allocator** (`ipgenerator.dfy`) models `IPGenerator`. From a start address and a netmask it
  works out a network, lists the network's usable hosts, chooses a gateway, and hands out
  addresses one at a time through a cursor `currentIndex`. `RecycleCurrentIp` steps the cursor
  back, which gives callers a reserve–try–roll-back protocol. The generator is a class. Its
  constant fields hold what the constructor computes; `GetNextIp`, `RecycleCurrentIp` and
  `Reset` update the cursor. Addresses are 32-bit numbers (`nat` below 2^32).
- **Registry** (`registry.dfy`) models `device_list` and the discovery callback
  `internal_callback`. Each discovery event either appends its record, or removes the first
  record with the same mac and re-appends the new one unless the event is "offline" (result 3).
  `Reconcile` is the list after one event, as a function. The class `Sadp` holds the list and
  changes it in place the way the callback does. It also records the events handed to the user
  callback.
- **Device** (`device.dfy`) models the `DeviceInfo` record: `is_activated`, `result_desc`,
  `__eq__` (the mac alone decides), the activation word of `__str__`, and the NUL stripping
  applied to each string field.
- **Version** (`version.dfy`) models `get_sdk_version`. It splits the library's
  packed version word into four bytes and renders them as `V<a>.<b>.<c>.<d>`. The decimal
  rendering of ints is in `numerals.dfy`.
- **Reconfigure** (`reconfigure.dfy`) models `modify_device_net_param`. This covers the
  parameter struct built from the device record and the caller's optional overrides, and the
  result dictionary built from the foreign call's outcome, including the three error codes the
  method explains itself.

Calls into the vendor library are not modelled. Their results are inputs:
- `DllReply` holds the modify call's result, the two counters it fills in, and the
  `SADP_GetLastError` code;
- `SdkVersion` takes the version call's int;
- `InternalCallback` takes the event record, or `None` for a null pointer;
- `sdk_err_msg` is the function parameter `sdkErrMsg`.

## Behaviour worth knowing

- An offline event (result 3) for a mac that is not listed appends the record
  (`Registry.ReconcileUnseen`).
- An update-failed event (result 5) is treated like results 1, 2 and 4: the record is
  replaced wholesale (`Registry.ReconcileSeen`).
- In the example campaign (192.168.1.100 with mask 255.255.255.0), 155 calls to
  `get_next_ip` succeed, covering .100 through .254, and the 156th fails
  (`Allocator.ExampleCampaign`).
- The constructor checks the gateway before it checks for an empty host list. On current
  Python the empty host list cannot happen, because `hosts()` of a /31 yields both addresses
  and of a /32 the single one. `New` keeps the check as a branch that is never taken.
- The default gateway is the network address + 1 even for /31 and /32, where that is not the
  first host. For 255.255.255.255/32 the + 1 overflows and `ipaddress` raises; `New`
  returns `DefaultGatewayOverflow` for that case.
- `reset()` moves the cursor to 0, the first host, not back to the start address.

## Model

| member | source | states |
|---|---|---|
| Allocator.PrefixOf | pysadp/ip_generator.py:33 | A prefix length is accepted iff it is in 0..32 and is then the prefix. A dotted mask is accepted iff some prefix has it as its netmask or as its host mask. The netmask reading is preferred, as `ipaddress` does. |
| Allocator.PrefixOfNetmask | pysadp/ip_generator.py:33 | The netmask of prefix p, given as a dotted mask, yields p again, and it is read as a netmask, not as a host mask. |
| Allocator.NetworkAddress | pysadp/ip_generator.py:33 | With `strict=False`, the network is block-aligned, holds the start address, and its block fits in the 32-bit space. |
| Allocator.NetworkAddressUnique | pysadp/ip_generator.py:33 | No other block-aligned address has a block holding the start address, so the network is the start address with its host bits cleared. |
| Allocator.Hosts | pysadp/ip_generator.py:36 | `list(network.hosts())` has exactly as many entries as the host count of the prefix (1 for /32, 2 for /31, block − 2 otherwise). |
| Allocator.HostsShape | pysadp/ip_generator.py:36 | `hosts()` is ascending and inside the network. Host i is first + i. For prefix ≤ 30 it runs from network+1 to broadcast−1, with block − 2 entries. |
| Allocator.HostMembership | pysadp/ip_generator.py:36 | An address is a host iff it lies in [first, first + count), and then its index is its offset from first. |
| Allocator.IndexOf | pysadp/ip_generator.py:49-53 | `list.index`: the first position holding x, or `None` (the `ValueError` path) iff x is absent. |
| Allocator.IpGenerator.Init | pysadp/ip_generator.py:26-57 | The constructed state: network, host list and count derived from start and prefix, the given gateway and cursor, and the invariant established. |
| Allocator.IpGenerator.New | pysadp/ip_generator.py:18-60 | Each failure in source order: invalid netmask; default gateway overflow; an explicit gateway outside the network raises, while the network and broadcast addresses are accepted. Otherwise a valid generator with gateway network+1 or the given one, and a cursor at the start address's host index or 0. |
| Allocator.IpGenerator.GetNextIp | pysadp/ip_generator.py:71-77 | Below the count: returns the host at the cursor and advances exactly one. Otherwise returns `None` (the `IndexError`) and leaves the state unchanged. Remaining count drops by one, and the result exceeds the previous current address. |
| Allocator.IpGenerator.Netmask | pysadp/ip_generator.py:79-86 | The result is a netmask, not a host mask: read as a netmask it gives the generator's own prefix. |
| Allocator.IpGenerator.CurrentIp | pysadp/ip_generator.py:88-96 | `None` iff the cursor is 0, otherwise the host just before the cursor; reads only. |
| Allocator.IpGenerator.Reset | pysadp/ip_generator.py:98-100 | The cursor returns to 0 and the invariant holds. |
| Allocator.IpGenerator.RemainingCount | pysadp/ip_generator.py:102-108 | Remaining plus issued equals the host count. |
| Allocator.IpGenerator.RecycleCurrentIp | pysadp/ip_generator.py:110-121 | Succeeds iff the cursor was positive, and then steps back one so the host at the cursor is the old current address. At 0 it returns false and changes nothing. |
| Allocator.IpGenerator.GetNetworkInfo | pysadp/ip_generator.py:123-137 | Each key is tied to the generator: the network address, the netmask (a netmask of the prefix), total = the host count, used = the cursor, available = the remaining count, and the gateway. Used + available = total. The start address lies between the network and broadcast addresses, and that span is one block. |
| Allocator.RecycleThenNext | pysadp/ip_generator.py:88-121 | After a successful recycle, the next address is the one `get_current_ip` reported before it, and the cursor is back where it was. A failed recycle happens only at cursor 0 and leaves the cursor unchanged, so the cursor ends where it started either way. |
| Allocator.ReserveRollbackReserve | example.py:106-117 | Reserve, roll back on failure, reserve again: both reservations give the same address, and the first succeeds iff hosts remain. The cursor ends one past where it started after a success, and unchanged otherwise. |
| Allocator.ExampleGenerator | example.py:71 | With 192.168.1.100 and mask 255.255.255.0 there are 254 hosts: the cursor starts at 99 and the gateway is 192.168.1.1. |
| Allocator.ExampleCampaign | example.py:71 | Drawing until refusal makes 156 attempts and 155 successes, from 192.168.1.100 to 192.168.1.254, strictly increasing. |
| Allocator.ExampleMask | example.py:71 | 255.255.255.0 is the netmask of a /24. |
| Allocator.ExampleNetwork | example.py:71 | The network of 192.168.1.100/24 is 192.168.1.0, with 254 hosts from 192.168.1.1. |
| Allocator.ExampleHosts | example.py:71 | Host 99 of that network is .100 and host 253 is .254. |
| Allocator.ExampleNetworkIsMasked | pysadp/ip_generator.py:33 | For the example, the network `NetworkAddress` computes is 192.168.1.0, the netmask of /24 is 255.255.255.0, and 192.168.1.100 AND 255.255.255.0 is that network: the block alignment agrees with `ip & netmask`. |
| Registry.FirstMatch | pysadp/sadp.py:95-98 | The scan behind `in` and `remove`: the index of the first mac-equal record, or the length if there is none. |
| Registry.RemoveFirst | pysadp/sadp.py:98 | `list.remove`: exactly the first mac-equal record is cut out, and the rest keep their order. |
| Registry.Reconcile | pysadp/sadp.py:95-100 | The list after one event. Records with other macs keep their contents and relative order. |
| Registry.ReconcileUnseen | pysadp/sadp.py:95-96 | A record whose mac is not listed is appended at the end, whatever its result code, 3 included. |
| Registry.ReconcileSeen | pysadp/sadp.py:97-100 | A listed mac loses its first record. The new record is appended iff result ≠ 3, so codes 1, 2, 4 and 5 replace wholesale. |
| Registry.ReconcileLength | pysadp/sadp.py:95-100 | The list grows by one for an unseen mac, shrinks by one for an offline repeat, and is otherwise the same length. |
| Registry.ReconcilePreservesUnique | pysadp/sadp.py:95-100 | If macs are unique before an event, they stay unique after it. |
| Registry.ReconcileMembership | pysadp/sadp.py:95-100 | With unique macs, the mac is listed afterwards iff it was unseen or result ≠ 3. When listed, its only record is the new one, at the end. |
| Registry.ReconcileAllPreservesUnique | pysadp/sadp.py:92-102 | Any sequence of events, applied in delivery order, keeps macs unique. |
| Registry.Sadp.constructor | pysadp/sadp.py:18-21 | The registry starts empty, with no data callback set. |
| Registry.Sadp.SetDataCallback | example.py:69 | Setting or clearing `sadp_data_callback` changes neither the list nor what was delivered. |
| Registry.Sadp.InternalCallback | pysadp/sadp.py:92-102 | A null event changes nothing. Otherwise the list becomes `Reconcile` of the old list, and the record is delivered once iff a callback is set, together with the updated list, which is what the callback sees. Unique macs are preserved. |
| Device.Equals | pysadp/model.py:316-319 | `__eq__` is false for a non-`DeviceInfo` operand, and otherwise holds iff the macs are equal. No other field is compared. |
| Device.EqualsIsMacEquivalence | pysadp/model.py:316-319 | On records, `__eq__` is reflexive, symmetric and transitive, and depends only on the other record's mac. |
| Device.ResultDesc | pysadp/model.py:226-239 | A description exists iff the result code is 1..5, and code 3 is "设备下线". |
| Device.ResultDescInjective | pysadp/model.py:232-238 | Different codes never share a description. |
| Device.IsActivated | pysadp/model.py:218-224 | `is_activated` holds iff the raw flag is 0. It has no contract of its own; `Device.Describe` and `Device.DescribeShowsActivation` tie it to the word `__str__` prints. |
| Device.Describe | pysadp/model.py:321-322 | `__str__` starts with `ip:'` and ends with the activated word when `is_activated` holds and the not-activated word otherwise. The source picks the word from the flag's truthiness, which agrees with `is_activated`. |
| Device.DescribeShowsActivation | pysadp/model.py:321-322 | `__str__` ends in the not-activated word iff `is_activated` is false (activated ≠ 0), and in the activated word iff it is true. |
| Device.StripNul | pysadp/model.py:254-313 | `strip('\x00')` is a contiguous slice of its input, starting after the leading NULs and followed only by NULs, that neither begins nor ends with a NUL. |
| Device.StripNulIsInnerSlice | pysadp/model.py:254-313 | `strip('\x00')` keeps the contiguous slice between the leading and trailing NUL runs. The stripped-off parts are all NUL, and the result does not begin or end with one, so interior NULs survive. |
| Device.StripNulIdempotent | pysadp/model.py:254-313 | A string with no NUL at either end is unchanged, and stripping twice equals stripping once. |
| Version.SdkVersion | pysadp/sadp.py:71-75 | Each of the four components is a byte. |
| Version.SdkVersionPacks | pysadp/sadp.py:71-75 | The components repack to `res` for 0 ≤ res < 2^32, and to res + 2^32 for a negative signed 32-bit `res`. |
| Version.VersionString | pysadp/sadp.py:77 | The version string starts with `V` and is 8 to 16 characters long, the bounds four byte components of one to three digits each allow. |
| Version.VersionStringComponents | pysadp/sadp.py:71-77 | The version string is `V` and four dot-separated digit groups whose values are `a`, `b`, `c`, `d` of `SdkVersion`, the top byte first. |
| Version.VersionStringParses | pysadp/sadp.py:71-77 | Any split of the version string into `V` and four dot-separated digit groups reads back as `a`, `b`, `c`, `d`, in that order. |
| Version.VersionStringInjective | pysadp/sadp.py:77 | Two unsigned 32-bit words with the same version string are equal. |
| Numerals.ValueOfDecimal | pysadp/sadp.py:77 | Reading back the decimal rendering of n gives n. |
| Numerals.DecimalInjective | pysadp/sadp.py:77 | Distinct numbers render differently. |
| Reconfigure.EffectiveParams | pysadp/sadp.py:176-188 | The parameters sent: every integer fits its struct field (16 bits for the ports, 8 bits for the mask length and the DHCP flag), and the TLS port is 0. |
| Reconfigure.NoOverridesReuseDevice | pysadp/sadp.py:176-188 | With every override falsy (`None`, `""`, 0) and `dhcp_enable` None, the struct holds the device record's values, as the struct's 16- and 8-bit fields keep them. |
| Reconfigure.StringOverridesWin | pysadp/sadp.py:176-180 | Each address field is its override when that is truthy, and otherwise the device's value. |
| Reconfigure.IntOverridesWin | pysadp/sadp.py:181-188 | Each port and the mask length are the truthy override or the device's value, cut to the field's width. `dhcp_enable` true/false/None gives 1/0/the device's flag. The TLS port is 0. |
| Reconfigure.FillNetParam | pysadp/sadp.py:175-188 | The struct filled field by field equals `EffectiveParams`. |
| Reconfigure.Classify | pysadp/sadp.py:214-219 | 2018 iff locked (carrying the lock minutes), 2024 iff wrong password (carrying the retries), 2019 iff not activated. Any other code is unclassified and keeps the code. |
| Reconfigure.MessageDeterminesKind | pysadp/sadp.py:214-219 | The three fixed messages tell the classes apart, and equal locked or password messages carry equal counts. |
| Reconfigure.LockedReplyScenario | pysadp/sadp.py:214-215 | Code 2018 with 30 minutes gives "设备已锁定，锁定时间:30分钟". |
| Reconfigure.BuildResult | pysadp/sadp.py:200-220 | Success iff res ≠ 0, and the two counters always appear. The error code and message appear iff res = 0. The message is the classified one, or `sdk_err_msg` of the code. |
| Reconfigure.ModifyDeviceNetParam | pysadp/sadp.py:145-222 | The request carries the mac, the password and the effective parameters, and the result is as in `BuildResult`. |

## Left out

- Loading the vendor DLLs, `SADP.__init__`, `call_func`, `start`, `sadp_stop`, `activate_device`,
  `_set_auto_request_interval` and `print_error` are foreign calls or their wiring. Their
  results enter the model as inputs.
- `sdk_err_msg` lives in `pysadp/sdk_errors`, which is not part of this model. It is the
  uninterpreted function parameter `sdkErrMsg`.
- Logging (the warning for an unusable start address, the error after a failed modify) is not
  modelled.
- `pysadp/base.py` consists of ctypes struct layouts. Only its field types are used: the
  widths behind `Uint16` and `Ubyte` and the byte-sized counters of `DllReply`.
- The foreign calls keep ctypes' default restype `c_int` (`pysadp/sadp.py:61`, `:69`), so
  `get_sdk_version` may see a negative word. `SdkVersion` takes any int and
  `SdkVersionPacks` covers the signed range.
- `DeviceInfo.__init__` copies fields out of the C struct. Its UTF-8 decoding and ctypes'
  truncation of `c_char` arrays at the first NUL are not modelled. Only the NUL strip is
  modelled, as `Device.StripNul`, on strings. Descriptive fields other than the network ones
  travel in an opaque `vendor` map. A failing `.decode('utf-8')` raises inside
  `internal_callback` (`pysadp/sadp.py:94`) before the list is touched or anything is
  delivered, so such an event leaves the state as a null event does
  (`Registry.Sadp.InternalCallback` with `None`).
- Encoding the overrides into fixed-size `c_char` fields (which raises `ValueError` when a
  string is too long) is not modelled. `NetParam` holds the strings themselves.
- Concurrency: `device_list` is a class attribute shared by all `SADP` instances and is
  updated on the library's callback thread. The model has one registry, with events applied one
  at a time.
- The user callback's own effects are left out. `Sadp.delivered` records what it was handed
  and the list it could read at that moment.
- Parsing and formatting in `ipaddress` are not modelled. Addresses are numbers; a dotted mask
  string is `DottedMask`; an int or a digit string is `PrefixLength`. Strings that fail to
  parse as an address are not modelled.
- `IPGenerator.__str__` is left out.
- Older `ipaddress` releases, where a /32 has no hosts, are left out. The model follows the
  current rule: a /31 yields both of its addresses and a /32 its one address.
- `example.py`'s wait loops (`wait_for_devices` and the activation wait) are left out, as
  clock-driven polling of a list grown by another thread. Its `main` enters only through the
  example generator and the reserve/rollback protocol.
- `pysadp/__init__.py` only re-exports names.
- Allocator.NetworkAddress: the bitwise AND of address and mask is stated as block alignment
  plus uniqueness (`NetworkAddressUnique`). The bit-level equality is checked only for the
  example network (`ExampleNetworkIsMasked`).
