/** `modify_device_net_param`: the request built from the device record and the caller's
    overrides, and the result dictionary built from what the foreign call reports. */
module Reconfigure {
  import opened Wrappers
  import opened Numerals
  import opened Device

  /** Error codes the method explains itself; every other code goes to `sdk_err_msg`. */
  const SadpLocked := 2018
  const SadpNotActivated := 2019
  const SadpPasswordError := 2024

  type Byte = x: nat | x < 0x100

  /** The optional keyword arguments; `None` means the argument was not passed. */
  datatype Overrides = Overrides(
    ipv4Address: Option<string>,
    ipv4SubnetMask: Option<string>,
    ipv4Gateway: Option<string>,
    port: Option<int>,
    httpPort: Option<int>,
    ipv6Address: Option<string>,
    ipv6Gateway: Option<string>,
    ipv6MaskLen: Option<int>,
    dhcpEnable: Option<bool>)

  const NoOverrides := Overrides(None, None, None, None, None, None, None, None, None)

  /** The parameter struct handed to the device (`SADP_DEV_NET_PARAM`), without its reserved
      bytes. Integer fields hold what the ctypes field keeps of the value assigned to it. */
  datatype NetParam = NetParam(
    ipv4Address: string,
    ipv4SubNetMask: string,
    ipv4Gateway: string,
    ipv6Address: string,
    ipv6Gateway: string,
    port: nat,
    ipv6MaskLen: nat,
    dhcpEnable: nat,
    httpPort: nat,
    sdkOverTlsPort: nat)

  /** The arguments of the foreign modify call that the model can see. */
  datatype Request = Request(mac: string, password: string, param: NetParam)

  /** What the foreign side reports: the call's int result, the two counters of the returned
      struct (`SADP_DEV_RET_NET_PARAM`), and what `SADP_GetLastError` would answer. */
  datatype DllReply = DllReply(res: int, retryModifyTime: Byte, surplusLockTime: Byte, lastError: int)

  datatype SdkError = SdkError(code: int, message: string)

  /** The result dictionary; `error` holds the `error_code` and `error_message` keys, which are
      present together or not at all. */
  datatype ModifyResult = ModifyResult(
    success: bool,
    retryModifyTime: Byte,
    surplusLockTime: Byte,
    error: Option<SdkError>)

  /** Python truthiness of an optional string or int argument. */
  predicate TruthyString(o: Option<string>) {
    o.Some? && o.value != ""
  }

  predicate TruthyInt(o: Option<int>) {
    o.Some? && o.value != 0
  }

  /** What a `c_uint16` / `c_ubyte` struct field keeps of an assigned int (no range check). */
  function Uint16(x: int): (r: nat)
    ensures r < 0x1_0000 && (0 <= x < 0x1_0000 ==> r == x)
  {
    x % 0x1_0000
  }

  function Ubyte(x: int): (r: nat)
    ensures r < 0x100 && (0 <= x < 0x100 ==> r == x)
  {
    x % 0x100
  }

  function PickString(o: Option<string>, fallback: string): string {
    if TruthyString(o) then o.value else fallback
  }

  function PickInt(o: Option<int>, fallback: int): int {
    if TruthyInt(o) then o.value else fallback
  }

  /** The parameters the device is asked to take (pysadp/sadp.py:176-188). */
  function EffectiveParams(device: DeviceInfo, ov: Overrides): (p: NetParam)
    ensures p.port < 0x1_0000 && p.httpPort < 0x1_0000
    ensures p.ipv6MaskLen < 0x100 && p.dhcpEnable < 0x100
    ensures p.sdkOverTlsPort == 0
  {
    NetParam(
      PickString(ov.ipv4Address, device.ipv4Address),
      PickString(ov.ipv4SubnetMask, device.ipv4SubnetMask),
      PickString(ov.ipv4Gateway, device.ipv4Gateway),
      PickString(ov.ipv6Address, device.ipv6Address),
      PickString(ov.ipv6Gateway, device.ipv6Gateway),
      Uint16(PickInt(ov.port, device.port)),
      Ubyte(PickInt(ov.ipv6MaskLen, device.ipv6MaskLen)),
      match ov.dhcpEnable
      case Some(on) => if on then 1 else 0
      case None => Ubyte(device.dhcpEnabled),
      Uint16(PickInt(ov.httpPort, device.httpPort)),
      0)
  }

  /** The struct as the device record alone would fill it. */
  function DeviceParams(device: DeviceInfo): NetParam {
    NetParam(device.ipv4Address, device.ipv4SubnetMask, device.ipv4Gateway,
             device.ipv6Address, device.ipv6Gateway, Uint16(device.port),
             Ubyte(device.ipv6MaskLen), Ubyte(device.dhcpEnabled), Uint16(device.httpPort), 0)
  }

  /** With no override passed, every field comes from the device record unchanged. Falsy
      overrides ("" and 0) count as not passed; `dhcp_enable` does not, since it is tested
      against `None`. */
  lemma NoOverridesReuseDevice(device: DeviceInfo, ov: Overrides)
    requires !TruthyString(ov.ipv4Address) && !TruthyString(ov.ipv4SubnetMask)
    requires !TruthyString(ov.ipv4Gateway) && !TruthyString(ov.ipv6Address)
    requires !TruthyString(ov.ipv6Gateway) && !TruthyInt(ov.port) && !TruthyInt(ov.httpPort)
    requires !TruthyInt(ov.ipv6MaskLen) && ov.dhcpEnable.None?
    ensures EffectiveParams(device, ov) == DeviceParams(device)
  {
  }

  /** Each string field is its override when that is truthy and the device's value otherwise. */
  lemma StringOverridesWin(device: DeviceInfo, ov: Overrides)
    ensures var p := EffectiveParams(device, ov);
      && p.ipv4Address == (if TruthyString(ov.ipv4Address) then ov.ipv4Address.value else device.ipv4Address)
      && p.ipv4SubNetMask == (if TruthyString(ov.ipv4SubnetMask) then ov.ipv4SubnetMask.value else device.ipv4SubnetMask)
      && p.ipv4Gateway == (if TruthyString(ov.ipv4Gateway) then ov.ipv4Gateway.value else device.ipv4Gateway)
      && p.ipv6Address == (if TruthyString(ov.ipv6Address) then ov.ipv6Address.value else device.ipv6Address)
      && p.ipv6Gateway == (if TruthyString(ov.ipv6Gateway) then ov.ipv6Gateway.value else device.ipv6Gateway)
  {
  }

  /** Each integer field is its truthy override or the device's value, as the ctypes field keeps
      it; an explicit `dhcp_enable` gives 1 or 0 and its absence the device's flag; the TLS port
      is always 0. */
  lemma IntOverridesWin(device: DeviceInfo, ov: Overrides)
    ensures var p := EffectiveParams(device, ov);
      && p.port == Uint16(if TruthyInt(ov.port) then ov.port.value else device.port)
      && p.httpPort == Uint16(if TruthyInt(ov.httpPort) then ov.httpPort.value else device.httpPort)
      && p.ipv6MaskLen == Ubyte(if TruthyInt(ov.ipv6MaskLen) then ov.ipv6MaskLen.value else device.ipv6MaskLen)
      && (ov.dhcpEnable == Some(true) ==> p.dhcpEnable == 1)
      && (ov.dhcpEnable == Some(false) ==> p.dhcpEnable == 0)
      && (ov.dhcpEnable.None? ==> p.dhcpEnable == Ubyte(device.dhcpEnabled))
      && p.sdkOverTlsPort == 0
  {
  }

  /** The error classes the method distinguishes. */
  datatype ErrorKind =
    | DeviceLocked(minutes: Byte)
    | PasswordIncorrect(retries: Byte)
    | DeviceNotActivated
    | Unclassified(code: int)

  function Classify(code: int, retry: Byte, lock: Byte): (k: ErrorKind)
    ensures code == SadpLocked <==> k == DeviceLocked(lock)
    ensures code == SadpPasswordError <==> k == PasswordIncorrect(retry)
    ensures code == SadpNotActivated <==> k == DeviceNotActivated
    ensures k.Unclassified? <==> code !in {SadpLocked, SadpPasswordError, SadpNotActivated}
    ensures k.Unclassified? ==> k.code == code
  {
    if code == SadpLocked then DeviceLocked(lock)
    else if code == SadpPasswordError then PasswordIncorrect(retry)
    else if code == SadpNotActivated then DeviceNotActivated
    else Unclassified(code)
  }

  const LockedPrefix := "设备已锁定，锁定时间:"
  const LockedSuffix := "分钟"
  const PasswordPrefix := "密码错误，剩余尝试修改次数:"
  const PasswordSuffix := "次"
  const NotActivatedMessage := "设备未激活"

  /** `error_message`; `sdkErrMsg` stands for `sdk_err_msg`, which lies outside the model. */
  function Message(k: ErrorKind, sdkErrMsg: int -> string): string {
    match k
    case DeviceLocked(m) => LockedPrefix + Decimal(m) + LockedSuffix
    case PasswordIncorrect(r) => PasswordPrefix + Decimal(r) + PasswordSuffix
    case DeviceNotActivated => NotActivatedMessage
    case Unclassified(code) => sdkErrMsg(code)
  }

  lemma FramedInjective(p: string, x: string, y: string, s: string)
    requires p + x + s == p + y + s
    ensures x == y
  {
    var m := p + x + s;
    assert |x| == |y|;
    assert x == m[|p|..|p| + |x|];
    assert y == (p + y + s)[|p|..|p| + |y|];
  }

  /** The three fixed messages tell the classes apart, and the locked and wrong-password
      messages carry their counter: equal messages mean equal counts. */
  lemma MessageDeterminesKind(k1: ErrorKind, k2: ErrorKind, f: int -> string, g: int -> string)
    requires !k1.Unclassified? && !k2.Unclassified?
    requires Message(k1, f) == Message(k2, g)
    ensures k1 == k2
  {
    var m := Message(k1, f);
    match k1
    case DeviceLocked(a) =>
      assert m[0] == LockedPrefix[0];
      if k2.DeviceLocked? {
        FramedInjective(LockedPrefix, Decimal(a), Decimal(k2.minutes), LockedSuffix);
        DecimalInjective(a, k2.minutes);
      }
    case PasswordIncorrect(a) =>
      assert m[0] == PasswordPrefix[0];
      if k2.PasswordIncorrect? {
        FramedInjective(PasswordPrefix, Decimal(a), Decimal(k2.retries), PasswordSuffix);
        DecimalInjective(a, k2.retries);
      }
    case DeviceNotActivated =>
      assert m[0] == NotActivatedMessage[0];
      assert m[0] == Message(k2, g)[0];
  }

  /** A reply of "failed, code 2018, 0 retries left, 30 minutes" is reported as a lock of 30
      minutes. */
  lemma LockedReplyScenario(f: int -> string)
    ensures Classify(SadpLocked, 0, 30) == DeviceLocked(30)
    ensures Message(Classify(SadpLocked, 0, 30), f) == "设备已锁定，锁定时间:30分钟"
  {
    assert Decimal(30) == Decimal(3) + ['0'];
  }

  /** The struct filled field by field (pysadp/sadp.py:175-188). */
  method FillNetParam(device: DeviceInfo, ov: Overrides) returns (p: NetParam)
    ensures p == EffectiveParams(device, ov)
  {
    p := NetParam("", "", "", "", "", 0, 0, 0, 0, 0);
    p := p.(ipv4Address := PickString(ov.ipv4Address, device.ipv4Address));
    p := p.(ipv4SubNetMask := PickString(ov.ipv4SubnetMask, device.ipv4SubnetMask));
    p := p.(ipv4Gateway := PickString(ov.ipv4Gateway, device.ipv4Gateway));
    p := p.(ipv6Address := PickString(ov.ipv6Address, device.ipv6Address));
    p := p.(ipv6Gateway := PickString(ov.ipv6Gateway, device.ipv6Gateway));
    p := p.(ipv6MaskLen := Ubyte(PickInt(ov.ipv6MaskLen, device.ipv6MaskLen)));
    p := p.(port := Uint16(PickInt(ov.port, device.port)));
    p := p.(httpPort := Uint16(PickInt(ov.httpPort, device.httpPort)));
    p := p.(sdkOverTlsPort := 0);
    if ov.dhcpEnable.Some? {
      p := p.(dhcpEnable := if ov.dhcpEnable.value then 1 else 0);
    } else {
      p := p.(dhcpEnable := Ubyte(device.dhcpEnabled));
    }
  }

  /** The result dictionary filled key by key (pysadp/sadp.py:200-220). */
  method BuildResult(reply: DllReply, sdkErrMsg: int -> string) returns (result: ModifyResult)
    ensures result.success <==> reply.res != 0
    ensures result.retryModifyTime == reply.retryModifyTime
    ensures result.surplusLockTime == reply.surplusLockTime
    ensures result.error.Some? <==> reply.res == 0
    ensures result.error.Some? ==> result.error.value == SdkError(reply.lastError,
      Message(Classify(reply.lastError, reply.retryModifyTime, reply.surplusLockTime), sdkErrMsg))
  {
    result := ModifyResult(reply.res != 0, reply.retryModifyTime, reply.surplusLockTime, None);
    if reply.res == 0 {
      var code := reply.lastError;
      var message := sdkErrMsg(code);
      if code == SadpLocked {
        message := LockedPrefix + Decimal(reply.surplusLockTime) + LockedSuffix;
      } else if code == SadpPasswordError {
        message := PasswordPrefix + Decimal(reply.retryModifyTime) + PasswordSuffix;
      } else if code == SadpNotActivated {
        message := NotActivatedMessage;
      }
      result := result.(error := Some(SdkError(code, message)));
    }
  }

  /** `modify_device_net_param` with the foreign call replaced by its reported outcome. */
  method ModifyDeviceNetParam(
    device: DeviceInfo, password: string, ov: Overrides, reply: DllReply, sdkErrMsg: int -> string)
    returns (sent: Request, result: ModifyResult)
    ensures sent == Request(device.mac, password, EffectiveParams(device, ov))
    ensures result.success <==> reply.res != 0
    ensures result.retryModifyTime == reply.retryModifyTime
    ensures result.surplusLockTime == reply.surplusLockTime
    ensures result.error.Some? <==> reply.res == 0
    ensures result.error.Some? ==> result.error.value == SdkError(reply.lastError,
      Message(Classify(reply.lastError, reply.retryModifyTime, reply.surplusLockTime), sdkErrMsg))
  {
    var p := FillNetParam(device, ov);
    sent := Request(device.mac, password, p);
    result := BuildResult(reply, sdkErrMsg);
  }
}
