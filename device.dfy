/** The discovered-device record (`DeviceInfo`) and the small predicates defined on it. */
module Device {
  import opened Wrappers

  /** Message kinds carried in `result` (`iResult` of the device-info struct). */
  const SadpAdd := 1
  const SadpUpdate := 2
  const SadpDec := 3
  const SadpRestart := 4
  const SadpUpdateFail := 5

  const Nul: char := '\0'

  /** One discovered device. Identity is the `mac` string; the other descriptive fields of the
      vendor record (series, versions, OEM data, ...) travel unchanged in `vendor`. */
  datatype DeviceInfo = DeviceInfo(
    mac: string,
    serialNo: string,
    result: int,
    activated: int,
    ipv4Address: string,
    ipv4SubnetMask: string,
    ipv4Gateway: string,
    ipv6Address: string,
    ipv6Gateway: string,
    ipv6MaskLen: int,
    port: int,
    httpPort: int,
    dhcpEnabled: int,
    vendor: map<string, string>)

  /** A Python value on the right-hand side of `==`: a `DeviceInfo` or anything else. */
  datatype PyValue = Device(info: DeviceInfo) | NotADevice

  /** `is_activated`: the vendor flag `byActivated` is 0 for an activated device. */
  predicate IsActivated(d: DeviceInfo) {
    d.activated == 0
  }

  /** `__eq__` restricted to two records: only the mac is compared. */
  predicate SameDevice(a: DeviceInfo, b: DeviceInfo) {
    a.mac == b.mac
  }

  /** `__eq__`: false for a non-`DeviceInfo` operand, otherwise mac equality. */
  function Equals(self: DeviceInfo, other: PyValue): (eq: bool)
    ensures eq <==> other.Device? && other.info.mac == self.mac
  {
    match other
    case Device(info) => SameDevice(self, info)
    case NotADevice => false
  }

  /** Equality on records ignores every field but the mac, and is an equivalence. */
  lemma EqualsIsMacEquivalence(a: DeviceInfo, b: DeviceInfo, c: DeviceInfo)
    ensures Equals(a, Device(a))
    ensures Equals(a, Device(b)) == Equals(b, Device(a))
    ensures Equals(a, Device(b)) && Equals(b, Device(c)) ==> Equals(a, Device(c))
    ensures b.mac == c.mac ==> Equals(a, Device(b)) == Equals(a, Device(c))
  {
  }

  const Descriptions: map<int, string> := map[
    SadpAdd := "新设备上线",
    SadpUpdate := "设备更新",
    SadpDec := "设备下线",
    SadpRestart := "设备重启",
    SadpUpdateFail := "设备更新失败"]

  /** `result_desc`: a fixed description for the five message kinds, `None` otherwise. */
  function ResultDesc(result: int): (r: Option<string>)
    ensures r.Some? <==> SadpAdd <= result <= SadpUpdateFail
    ensures result == SadpDec ==> r == Some("设备下线")
  {
    if result in Descriptions then Some(Descriptions[result]) else None
  }

  /** Different message kinds never share a description. */
  lemma ResultDescInjective(r1: int, r2: int)
    requires ResultDesc(r1).Some? && ResultDesc(r1) == ResultDesc(r2)
    ensures r1 == r2
  {
  }

  const ActivatedWord := "已激活"
  const NotActivatedWord := "未激活"

  predicate EndsWith(s: string, suffix: string) {
    |suffix| <= |s| && s[|s| - |suffix|..] == suffix
  }

  /** `__str__`: the address, the mac and the serial number, then the activation word, which is
      chosen by the truthiness of the raw flag. */
  function Describe(d: DeviceInfo): (s: string)
    ensures |s| >= 4 && s[..4] == "ip:'"
    ensures EndsWith(s, if IsActivated(d) then ActivatedWord else NotActivatedWord)
  {
    var prefix := "ip:'" + d.ipv4Address + "', mac:'" + d.mac + "', serial_no:'" + d.serialNo + "',  ";
    var word := if d.activated != 0 then NotActivatedWord else ActivatedWord;
    assert (prefix + word)[..4] == prefix[..4];
    assert (prefix + word)[|prefix + word| - |word|..] == word;
    prefix + word
  }

  /** The activation word `__str__` prints is the negation of `is_activated`'s answer. */
  lemma DescribeShowsActivation(d: DeviceInfo)
    ensures EndsWith(Describe(d), NotActivatedWord) <==> !IsActivated(d)
    ensures EndsWith(Describe(d), ActivatedWord) <==> IsActivated(d)
  {
    assert NotActivatedWord[0] != ActivatedWord[0];
  }

  /** How many NULs `s` starts with. */
  function LeadingNuls(s: string): (n: nat)
    ensures n <= |s| && (n < |s| ==> s[n] != Nul)
    ensures forall k :: 0 <= k < n ==> s[k] == Nul
  {
    if s != [] && s[0] == Nul then 1 + LeadingNuls(s[1..]) else 0
  }

  /** How many NULs `s` ends with. */
  function TrailingNuls(s: string): (n: nat)
    ensures n <= |s| && (n < |s| ==> s[|s| - 1 - n] != Nul)
    ensures forall k :: |s| - n <= k < |s| ==> s[k] == Nul
  {
    if s != [] && s[|s| - 1] == Nul then 1 + TrailingNuls(s[..|s| - 1]) else 0
  }

  /** `s.strip('\x00')`, applied to every string field of the record: drop the leading NULs,
      then the trailing ones. */
  function StripNul(s: string): (r: string)
    ensures LeadingNuls(s) + |r| <= |s| && r == s[LeadingNuls(s)..LeadingNuls(s) + |r|]
    ensures r != [] ==> r[0] != Nul && r[|r| - 1] != Nul
    ensures forall k :: LeadingNuls(s) + |r| <= k < |s| ==> s[k] == Nul
  {
    var i := LeadingNuls(s);
    var l := s[i..];
    var t := TrailingNuls(l);
    assert l[..|l| - t] == s[i..i + |l| - t];
    assert |l| - t > 0 ==> l[..|l| - t][0] == s[i] && l[..|l| - t][|l| - t - 1] == l[|l| - 1 - t];
    assert forall k :: i + |l| - t <= k < |s| ==> s[k] == l[k - i];
    l[..|l| - t]
  }

  /** Stripping removes the run of NULs at each end and nothing else: the result is the
      contiguous slice of the input between those runs, so NULs inside it survive. */
  lemma StripNulIsInnerSlice(s: string)
    ensures var r, i := StripNul(s), LeadingNuls(s);
      && i + |r| <= |s| && r == s[i..i + |r|]
      && (forall k :: 0 <= k < i ==> s[k] == Nul)
      && (forall k :: i + |r| <= k < |s| ==> s[k] == Nul)
      && (r != [] ==> r[0] != Nul && r[|r| - 1] != Nul)
  {
    var i := LeadingNuls(s);
    var l := s[i..];
    var t := TrailingNuls(l);
    var r := StripNul(s);
    assert r == l[..|l| - t];
    assert r == s[i..i + |r|];
    forall k | i + |r| <= k < |s|
      ensures s[k] == Nul
    {
      assert s[k] == l[k - i];
    }
    if r != [] {
      assert r[0] == l[0] && r[|r| - 1] == l[|l| - 1 - t];
    }
  }

  /** A string with no NUL at either end is left as it is; in particular stripping twice is the
      same as stripping once. */
  lemma StripNulIdempotent(s: string)
    ensures (s == [] || (s[0] != Nul && s[|s| - 1] != Nul)) ==> StripNul(s) == s
    ensures StripNul(StripNul(s)) == StripNul(s)
  {
    StripNulIsInnerSlice(s);
    var r := StripNul(s);
    if s == [] || (s[0] != Nul && s[|s| - 1] != Nul) {
      assert LeadingNuls(s) == 0;
      assert s[0..] == s;
    }
    assert LeadingNuls(r) == 0;
    assert r[0..] == r;
  }
}
