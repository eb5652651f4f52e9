/** The discovered-device list and the reconciliation the discovery callback applies to it. */
module Registry {
  import opened Wrappers
  import opened Device

  /** Position of the first record that `__eq__`-matches `d` (same mac), or `|list|` if none:
      the scan behind Python's `in` and `list.remove`. */
  function FirstMatch(list: seq<DeviceInfo>, d: DeviceInfo): (i: nat)
    ensures i <= |list|
    ensures forall k :: 0 <= k < i ==> !SameDevice(list[k], d)
    ensures i < |list| ==> SameDevice(list[i], d)
  {
    if list == [] then 0
    else if SameDevice(list[0], d) then 0
    else 1 + FirstMatch(list[1..], d)
  }

  /** `d in list`. */
  predicate Contains(list: seq<DeviceInfo>, d: DeviceInfo) {
    FirstMatch(list, d) < |list|
  }

  /** `list.remove(d)`: drops the first record with `d`'s mac (the absent case does not arise in
      the callback, which tests membership first). */
  function RemoveFirst(list: seq<DeviceInfo>, d: DeviceInfo): (r: seq<DeviceInfo>)
    ensures var i := FirstMatch(list, d);
      if i < |list| then r == list[..i] + list[i + 1..] else r == list
  {
    if list == [] then []
    else if SameDevice(list[0], d) then list[1..]
    else
      var tail := list[1..];
      var j := FirstMatch(tail, d);
      assert FirstMatch(list, d) == j + 1;
      SliceAfterHead(list, j);
      [list[0]] + RemoveFirst(tail, d)
  }

  /** Cutting out position `j + 1` of a list is keeping its head and cutting `j` out of its tail. */
  lemma SliceAfterHead<T>(list: seq<T>, j: nat)
    ensures j + 1 < |list| ==>
      list[..j + 1] + list[j + 2..] == [list[0]] + (list[1..][..j] + list[1..][j + 1..])
  {
    if j + 1 < |list| {
      assert list[..j + 1] == [list[0]] + list[1..][..j];
      assert list[j + 2..] == list[1..][j + 1..];
    }
  }

  /** The list after one discovery event carrying record `d` (pysadp/sadp.py:95-100). */
  function Reconcile(list: seq<DeviceInfo>, d: DeviceInfo): (r: seq<DeviceInfo>)
    ensures Others(r, d) == Others(list, d)
  {
    var base := if !Contains(list, d) then list else RemoveFirst(list, d);
    var tail := if !Contains(list, d) || d.result != SadpDec then [d] else [];
    OthersAppend(base, tail, d);
    OthersRemoveFirst(list, d);
    assert tail == [] || tail[1..] == [];
    base + tail
  }

  /** The list after a run of events, oldest first. */
  function ReconcileAll(list: seq<DeviceInfo>, events: seq<DeviceInfo>): seq<DeviceInfo>
    decreases |events|
  {
    if events == [] then list else ReconcileAll(Reconcile(list, events[0]), events[1..])
  }

  /** No two records share a mac. */
  ghost predicate UniqueMacs(list: seq<DeviceInfo>) {
    forall i, j :: 0 <= i < j < |list| ==> !SameDevice(list[i], list[j])
  }

  /** The records whose mac differs from `d`'s, in list order. */
  function Others(list: seq<DeviceInfo>, d: DeviceInfo): seq<DeviceInfo> {
    if list == [] then []
    else (if SameDevice(list[0], d) then [] else [list[0]]) + Others(list[1..], d)
  }

  /** An unseen mac is appended at the end, whatever the message kind, offline (3) included. */
  lemma ReconcileUnseen(list: seq<DeviceInfo>, d: DeviceInfo)
    requires forall k :: 0 <= k < |list| ==> list[k].mac != d.mac
    ensures Reconcile(list, d) == list + [d]
  {
    assert FirstMatch(list, d) == |list|;
  }

  /** A known mac loses its first record; the new record is appended iff the kind is not offline,
      so kinds 1, 2, 4 and 5 all replace the old record wholesale. */
  lemma ReconcileSeen(list: seq<DeviceInfo>, d: DeviceInfo, i: nat)
    requires i < |list| && list[i].mac == d.mac
    requires forall k :: 0 <= k < i ==> list[k].mac != d.mac
    ensures Reconcile(list, d)
      == list[..i] + list[i + 1..] + (if d.result != SadpDec then [d] else [])
  {
    assert FirstMatch(list, d) == i;
  }

  lemma UniqueAppend(list: seq<DeviceInfo>, d: DeviceInfo)
    requires UniqueMacs(list)
    requires forall k :: 0 <= k < |list| ==> !SameDevice(list[k], d)
    ensures UniqueMacs(list + [d])
  {
    var r := list + [d];
    forall a, b | 0 <= a < b < |r|
      ensures !SameDevice(r[a], r[b])
    {
      assert r[a] == list[a];
    }
  }

  /** Removing one record of a unique list leaves a unique list that no longer holds its mac. */
  lemma UniqueRemove(list: seq<DeviceInfo>, i: nat)
    requires UniqueMacs(list) && i < |list|
    ensures var rest := list[..i] + list[i + 1..];
      && UniqueMacs(rest)
      && forall k :: 0 <= k < |rest| ==> !SameDevice(rest[k], list[i])
  {
    var rest := list[..i] + list[i + 1..];
    forall a, b | 0 <= a < b < |rest|
      ensures !SameDevice(rest[a], rest[b])
    {
      var a', b' := if a < i then a else a + 1, if b < i then b else b + 1;
      assert rest[a] == list[a'] && rest[b] == list[b'];
    }
    forall k | 0 <= k < |rest|
      ensures !SameDevice(rest[k], list[i])
    {
      var k' := if k < i then k else k + 1;
      assert rest[k] == list[k'];
    }
  }

  /** Every event keeps macs unique. */
  lemma ReconcilePreservesUnique(list: seq<DeviceInfo>, d: DeviceInfo)
    requires UniqueMacs(list)
    ensures UniqueMacs(Reconcile(list, d))
  {
    var i := FirstMatch(list, d);
    if i == |list| {
      ReconcileUnseen(list, d);
      UniqueAppend(list, d);
    } else {
      var rest := list[..i] + list[i + 1..];
      ReconcileSeen(list, d, i);
      UniqueRemove(list, i);
      if d.result != SadpDec {
        UniqueAppend(rest, d);
      }
    }
  }

  lemma {:induction false} OthersAppend(a: seq<DeviceInfo>, b: seq<DeviceInfo>, d: DeviceInfo)
    ensures Others(a + b, d) == Others(a, d) + Others(b, d)
  {
    if a == [] {
      assert a + b == b;
    } else {
      assert (a + b)[0] == a[0] && (a + b)[1..] == a[1..] + b;
      OthersAppend(a[1..], b, d);
    }
  }

  lemma {:induction false} OthersRemoveFirst(list: seq<DeviceInfo>, d: DeviceInfo)
    ensures Others(RemoveFirst(list, d), d) == Others(list, d)
  {
    if list != [] && !SameDevice(list[0], d) {
      var t := RemoveFirst(list[1..], d);
      assert ([list[0]] + t)[1..] == t;
      OthersRemoveFirst(list[1..], d);
    }
  }

  /** With unique macs, after the event the mac is listed iff it was unseen or the kind is not
      offline; when it is listed, its only record is the new one, at the end. */
  lemma ReconcileMembership(list: seq<DeviceInfo>, d: DeviceInfo)
    requires UniqueMacs(list)
    ensures var r := Reconcile(list, d);
      && (Contains(r, d) <==> !Contains(list, d) || d.result != SadpDec)
      && (Contains(r, d) ==> FirstMatch(r, d) == |r| - 1 && r[|r| - 1] == d)
  {
    if Contains(list, d) {
      MembershipSeen(list, d, FirstMatch(list, d));
    } else {
      MembershipUnseen(list, d);
    }
  }

  lemma MembershipUnseen(list: seq<DeviceInfo>, d: DeviceInfo)
    requires !Contains(list, d)
    ensures var r := Reconcile(list, d);
      Contains(r, d) && FirstMatch(r, d) == |r| - 1 && r[|r| - 1] == d
  {
    ReconcileUnseen(list, d);
    FirstMatchAfter(list, d);
  }

  lemma MembershipSeen(list: seq<DeviceInfo>, d: DeviceInfo, i: nat)
    requires UniqueMacs(list) && i == FirstMatch(list, d) && i < |list|
    ensures var r := Reconcile(list, d);
      && (Contains(r, d) <==> d.result != SadpDec)
      && (Contains(r, d) ==> FirstMatch(r, d) == |r| - 1 && r[|r| - 1] == d)
  {
    var base := list[..i] + list[i + 1..];
    UniqueRemove(list, i);
    ReconcileSeen(list, d, i);
    assert forall k :: 0 <= k < |base| ==> !SameDevice(base[k], d);
    if d.result != SadpDec {
      FirstMatchAfter(base, d);
    } else {
      assert Reconcile(list, d) == base;
    }
  }

  lemma {:induction false} FirstMatchAfter(base: seq<DeviceInfo>, d: DeviceInfo)
    requires forall k :: 0 <= k < |base| ==> !SameDevice(base[k], d)
    ensures FirstMatch(base + [d], d) == |base|
  {
    if base != [] {
      assert (base + [d])[1..] == base[1..] + [d];
      FirstMatchAfter(base[1..], d);
    }
  }

  /** The list's length moves by one per unseen mac (up) and per offline repeat (down). */
  lemma ReconcileLength(list: seq<DeviceInfo>, d: DeviceInfo)
    ensures |Reconcile(list, d)| == if !Contains(list, d) then |list| + 1
      else if d.result == SadpDec then |list| - 1 else |list|
  {
  }

  /** Any sequence of events, replayed on a list with unique macs, keeps them unique. */
  lemma {:induction false} ReconcileAllPreservesUnique(list: seq<DeviceInfo>, events: seq<DeviceInfo>)
    requires UniqueMacs(list)
    ensures UniqueMacs(ReconcileAll(list, events))
    decreases |events|
  {
    if events != [] {
      ReconcilePreservesUnique(list, events[0]);
      ReconcileAllPreservesUnique(Reconcile(list, events[0]), events[1..]);
    }
  }

  /** The `SADP` object's discovery state: `device_list`, whether `sadp_data_callback` is set,
      and what that callback has been handed so far, in delivery order: each record together
      with the `device_list` the callback could read at that moment. */
  class Sadp {
    var deviceList: seq<DeviceInfo>
    var hasDataCallback: bool
    var delivered: seq<(DeviceInfo, seq<DeviceInfo>)>

    ghost predicate Valid()
      reads this
    {
      UniqueMacs(deviceList)
    }

    constructor ()
      ensures Valid()
      ensures deviceList == [] && !hasDataCallback && delivered == []
    {
      deviceList := [];
      hasDataCallback := false;
      delivered := [];
    }

    /** `sadp.sadp_data_callback = f` (set) or `= None` (clear). */
    method SetDataCallback(present: bool)
      requires Valid()
      modifies this
      ensures Valid()
      ensures hasDataCallback == present
      ensures deviceList == old(deviceList) && delivered == old(delivered)
    {
      hasDataCallback := present;
    }

    /** `internal_callback`: `event` is `None` for a null device-info pointer. */
    method InternalCallback(event: Option<DeviceInfo>)
      requires Valid()
      modifies this
      ensures Valid()
      ensures hasDataCallback == old(hasDataCallback)
      ensures event.None? ==> deviceList == old(deviceList) && delivered == old(delivered)
      ensures event.Some? ==> deviceList == Reconcile(old(deviceList), event.value)
      ensures event.Some? ==>
        delivered == old(delivered) + (if hasDataCallback then [(event.value, deviceList)] else [])
    {
      if event.Some? {
        var info := event.value;
        var before := deviceList;
        ReconcilePreservesUnique(before, info);
        if !Contains(before, info) {
          deviceList := before + [info];
        } else {
          var rest := RemoveFirst(before, info);
          if info.result != SadpDec {
            rest := rest + [info];
          }
          deviceList := rest;
        }
        assert deviceList == Reconcile(before, info);
        if hasDataCallback {
          delivered := delivered + [(info, deviceList)];
        }
      }
    }
  }
}
