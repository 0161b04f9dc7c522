/**
 * Reconciling a scan against the trust store, shared by `manual_scan` and
 * `notify_new_devices`: keep the scanned (address, hardware address) items
 * whose hardware address is not a key of the store. The test is Python's
 * `mac not in trusted_devices`, an exact, case-sensitive string comparison.
 */
module Reconcile {
  import opened OrderedDict

  /** Whether the store has `mac` as a key, compared exactly. */
  predicate IsTrusted(mac: string, trusted: Dict<string, string>)
  {
    mac in Keys(trusted)
  }

  /** The scanned items whose hardware address is not trusted, in scan order. */
  function Untrusted(devices: Dict<string, string>, trusted: Dict<string, string>): seq<(string, string)>
  {
    if devices == [] then []
    else
      var earlier := Untrusted(devices[..|devices| - 1], trusted);
      var item := devices[|devices| - 1];
      if IsTrusted(item.1, trusted) then earlier else earlier + [item]
  }

  /** The hardware addresses of `items`, in order. */
  function Macs(items: seq<(string, string)>): (macs: seq<string>)
    ensures |macs| == |items|
    ensures forall k :: 0 <= k < |items| ==> macs[k] == items[k].1
  {
    seq(|items|, k requires 0 <= k < |items| => items[k].1)
  }

  lemma MacsAppend(items: seq<(string, string)>, item: (string, string))
    ensures Macs(items + [item]) == Macs(items) + [item.1]
  {
  }

  /** An item is reported exactly when it was scanned and its hardware address is not trusted. */
  lemma {:induction false} UntrustedMembers(devices: Dict<string, string>, trusted: Dict<string, string>)
    ensures forall item :: item in Untrusted(devices, trusted) <==>
              item in devices && !IsTrusted(item.1, trusted)
  {
    if devices != [] {
      var init := devices[..|devices| - 1];
      UntrustedMembers(init, trusted);
      assert devices == init + [devices[|devices| - 1]];
    }
  }

  /** No notification names a trusted hardware address. */
  lemma AlertsOnlyUntrusted(devices: Dict<string, string>, trusted: Dict<string, string>)
    ensures forall mac :: mac in Macs(Untrusted(devices, trusted)) ==> !IsTrusted(mac, trusted)
  {
    var found := Untrusted(devices, trusted);
    UntrustedMembers(devices, trusted);
    forall mac | mac in Macs(found) ensures !IsTrusted(mac, trusted) {
      var k :| 0 <= k < |found| && Macs(found)[k] == mac;
      assert found[k] in found;
    }
  }

  /**
   * Filtering keeps scan order: the report for a scan split in two is the
   * report for the first part followed by the report for the second.
   */
  lemma {:induction false} UntrustedConcat(d1: Dict<string, string>, d2: Dict<string, string>, trusted: Dict<string, string>)
    ensures Untrusted(d1 + d2, trusted) == Untrusted(d1, trusted) + Untrusted(d2, trusted)
  {
    if d2 == [] {
      assert d1 + d2 == d1;
    } else {
      var init := d2[..|d2| - 1];
      UntrustedConcat(d1, init, trusted);
      assert (d1 + d2)[..|d1 + d2| - 1] == d1 + init;
    }
  }

  /** Nothing is reported exactly when every scanned hardware address is trusted. */
  lemma {:induction false} NothingUntrusted(devices: Dict<string, string>, trusted: Dict<string, string>)
    ensures Untrusted(devices, trusted) == [] <==>
              forall j :: 0 <= j < |devices| ==> IsTrusted(devices[j].1, trusted)
  {
    UntrustedMembers(devices, trusted);
    if Untrusted(devices, trusted) == [] {
      forall j | 0 <= j < |devices| ensures IsTrusted(devices[j].1, trusted) {
        assert devices[j] in devices;
      }
    } else {
      assert Untrusted(devices, trusted)[0] in Untrusted(devices, trusted);
    }
  }

  /**
   * The same, stated on the dict a scan produces: nothing is reported
   * exactly when every scanned address maps to a trusted hardware address.
   */
  lemma NothingUntrustedInScan(devices: Dict<string, string>, trusted: Dict<string, string>)
    requires UniqueKeys(devices)
    ensures Untrusted(devices, trusted) == [] <==>
              forall ip :: ip in ToMap(devices) ==> IsTrusted(ToMap(devices)[ip], trusted)
  {
    NothingUntrusted(devices, trusted);
    forall ip | ip in ToMap(devices)
      ensures exists j :: 0 <= j < |devices| && devices[j] == (ip, ToMap(devices)[ip])
    {
      var j := Find(devices, ip);
      LookupItem(devices, j);
    }
    forall j | 0 <= j < |devices|
      ensures devices[j].0 in ToMap(devices) && ToMap(devices)[devices[j].0] == devices[j].1
    {
      LookupItem(devices, j);
    }
  }

  /**
   * A sweep sends one notification per untrusted scanned item and none for
   * a trusted one: the count never exceeds the number of scanned items, and
   * equals it when no scanned hardware address is trusted.
   */
  lemma {:induction false} UntrustedCount(devices: Dict<string, string>, trusted: Dict<string, string>)
    ensures |Untrusted(devices, trusted)| <= |devices|
    ensures (forall j :: 0 <= j < |devices| ==> !IsTrusted(devices[j].1, trusted)) ==>
              Untrusted(devices, trusted) == devices
  {
    if devices != [] {
      var init := devices[..|devices| - 1];
      UntrustedCount(init, trusted);
      assert devices == init + [devices[|devices| - 1]];
    }
  }

  /** Positions of the scanned items whose hardware address is not trusted. */
  ghost function UntrustedPositions(devices: Dict<string, string>, trusted: Dict<string, string>): set<int>
  {
    set j | 0 <= j < |devices| && !IsTrusted(devices[j].1, trusted)
  }

  /**
   * A sweep sends exactly as many notifications as there are scanned items
   * whose hardware address is not trusted.
   */
  lemma {:induction false} AlertCountIsUntrustedCount(devices: Dict<string, string>, trusted: Dict<string, string>)
    ensures |Untrusted(devices, trusted)| == |UntrustedPositions(devices, trusted)|
  {
    if devices == [] {
      assert UntrustedPositions(devices, trusted) == {};
    } else {
      var n := |devices| - 1;
      var init := devices[..n];
      AlertCountIsUntrustedCount(init, trusted);
      var before := UntrustedPositions(init, trusted);
      assert n !in before;
      if IsTrusted(devices[n].1, trusted) {
        assert UntrustedPositions(devices, trusted) == before;
      } else {
        assert UntrustedPositions(devices, trusted) == before + {n};
      }
    }
  }

  /** Trusting more hardware addresses never makes a sweep send more notifications. */
  lemma {:induction false} MoreTrustFewerAlerts(devices: Dict<string, string>, trusted: Dict<string, string>, trusted': Dict<string, string>)
    requires forall mac :: IsTrusted(mac, trusted) ==> IsTrusted(mac, trusted')
    ensures |Untrusted(devices, trusted')| <= |Untrusted(devices, trusted)|
  {
    if devices != [] {
      MoreTrustFewerAlerts(devices[..|devices| - 1], trusted, trusted');
    }
  }

  /** `items` without those whose hardware address is `mac`, order kept. */
  function WithoutMac(items: seq<(string, string)>, mac: string): seq<(string, string)>
  {
    if items == [] then []
    else
      var earlier := WithoutMac(items[..|items| - 1], mac);
      if items[|items| - 1].1 == mac then earlier else earlier + [items[|items| - 1]]
  }

  /**
   * Once `mac` has been given an alias (`trusted[mac] = alias`), no later
   * report or notification names it, and every other item is reported as before.
   */
  lemma {:induction false} NamedDeviceNotReported(devices: Dict<string, string>, trusted: Dict<string, string>, mac: string, alias: string)
    ensures Untrusted(devices, Put(trusted, mac, alias)) == WithoutMac(Untrusted(devices, trusted), mac)
    ensures forall item :: item in Untrusted(devices, Put(trusted, mac, alias)) <==>
              item in Untrusted(devices, trusted) && item.1 != mac
  {
    if devices != [] {
      NamedDeviceNotReported(devices[..|devices| - 1], trusted, mac, alias);
      var item := devices[|devices| - 1];
      assert IsTrusted(item.1, Put(trusted, mac, alias)) <==> IsTrusted(item.1, trusted) || item.1 == mac;
    }
    UntrustedMembers(devices, trusted);
    UntrustedMembers(devices, Put(trusted, mac, alias));
  }

  /**
   * Membership is case-sensitive: a store that trusts the lower-case
   * spelling of a hardware address does not trust its upper-case spelling.
   */
  lemma CaseMatters()
    ensures Untrusted([("192.168.0.7", "AA:BB:CC:DD:EE:FF")], [("aa:bb:cc:dd:ee:ff", "Laptop")])
            == [("192.168.0.7", "AA:BB:CC:DD:EE:FF")]
  {
    var trusted := [("aa:bb:cc:dd:ee:ff", "Laptop")];
    assert Keys(trusted) == ["aa:bb:cc:dd:ee:ff"];
    assert "AA:BB:CC:DD:EE:FF"[0] != "aa:bb:cc:dd:ee:ff"[0];
  }
}
