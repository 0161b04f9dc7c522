/**
 * The state the bot's handlers read and change: the trusted-devices file
 * (a dict from hardware address to alias, absent until first written) and
 * one operator's session slot `user_data['mac_address']`, the hardware
 * address waiting for an alias. Replies name the message variant the bot
 * sends and what it lists; their wording is not modelled.
 */
module Guardian {
  import opened Wrappers
  import opened OrderedDict
  import opened PyString
  import opened Scan
  import opened Reconcile

  /** Reply to `/scan`. */
  datatype ScanReport =
    | NoUntrustedDevices
    | UntrustedDevices(devices: seq<(string, string)>)

  /** Reply to `/trusted`. */
  datatype TrustedListing =
    | NoTrustedDevices
    | TrustedDevices(entries: seq<(string, string)>)

  /** Reply to a text message that may name a hardware address. */
  datatype TrustRequestReply =
    | AlreadyTrusted(mac: string)
    | AskForAlias(mac: string)

  /** Reply to the message that carries the alias. */
  datatype TrustReply =
    | NowTrusted(mac: string, alias: string)
    | NoDeviceToTrust

  /** Python truthiness of the session value `user_data.get('mac_address')`. */
  predicate HasPendingMac(pending: Option<string>)
  {
    pending.Some? && pending.value != ""
  }

  class NetworkGuardian {
    /** The trusted-devices file: `None` while it does not exist. */
    var trustedFile: Option<Dict<string, string>>
    /** `user_data['mac_address']`: `None` while the session holds no address. */
    var pendingMac: Option<string>

    ghost predicate Valid()
      reads this
    {
      trustedFile.Some? ==> UniqueKeys(trustedFile.value)
    }

    constructor (file: Option<Dict<string, string>>)
      requires file.Some? ==> UniqueKeys(file.value)
      ensures Valid()
      ensures trustedFile == file && pendingMac == None
    {
      trustedFile := file;
      pendingMac := None;
    }

    /** `load_trusted_devices`: the file's dict, or an empty dict when there is no file. */
    function LoadTrustedDevices(): (d: Dict<string, string>)
      reads this
      ensures trustedFile.None? ==> d == []
      ensures trustedFile.Some? ==> d == trustedFile.value
      ensures Valid() ==> UniqueKeys(d)
    {
      match trustedFile
      case None => []
      case Some(stored) => stored
    }

    /** `save_trusted_devices`: overwrite the file; loading afterwards gives back `d`. */
    method SaveTrustedDevices(d: Dict<string, string>)
      requires UniqueKeys(d)
      modifies this`trustedFile
      ensures Valid()
      ensures trustedFile == Some(d)
      ensures LoadTrustedDevices() == d
    {
      trustedFile := Some(d);
    }

    /**
     * `manual_scan`: report the scanned items whose hardware address is not
     * trusted, in scan order, or say that there are none.
     */
    method ManualScan(answers: seq<ArpReply>) returns (report: ScanReport)
      requires Valid()
      ensures var found := Untrusted(Collected(answers), LoadTrustedDevices());
              report == if found == [] then NoUntrustedDevices else UntrustedDevices(found)
      ensures report.NoUntrustedDevices? <==>
                forall ip :: ip in ToMap(Collected(answers)) ==>
                  IsTrusted(ToMap(Collected(answers))[ip], LoadTrustedDevices())
    {
      var devices := CollectReplies(answers);
      var trusted := LoadTrustedDevices();
      var newDevices := [];
      for i := 0 to |devices|
        invariant newDevices == Untrusted(devices[..i], trusted)
      {
        assert devices[..i + 1][..i] == devices[..i];
        if !IsTrusted(devices[i].1, trusted) {
          newDevices := newDevices + [devices[i]];
        }
      }
      assert devices[..|devices|] == devices;
      if newDevices != [] {
        report := UntrustedDevices(newDevices);
      } else {
        report := NoUntrustedDevices;
      }
      NothingUntrustedInScan(devices, trusted);
    }

    /**
     * `notify_new_devices`: one notification, naming the hardware address,
     * for each scanned item whose hardware address is not trusted, in scan
     * order; none for a trusted one.
     */
    method NotifyNewDevices(answers: seq<ArpReply>) returns (alerts: seq<string>)
      requires Valid()
      ensures alerts == Macs(Untrusted(Collected(answers), LoadTrustedDevices()))
      ensures forall mac :: mac in alerts ==> !IsTrusted(mac, LoadTrustedDevices())
    {
      var devices := CollectReplies(answers);
      var trusted := LoadTrustedDevices();
      alerts := [];
      ghost var found := [];
      for i := 0 to |devices|
        invariant found == Untrusted(devices[..i], trusted)
        invariant alerts == Macs(found)
      {
        assert devices[..i + 1][..i] == devices[..i];
        if !IsTrusted(devices[i].1, trusted) {
          MacsAppend(found, devices[i]);
          found := found + [devices[i]];
          alerts := alerts + [devices[i].1];
        }
      }
      assert devices[..|devices|] == devices;
      AlertsOnlyUntrusted(devices, trusted);
    }

    /**
     * `list_trusted_devices`: every (hardware address, alias) entry of the
     * store in store order, or the explicit "no trusted devices" reply when
     * the store is empty.
     */
    method ListTrustedDevices() returns (listing: TrustedListing)
      requires Valid()
      ensures LoadTrustedDevices() == [] <==> listing == NoTrustedDevices
      ensures listing.TrustedDevices? ==> listing.entries == LoadTrustedDevices()
    {
      var trusted := LoadTrustedDevices();
      if trusted != [] {
        var entries := [];
        for i := 0 to |trusted|
          invariant entries == trusted[..i]
        {
          entries := entries + [trusted[i]];
        }
        listing := TrustedDevices(entries);
      } else {
        listing := NoTrustedDevices;
      }
    }

    /**
     * `handle_trust_request`: the stripped text is taken as a hardware
     * address, with no check of its format. If the store already has it as a
     * key, the bot says so and the session is left as it was; otherwise the
     * bot asks for an alias and the session now waits for one for this
     * address. The store is never changed.
     */
    method HandleTrustRequest(text: string) returns (reply: TrustRequestReply)
      requires Valid()
      modifies this`pendingMac
      ensures Valid()
      ensures trustedFile == old(trustedFile)
      ensures IsTrusted(Strip(text), LoadTrustedDevices()) ==>
                reply == AlreadyTrusted(Strip(text)) && pendingMac == old(pendingMac)
      ensures !IsTrusted(Strip(text), LoadTrustedDevices()) ==>
                reply == AskForAlias(Strip(text)) && pendingMac == Some(Strip(text))
    {
      var mac := Strip(text);
      var trusted := LoadTrustedDevices();
      if IsTrusted(mac, trusted) {
        reply := AlreadyTrusted(mac);
      } else {
        reply := AskForAlias(mac);
        pendingMac := Some(mac);
      }
    }

    /**
     * `trust_device`: if the session holds a (non-empty) hardware address,
     * the stripped text becomes its alias in the store, overwriting any
     * alias it had, and the store is saved; otherwise nothing is stored. In
     * both cases the session is cleared.
     */
    method TrustDevice(text: string) returns (reply: TrustReply)
      requires Valid()
      modifies this
      ensures Valid()
      ensures pendingMac == None
      ensures HasPendingMac(old(pendingMac)) ==>
                var mac := old(pendingMac).value;
                && reply == NowTrusted(mac, Strip(text))
                && trustedFile == Some(Put(old(LoadTrustedDevices()), mac, Strip(text)))
                && ToMap(LoadTrustedDevices()) == ToMap(old(LoadTrustedDevices()))[mac := Strip(text)]
      ensures !HasPendingMac(old(pendingMac)) ==>
                reply == NoDeviceToTrust && trustedFile == old(trustedFile)
    {
      var alias := Strip(text);
      if HasPendingMac(pendingMac) {
        var mac := pendingMac.value;
        var trusted := LoadTrustedDevices();
        PutValue(trusted, mac, alias);
        trusted := Put(trusted, mac, alias);
        SaveTrustedDevices(trusted);
        reply := NowTrusted(mac, alias);
      } else {
        reply := NoDeviceToTrust;
      }
      pendingMac := None;
    }
  }
}
