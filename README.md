# NetworkGuardian bot core, modelled in Dafny

NetworkGuardian is a chat bot that watches a local network. It broadcasts an
ARP request and collects the replies into a dict from IP address to hardware
(MAC) address. It then compares the hardware addresses against a whitelist of
trusted devices: a JSON file mapping each MAC address to an alias. The bot
answers `/scan` with the untrusted devices. It answers `/trusted` with the
whitelist. Every sweep, it sends one alert per untrusted device. Two
handlers are written for naming a device. `handle_trust_request` takes a
text as a MAC address and keeps it in the chat session. `trust_device` takes
a text as the alias and stores it under the pending address. How the chat
framework routes messages between the two, as registered, is noted under
"## Left out".

The model has these modules:

- `OrderedDict` (`ordered_dict.dfy`): Python's insertion-ordered `dict`, as a
  list of items whose keys are unique. `Put` is `d[k] = v`: an existing key
  keeps its position and gets the new value; a new key is appended. `ToMap` is
  the dict's mapping.
- `PyString` (`py_string.dfy`): `str.strip()`, using Python's set of
  whitespace characters.
- `Scan` (`scan.dfy`): the loop of `scan_network` that folds the ARP replies
  into the `devices` dict.
- `Reconcile` (`reconcile.dfy`): the filter shared by `manual_scan` and
  `notify_new_devices`. It keeps the scanned items whose MAC address is not a
  key of the store. The comparison is exact and case-sensitive.
- `Guardian` (`guardian.dfy`): the class `NetworkGuardian` with the state the
  handlers touch. `trustedFile` is the whitelist file (`None` while it does
  not exist). `pendingMac` is the session slot `user_data['mac_address']`. Its
  methods are the handlers: load and save, `/scan`, the periodic sweep,
  `/trusted`, and the two dialogue steps.

The model follows the code, including these behaviours:

- A store lookup is Python's `in` on dict keys. It is exact, so
  `"AA:BB:…"` and `"aa:bb:…"` are different devices.
- Trusting a MAC address that is already trusted overwrites its alias. There
  is no "already exists" outcome.
- The text of a trust request is not checked against any MAC address format.
- There is no remove operation.
- `trust_device` tests the session value for Python truthiness, so an empty
  pending address counts as no pending address.
- MAC addresses are not lower-cased or otherwise normalised before they are
  stored or compared.
- The subnet to probe is a hard-coded string; nothing derives it from the
  host's own address.

## Model

| member | source | states |
|---|---|---|
| `OrderedDict.Put` | bot.py:107 | `d[k] = v` keeps the key order when `k` is already a key and appends `k` otherwise; `(k, v)` is an item of the result |
| `OrderedDict.PutUnique` | bot.py:107 | assigning to a key keeps the dict's keys unique |
| `OrderedDict.PutSameKey` | bot.py:107 | after `d[k] = v`, `k` maps to `v`, whether or not it was present before |
| `OrderedDict.PutOtherKey` | bot.py:107 | after `d[k] = v`, every other key is present exactly when it was before, and keeps its value |
| `OrderedDict.PutValue` | bot.py:107 | the mapping after `d[k] = v` is the old mapping with `k` overwritten by `v`, and nothing else changed |
| `PyString.Strip` | bot.py:89 | `strip()` never lengthens the text |
| `PyString.StripSpec` | bot.py:103 | the stripped text is a contiguous piece of the input that neither starts nor ends with whitespace; everything cut off on either side is whitespace |
| `PyString.StripIdempotent` | bot.py:89 | stripping twice gives the same result as stripping once |
| `Scan.CollectReplies` | bot.py:27-37 | the collection loop computes exactly `Collected(answers)`, a dict with unique keys |
| `Scan.CollectedUnique` | bot.py:35-36 | the collected result never holds an IP address twice |
| `Scan.CollectedKeys` | bot.py:35-37 | the collected keys are the distinct responding IP addresses, in order of each address's first reply; an IP is a key exactly when some reply came from it |
| `Scan.CollectedLastWins` | bot.py:35-36 | an IP maps to the MAC address of the last reply from that IP; a later reply overwrites an earlier one |
| `Scan.FirstOccurrencesDistinct` | bot.py:35-36 | the first-occurrence order holds each responding address exactly once |
| `Reconcile.UntrustedMembers` | bot.py:63-65 | an item is reported exactly when it was scanned and its MAC address is not a key of the store |
| `Reconcile.UntrustedConcat` | bot.py:63-65 | the report keeps scan order: filtering a scan split in two gives the two reports one after the other |
| `Reconcile.NothingUntrusted` | bot.py:67-70 | the report is empty exactly when every scanned MAC address is trusted |
| `Reconcile.NothingUntrustedInScan` | bot.py:62-70 | the same, stated over the scan's IP-to-MAC mapping |
| `Reconcile.UntrustedCount` | bot.py:120-123 | a sweep sends no more alerts than there are scanned items, and sends one for every item when none is trusted |
| `Reconcile.AlertCountIsUntrustedCount` | bot.py:120-123 | the number of alerts a sweep sends equals the number of scanned entries whose MAC address is not trusted |
| `Reconcile.MoreTrustFewerAlerts` | bot.py:120-123 | enlarging the store never increases the number of alerts a sweep sends |
| `Reconcile.AlertsOnlyUntrusted` | bot.py:120-123 | no alert names a trusted MAC address |
| `Reconcile.NamedDeviceNotReported` | bot.py:107 | once a MAC address has an alias, the report and the sweep's alerts are the earlier ones with exactly the items carrying that MAC address removed, in the same order |
| `Reconcile.CaseMatters` | bot.py:64 | a store that trusts `aa:bb:cc:dd:ee:ff` still reports `AA:BB:CC:DD:EE:FF` |
| `Guardian.NetworkGuardian.LoadTrustedDevices` | bot.py:16-20 | with no file the store is the empty dict; otherwise it is the file's dict, whose keys are unique |
| `Guardian.NetworkGuardian.SaveTrustedDevices` | bot.py:22-24 | the file now holds `d`, and loading it gives back `d` |
| `Guardian.NetworkGuardian.ManualScan` | bot.py:58-72 | the reply lists exactly the untrusted scanned items, in scan order; the "no untrusted devices" reply is given exactly when every scanned address maps to a trusted MAC address |
| `Guardian.NetworkGuardian.NotifyNewDevices` | bot.py:116-123 | one alert per untrusted scanned item, carrying its MAC address, in scan order; none for trusted ones; no de-duplication |
| `Guardian.NetworkGuardian.ListTrustedDevices` | bot.py:75-85 | an empty store gives the explicit "no trusted devices" reply; otherwise one entry per store item, in store order |
| `Guardian.NetworkGuardian.HandleTrustRequest` | bot.py:88-98 | the store is never changed; a stripped text that is already a key leaves the session as it was; any other text becomes the pending address |
| `Guardian.NetworkGuardian.TrustDevice` | bot.py:101-113 | with a pending address, the store maps it to the stripped alias (overwriting any earlier alias) and every other entry is unchanged; without one, the store is unchanged; the session is empty afterwards |

## Left out

- Chat plumbing is not modelled: `start`, `help_command`, `invalid_command`, `main`, the handler registration, polling, and the 30-second repeating job (bot.py:40-55, bot.py:126-154). These are constant replies and framework wiring.
- Which handler receives a text message (bot.py:143-144) is decided by the chat framework, which is not part of this model. `HandleTrustRequest` and `TrustDevice` are separate transitions with no dispatcher between them. As registered, both handlers share the default group, and python-telegram-bot runs only the first handler in a group that matches a message. A plain-text message therefore reaches `handle_trust_request` first, including an alias meant for `trust_device`. So `trust_device` only receives commands that none of the four command handlers takes, such as `/x`, and `invalid_command` (bot.py:147) is never reached. The model does not show this end-to-end naming flow.
- The ARP probe, the `srp` network call and its one-second timeout (bot.py:29-33) are raw-socket I/O. The answered list is an input sequence of `ArpReply` values. The hard-coded subnet string involves no logic.
- Reading and writing JSON and its formatting (bot.py:18-19, bot.py:23-24) are replaced by the `trustedFile` field. The model assumes the file holds a dict from strings to strings. I/O and decoding errors are not modelled.
- The wording of replies and alerts is not modelled: the Spanish text, the emoji, and the `IP: …, MAC: …` and `MAC: …, Alias: …` line layout. Each reply is a datatype naming its variant and the items it lists. An alert carries only its MAC address.
- The model holds one operator's session. `user_data` is kept per user by the framework. The model's session has only the `mac_address` slot, which `clear()` empties.
- Environment and configuration loading, logging, `CHAT_ID` and async execution are not modelled.
- `Guardian.NetworkGuardian.LoadTrustedDevices`: a file whose JSON is not an object with string values (for example a list) is outside the model.
