# NetworkManager layer-3 configuration, URL check, P2P peer filter and compat active connection

A Dafny model of four small pieces of NetworkManager, with their properties proved.

- **Layer-3 configuration data** (`NML3ConfigData`, modules `L3Flags`, `KeyedList`,
  `L3ConfigData`, `L3Merge`).
  - A configuration is a value with four parts:
    - an interface index;
    - dat-flags;
    - a one-way `sealed` bit;
    - DNS data, plus one ordered collection of keyed objects per object type
      (IPv4/IPv6 addresses and routes).
  - Objects are inserted under the add-flag rules: append a new key; otherwise
    replace, MERGE, keep (EXCLUSIVE) or move to the end (APPEND_FORCE).
  - Dat-flags are assigned through a value/mask pair.
  - Lookups and counts dispatch on the address family.
  - `nm_l3_config_data_new_combined` folds sealed sources into a new sealed
    configuration. It honours the merge flags NO_ROUTES, NO_DEFAULT_ROUTES
    (overridden by the source's IGNORE dat-flag), NO_DNS and EXTERNAL, and the
    per-family default-route penalty.
  - The header is the only file of this component in the model;
    nm-l3-config-data.c is not part of this model. `NewCombined` therefore
    rests on these assumptions about the merge engine:
    - routes and addresses are inserted with MERGE;
    - EXTERNAL marks only addresses that were not present yet;
    - DNS lists are appended in order without duplicates;
    - the DNS priority of the first source that has one wins.
  - The DNS setters (`add_wins` … `set_dns_priority`, header lines 405-440)
    are bare declarations. Their duplicate rule (append only a missing
    value), their boolean result (whether the list grew, or the priority
    changed) and the flag they set are likewise assumptions of the model.
  - The object key, the MERGE combination, the default-route test, the
    application of a penalty and the external marking are parameters of the
    model (`ObjOps`, `MergeOps`). They are not invented.
- **systemd helpers** (module `SdUtils`): the HTTP(S) URL check used to validate
  connection properties, and the base64 character decoder with optional '='
  padding.
- **Wi-Fi P2P peers in libnm** (module `P2PPeer`):
  - the guard chain that decides whether a connection can be activated with a
    peer;
  - the order-preserving filter over a list of connections;
  - the "never seen" initial timestamp.
- **Legacy active connection** (module `CompatActiveConnection`):
  - the mapping of active-connection states to the old three-value encoding;
  - the service-name property;
  - the running index in the exported D-Bus object path.

`Common` holds `Option`, fixed-width integer types and the sequence helpers:
order-preserving filter and deduplicating append.

## Model

| member | source | states |
|---|---|---|
| L3Flags.HasDnsPriorityFlag | src/nm-l3-config-data.h:19-23 | the per-family selector is bit 1 for IPv4 and bit 2 for IPv6, and never overlaps the IGNORE_MERGE_NO_DEFAULT_ROUTES bit |
| L3Flags.AssignMasked | src/nm-l3-config-data.h:285-287 | every bit inside the mask takes its value from `flags`, every bit outside it keeps its current value |
| L3Flags.AssignMaskedUnique | src/nm-l3-config-data.h:285-287 | those two facts determine the result: any flag value agreeing with `flags` inside the mask and with the current value outside it is the assignment |
| L3Flags.SetBits | src/nm-l3-config-data.h:289-294 | assigning `f` under mask `f` turns every bit of `f` on and leaves every other bit unchanged |
| L3Flags.ClearBits | src/nm-l3-config-data.h:296-301 | assigning NONE under mask `f` turns every bit of `f` off and leaves every other bit unchanged |
| KeyedList.Add | src/nm-l3-config-data.h:27-44 | new key: appended at the end, length grows by one, all old entries in place; existing key with EXCLUSIVE: list unchanged, reports no change, returns the existing entry; existing key otherwise: that entry is replaced by the object (or its MERGE with the existing one), in place with every other entry unchanged, or under APPEND_FORCE moved to the last position with the others keeping their relative order; `changed` holds exactly when the list differs |
| KeyedList.AddKeys | src/nm-l3-config-data.h:30-43 | after an insertion the set of keys is the old set plus the object's key, and the returned entry carries the object's key |
| KeyedList.AddKeepsUniqueKeys | src/nm-l3-config-data.h:30-43 | an insertion never creates a second entry with an existing key |
| KeyedList.AddAtOwnPlace | src/nm-l3-config-data.h:40-43 | an object already stored where the rules would put it (and at the end under APPEND_FORCE) is left in place when no MERGE is asked for |
| KeyedList.AddTwiceIsAddOnce | src/nm-l3-config-data.h:30-43 | without MERGE, inserting the same object a second time leaves the list of the first insertion unchanged and reports no change |
| KeyedList.AddAllKeys | src/nm-l3-config-data.h:30-43 | inserting a sequence of objects yields exactly the old keys plus the keys of the sequence, still without duplicates |
| L3ConfigData.AddressType | src/nm-l3-config-data.h:223-230 | AF_INET selects the IPv4 address type, every other family the IPv6 one |
| L3ConfigData.RouteType | src/nm-l3-config-data.h:232-239 | AF_INET selects the IPv4 route type, every other family the IPv6 one |
| L3ConfigData.New | src/nm-l3-config-data.h:78-79 | a new configuration has the given ifindex, is unsealed, has no flags, no head entry for any type, zero objects of every type and empty DNS data |
| L3ConfigData.NewIsValid | src/nm-l3-config-data.h:127-138 | a new configuration for a positive ifindex satisfies the instance invariant (ifindex > 0, unique keys per collection) |
| L3ConfigData.Seal | src/nm-l3-config-data.h:82-82 | sealing sets the sealed bit and changes nothing else |
| L3ConfigData.Ref | src/nm-l3-config-data.h:80-80 | taking a reference yields the same configuration |
| L3ConfigData.RefAndSeal | src/nm-l3-config-data.h:81-81 | the result is sealed and otherwise identical to the input |
| L3ConfigData.SealIsIdempotentAndInvisible | src/nm-l3-config-data.h:80-91 | sealing twice equals sealing once, and sealing changes no read: ifindex, flags, head entries and object counts |
| L3ConfigData.NewClone | src/nm-l3-config-data.h:93-94 | the clone is unsealed, has the requested ifindex and the source's flags, DNS data and collections of every type |
| L3ConfigData.CloneThenSealRoundTrip | src/nm-l3-config-data.h:93-94 | cloning a sealed configuration for its own interface and sealing the clone gives back the original |
| L3ConfigData.LookupObjs | src/nm-l3-config-data.h:165-165 | no head entry exactly when the type has no collection, otherwise the collection |
| L3ConfigData.LookupAddresses | src/nm-l3-config-data.h:167-176 | AF_INET looks up the IPv4 addresses, AF_INET6 the IPv6 addresses |
| L3ConfigData.LookupRoutes | src/nm-l3-config-data.h:178-187 | AF_INET looks up the IPv4 routes, AF_INET6 the IPv6 routes |
| L3ConfigData.GetNumObjs | src/nm-l3-config-data.h:214-221 | 0 when there is no head entry for the type, otherwise the length of its collection |
| L3ConfigData.GetNumAddresses | src/nm-l3-config-data.h:223-230 | the IPv4 address count for AF_INET, the IPv6 address count for every other family |
| L3ConfigData.GetNumRoutes | src/nm-l3-config-data.h:232-239 | the IPv4 route count for AF_INET, the IPv6 route count for every other family |
| L3ConfigData.LookupObj | src/nm-l3-config-data.h:155-156 | an entry is found exactly when the needle's key is present in the collection of the needle's type, and the entry found is stored there with that key |
| L3ConfigData.LookupRoute | src/nm-l3-config-data.h:161-163 | an entry is found exactly when the needle's key is among the family's routes, and the entry found is such a route with that key |
| L3ConfigData.SetFlagsFull | src/nm-l3-config-data.h:285-287 | bits inside the mask take the value from `flags`, bits outside keep theirs, no other field changes |
| L3ConfigData.SetFlags | src/nm-l3-config-data.h:289-294 | equals set_flags_full(f, f): every bit of `f` is set afterwards and no other bit changes |
| L3ConfigData.UnsetFlags | src/nm-l3-config-data.h:296-301 | equals set_flags_full(NONE, f): every bit of `f` is clear afterwards and no other bit changes |
| L3ConfigData.AddAddressFull | src/nm-l3-config-data.h:308-313 | for an address object of the family, inserts into the address collection of the family by the add-flag rules and returns whether it changed and the stored entry; the other three collections, the route count, flags, DNS and ifindex are unchanged |
| L3ConfigData.AddAddress | src/nm-l3-config-data.h:315-327 | equals add_address_full with the MERGE add-flag: a new key is appended at the end, an existing entry is replaced in place by the MERGE of it and the object, which is also the entry returned |
| L3ConfigData.AddRouteFull | src/nm-l3-config-data.h:341-347 | for a route object of the family, inserts into the route collection of the family by the add-flag rules; the other collections, the address count, flags, DNS and ifindex are unchanged |
| L3ConfigData.AddRoute | src/nm-l3-config-data.h:349-362 | equals add_route_full with the MERGE add-flag: a new key is appended at the end of the family's routes, an existing route is replaced in place by the MERGE of it and the object |
| L3ConfigData.AddObjKeepsValid | src/nm-l3-config-data.h:308-313 | an add keeps the instance invariant, and the count of the type grows by one for a new key and stays for an existing one |
| L3ConfigData.AddNameserver | src/nm-l3-config-data.h:412-414 | the nameserver is present afterwards and the list holds exactly the old values plus it, old order kept at the front; a change is reported exactly when it was missing, and then the list is the old one with it appended once; without a change the configuration is untouched; the family's other lists and priority, the other family, WINS and NIS servers are always untouched |
| L3ConfigData.AddDomain | src/nm-l3-config-data.h:422-424 | the domains hold exactly the old ones plus the new one, old order kept at the front; a change is reported exactly when it was missing, and then it is appended once at the end; without a change the configuration is untouched; the family's other lists and priority, the other family, WINS and NIS servers are always untouched |
| L3ConfigData.AddSearch | src/nm-l3-config-data.h:430-432 | the same rule for search domains: appended once exactly when missing, otherwise nothing changes; every other DNS list and priority is untouched |
| L3ConfigData.AddDnsOption | src/nm-l3-config-data.h:434-436 | the same rule for DNS options: appended once exactly when missing, otherwise nothing changes; every other DNS list and priority is untouched |
| L3ConfigData.AddWins | src/nm-l3-config-data.h:405-406 | the WINS servers hold exactly the old ones plus the new one, old order kept at the front; a change is reported exactly when it was missing, and then it is appended once; without a change the configuration is untouched; the rest of the DNS data is always untouched |
| L3ConfigData.AddNisServer | src/nm-l3-config-data.h:416-417 | the same rule for NIS servers: appended once exactly when missing, otherwise nothing changes |
| L3ConfigData.SetDnsPriority | src/nm-l3-config-data.h:438-440 | the family's priority is stored and its HAS_DNS_PRIORITY flag is set, no other flag changes, and a change is reported unless that priority was already present; the family's lists, the other family, WINS and NIS servers, the collections and ifindex are untouched |
| L3ConfigData.DnsSettersIdempotent | src/nm-l3-config-data.h:405-440 | adding the same value a second time through any list setter, or setting the same DNS priority twice, reports no change and leaves the configuration as the first call left it |
| L3ConfigData.AddNameserversIsAppendAllUnique | src/nm-l3-config-data.h:412-414 | adding nameservers one call at a time gives the same list as the whole-list, duplicate-free append the merge uses, and a duplicate-free list stays duplicate-free |
| L3ConfigData.AddAddressThenLookup | src/nm-l3-config-data.h:308-313 | after adding an address, lookup_obj with that address finds an entry; in a valid configuration it is the entry the add returned |
| L3ConfigData.AddRouteThenLookup | src/nm-l3-config-data.h:341-347 | after adding a route, lookup_obj with that route finds an entry; in a valid configuration it is the entry the add returned |
| L3ConfigData.Equal | src/nm-l3-config-data.h:144-148 | `equal` holds exactly when `cmp` returns 0 |
| L3ConfigData.CloneIsEqual | src/nm-l3-config-data.h:93-94 | for any comparison that ranks each value equal to itself, a sealed configuration is `equal` to the seal of its clone for the same ifindex, in both argument orders |
| L3ConfigData.IsSealed | src/nm-l3-config-data.h:91-91 | true exactly when the configuration is sealed |
| L3ConfigData.GetIfindex | src/nm-l3-config-data.h:123-123 | the configuration's interface index |
| L3ConfigData.GetFlags | src/nm-l3-config-data.h:283-283 | the configuration's dat-flags |
| L3ConfigData.Valid | src/nm-l3-config-data.h:127-138 | a valid configuration has a positive ifindex (the assertion of NM_IS_L3_CONFIG_DATA) and no key twice in any collection |
| L3ConfigData.CloneEqualExactlyForSameIfindex | src/nm-l3-config-data.h:93-94 | under a comparison that returns 0 exactly on identical values, the sealed clone of a sealed configuration is `equal` to it exactly when the clone keeps the source's ifindex |
| L3Merge.RouteContribution | src/nm-l3-config-data.h:46-62 | a source with NO_ROUTES contributes no route; otherwise every contributed route is a penalized route of the source's family that is not a dropped default route, and every route that is not dropped is contributed with the family's penalty |
| L3Merge.IgnoreFlagOverridesNoDefaultRoutes | src/nm-l3-config-data.h:15-17 | with the IGNORE dat-flag on the source, every route of the source, including default routes, is contributed unless NO_ROUTES is set |
| L3Merge.NoDefaultRoutesExcludesDefaults | src/nm-l3-config-data.h:50-52 | under NO_DEFAULT_ROUTES without the IGNORE dat-flag, every contributed route comes from a route that is not a default route |
| L3Merge.AddAddressesKeys | src/nm-l3-config-data.h:46-62 | folding a source's addresses in (with EXTERNAL marking of new ones) yields exactly the old keys plus the source's address keys, still without duplicates |
| L3Merge.NoRoutesContributesNoRoutes | src/nm-l3-config-data.h:49-49 | a NO_ROUTES source leaves the route collections of the result unchanged |
| L3Merge.MergeDnsFamily | src/nm-l3-config-data.h:53-53 | each merged list of one family (nameservers, domains, searches, options) holds exactly the values of both sides and starts with the accumulated list unchanged; the priority is taken from the source only when none is present yet and the source has one |
| L3Merge.MergeDnsFamilyAppendsFresh | src/nm-l3-config-data.h:53-53 | each merged list is the accumulated list followed by the source's missing values, each once and in the source's order; a duplicate-free list stays duplicate-free |
| L3Merge.MergedDns | src/nm-l3-config-data.h:53-53 | both families merged by MergeDnsFamily; WINS and NIS servers hold exactly the values of both sides and start with the accumulated lists unchanged |
| L3Merge.MergedDnsAppendsFresh | src/nm-l3-config-data.h:53-53 | the merged WINS and NIS server lists are the accumulated lists followed by the source's missing values, each once and in the source's order, and stay duplicate-free |
| Common.AppendAllUniqueTail | src/nm-l3-config-data.h:53-53 | the duplicate-free append adds exactly the values of the second list missing from the first, without duplicates, each at its first occurrence's relative order |
| L3Merge.PenaltyUnionLayout | src/nm-l3-config-data.h:66-76 | element 0 of `default_route_penalty_x` is the IPv6 penalty and element 1 the IPv4 one; a family's penalty is the element indexed by IS_IPv4 |
| L3Merge.DropsDefaultRoutes | src/nm-l3-config-data.h:50-52 | NO_DEFAULT_ROUTES takes effect exactly when it is set and the source's dat-flags lack IGNORE_MERGE_NO_DEFAULT_ROUTES |
| L3Merge.MergedFlags | src/nm-l3-config-data.h:19-23 | the HAS_DNS_PRIORITY flags of the result are the union of both sides, and the IGNORE flag is the accumulated one |
| L3Merge.MergeOne | src/nm-l3-config-data.h:46-62 | one source folded in: ifindex kept and unsealed; each collection is its one-step update; a NO_DNS source changes neither DNS nor flags, any other one merges DNS and HAS_DNS_PRIORITY flags |
| L3Merge.MergeOneKeepsValid | src/nm-l3-config-data.h:136-136 | folding a source into a valid configuration keeps it valid |
| L3Merge.NewCombined | src/nm-l3-config-data.h:109-112 | the combination of sealed sources is sealed and has the requested ifindex |
| L3Merge.MergeAllEntries | src/nm-l3-config-data.h:109-112 | each collection of the combination depends only on that collection and on what the sources offer for its type |
| L3Merge.EntriesFoldKeys | src/nm-l3-config-data.h:109-112 | folding all sources into one collection yields the old keys plus every key offered, still without duplicates |
| L3Merge.MergeAllKeepsValid | src/nm-l3-config-data.h:109-112 | folding any number of sources keeps the instance invariant |
| L3Merge.CombinedKeys | src/nm-l3-config-data.h:109-112 | the keys of every collection of the combination are exactly those the sources offer (no route of a NO_ROUTES source, no dropped default route), and no key occurs twice |
| L3Merge.CombinedRouteOrigin | src/nm-l3-config-data.h:46-62 | every route of the combination has the key of a route some source contributes |
| L3Merge.MergeAllDns | src/nm-l3-config-data.h:109-112 | the DNS data and dat-flags of the combination are the DNS fold of the sources alone, independent of addresses and routes |
| L3Merge.DnsFoldNameservers | src/nm-l3-config-data.h:53-53 | the DNS fold holds the nameservers it started with plus those of every source without NO_DNS |
| L3Merge.CombinedNameservers | src/nm-l3-config-data.h:53-53 | the combination's nameservers of a family are exactly those of the sources without NO_DNS |
| L3Merge.FirstDnsPrioritySourceIsFirst | src/nm-l3-config-data.h:19-23 | the chosen source has no NO_DNS and has the family's priority flag, no earlier source qualifies, and None means no source does |
| L3Merge.DnsFoldKeepsPriority | src/nm-l3-config-data.h:19-23 | once a priority is present, later sources change neither the flag nor the priority |
| L3Merge.DnsFoldPriority | src/nm-l3-config-data.h:19-23 | starting without a priority, the fold has one exactly when some source qualifies, and it is the first qualifying source's priority |
| L3Merge.CombinedDnsPriorityFirstWins | src/nm-l3-config-data.h:109-112 | the combination has a DNS priority for a family exactly when some source without NO_DNS has one, and then it is that of the first such source |
| SdUtils.HttpsIsNotHttp | shared/systemd/nm-sd-utils-shared.c:108-113 | no URL starts with both scheme prefixes, so the two branches of the prefix check are exclusive |
| SdUtils.HttpUrlIsValid | shared/systemd/nm-sd-utils-shared.c:101-134 | true exactly when the URL is present, starts with "http://" or "https://", has something after the prefix, and has no byte of 128 or more; a NULL, empty, unprefixed, prefix-only or non-ASCII URL is rejected |
| SdUtils.UnBase64Char | shared/systemd/nm-sd-utils-shared.c:44-51 | '=' with padding accepted gives G_MAXINT; every other input gives the decoder's result; for a base64 decoder, G_MAXINT appears exactly in the padding case |
| P2PPeer.PeerInit | libnm/nm-p2p-peer.c:363-367 | a new peer has `last_seen` = -1, the documented "never seen" value, no hardware address and strength 0 |
| P2PPeer.ConnectionValid | libnm/nm-p2p-peer.c:247-278 | valid exactly when the connection setting exists, its type is the P2P setting name, the P2P setting exists, the peer has a hardware address and the setting's peer address is present and equal to it |
| P2PPeer.ValidForOneAddress | libnm/nm-p2p-peer.c:268-277 | two peers that both accept a connection have the same hardware address |
| P2PPeer.ValidityDependsOnAddressOnly | libnm/nm-p2p-peer.c:268-277 | peers with the same hardware address accept the same connections |
| P2PPeer.FilterConnections | libnm/nm-p2p-peer.c:302-317 | the result is a subsequence of the input (order kept) no longer than it; a connection is in it exactly when it is in the input and valid, and each valid connection occurs as often as in the input |
| Common.FilterIsSubsequence | libnm/nm-p2p-peer.c:309-314 | filtering only deletes elements and keeps the order of the rest |
| Common.FilterCounts | libnm/nm-p2p-peer.c:309-314 | filtering keeps every occurrence of a passing value and none of a failing one |
| CompatActiveConnection.NewStateToOld | src/compat/nm-compat-active-connection.c:76-92 | total, result in {0, 1, 2}; 1 exactly for ACTIVATING, 2 exactly for ACTIVATED, 0 exactly for every other state |
| CompatActiveConnection.NewStateToOldCollapsesOnlyUnknown | src/compat/nm-compat-active-connection.c:80-92 | two different states are reported alike only when both are reported as UNKNOWN |
| CompatActiveConnection.ServiceName | src/compat/nm-compat-active-connection.c:163-167 | the user-settings service exactly when the connection is tagged "user", the system-settings service otherwise |
| CompatActiveConnection.AsInt32 | src/compat/nm-compat-active-connection.c:129-129 | "%d" reads the guint32 index as a 32-bit int congruent to it modulo 2^32 |
| CompatActiveConnection.DecimalRoundTrip | src/compat/nm-compat-active-connection.c:129-129 | the rendered decimal digits parse back to the index |
| CompatActiveConnection.PathDirIsObjectPath | src/compat/nm-compat-active-connection.c:129-129 | the export directory is a valid D-Bus object path |
| CompatActiveConnection.Path | src/compat/nm-compat-active-connection.c:129-129 | the path of every index, rendered unsigned, is a valid D-Bus object path |
| CompatActiveConnection.PathInjective | src/compat/nm-compat-active-connection.c:129-129 | different indexes give different unsigned paths |
| CompatActiveConnection.PathAsWritten | src/compat/nm-compat-active-connection.c:129-129 | the "%d" path is the directory, '/', and the index's digits below 2^31, or '-' and the digits of 2^32 minus the index from 2^31 on |
| CompatActiveConnection.PathAsWrittenInjective | src/compat/nm-compat-active-connection.c:129-129 | different indexes give different "%d" paths |
| CompatActiveConnection.SignedDecimalInjective | src/compat/nm-compat-active-connection.c:129-129 | different ints render to different "%d" strings |
| CompatActiveConnection.PathAsWrittenValidBelowHalf | src/compat/nm-compat-active-connection.c:129-129 | the "%d" path is a valid D-Bus object path exactly when the index is below 2^31 |
| CompatActiveConnection.PathAsWrittenAgreesBelowHalf | src/compat/nm-compat-active-connection.c:129-129 | below 2^31 the "%d" path equals the unsigned one |
| CompatActiveConnection.PathAsWrittenInvalidFromHalf | src/compat/nm-compat-active-connection.c:129-129 | from 2^31 on, the "%d" path ends in '-' followed by 2^32 minus the index, and is not a valid D-Bus object path |
| CompatActiveConnection.NextIndex | src/compat/nm-compat-active-connection.c:113-113 | the static guint32 counter increments by one and wraps to 0 after 2^32 - 1 |
| CompatActiveConnection.NewCompatActiveConnection | src/compat/nm-compat-active-connection.c:108-134 | the object takes the current counter as its index and the "%d" path of it, which is a valid object path exactly when the counter is below 2^31; the counter advances by one with wrap-around |
| CompatActiveConnection.NewCompatActiveConnectionCorrected | src/compat/nm-compat-active-connection.c:108-134 | with the index rendered unsigned, the path is always a valid object path; index and counter as above |
| CompatActiveConnection.AdvanceIsModular | src/compat/nm-compat-active-connection.c:113-113 | after k constructions the counter is the start value plus k modulo 2^32 |
| CompatActiveConnection.AdvanceDistinct | src/compat/nm-compat-active-connection.c:113-113 | fewer than 2^32 constructions apart, the counter values differ |
| CompatActiveConnection.ConsecutivePathsDistinct | src/compat/nm-compat-active-connection.c:113-129 | objects constructed fewer than 2^32 constructions apart get different "%d" paths |
| CompatActiveConnection.ConsecutivePathsDistinctCorrected | src/compat/nm-compat-active-connection.c:113-129 | the same for the unsigned paths of the corrected constructor |
| CompatActiveConnection.PathsRepeatAfterWrap | src/compat/nm-compat-active-connection.c:113-129 | after 2^32 constructions the counter is back where it started, so paths repeat |

## Left out

- Reference counting, `unref` and the auto-unref macros (src/nm-l3-config-data.h:83-89) are not modelled. A configuration is a value, so `Ref` is the identity.
- L3ConfigData.Ref: reference counts are not modelled, so its contract says only that the same configuration comes back.
- The dedup multi-index (`get_multi_idx`, `lookup_index`) is not modelled. A collection is the sequence its head entry holds.
- `lookup_route_obj` is the same lookup as `LookupObj` with a route as needle. It has no separate member.
- `add_address_4/6` and `add_route_4/6` are not separate members. They are `AddAddress`/`AddRoute` with AF_INET or AF_INET6.
- Several behaviours are not visible in the header and are left uninterpreted or left out:
  - the best-default-route choice and `out_changed_best_default_route`;
  - the field order inside `cmp`;
  - how MERGE combines two objects;
  - how a penalty changes a metric;
  - `add_dependent_routes`.
- `new_from_connection` and `new_from_platform` are left out. They depend on the settings model and the netlink platform.
- The iterator macros and the `nmtst_*` test helpers are left out. They add no behaviour beyond `LookupObjs`, except `nmtst_l3_config_data_get_best_gateway` (src/nm-l3-config-data.h:442-453): it reads the gateway of the best default route, and that choice is left out above.
- L3ConfigData.Valid: it does not state that every entry of a collection has that collection's object type. Whether MERGE, the penalty and the external marking keep an object's type is not visible in the header. Only the key is assumed to survive MERGE and the external marking (`MergeKeepsKey`, `MarkKeepsKey`).
- The remaining setters and getters are left out: `set_source`, `set_mdns`, `set_llmnr`, route-table sync, metered, MTU and `set_nis_domain`. They hold single values the rest of the model never reads. The DNS list getters are the fields of `Dns`.
- L3ConfigData.AddNameserver, AddDomain, AddSearch, AddDnsOption, AddWins, AddNisServer, SetDnsPriority: their duplicate and change rules are assumptions, because nm-l3-config-data.c is not part of this model.
- L3Merge.NewCombined: nm-l3-config-data.c is not part of this model, so the merge engine follows the assumptions listed above. Its own contract states only seal and ifindex; what the result contains is stated by the `Combined*` lemmas.
- KeyedList.Add: when the key exists and both EXCLUSIVE and APPEND_FORCE are set, EXCLUSIVE wins and the entry stays in place. Header lines 36-42 describe each flag alone and do not settle this combination.
- L3Merge.RouteContribution: the penalty is applied through the uninterpreted `penalize`, so "penalty added to the metric" and metric ordering are not stated.
- L3Merge.MergeDnsFamily: the NIS domain is not merged, because setting it is not part of the model.
- IP addresses (`in_addr_t`, `NMIPAddr`) are opaque values. Mutators require an unsealed configuration instead of modelling the C assertion.
- Two systemd pieces are left out:
  - the wrappers over systemd code that is not part of this model (`unbase64mem_full`, `dns_name_to_wire_format`, `dns_name_is_valid`, `hostname_is_valid`, the path helpers);
  - the debug cross-check of `nm_sd_http_url_is_valid` against systemd's `http_url_is_valid`.
- The URL is a sequence of non-NUL bytes, the characters before the C string's terminator.
- SdUtils.UnBase64Char: the C `char` argument is taken as a byte 0..255, and systemd's `unbase64char` is a parameter.
- P2PPeer.ConnectionValid: the value of NM_SETTING_P2P_WIRELESS_SETTING_NAME is taken to be "p2p-wireless", because its header is not part of this model. No proof depends on the value.
- GObject and D-Bus plumbing is left out: property getters other than the service name and state, signal re-emission, registration on the bus, class and instance setup, finalize.
- CompatActiveConnection.NewStateToOld: the parent's state is taken as one of the five named states. A raw number outside the enum cannot be expressed; the C default branch would map it to UNKNOWN as well.
- libnm-glib/nm-secret-agent.h declares types and virtual methods only, with no behaviour to model.

## Findings

| source | as written | input that shows it | evidently intended | confidence | as-written member | corrected member |
|---|---|---|---|---|---|---|
| src/compat/nm-compat-active-connection.c:129 | the guint32 index is formatted with "%d" | index 2147483648 (after 2^31 constructions) renders ".../ActiveConnection/-2147483648", and '-' is not allowed in a D-Bus object path | format the index unsigned ("%u"), so every index gives a valid, distinct path | not executed | CompatActiveConnection.NewCompatActiveConnection | CompatActiveConnection.NewCompatActiveConnectionCorrected |
