# tdhcpd address allocation, modelled in Dafny

This project models `Network`, the address-allocation engine of the tdhcpd
DHCP server (`Network.cpp`). A `Network` holds one network's configuration,
its static reservations (a forward map from hardware address to IP address
and an inverse map back), and a lease table kept as two maps: one keyed by
hardware address and one keyed by IP address. On that state it decides:

- which address to offer a client (`getAvailableAddress`);
- whether to commit a client to an address (`reserveAddress`);
- how leases are released, added and removed;
- how the table is rebuilt from a persisted lease list (`configure`).

The project has five modules:

- `Numbers` (`numbers.dfy`): the C++ `uint32_t` and `uint64_t` as bounded integer types.
- `AddressRange` (`address_range.dfy`): the mask, broadcast and allowed-address arithmetic on 32-bit bit patterns (`bv32`).
- `LeaseTable` (`lease_table.dfy`): leases and the two-map table as values, with lookups, insertion, both removals and the rebuild done by `configure`.
- `Allocation` (`allocation.dfy`): `getAvailableAddress`, `reserveAddress` and `releaseAddress` as functions from the configuration and the table to the answer and the new table.
- `Dhcp` (`network.dfy`): the class `Network` with the source's fields. Its methods update the maps in place, step by step as the C++ does. Each is proved to produce the answer and the new state that the matching `Allocation` or `LeaseTable` function describes.

The clock (`std::time`) is a parameter `now`. Each lease-file write is
recorded in a ghost trace `saves`.

Four properties one would expect of such an allocator do not hold of the
code. The model follows the code and proves each gap:

- The two lease indices need not mirror each other. `addLease` writes one entry in each map without evicting older ones, so the mirror breaks (`LeaseTable.AddLeaseCanBreakMirror`, `LeaseTable.RehydrateCanBreakMirror`). Mirroring is therefore the conditional predicate `Consistent`, not an invariant of the class.
- Two active leases can share an address. Two clients can end up holding active leases on one address (`Allocation.StaleEntryAllowsDoubleOccupancy`).
- An offered address need not pass `isIpAllowed`. The pool scan never consults it, so a pool that starts at the configured network space offers that address (`Allocation.ScanCanOfferNetworkAddress`).
- Reconfiguring does not replace the whole state. `configure` never clears the inverse reservation map: its entries for addresses no longer reserved survive (the `ensures` of `Dhcp.AddInverseReservations` and `Dhcp.Network.Configure`).

## Model

| member | source | states |
|---|---|---|
| AddressRange.NetMask | Network.cpp:290 | the first address bit is always a network bit, and the last address bit is one only for a /32 |
| AddressRange.MaskIsLeadingOnes | Network.cpp:290 | for every prefix length from 1 to 32, the mask `~0 << (32 - size)` is exactly `size` leading one bits followed by zeros |
| AddressRange.BroadcastAddress | Network.cpp:106-109 | the broadcast address (the space with every host bit set) lies in the network |
| AddressRange.IsIpAllowed | Network.cpp:288-294 | an allowed address never has a host part of all ones; when the configured space has no host bits set, an allowed address never has a host part of zero |
| AddressRange.NetworkBetweenBaseAndBroadcast | Network.cpp:288-294 | every address of the network contains all bits of the network base and none outside the broadcast address |
| AddressRange.SpaceNeverAllowed | Network.cpp:288-294 | for every space and prefix length, the configured space itself is never allowed |
| AddressRange.BroadcastNeverAllowed | Network.cpp:288-294 | for every space and prefix length, the broadcast address is never allowed |
| AddressRange.UnalignedSpaceAllowsBase | Network.cpp:288-294 | for every space and prefix length: when the configured space has host bits set, the network base passes the check |
| LeaseTable.IsLeaseEntryValid | Network.cpp:275-278 | the sentinel lease is never a valid entry |
| LeaseTable.IsLeaseExpired | Network.cpp:280-286 | the sentinel always counts as expired; a real lease is never expired at or before the moment it started |
| LeaseTable.ExpiryOverTime | Network.cpp:280-286 | a real lease is expired exactly when more than `leaseTime` seconds have passed since it started; once expired, a lease stays expired as the clock advances |
| LeaseTable.FreshLeaseIsActive | Network.cpp:296-302 | a lease started at a positive clock reading is valid and unexpired at that moment |
| LeaseTable.GetLeaseByHw | Network.cpp:139-146 | a hit returns the entry; a miss returns the sentinel, never an error; in a table with matching keys a valid result carries the key |
| LeaseTable.GetLeaseByIp | Network.cpp:148-155 | the same for the IP index |
| LeaseTable.AddLease | Network.cpp:296-302 | both lookups then find the lease `(hw, ip, now)`; each index gains at most that one key, and every other entry keeps its value |
| LeaseTable.RemoveLeaseByHw | Network.cpp:309-319 | a no-op when the client has no valid entry; otherwise exactly the client's key and the lease's IP key go, nothing else changes, and the client has no valid lease left |
| LeaseTable.RemoveLeaseByIp | Network.cpp:321-331 | a no-op when the address has no valid entry; otherwise exactly the address's key and the lease's client key go, nothing else changes, and the address has no valid lease left |
| LeaseTable.ConsistentHasNoDoubleOccupancy | Network.cpp:296-302 | a mirrored table never has two active leases on one address |
| LeaseTable.AddLeaseKeepsConsistent | Network.cpp:296-302 | adding a lease keeps the table consistent when neither the client nor the address has an entry for someone else |
| LeaseTable.AddLeaseCanBreakMirror | Network.cpp:296-302 | for every table: adding a lease for one client on an address that another client's entry holds leaves the table unmirrored |
| LeaseTable.RemoveLeaseByHwKeepsConsistent | Network.cpp:309-319 | removal by client keeps a consistent table consistent |
| LeaseTable.RemoveLeaseByIpKeepsConsistent | Network.cpp:321-331 | removal by address keeps a consistent table consistent |
| LeaseTable.RemoveLeaseByHwTakesOnlyItsLease | Network.cpp:309-319 | in a consistent table, removing an expired client lease takes out only expired entries |
| LeaseTable.RemoveLeaseByIpTakesOnlyItsLease | Network.cpp:321-331 | in a consistent table, removing an expired address lease takes out only expired entries |
| LeaseTable.RemoveUndoesAdd | Network.cpp:296-331 | for a fresh client and address, either removal undoes `addLease` exactly |
| LeaseTable.Rehydrate | Network.cpp:33-37 | every entry of the rebuilt table is filed under its own keys, and both lookups find the list's last lease for its client and its address |
| LeaseTable.RehydrateIndexesEveryLease | Network.cpp:33-37 | the rebuilt table has an entry for exactly the clients and the addresses the list mentions |
| LeaseTable.RehydrateDistinctHoldsEveryLease | Network.cpp:33-37 | a list naming each client once is filed with every lease under its client |
| LeaseTable.RehydrateDistinctIsConsistent | Network.cpp:33-37 | a list of real leases naming each client and each address once rebuilds a consistent table |
| LeaseTable.RehydrateCanBreakMirror | Network.cpp:33-37 | any two persisted leases of different clients on one address rebuild an unmirrored table |
| Allocation.IsIpReservedInConfig | Network.cpp:333-339 | true iff some client's static reservation is the address |
| Allocation.SanitizedPreference | Network.cpp:162-197 | a nonzero result is allowed and not inverse-reserved to another client; it is the client's reservation, or else the client's in-pool request; and each of these is kept whenever it passes both checks |
| Allocation.FirstFree | Network.cpp:224-233 | the least address of `[ip, dhcpLast]` with no active lease and no static reservation, or 0 when there is none |
| Allocation.ScanSkipsReservations | Network.cpp:228 | the scan never returns a nonzero statically reserved address |
| Allocation.ReclaimPreferred | Network.cpp:184-196 | reclaiming the preference only removes entries, and afterwards no lease sits on a nonzero expired preference |
| Allocation.GetAvailableAddress | Network.cpp:157-234 | the table only loses entries; the offer is the client's active lease (no reservation), or the sanitised preference with no lease on it, or the scan over the reclaimed table |
| Allocation.StickyLease | Network.cpp:199-214 | an unreserved client with an active lease is offered that lease's address and keeps the lease, whatever it asked for |
| Allocation.OfferReclaimsOnlyExpired | Network.cpp:157-234 | from a consistent table an offer leaves a consistent table, having removed only expired leases |
| Allocation.ReservationPrecedence | Network.cpp:172-176 | a client with a usable reservation and no active lease on it is offered the reserved address, whatever it requested |
| Allocation.ReservedAddressInUseNotOffered | Network.cpp:199-233 | a reserved address with an active lease is not offered, not even to the client reserving it |
| Allocation.PreferenceHonoured | Network.cpp:217-221 | a leaseless, unreserved client asking for a free, allowed pool address not reserved for anyone else gets it |
| Allocation.ScanStartsAtFreeFirst | Network.cpp:224-233 | a client with no reservation and no active lease, asking for nothing, is offered the first pool address when nothing holds or reserves it |
| Allocation.ScanCanOfferNetworkAddress | Network.cpp:224-229 | on every network whose pool starts at its configured space, a client with no reservation and no active lease, asking for nothing, is offered that space when nothing holds or reserves it, though `isIpAllowed` refuses it |
| Allocation.ReserveAddress | Network.cpp:236-268 | success iff the address is allowed and is the client's reservation or not actively held by another client; refusal leaves the table unchanged; success files `(hw, ip, now)` under both keys; other clients' entries in the hardware index keep their values; in the IP index only `ip` may change, and the only other entry that may go is the one at the client's old address, removed on the general path whoever holds it |
| Allocation.ReleaseAddress | Network.cpp:270-273 | release only removes entries, and afterwards the address has no valid lease |
| Allocation.ReserveKeepsConsistent | Network.cpp:236-268 | a reservation keeps a consistent table consistent when no other client has an entry on the address and, for the client's own static reservation, the client has no entry on another address |
| Allocation.ReleaseKeepsConsistent | Network.cpp:270-273 | a release keeps a consistent table consistent |
| Allocation.StaleEntryAllowsDoubleOccupancy | Network.cpp:309-319 | on any network whose pool starts at an allowed address, four calls leave two clients with active leases on one address |
| Dhcp.RebuildLeases | Network.cpp:33-37 | the loop builds exactly the table `Rehydrate` describes, every entry under its own key |
| Dhcp.AddInverseReservations | Network.cpp:39-42 | every reserved address names a client reserving it, and inverse entries of addresses no longer reserved survive |
| Dhcp.ListLeases | Network.cpp:131-137 | the list holds every entry of the hardware index exactly once |
| Dhcp.Network.constructor | Network.cpp:14-43 | a network created and configured: valid, holding the configuration, the table rebuilt from the lease list and exactly the inverse of the reservations, with nothing written |
| Dhcp.Network.Configure | Network.cpp:14-43 | the fields hold the new configuration, the table is the one rebuilt from the lease list, the inverse index is extended and never cleared, and nothing is written |
| Dhcp.Network.Install | Network.cpp:16-28 | every configured field holds the corresponding value |
| Dhcp.Network.SetAddressPlan | Network.cpp:16-21 | the network space, the prefix length and the pool bounds hold the configured values |
| Dhcp.Network.SetOptions | Network.cpp:18-22 | the routers, the server identifier and the DNS servers hold the configured values |
| Dhcp.Network.SetTimers | Network.cpp:23-25 | the lease, renewal and rebinding times hold the configured values |
| Dhcp.Network.SetTables | Network.cpp:26-37 | the lease file and the reservations hold the configured values, the inverse index the given one, and the two lease maps the rebuilt table |
| Dhcp.Network.GetAllLeases | Network.cpp:131-137 | the result lists every lease of the hardware index exactly once |
| Dhcp.Network.AddLease | Network.cpp:296-307 | the table is `LeaseTable.AddLease` of the old table; with a lease file configured, exactly one write of all leases to it is recorded, and none otherwise |
| Dhcp.Network.RemoveLeaseByHw | Network.cpp:309-319 | the table becomes `LeaseTable.RemoveLeaseByHw` of the old table |
| Dhcp.Network.RemoveLeaseByIp | Network.cpp:321-331 | the table becomes `LeaseTable.RemoveLeaseByIp` of the old table |
| Dhcp.Network.ReclaimPreference | Network.cpp:162-197 | the local preference ends as `SanitizedPreference`, and the table as `ReclaimPreferred` of the old one |
| Dhcp.Network.ScanPool | Network.cpp:224-233 | the loop returns `FirstFree` from `dhcpFirst` |
| Dhcp.Network.GetAvailableAddress | Network.cpp:157-234 | the answer and the new table are those of `Allocation.GetAvailableAddress` on the old state |
| Dhcp.Network.ReserveAddress | Network.cpp:236-268 | the answer and the new table are those of `Allocation.ReserveAddress`; a success records one lease-file write when a file is configured, and a refusal records none |
| Dhcp.Network.ReleaseAddress | Network.cpp:270-273 | the table becomes `Allocation.ReleaseAddress` of the old table |

## Left out

- Persistence: `Configuration::SavePersistentLeases` is not part of this model. Each call is a ghost `Save` record of the leases and the path. The file format and write failures are not modelled.
- Clock: `std::time(nullptr)` is the parameter `now`, and one `now` stands for every clock read of an operation. The source reads the clock afresh in each `isLeaseExpired` call (Network.cpp:285) and again in `addLease` (Network.cpp:299), so a model operation sees no time pass between two of its reads. The widths of `time_t` and of `Lease::startTime` come from Network.h, which is not part of this model, so times are unbounded integers.
- Iteration order: the map types are declared in Network.h, which is not part of this model. `getAllLeases` may list leases in any order. When two clients reserve one address, the inverse index may name either of them.
- Trivial accessors (Network.cpp:45-129): the setters and getters only store and return fields. They are not modelled as methods. `getBroadcastAddress` is modelled as `AddressRange.BroadcastAddress` on the field values.
- Exceptions: the `try`/`catch` in both `getLease` overloads is the C++ idiom for a map miss. It is modelled as a membership test that returns the sentinel.
- Prefix lengths outside 1 to 32: the shift `32 - networkSize` is undefined there, so `ValidPrefixLength` excludes them.
- `dhcpLast == 0xFFFFFFFF`: `ValidSettings` excludes it. With that last address the scan's bound `ip <= dhcpLast` always holds, so after 255.255.255.255 the counter wraps to 0.0.0.0 and the scan goes on. It then returns the first free address from 0.0.0.0 upwards, which is 0.0.0.0 itself or an address below `dhcpFirst`, and it never ends when no address at all is free. The model does not capture these outcomes.
- Unconfigured networks: the default member values come from Network.h, which is not part of this model. A network is created and configured in one step, by the constructor, so every method can assume a configured network.
- Signed shift: the source shifts the signed `~0`. It is modelled as the 32-bit pattern that results.
- Allocation.StickyLease: requires a consistent table. The source's sticky branch runs after the preference reclaim. In an unmirrored table, that reclaim can erase the client's own lease through a stale entry.
- Allocation.OfferReclaimsOnlyExpired: requires a consistent table. In an unmirrored table, a reclaim can erase another client's active entry, as `Allocation.StaleEntryAllowsDoubleOccupancy` shows.
- Dhcp.Network.Configure: requires a prefix length from 1 to 32 and `dhcpLast` below 0xFFFFFFFF. These are the configurations the other operations are defined for.
- Allocation.StaleEntryAllowsDoubleOccupancy: stated for every network satisfying `ScenarioNetwork` (the pool starts at an allowed address, nothing is statically reserved, and a lease lasts 1 to 198 seconds), not for one concrete network.
