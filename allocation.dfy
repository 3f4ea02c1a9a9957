/**
 * The address-allocation decisions of `Network` as functions over the
 * configuration and the lease table: which address to offer a client
 * (`getAvailableAddress`) and whether to commit a client to an address
 * (`reserveAddress`). Each returns the lease table as the source leaves it.
 */
module Allocation {
  import opened Numbers
  import AddressRange
  import opened LeaseTable

  /** The part of a network's configuration that allocation reads. */
  datatype Settings = Settings(
    networkSpace: IpAddress,
    networkSize: bv8,
    dhcpFirst: IpAddress,
    dhcpLast: IpAddress,
    leaseTime: uint32,
    reservationByHw: map<HwAddress, IpAddress>,
    reservationByIp: map<IpAddress, HwAddress>)

  /**
   * The prefix length is one the mask computation is defined for, and the
   * pool does not end at 255.255.255.255. With that last address the scan's
   * bound is always met: its counter wraps to 0.0.0.0 and the scan goes on
   * below the pool, and it never ends when no address at all is free.
   */
  predicate ValidSettings(s: Settings)
  {
    AddressRange.ValidPrefixLength(s.networkSize) && s.dhcpLast != MaxUint32
  }

  /** `isIpAllowed` on this network: inside it, and neither its configured space value nor its broadcast address. */
  predicate IsIpAllowed(s: Settings, ip: IpAddress)
    requires ValidSettings(s)
  {
    AddressRange.IsIpAllowed(s.networkSpace as bv32, s.networkSize, ip as bv32)
  }

  /** `isIpReservedInConfig`: some client's static reservation is `ip`. */
  function IsIpReservedInConfig(s: Settings, ip: IpAddress): (r: bool)
    ensures r <==> exists hw :: hw in s.reservationByHw && s.reservationByHw[hw] == ip
  {
    ip in s.reservationByHw.Values
  }

  /** The inverse reservation index assigns `ip` to a client other than `hw`. */
  predicate ReservedForOther(s: Settings, hw: HwAddress, ip: IpAddress)
  {
    ip in s.reservationByIp && s.reservationByIp[ip] != hw
  }

  /**
   * The preference `getAvailableAddress` goes on with (0 for none): a
   * requested address outside the pool is dropped; a static reservation
   * replaces whatever was requested and may lie outside the pool; the
   * result is dropped unless it is allowed on the network and not reserved
   * for another client.
   */
  function SanitizedPreference(s: Settings, hw: HwAddress, preferred: IpAddress): (p: IpAddress)
    requires ValidSettings(s)
    ensures p != 0 ==> IsIpAllowed(s, p) && !ReservedForOther(s, hw, p)
    ensures p != 0 && hw in s.reservationByHw ==> p == s.reservationByHw[hw]
    ensures p != 0 && hw !in s.reservationByHw ==> p == preferred && s.dhcpFirst <= p <= s.dhcpLast
    ensures hw in s.reservationByHw && IsIpAllowed(s, s.reservationByHw[hw]) && !ReservedForOther(s, hw, s.reservationByHw[hw])
      ==> p == s.reservationByHw[hw]
    ensures hw !in s.reservationByHw && s.dhcpFirst <= preferred <= s.dhcpLast
      && IsIpAllowed(s, preferred) && !ReservedForOther(s, hw, preferred)
      ==> p == preferred
  {
    var inPool := if preferred > 0 && (preferred < s.dhcpFirst || s.dhcpLast < preferred) then 0 else preferred;
    var chosen := if hw in s.reservationByHw then s.reservationByHw[hw] else inPool;
    if chosen != 0 && (!IsIpAllowed(s, chosen) || ReservedForOther(s, hw, chosen)) then 0 else chosen
  }

  /** An address the pool scan accepts: no active lease on it, and nobody's static reservation. */
  predicate ScanCandidate(s: Settings, t: Table, now: int, ip: IpAddress)
  {
    var lease := GetLeaseByIp(t, ip);
    (!IsLeaseEntryValid(lease) || IsLeaseExpired(lease, now, s.leaseTime)) && !IsIpReservedInConfig(s, ip)
  }

  /**
   * The pool scan from `ip` upwards: the lowest candidate in `[ip, dhcpLast]`,
   * or 0 when there is none. A candidate 0 (a pool starting at 0.0.0.0) is
   * indistinguishable from an exhausted pool.
   */
  function FirstFree(s: Settings, t: Table, now: int, ip: IpAddress): (r: IpAddress)
    requires ValidSettings(s)
    ensures (exists j :: ip <= j <= s.dhcpLast && ScanCandidate(s, t, now, j)) ==>
      && ip <= r <= s.dhcpLast
      && ScanCandidate(s, t, now, r)
      && (forall j :: ip <= j < r ==> !ScanCandidate(s, t, now, j))
    ensures (forall j :: ip <= j <= s.dhcpLast ==> !ScanCandidate(s, t, now, j)) ==> r == 0
    decreases s.dhcpLast as int + 1 - ip as int
  {
    if ip > s.dhcpLast then 0
    else if ScanCandidate(s, t, now, ip) then ip
    else FirstFree(s, t, now, ip + 1)
  }

  /** The scan never offers an address that is statically reserved for a client. */
  lemma ScanSkipsReservations(s: Settings, t: Table, now: int, ip: IpAddress, hw: HwAddress)
    requires ValidSettings(s)
    requires hw in s.reservationByHw
    requires s.reservationByHw[hw] != 0
    ensures FirstFree(s, t, now, ip) != s.reservationByHw[hw]
  {
  }

  /** A client's current lease, when it is one the server still honours. */
  predicate HasActiveLease(s: Settings, t: Table, hw: HwAddress, now: int)
  {
    IsLeaseEntryValid(GetLeaseByHw(t, hw)) && !IsLeaseExpired(GetLeaseByHw(t, hw), now, s.leaseTime)
  }

  datatype Offered = Offered(ip: IpAddress, leases: Table)

  /**
   * The first reclaim of `getAvailableAddress`: an expired lease on the
   * preference `p` is removed, after which no lease sits on `p`; nothing
   * else is touched.
   */
  function ReclaimPreferred(t: Table, p: IpAddress, now: int, leaseTime: uint32): (r: Table)
    ensures SubTable(r, t)
    ensures p != 0 && IsLeaseExpired(GetLeaseByIp(t, p), now, leaseTime) ==> !IsLeaseEntryValid(GetLeaseByIp(r, p))
    ensures !IsLeaseExpired(GetLeaseByIp(t, p), now, leaseTime) ==> r == t
  {
    var onPreferred := GetLeaseByIp(t, p);
    if p != 0 && IsLeaseEntryValid(onPreferred) && IsLeaseExpired(onPreferred, now, leaseTime)
    then RemoveLeaseByIp(t, p) else t
  }

  /**
   * `getAvailableAddress`: the address to offer `hw` (0 when the pool is
   * exhausted) and the lease table after the expired leases it reclaims on
   * the way. In order: the sanitised preference, whose expired lease is
   * reclaimed; an unreserved client's active lease, otherwise its expired
   * lease is reclaimed; the preference when no lease remains on it; the scan.
   */
  function GetAvailableAddress(s: Settings, t: Table, hw: HwAddress, preferred: IpAddress, now: int): (o: Offered)
    requires ValidSettings(s)
    ensures SubTable(o.leases, t)
    ensures
      || (hw !in s.reservationByHw && HasActiveLease(s, t, hw, now) && o.ip == GetLeaseByHw(t, hw).ipAddress)
      || (o.ip != 0 && o.ip == SanitizedPreference(s, hw, preferred) && !IsLeaseEntryValid(GetLeaseByIp(o.leases, o.ip)))
      || o.ip == FirstFree(s, o.leases, now, s.dhcpFirst)
  {
    var p := SanitizedPreference(s, hw, preferred);
    var fromConfig := hw in s.reservationByHw;
    var t1 := ReclaimPreferred(t, p, now, s.leaseTime);
    var own := GetLeaseByHw(t1, hw);
    if !fromConfig && IsLeaseEntryValid(own) && !IsLeaseExpired(own, now, s.leaseTime) then
      Offered(own.ipAddress, t1)
    else
      var t2 := if !fromConfig && IsLeaseEntryValid(own) then RemoveLeaseByHw(t1, hw) else t1;
      if p != 0 && !IsLeaseEntryValid(GetLeaseByIp(t2, p)) then Offered(p, t2)
      else Offered(FirstFree(s, t2, now, s.dhcpFirst), t2)
  }

  /**
   * Sticky leases: an unreserved client whose lease is active is offered
   * that lease's address again, and keeps the lease.
   */
  lemma StickyLease(s: Settings, t: Table, hw: HwAddress, preferred: IpAddress, now: int)
    requires ValidSettings(s)
    requires Consistent(t)
    requires hw !in s.reservationByHw
    requires HasActiveLease(s, t, hw, now)
    ensures GetAvailableAddress(s, t, hw, preferred, now).ip == GetLeaseByHw(t, hw).ipAddress
    ensures GetLeaseByHw(GetAvailableAddress(s, t, hw, preferred, now).leases, hw) == GetLeaseByHw(t, hw)
  {
    var p := SanitizedPreference(s, hw, preferred);
    var onPreferred := GetLeaseByIp(t, p);
    if p != 0 && IsLeaseEntryValid(onPreferred) && IsLeaseExpired(onPreferred, now, s.leaseTime) {
      assert onPreferred == t.byHw[onPreferred.hwAddress];
    }
  }

  /**
   * Offering only ever reclaims expired leases, and from a consistent table
   * it leaves a consistent one.
   */
  lemma OfferReclaimsOnlyExpired(s: Settings, t: Table, hw: HwAddress, preferred: IpAddress, now: int)
    requires ValidSettings(s)
    requires Consistent(t)
    ensures Consistent(GetAvailableAddress(s, t, hw, preferred, now).leases)
    ensures RemovedOnlyExpired(GetAvailableAddress(s, t, hw, preferred, now).leases, t, now, s.leaseTime)
  {
    var p := SanitizedPreference(s, hw, preferred);
    var onPreferred := GetLeaseByIp(t, p);
    var t1 := t;
    if p != 0 && IsLeaseEntryValid(onPreferred) && IsLeaseExpired(onPreferred, now, s.leaseTime) {
      t1 := RemoveLeaseByIp(t, p);
      RemoveLeaseByIpKeepsConsistent(t, p);
      RemoveLeaseByIpTakesOnlyItsLease(t, p, now, s.leaseTime);
    }
    var own := GetLeaseByHw(t1, hw);
    if hw !in s.reservationByHw && IsLeaseEntryValid(own) && IsLeaseExpired(own, now, s.leaseTime) {
      RemoveLeaseByHwKeepsConsistent(t1, hw);
      RemoveLeaseByHwTakesOnlyItsLease(t1, hw, now, s.leaseTime);
      RemovedOnlyExpiredTransitive(RemoveLeaseByHw(t1, hw), t1, t, now, s.leaseTime);
    }
  }

  /**
   * Reservation precedence: a client with a usable static reservation is
   * offered its reserved address whenever no active lease sits on it,
   * whatever it requested and whatever lease it holds elsewhere.
   */
  lemma ReservationPrecedence(s: Settings, t: Table, hw: HwAddress, preferred: IpAddress, now: int)
    requires ValidSettings(s)
    requires hw in s.reservationByHw
    requires s.reservationByHw[hw] != 0
    requires IsIpAllowed(s, s.reservationByHw[hw]) && !ReservedForOther(s, hw, s.reservationByHw[hw])
    requires IsLeaseExpired(GetLeaseByIp(t, s.reservationByHw[hw]), now, s.leaseTime)
    ensures GetAvailableAddress(s, t, hw, preferred, now).ip == s.reservationByHw[hw]
  {
    var reserved := s.reservationByHw[hw];
    assert SanitizedPreference(s, hw, preferred) == reserved;
  }

  /**
   * A reserved address with an active lease on it is never offered, not
   * even to the client it is reserved for and not even when that client
   * holds the lease: reserved clients skip the sticky step and the scan
   * skips every reserved address.
   */
  lemma ReservedAddressInUseNotOffered(s: Settings, t: Table, hw: HwAddress, preferred: IpAddress, now: int)
    requires ValidSettings(s)
    requires hw in s.reservationByHw
    requires s.reservationByHw[hw] != 0
    requires !IsLeaseExpired(GetLeaseByIp(t, s.reservationByHw[hw]), now, s.leaseTime)
    ensures GetAvailableAddress(s, t, hw, preferred, now).ip != s.reservationByHw[hw]
  {
    var o := GetAvailableAddress(s, t, hw, preferred, now);
    ScanSkipsReservations(s, o.leases, now, s.dhcpFirst, hw);
  }

  /**
   * A client without a lease that asks for a free address of the pool,
   * allowed and not reserved for anyone else, is offered it.
   */
  lemma PreferenceHonoured(s: Settings, t: Table, hw: HwAddress, preferred: IpAddress, now: int)
    requires ValidSettings(s)
    requires hw !in s.reservationByHw
    requires !IsLeaseEntryValid(GetLeaseByHw(t, hw))
    requires preferred != 0 && s.dhcpFirst <= preferred <= s.dhcpLast
    requires IsIpAllowed(s, preferred) && !ReservedForOther(s, hw, preferred)
    requires IsLeaseExpired(GetLeaseByIp(t, preferred), now, s.leaseTime)
    ensures GetAvailableAddress(s, t, hw, preferred, now).ip == preferred
  {
    assert SanitizedPreference(s, hw, preferred) == preferred;
    var t1 := ReclaimPreferred(t, preferred, now, s.leaseTime);
    assert !IsLeaseEntryValid(GetLeaseByHw(t1, hw));
  }

  /**
   * The scan does not consult `isIpAllowed`: when the pool starts at the
   * configured network space, which is never allowed, and nothing holds that
   * address, a client without a lease or a reservation asking for nothing is
   * offered it.
   */
  lemma ScanCanOfferNetworkAddress(s: Settings, t: Table, hw: HwAddress, now: int)
    requires ValidSettings(s)
    requires s.dhcpFirst == s.networkSpace <= s.dhcpLast
    requires !IsIpReservedInConfig(s, s.networkSpace)
    requires IsLeaseExpired(GetLeaseByIp(t, s.networkSpace), now, s.leaseTime)
    requires hw !in s.reservationByHw && !HasActiveLease(s, t, hw, now)
    ensures GetAvailableAddress(s, t, hw, 0, now).ip == s.networkSpace
    ensures !IsIpAllowed(s, s.networkSpace)
  {
    ScanStartsAtFreeFirst(s, t, hw, now);
    AddressRange.SpaceNeverAllowed(s.networkSpace as bv32, s.networkSize);
  }

  /** A client without a lease or a reservation asking for nothing is offered a free first address of the pool. */
  lemma ScanStartsAtFreeFirst(s: Settings, t: Table, hw: HwAddress, now: int)
    requires ValidSettings(s)
    requires s.dhcpFirst <= s.dhcpLast
    requires !IsIpReservedInConfig(s, s.dhcpFirst)
    requires IsLeaseExpired(GetLeaseByIp(t, s.dhcpFirst), now, s.leaseTime)
    requires hw !in s.reservationByHw && !HasActiveLease(s, t, hw, now)
    ensures GetAvailableAddress(s, t, hw, 0, now).ip == s.dhcpFirst
  {
    var t2 := GetAvailableAddress(s, t, hw, 0, now).leases;
    assert ScanCandidate(s, t2, now, s.dhcpFirst);
  }

  /** An active lease on `ip` that belongs to someone other than `hw`. */
  predicate HeldByOther(s: Settings, t: Table, hw: HwAddress, ip: IpAddress, now: int)
  {
    !IsLeaseExpired(GetLeaseByIp(t, ip), now, s.leaseTime) && GetLeaseByIp(t, ip).hwAddress != hw
  }

  /** `ip` is `hw`'s static reservation. */
  predicate ExactReservation(s: Settings, hw: HwAddress, ip: IpAddress)
  {
    hw in s.reservationByHw && s.reservationByHw[hw] == ip
  }

  datatype Reservation = Reservation(ok: bool, leases: Table)

  /**
   * `reserveAddress`: commits `hw` to `ip`, answering whether it did, with
   * the lease table afterwards. A disallowed address is refused; a client's
   * own static reservation is granted at once; otherwise an active lease of
   * another client refuses it, and a client moving to a new address gives
   * up its old lease first.
   */
  function ReserveAddress(s: Settings, t: Table, hw: HwAddress, ip: IpAddress, now: int): (c: Reservation)
    requires ValidSettings(s)
    ensures c.ok <==> IsIpAllowed(s, ip) && (ExactReservation(s, hw, ip) || !HeldByOther(s, t, hw, ip, now))
    ensures !c.ok ==> c.leases == t
    ensures c.ok ==> GetLeaseByHw(c.leases, hw) == Lease(hw, ip, now) && GetLeaseByIp(c.leases, ip) == Lease(hw, ip, now)
    ensures forall h :: h != hw ==> (h in c.leases.byHw <==> h in t.byHw)
    ensures forall h :: h != hw && h in t.byHw ==> c.leases.byHw[h] == t.byHw[h]
    ensures c.ok && !ExactReservation(s, hw, ip) && IsLeaseEntryValid(GetLeaseByHw(t, hw))
      && GetLeaseByHw(t, hw).ipAddress != ip
      ==> GetLeaseByHw(t, hw).ipAddress !in c.leases.byIp
    ensures forall i :: i != ip && i in c.leases.byIp ==> i in t.byIp && c.leases.byIp[i] == t.byIp[i]
    ensures forall i :: i != ip && i in t.byIp && i !in c.leases.byIp ==>
      c.ok && !ExactReservation(s, hw, ip) && i == GetLeaseByHw(t, hw).ipAddress
  {
    if !IsIpAllowed(s, ip) then Reservation(false, t)
    else if ExactReservation(s, hw, ip) then Reservation(true, AddLease(t, hw, ip, now))
    else if HeldByOther(s, t, hw, ip, now) then Reservation(false, t)
    else
      var own := GetLeaseByHw(t, hw);
      var t1 := if IsLeaseEntryValid(own) && own.ipAddress != ip then RemoveLeaseByHw(t, hw) else t;
      Reservation(true, AddLease(t1, hw, ip, now))
  }

  /** `releaseAddress`: the lease on `ip` is dropped from both indices, if there is one. */
  function ReleaseAddress(t: Table, ip: IpAddress): (r: Table)
    ensures SubTable(r, t)
    ensures !IsLeaseEntryValid(GetLeaseByIp(r, ip))
  {
    RemoveLeaseByIp(t, ip)
  }

  /**
   * A reservation keeps a consistent table consistent when no other client
   * has an entry on the address and, for a client's own static reservation,
   * the client has no entry on another address.
   */
  lemma ReserveKeepsConsistent(s: Settings, t: Table, hw: HwAddress, ip: IpAddress, now: int)
    requires ValidSettings(s)
    requires Consistent(t)
    requires now != 0
    requires ip in t.byIp ==> t.byIp[ip].hwAddress == hw
    requires ExactReservation(s, hw, ip) && hw in t.byHw ==> t.byHw[hw].ipAddress == ip
    ensures Consistent(ReserveAddress(s, t, hw, ip, now).leases)
  {
    if IsIpAllowed(s, ip) {
      if ExactReservation(s, hw, ip) {
        AddLeaseKeepsConsistent(t, hw, ip, now);
      } else if !HeldByOther(s, t, hw, ip, now) {
        var own := GetLeaseByHw(t, hw);
        var t1 := if IsLeaseEntryValid(own) && own.ipAddress != ip then RemoveLeaseByHw(t, hw) else t;
        RemoveLeaseByHwKeepsConsistent(t, hw);
        if ip in t.byIp {
          assert t.byIp[ip] == t.byHw[hw];
        }
        AddLeaseKeepsConsistent(t1, hw, ip, now);
      }
    }
  }

  /** Releasing keeps a consistent table consistent. */
  lemma ReleaseKeepsConsistent(t: Table, ip: IpAddress)
    requires Consistent(t)
    ensures Consistent(ReleaseAddress(t, ip))
  {
    RemoveLeaseByIpKeepsConsistent(t, ip);
  }

  /**
   * A network on which the double-occupancy scenario below runs: the pool
   * starts at an allowed address `x`, nothing is statically reserved, and
   * a lease lasts at least one second and less than 199.
   */
  predicate ScenarioNetwork(s: Settings, x: IpAddress)
  {
    && ValidSettings(s)
    && IsIpAllowed(s, x)
    && s.dhcpFirst == x <= s.dhcpLast
    && 1 <= s.leaseTime < 199
    && s.reservationByHw == map[] && s.reservationByIp == map[]
  }

  /** Client 1 reserves `x` at time 1. */
  lemma ScenarioStepOne(s: Settings, x: IpAddress)
    requires ScenarioNetwork(s, x)
    ensures ReserveAddress(s, EmptyTable, 1, x, 1) == Reservation(true, Table(map[1 := Lease(1, x, 1)], map[x := Lease(1, x, 1)]))
  {
  }

  /** At time 200 client 1's lease has expired and client 2 reserves `x`; client 1's entry stays in the hardware index. */
  lemma ScenarioStepTwo(s: Settings, x: IpAddress)
    requires ScenarioNetwork(s, x)
    ensures ReserveAddress(s, Table(map[1 := Lease(1, x, 1)], map[x := Lease(1, x, 1)]), 2, x, 200)
      == Reservation(true, Table(map[1 := Lease(1, x, 1), 2 := Lease(2, x, 200)], map[x := Lease(2, x, 200)]))
  {
  }

  /**
   * At time 201 client 1 asks for an address: reclaiming its expired entry
   * erases the IP index's entry for `x`, which is client 2's, and the scan
   * offers `x`.
   */
  lemma ScenarioStepThree(s: Settings, x: IpAddress)
    requires ScenarioNetwork(s, x)
    ensures GetAvailableAddress(s, Table(map[1 := Lease(1, x, 1), 2 := Lease(2, x, 200)], map[x := Lease(2, x, 200)]), 1, 0, 201)
      == Offered(x, Table(map[2 := Lease(2, x, 200)], map[]))
  {
    var t := Table(map[1 := Lease(1, x, 1), 2 := Lease(2, x, 200)], map[x := Lease(2, x, 200)]);
    var reclaimed := Table(map[2 := Lease(2, x, 200)], map[]);
    assert RemoveLeaseByHw(t, 1) == reclaimed by {
      assert t.byHw - {1} == reclaimed.byHw;
      assert t.byIp - {x} == reclaimed.byIp;
    }
    assert ScanCandidate(s, reclaimed, 201, x);
  }

  /** Client 1 then reserves `x` again, while client 2's lease on it is still active. */
  lemma ScenarioStepFour(s: Settings, x: IpAddress)
    requires ScenarioNetwork(s, x)
    ensures ReserveAddress(s, Table(map[2 := Lease(2, x, 200)], map[]), 1, x, 201)
      == Reservation(true, Table(map[2 := Lease(2, x, 200), 1 := Lease(1, x, 201)], map[x := Lease(1, x, 201)]))
  {
  }

  /**
   * Two clients can end up holding active leases on one address, on any
   * network of `ScenarioNetwork`: the four steps above, composed.
   */
  lemma StaleEntryAllowsDoubleOccupancy(s: Settings, x: IpAddress)
    requires ScenarioNetwork(s, x)
    ensures var first := ReserveAddress(s, EmptyTable, 1, x, 1);
      var second := ReserveAddress(s, first.leases, 2, x, 200);
      var offer := GetAvailableAddress(s, second.leases, 1, 0, 201);
      var third := ReserveAddress(s, offer.leases, 1, offer.ip, 201);
      && first.ok && second.ok && offer.ip == x && third.ok
      && !NoDoubleOccupancy(third.leases, 201, s.leaseTime)
  {
    ScenarioStepOne(s, x);
    ScenarioStepTwo(s, x);
    ScenarioStepThree(s, x);
    ScenarioStepFour(s, x);
    var last := Table(map[2 := Lease(2, x, 200), 1 := Lease(1, x, 201)], map[x := Lease(1, x, 201)]);
    assert last.byHw[1].ipAddress == last.byHw[2].ipAddress;
  }
}
