/**
 * The `Network` object: one DHCP network's configuration, its static
 * reservations and its lease table, updated in place by `configure` and by
 * the allocation operations. Each method is proved to leave the object as
 * the matching function of `Allocation` or `LeaseTable` describes.
 *
 * Writing the lease file is recorded in the ghost trace `saves`; the clock
 * is the parameter `now`.
 */
module Dhcp {
  import opened Numbers
  import AddressRange
  import opened LeaseTable
  import Allocation

  /** The values `configure` installs. */
  datatype NetworkConfiguration = NetworkConfiguration(
    networkSpace: IpAddress,
    networkSize: bv8,
    routers: IpAddress,
    dhcpServerIdentifier: IpAddress,
    dhcpFirst: IpAddress,
    dhcpLast: IpAddress,
    dnsServers: seq<IpAddress>,
    leaseTime: uint32,
    renewalTime: uint32,
    rebindingTime: uint32,
    leaseFile: string,
    reservations: map<HwAddress, IpAddress>)

  /** One write of the lease file: the leases written, and the file's path. */
  datatype Save = Save(leases: seq<Lease>, path: string)

  /**
   * `list` holds the hardware index's leases, each exactly once. The order
   * is the map's iteration order, which the declaration of the map fixes;
   * Network.h is not part of this model, so any order is allowed.
   */
  ghost predicate ListsEveryLease(list: seq<Lease>, byHw: map<HwAddress, Lease>)
  {
    && (forall i :: 0 <= i < |list| ==> list[i].hwAddress in byHw && byHw[list[i].hwAddress] == list[i])
    && (forall hw :: hw in byHw ==> byHw[hw] in list)
    && (forall i, j :: 0 <= i < j < |list| ==> list[i].hwAddress != list[j].hwAddress)
  }

  /**
   * The lease-file trace after one `addLease`: unchanged when no lease file
   * is configured, otherwise one more write, to `path`, of all the leases.
   */
  ghost predicate Persisted(before: seq<Save>, after: seq<Save>, path: string, byHw: map<HwAddress, Lease>)
  {
    if path == "" then after == before
    else
      && |after| == |before| + 1
      && after[..|before|] == before
      && after[|before|].path == path
      && ListsEveryLease(after[|before|].leases, byHw)
  }

  /**
   * The inverse reservation index after `configure` has walked `reservations`
   * over `before`: every reserved address names a client reserving it (the
   * last one the walk visits), and entries for addresses no longer reserved
   * stay as they were.
   */
  ghost predicate InverseAfterConfigure(inverse: map<IpAddress, HwAddress>, before: map<IpAddress, HwAddress>, reservations: map<HwAddress, IpAddress>)
  {
    && (forall ip :: ip in inverse <==> ip in before || ip in reservations.Values)
    && (forall ip :: ip in before && ip !in reservations.Values ==> inverse[ip] == before[ip])
    && (forall hw :: hw in reservations ==>
          && reservations[hw] in inverse
          && inverse[reservations[hw]] in reservations
          && reservations[inverse[reservations[hw]]] == reservations[hw])
  }

  /** The first loop of `configure`: the leases filed one after another, later entries overwriting earlier ones. */
  method RebuildLeases(leases: seq<Lease>) returns (t: Table)
    ensures t == Rehydrate(leases)
    ensures KeysMatch(t)
  {
    t := EmptyTable;
    var i := 0;
    while i < |leases|
      invariant 0 <= i <= |leases|
      invariant t == Rehydrate(leases[..i])
      invariant KeysMatch(t)
    {
      assert leases[..i + 1][..i] == leases[..i];
      t := Table(t.byHw[leases[i].hwAddress := leases[i]], t.byIp[leases[i].ipAddress := leases[i]]);
      i := i + 1;
    }
    assert leases[..i] == leases;
  }

  /** Some client among `done` reserves `ip`. */
  ghost predicate ReservedAmong(reservations: map<HwAddress, IpAddress>, done: set<HwAddress>, ip: IpAddress)
  {
    exists hw :: hw in reservations && hw in done && reservations[hw] == ip
  }

  /**
   * The inverse index part-way through the second loop of `configure`: the
   * reservations of `done` have been entered over `before`.
   */
  ghost predicate InverseSoFar(inverse: map<IpAddress, HwAddress>, before: map<IpAddress, HwAddress>,
    reservations: map<HwAddress, IpAddress>, done: set<HwAddress>)
  {
    && done <= reservations.Keys
    && (forall ip :: ip in inverse <==> ip in before || ReservedAmong(reservations, done, ip))
    && (forall ip :: ip in before && !ReservedAmong(reservations, done, ip) ==> inverse[ip] == before[ip])
    && (forall hw :: hw in done ==>
          && reservations[hw] in inverse
          && inverse[reservations[hw]] in done
          && reservations[inverse[reservations[hw]]] == reservations[hw])
  }

  /** Entering the reservation of a pending client keeps `InverseSoFar`. */
  lemma InverseStep(inverse: map<IpAddress, HwAddress>, before: map<IpAddress, HwAddress>,
    reservations: map<HwAddress, IpAddress>, pending: set<HwAddress>, hw: HwAddress)
    requires pending <= reservations.Keys
    requires InverseSoFar(inverse, before, reservations, reservations.Keys - pending)
    requires hw in pending
    ensures InverseSoFar(inverse[reservations[hw] := hw], before, reservations, reservations.Keys - (pending - {hw}))
  {
    var done := reservations.Keys - pending;
    var inverse', done' := inverse[reservations[hw] := hw], done + {hw};
    assert reservations.Keys - (pending - {hw}) == done';
    forall ip
      ensures ReservedAmong(reservations, done', ip) <==> ReservedAmong(reservations, done, ip) || ip == reservations[hw]
    {
      if ip == reservations[hw] {
        assert hw in done' && reservations[hw] == ip;
      }
    }
    forall h | h in done'
      ensures && reservations[h] in inverse'
              && inverse'[reservations[h]] in done'
              && reservations[inverse'[reservations[h]]] == reservations[h]
    {
      if h != hw && reservations[h] != reservations[hw] {
        assert h in done;
      }
    }
  }

  /** Once every client is done, the inverse index is as `configure` leaves it. */
  lemma InverseDone(inverse: map<IpAddress, HwAddress>, before: map<IpAddress, HwAddress>, reservations: map<HwAddress, IpAddress>)
    requires InverseSoFar(inverse, before, reservations, reservations.Keys)
    ensures InverseAfterConfigure(inverse, before, reservations)
  {
    forall ip
      ensures ReservedAmong(reservations, reservations.Keys, ip) <==> ip in reservations.Values
    {
      if ip in reservations.Values {
        var hw :| hw in reservations && reservations[hw] == ip;
        assert hw in reservations.Keys;
      }
    }
  }

  /** The second loop of `configure`: each reservation, in the map's order, entered into the inverse index over what it held. */
  method AddInverseReservations(before: map<IpAddress, HwAddress>, reservations: map<HwAddress, IpAddress>)
    returns (inverse: map<IpAddress, HwAddress>)
    ensures InverseAfterConfigure(inverse, before, reservations)
  {
    inverse := before;
    var pending := reservations.Keys;
    while pending != {}
      invariant pending <= reservations.Keys
      invariant InverseSoFar(inverse, before, reservations, reservations.Keys - pending)
      decreases |pending|
    {
      var hw :| hw in pending;
      InverseStep(inverse, before, reservations, pending, hw);
      inverse := inverse[reservations[hw] := hw];
      pending := pending - {hw};
    }
    assert reservations.Keys - pending == reservations.Keys;
    InverseDone(inverse, before, reservations);
  }

  /**
   * The list part-way through the walk of `getAllLeases`: the entries of
   * the keys already visited, each once.
   */
  ghost predicate ListedSoFar(all: seq<Lease>, byHw: map<HwAddress, Lease>, pending: set<HwAddress>)
  {
    && pending <= byHw.Keys
    && (forall i :: 0 <= i < |all| ==> all[i].hwAddress in byHw && all[i].hwAddress !in pending && byHw[all[i].hwAddress] == all[i])
    && (forall hw :: hw in byHw && hw !in pending ==> byHw[hw] in all)
    && (forall i, j :: 0 <= i < j < |all| ==> all[i].hwAddress != all[j].hwAddress)
  }

  /** Appending the entry of a pending key keeps `ListedSoFar`. */
  lemma ListStep(all: seq<Lease>, byHw: map<HwAddress, Lease>, pending: set<HwAddress>, hw: HwAddress)
    requires forall k :: k in byHw ==> byHw[k].hwAddress == k
    requires ListedSoFar(all, byHw, pending)
    requires hw in pending
    ensures ListedSoFar(all + [byHw[hw]], byHw, pending - {hw})
  {
    var all' := all + [byHw[hw]];
    forall k | k in byHw && k !in pending - {hw}
      ensures byHw[k] in all'
    {
      if k != hw {
        assert byHw[k] in all;
      } else {
        assert all'[|all|] == byHw[k];
      }
    }
  }

  /** The walk of `getAllLeases` over the hardware index. */
  method ListLeases(byHw: map<HwAddress, Lease>) returns (all: seq<Lease>)
    requires forall hw :: hw in byHw ==> byHw[hw].hwAddress == hw
    ensures ListsEveryLease(all, byHw)
  {
    all := [];
    var pending := byHw.Keys;
    while pending != {}
      invariant ListedSoFar(all, byHw, pending)
      decreases |pending|
    {
      var hw :| hw in pending;
      ListStep(all, byHw, pending, hw);
      all := all + [byHw[hw]];
      pending := pending - {hw};
    }
  }

  class Network {
    var networkSpace: IpAddress
    var networkSize: bv8
    var routers: IpAddress
    var dhcpServerIdentifier: IpAddress
    var dhcpFirst: IpAddress
    var dhcpLast: IpAddress
    var dnsServers: seq<IpAddress>
    var leaseTime: uint32
    var renewalTime: uint32
    var rebindingTime: uint32
    var leaseFile: string
    var reservationByHw: map<HwAddress, IpAddress>
    var reservationByIp: map<IpAddress, HwAddress>
    var leasesByHw: map<HwAddress, Lease>
    var leasesByIp: map<IpAddress, Lease>
    /** Every lease-file write so far, oldest first. */
    ghost var saves: seq<Save>

    /** The lease table as a value. */
    function Leases(): Table
      reads this
    {
      Table(leasesByHw, leasesByIp)
    }

    /** The configuration allocation decisions read. */
    function Settings(): Allocation.Settings
      reads this
    {
      Allocation.Settings(networkSpace, networkSize, dhcpFirst, dhcpLast, leaseTime, reservationByHw, reservationByIp)
    }

    /** The installed configuration, read back from the fields. */
    function Parameters(): NetworkConfiguration
      reads this
    {
      NetworkConfiguration(networkSpace, networkSize, routers, dhcpServerIdentifier, dhcpFirst, dhcpLast,
        dnsServers, leaseTime, renewalTime, rebindingTime, leaseFile, reservationByHw)
    }

    ghost predicate Valid()
      reads this
    {
      Allocation.ValidSettings(Settings()) && KeysMatch(Leases())
    }

    /**
     * A network created and then configured: it starts with an empty inverse
     * reservation index and nothing written, and `configure` installs the
     * rest. The default member values of Network.h are not part of this
     * model, so there is no network here that has not been configured.
     */
    constructor (config: NetworkConfiguration, leases: seq<Lease>)
      requires AddressRange.ValidPrefixLength(config.networkSize) && config.dhcpLast != MaxUint32
      ensures Valid()
      ensures Parameters() == config
      ensures InverseAfterConfigure(reservationByIp, map[], config.reservations)
      ensures Leases() == Rehydrate(leases)
      ensures saves == []
    {
      reservationByIp := map[];
      saves := [];
      new;
      Configure(config, leases);
    }

    /**
     * `configure`: installs the configuration, rebuilds the lease table from
     * `leases`, and adds the inverse of the reservations to the inverse
     * index, which is not cleared first.
     */
    method Configure(config: NetworkConfiguration, leases: seq<Lease>)
      requires AddressRange.ValidPrefixLength(config.networkSize) && config.dhcpLast != MaxUint32
      modifies this
      ensures Valid()
      ensures Parameters() == config
      ensures InverseAfterConfigure(reservationByIp, old(reservationByIp), config.reservations)
      ensures Leases() == Rehydrate(leases)
      ensures saves == old(saves)
    {
      var table := RebuildLeases(leases);
      var inverse := AddInverseReservations(reservationByIp, config.reservations);
      Install(config, table, inverse);
    }

    /** Stores a configuration, a lease table and an inverse reservation index in the fields. */
    method Install(config: NetworkConfiguration, table: Table, inverse: map<IpAddress, HwAddress>)
      modifies this
      ensures Parameters() == config && Leases() == table && reservationByIp == inverse && saves == old(saves)
    {
      SetAddressPlan(config);
      SetOptions(config);
      SetTimers(config);
      SetTables(config, table, inverse);
    }

    /** The part of `configure` that installs the lease file, the reservations and the two lease indexes. */
    method SetTables(config: NetworkConfiguration, table: Table, inverse: map<IpAddress, HwAddress>)
      modifies this`leaseFile, this`reservationByHw, this`reservationByIp, this`leasesByHw, this`leasesByIp
      ensures leaseFile == config.leaseFile && reservationByHw == config.reservations && reservationByIp == inverse
      ensures Leases() == table
    {
      leaseFile := config.leaseFile;
      reservationByHw := config.reservations;
      reservationByIp := inverse;
      leasesByHw := table.byHw;
      leasesByIp := table.byIp;
    }

    /** The part of `configure` that installs the network and its dynamic pool. */
    method SetAddressPlan(config: NetworkConfiguration)
      modifies this`networkSpace, this`networkSize, this`dhcpFirst, this`dhcpLast
      ensures networkSpace == config.networkSpace && networkSize == config.networkSize
      ensures dhcpFirst == config.dhcpFirst && dhcpLast == config.dhcpLast
    {
      networkSpace := config.networkSpace;
      networkSize := config.networkSize;
      dhcpFirst := config.dhcpFirst;
      dhcpLast := config.dhcpLast;
    }

    /** The part of `configure` that installs the addresses handed to clients as options. */
    method SetOptions(config: NetworkConfiguration)
      modifies this`routers, this`dhcpServerIdentifier, this`dnsServers
      ensures routers == config.routers && dhcpServerIdentifier == config.dhcpServerIdentifier
      ensures dnsServers == config.dnsServers
    {
      routers := config.routers;
      dhcpServerIdentifier := config.dhcpServerIdentifier;
      dnsServers := config.dnsServers;
    }

    /** The part of `configure` that installs the lease timers. */
    method SetTimers(config: NetworkConfiguration)
      modifies this`leaseTime, this`renewalTime, this`rebindingTime
      ensures leaseTime == config.leaseTime && renewalTime == config.renewalTime
      ensures rebindingTime == config.rebindingTime
    {
      leaseTime := config.leaseTime;
      renewalTime := config.renewalTime;
      rebindingTime := config.rebindingTime;
    }

    /** `getAllLeases`: the leases in the hardware index, each once. */
    method GetAllLeases() returns (all: seq<Lease>)
      requires Valid()
      ensures ListsEveryLease(all, leasesByHw)
    {
      all := ListLeases(leasesByHw);
    }

    /**
     * `addLease`: files the lease `(hw, ip, now)` under both keys and, when
     * a lease file is configured, writes all leases to it.
     */
    method AddLease(hw: HwAddress, ip: IpAddress, now: int)
      requires Valid()
      modifies this`leasesByHw, this`leasesByIp, this`saves
      ensures Valid()
      ensures Leases() == LeaseTable.AddLease(old(Leases()), hw, ip, now)
      ensures Persisted(old(saves), saves, leaseFile, leasesByHw)
    {
      var lease := Lease(hw, ip, now);
      leasesByHw := leasesByHw[hw := lease];
      leasesByIp := leasesByIp[ip := lease];
      if leaseFile != "" {
        var all := GetAllLeases();
        saves := saves + [Save(all, leaseFile)];
      }
    }

    /** `removeLease(uint64)`. */
    method RemoveLeaseByHw(hw: HwAddress)
      requires Valid()
      modifies this`leasesByHw, this`leasesByIp
      ensures Valid()
      ensures Leases() == LeaseTable.RemoveLeaseByHw(old(Leases()), hw)
    {
      var lease := GetLeaseByHw(Leases(), hw);
      if !IsLeaseEntryValid(lease) {
        return;
      }
      var ip := lease.ipAddress;
      leasesByHw := leasesByHw - {hw};
      leasesByIp := leasesByIp - {ip};
    }

    /** `removeLease(uint32)`. */
    method RemoveLeaseByIp(ip: IpAddress)
      requires Valid()
      modifies this`leasesByHw, this`leasesByIp
      ensures Valid()
      ensures Leases() == LeaseTable.RemoveLeaseByIp(old(Leases()), ip)
    {
      var lease := GetLeaseByIp(Leases(), ip);
      if !IsLeaseEntryValid(lease) {
        return;
      }
      var hw := lease.hwAddress;
      leasesByIp := leasesByIp - {ip};
      leasesByHw := leasesByHw - {hw};
    }

    /**
     * `getAvailableAddress`, step by step: the address to offer and the
     * expired leases reclaimed on the way are those `Allocation` describes.
     */
    method GetAvailableAddress(hw: HwAddress, preferred: IpAddress, now: int) returns (ip: IpAddress)
      requires Valid()
      modifies this`leasesByHw, this`leasesByIp
      ensures Valid()
      ensures ip == Allocation.GetAvailableAddress(old(Settings()), old(Leases()), hw, preferred, now).ip
      ensures Leases() == Allocation.GetAvailableAddress(old(Settings()), old(Leases()), hw, preferred, now).leases
    {
      var fromConfig := hw in reservationByHw;
      var p := ReclaimPreference(hw, preferred, now);
      if !fromConfig {
        var lease := GetLeaseByHw(Leases(), hw);
        if IsLeaseEntryValid(lease) {
          if IsLeaseExpired(lease, now, leaseTime) {
            RemoveLeaseByHw(hw);
          } else {
            return lease.ipAddress;
          }
        }
      }

      if p != 0 {
        var lease := GetLeaseByIp(Leases(), p);
        if !IsLeaseEntryValid(lease) {
          return p;
        }
      }

      ip := ScanPool(now);
    }

    /**
     * The first steps of `getAvailableAddress`: the preference is sanitised
     * and an expired lease on it is reclaimed.
     */
    method ReclaimPreference(hw: HwAddress, preferred: IpAddress, now: int) returns (p: IpAddress)
      requires Valid()
      modifies this`leasesByHw, this`leasesByIp
      ensures Valid()
      ensures p == Allocation.SanitizedPreference(Settings(), hw, preferred)
      ensures Leases() == Allocation.ReclaimPreferred(old(Leases()), p, now, leaseTime)
    {
      p := preferred;
      if p > 0 && (p < dhcpFirst || dhcpLast < p) {
        p := 0;
      }
      if hw in reservationByHw {
        p := reservationByHw[hw];
      }
      if p != 0 {
        if !Allocation.IsIpAllowed(Settings(), p) || (p in reservationByIp && reservationByIp[p] != hw) {
          p := 0;
        } else {
          var lease := GetLeaseByIp(Leases(), p);
          if IsLeaseEntryValid(lease) && IsLeaseExpired(lease, now, leaseTime) {
            RemoveLeaseByIp(p);
          }
        }
      }
    }

    /**
     * The last step of `getAvailableAddress`: the first address of the pool
     * with no active lease and no static reservation, 0 when there is none.
     */
    method ScanPool(now: int) returns (ip: IpAddress)
      requires Valid()
      ensures ip == Allocation.FirstFree(Settings(), Leases(), now, dhcpFirst)
    {
      ip := dhcpFirst;
      while ip <= dhcpLast
        invariant Allocation.FirstFree(Settings(), Leases(), now, dhcpFirst) == Allocation.FirstFree(Settings(), Leases(), now, ip)
        decreases dhcpLast as int - ip as int
      {
        var lease := GetLeaseByIp(Leases(), ip);
        if (!IsLeaseEntryValid(lease) || IsLeaseExpired(lease, now, leaseTime)) && !Allocation.IsIpReservedInConfig(Settings(), ip) {
          return;
        }
        ip := ip + 1;
      }
      return 0;
    }

    /**
     * `reserveAddress`, step by step: the answer and the new lease table are
     * those `Allocation` describes, and a granted reservation writes the
     * lease file once when one is configured.
     */
    method ReserveAddress(hw: HwAddress, ip: IpAddress, now: int) returns (ok: bool)
      requires Valid()
      modifies this`leasesByHw, this`leasesByIp, this`saves
      ensures Valid()
      ensures ok == Allocation.ReserveAddress(old(Settings()), old(Leases()), hw, ip, now).ok
      ensures Leases() == Allocation.ReserveAddress(old(Settings()), old(Leases()), hw, ip, now).leases
      ensures ok ==> Persisted(old(saves), saves, leaseFile, leasesByHw)
      ensures !ok ==> saves == old(saves)
    {
      ghost var expected := Allocation.ReserveAddress(Settings(), Leases(), hw, ip, now);
      if !Allocation.IsIpAllowed(Settings(), ip) {
        return false;
      }
      if hw in reservationByHw && reservationByHw[hw] == ip {
        assert expected == Allocation.Reservation(true, LeaseTable.AddLease(Leases(), hw, ip, now));
        AddLease(hw, ip, now);
        return true;
      }
      var held := GetLeaseByIp(Leases(), ip);
      if !IsLeaseExpired(held, now, leaseTime) && held.hwAddress != hw {
        return false;
      }
      var own := GetLeaseByHw(Leases(), hw);
      if IsLeaseEntryValid(own) && own.ipAddress != ip {
        RemoveLeaseByHw(hw);
      }
      assert expected == Allocation.Reservation(true, LeaseTable.AddLease(Leases(), hw, ip, now));
      AddLease(hw, ip, now);
      return true;
    }

    /** `releaseAddress`. */
    method ReleaseAddress(ip: IpAddress)
      requires Valid()
      modifies this`leasesByHw, this`leasesByIp
      ensures Valid()
      ensures Leases() == Allocation.ReleaseAddress(old(Leases()), ip)
    {
      RemoveLeaseByIp(ip);
    }
  }
}
