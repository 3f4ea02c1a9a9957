/**
 * The lease table of `Network`: two maps holding the same leases, one keyed
 * by hardware address (`m_leasesByHw`) and one by IP address
 * (`m_leasesByIp`), as values, with the lookups, insertions and removals
 * that `Network` performs on them.
 *
 * The table does not keep its two indices in step by itself: `AddLease`
 * writes one entry in each map and leaves any older entry of the same client
 * or the same address in the other map. `Consistent` states the mirroring
 * of two views of one set of leases; the lemmas below say which operations
 * keep it and which break it.
 */
module LeaseTable {
  import opened Numbers

  /** A client's hardware (MAC) address, held in 64 bits. */
  type HwAddress = uint64
  /** An IPv4 address. */
  type IpAddress = uint32

  /** A lease; a start time of 0 marks the "no lease" sentinel. */
  datatype Lease = Lease(hwAddress: HwAddress, ipAddress: IpAddress, startTime: int)

  /** `m_invalidLease`, returned by a lookup that misses. */
  const InvalidLease: Lease := Lease(0, 0, 0)

  /** `isLeaseEntryValid`: a real lease, not the sentinel, which is never valid. */
  predicate IsLeaseEntryValid(lease: Lease): (valid: bool)
    ensures valid ==> lease != InvalidLease
  {
    lease.startTime != 0
  }

  /**
   * `isLeaseExpired`, with the clock reading passed in as `now`: the sentinel
   * counts as expired, and a real lease is never expired at or before the
   * moment it started.
   */
  predicate IsLeaseExpired(lease: Lease, now: int, leaseTime: uint32): (expired: bool)
    ensures !IsLeaseEntryValid(lease) ==> expired
    ensures IsLeaseEntryValid(lease) && now <= lease.startTime ==> !expired
  {
    !IsLeaseEntryValid(lease) || now - lease.startTime > leaseTime as int
  }

  /**
   * Expiry over time: a real lease is expired exactly when more than
   * `leaseTime` seconds have passed since it started, and once expired a
   * lease stays expired as the clock advances.
   */
  lemma ExpiryOverTime(lease: Lease, now: int, later: int, leaseTime: uint32)
    requires now <= later
    ensures IsLeaseEntryValid(lease) ==> (IsLeaseExpired(lease, now, leaseTime) <==> now - lease.startTime > leaseTime as int)
    ensures IsLeaseExpired(lease, now, leaseTime) ==> IsLeaseExpired(lease, later, leaseTime)
  {
  }

  /** A lease started at a positive clock reading is valid and not expired at that moment. */
  lemma FreshLeaseIsActive(hw: HwAddress, ip: IpAddress, now: int, leaseTime: uint32)
    requires now > 0
    ensures IsLeaseEntryValid(Lease(hw, ip, now))
    ensures !IsLeaseExpired(Lease(hw, ip, now), now, leaseTime)
  {
  }

  datatype Table = Table(byHw: map<HwAddress, Lease>, byIp: map<IpAddress, Lease>)

  const EmptyTable: Table := Table(map[], map[])

  /** Every entry is filed under its own lease's key. */
  ghost predicate KeysMatch(t: Table)
  {
    && (forall hw :: hw in t.byHw ==> t.byHw[hw].hwAddress == hw)
    && (forall ip :: ip in t.byIp ==> t.byIp[ip].ipAddress == ip)
  }

  /** Each index holds, under the lease's other key, the very same lease. */
  ghost predicate Mirrored(t: Table)
  {
    && (forall hw :: hw in t.byHw ==> t.byHw[hw].ipAddress in t.byIp && t.byIp[t.byHw[hw].ipAddress] == t.byHw[hw])
    && (forall ip :: ip in t.byIp ==> t.byIp[ip].hwAddress in t.byHw && t.byHw[t.byIp[ip].hwAddress] == t.byIp[ip])
  }

  /** No entry is the sentinel. */
  ghost predicate AllEntriesValid(t: Table)
  {
    && (forall hw :: hw in t.byHw ==> IsLeaseEntryValid(t.byHw[hw]))
    && (forall ip :: ip in t.byIp ==> IsLeaseEntryValid(t.byIp[ip]))
  }

  /** The two indices are two views of one set of real leases. */
  ghost predicate Consistent(t: Table)
  {
    KeysMatch(t) && Mirrored(t) && AllEntriesValid(t)
  }

  /** `r` is `t` with some entries taken out and none added or changed. */
  ghost predicate SubTable(r: Table, t: Table)
  {
    && (forall hw :: hw in r.byHw ==> hw in t.byHw && r.byHw[hw] == t.byHw[hw])
    && (forall ip :: ip in r.byIp ==> ip in t.byIp && r.byIp[ip] == t.byIp[ip])
  }

  /** No address is held by two clients whose leases are both valid and unexpired. */
  ghost predicate NoDoubleOccupancy(t: Table, now: int, leaseTime: uint32)
  {
    forall h1, h2 :: h1 in t.byHw && h2 in t.byHw && h1 != h2
      && !IsLeaseExpired(t.byHw[h1], now, leaseTime) && !IsLeaseExpired(t.byHw[h2], now, leaseTime)
      ==> t.byHw[h1].ipAddress != t.byHw[h2].ipAddress
  }

  /** `getLease(uint64)`: a miss yields the sentinel, never an error. */
  function GetLeaseByHw(t: Table, hw: HwAddress): (lease: Lease)
    ensures IsLeaseEntryValid(lease) ==> hw in t.byHw && t.byHw[hw] == lease
    ensures hw in t.byHw ==> lease == t.byHw[hw]
    ensures KeysMatch(t) && IsLeaseEntryValid(lease) ==> lease.hwAddress == hw
  {
    if hw in t.byHw then t.byHw[hw] else InvalidLease
  }

  /** `getLease(uint32)`: a miss yields the sentinel, never an error. */
  function GetLeaseByIp(t: Table, ip: IpAddress): (lease: Lease)
    ensures IsLeaseEntryValid(lease) ==> ip in t.byIp && t.byIp[ip] == lease
    ensures ip in t.byIp ==> lease == t.byIp[ip]
    ensures KeysMatch(t) && IsLeaseEntryValid(lease) ==> lease.ipAddress == ip
  {
    if ip in t.byIp then t.byIp[ip] else InvalidLease
  }

  /** Files `lease` under its hardware address and under its IP address. */
  function Put(t: Table, lease: Lease): Table
  {
    Table(t.byHw[lease.hwAddress := lease], t.byIp[lease.ipAddress := lease])
  }

  /**
   * `addLease`: both lookups find the lease `(hw, ip, now)`; each index gains
   * at most its one key, and every other entry is left as it was.
   */
  function AddLease(t: Table, hw: HwAddress, ip: IpAddress, now: int): (r: Table)
    ensures GetLeaseByHw(r, hw) == Lease(hw, ip, now) && GetLeaseByIp(r, ip) == Lease(hw, ip, now)
    ensures r.byHw.Keys == t.byHw.Keys + {hw} && r.byIp.Keys == t.byIp.Keys + {ip}
    ensures forall h :: h != hw && h in t.byHw ==> r.byHw[h] == t.byHw[h]
    ensures forall i :: i != ip && i in t.byIp ==> r.byIp[i] == t.byIp[i]
  {
    Put(t, Lease(hw, ip, now))
  }

  /**
   * `removeLease(uint64)`: nothing happens unless `hw` has a valid entry;
   * otherwise that entry goes, and so does the IP index's entry at the
   * lease's address, whoever it belongs to. Afterwards `hw` has no valid lease.
   */
  function RemoveLeaseByHw(t: Table, hw: HwAddress): (r: Table)
    ensures SubTable(r, t)
    ensures !IsLeaseEntryValid(GetLeaseByHw(r, hw))
    ensures !IsLeaseEntryValid(GetLeaseByHw(t, hw)) ==> r == t
    ensures IsLeaseEntryValid(GetLeaseByHw(t, hw)) ==>
      && r.byHw.Keys == t.byHw.Keys - {hw}
      && r.byIp.Keys == t.byIp.Keys - {t.byHw[hw].ipAddress}
  {
    var lease := GetLeaseByHw(t, hw);
    if !IsLeaseEntryValid(lease) then t
    else Table(t.byHw - {hw}, t.byIp - {lease.ipAddress})
  }

  /**
   * `removeLease(uint32)`: nothing happens unless `ip` has a valid entry;
   * otherwise that entry goes, and so does the hardware index's entry of the
   * lease's client, whatever address it now holds. Afterwards `ip` has no
   * valid lease.
   */
  function RemoveLeaseByIp(t: Table, ip: IpAddress): (r: Table)
    ensures SubTable(r, t)
    ensures !IsLeaseEntryValid(GetLeaseByIp(r, ip))
    ensures !IsLeaseEntryValid(GetLeaseByIp(t, ip)) ==> r == t
    ensures IsLeaseEntryValid(GetLeaseByIp(t, ip)) ==>
      && r.byIp.Keys == t.byIp.Keys - {ip}
      && r.byHw.Keys == t.byHw.Keys - {t.byIp[ip].hwAddress}
  {
    var lease := GetLeaseByIp(t, ip);
    if !IsLeaseEntryValid(lease) then t
    else Table(t.byHw - {lease.hwAddress}, t.byIp - {ip})
  }

  /** A consistent table never has two active leases on one address. */
  lemma ConsistentHasNoDoubleOccupancy(t: Table, now: int, leaseTime: uint32)
    requires Consistent(t)
    ensures NoDoubleOccupancy(t, now, leaseTime)
  {
    forall h1, h2 | h1 in t.byHw && h2 in t.byHw && h1 != h2
      ensures t.byHw[h1].ipAddress != t.byHw[h2].ipAddress
    {
      assert t.byHw[h1] == t.byIp[t.byHw[h1].ipAddress];
    }
  }

  /**
   * Adding a lease keeps the indices mirrored provided the client has no
   * entry on another address and the address has no entry of another client.
   */
  lemma AddLeaseKeepsConsistent(t: Table, hw: HwAddress, ip: IpAddress, now: int)
    requires Consistent(t)
    requires now != 0
    requires hw in t.byHw ==> t.byHw[hw].ipAddress == ip
    requires ip in t.byIp ==> t.byIp[ip].hwAddress == hw
    ensures Consistent(AddLease(t, hw, ip, now))
  {
    var r := AddLease(t, hw, ip, now);
    var lease := Lease(hw, ip, now);
    forall h | h in r.byHw
      ensures r.byHw[h].ipAddress in r.byIp && r.byIp[r.byHw[h].ipAddress] == r.byHw[h]
    {
      if h != hw {
        assert t.byHw[h] == t.byIp[t.byHw[h].ipAddress];
      }
    }
    forall i | i in r.byIp
      ensures r.byIp[i].hwAddress in r.byHw && r.byHw[r.byIp[i].hwAddress] == r.byIp[i]
    {
      if i != ip {
        assert t.byIp[i] == t.byHw[t.byIp[i].hwAddress];
      }
    }
  }

  /**
   * Adding a lease for a second client on an address whose lease the first
   * client's entry holds breaks the mirroring: the first client's entry
   * stays, and the address now files the second client's lease.
   */
  lemma AddLeaseCanBreakMirror(t: Table, h1: HwAddress, h2: HwAddress, ip: IpAddress, now: int)
    requires h1 != h2
    requires h1 in t.byHw && t.byHw[h1].hwAddress == h1 && t.byHw[h1].ipAddress == ip
    ensures !Mirrored(AddLease(t, h2, ip, now))
  {
    var r := AddLease(t, h2, ip, now);
    assert r.byHw[h1] == t.byHw[h1];
  }

  lemma RemoveLeaseByHwKeepsConsistent(t: Table, hw: HwAddress)
    requires Consistent(t)
    ensures Consistent(RemoveLeaseByHw(t, hw))
  {
    var lease := GetLeaseByHw(t, hw);
    if IsLeaseEntryValid(lease) {
      var r := RemoveLeaseByHw(t, hw);
      forall h | h in r.byHw
        ensures r.byHw[h].ipAddress in r.byIp
      {
        assert t.byHw[h] == t.byIp[t.byHw[h].ipAddress];
      }
      forall i | i in r.byIp
        ensures r.byIp[i].hwAddress in r.byHw
      {
        assert t.byIp[i] == t.byHw[t.byIp[i].hwAddress];
      }
    }
  }

  lemma RemoveLeaseByIpKeepsConsistent(t: Table, ip: IpAddress)
    requires Consistent(t)
    ensures Consistent(RemoveLeaseByIp(t, ip))
  {
    var lease := GetLeaseByIp(t, ip);
    if IsLeaseEntryValid(lease) {
      var r := RemoveLeaseByIp(t, ip);
      forall h | h in r.byHw
        ensures r.byHw[h].ipAddress in r.byIp
      {
        assert t.byHw[h] == t.byIp[t.byHw[h].ipAddress];
      }
      forall i | i in r.byIp
        ensures r.byIp[i].hwAddress in r.byHw
      {
        assert t.byIp[i] == t.byHw[t.byIp[i].hwAddress];
      }
    }
  }

  /** Every entry `t` has and `r` lacks was an expired lease. */
  ghost predicate RemovedOnlyExpired(r: Table, t: Table, now: int, leaseTime: uint32)
  {
    && (forall hw :: hw in t.byHw && hw !in r.byHw ==> IsLeaseExpired(t.byHw[hw], now, leaseTime))
    && (forall ip :: ip in t.byIp && ip !in r.byIp ==> IsLeaseExpired(t.byIp[ip], now, leaseTime))
  }

  /** In a consistent table, removal by address takes out that address's lease and nothing else. */
  lemma RemoveLeaseByIpTakesOnlyItsLease(t: Table, ip: IpAddress, now: int, leaseTime: uint32)
    requires Consistent(t)
    requires IsLeaseExpired(GetLeaseByIp(t, ip), now, leaseTime)
    ensures RemovedOnlyExpired(RemoveLeaseByIp(t, ip), t, now, leaseTime)
  {
    var lease := GetLeaseByIp(t, ip);
    if IsLeaseEntryValid(lease) {
      assert t.byHw[lease.hwAddress] == lease;
    }
  }

  /** In a consistent table, removal by client takes out that client's lease and nothing else. */
  lemma RemoveLeaseByHwTakesOnlyItsLease(t: Table, hw: HwAddress, now: int, leaseTime: uint32)
    requires Consistent(t)
    requires IsLeaseExpired(GetLeaseByHw(t, hw), now, leaseTime)
    ensures RemovedOnlyExpired(RemoveLeaseByHw(t, hw), t, now, leaseTime)
  {
    var lease := GetLeaseByHw(t, hw);
    if IsLeaseEntryValid(lease) {
      assert t.byIp[lease.ipAddress] == lease;
    }
  }

  lemma RemovedOnlyExpiredTransitive(r: Table, m: Table, t: Table, now: int, leaseTime: uint32)
    requires SubTable(m, t)
    requires RemovedOnlyExpired(r, m, now, leaseTime) && RemovedOnlyExpired(m, t, now, leaseTime)
    ensures RemovedOnlyExpired(r, t, now, leaseTime)
  {
  }

  /**
   * Removal undoes addition: a lease added for a client and an address that
   * had no entries is taken out again, from both indices, by either removal.
   */
  lemma RemoveUndoesAdd(t: Table, hw: HwAddress, ip: IpAddress, now: int)
    requires hw !in t.byHw && ip !in t.byIp
    requires now != 0
    ensures RemoveLeaseByHw(AddLease(t, hw, ip, now), hw) == t
    ensures RemoveLeaseByIp(AddLease(t, hw, ip, now), ip) == t
  {
    var a := AddLease(t, hw, ip, now);
    assert a.byHw - {hw} == t.byHw;
    assert a.byIp - {ip} == t.byIp;
  }

  /**
   * `configure`'s first loop: the leases filed one after another, later ones
   * overwriting. Every entry is filed under its own keys, and the last lease
   * of the list is what both lookups find for its client and its address.
   */
  function Rehydrate(leases: seq<Lease>): (t: Table)
    ensures KeysMatch(t)
    ensures leases != [] ==> var last := leases[|leases| - 1];
      GetLeaseByHw(t, last.hwAddress) == last && GetLeaseByIp(t, last.ipAddress) == last
  {
    if leases == [] then EmptyTable
    else Put(Rehydrate(leases[..|leases| - 1]), leases[|leases| - 1])
  }

  /**
   * The rebuilt table has an entry for exactly the clients and the
   * addresses the list mentions.
   */
  lemma {:induction false} RehydrateIndexesEveryLease(leases: seq<Lease>)
    ensures forall hw :: hw in Rehydrate(leases).byHw <==> exists i :: 0 <= i < |leases| && leases[i].hwAddress == hw
    ensures forall ip :: ip in Rehydrate(leases).byIp <==> exists i :: 0 <= i < |leases| && leases[i].ipAddress == ip
  {
    if leases != [] {
      var prefix := leases[..|leases| - 1];
      RehydrateIndexesEveryLease(prefix);
      assert forall i :: 0 <= i < |prefix| ==> prefix[i] == leases[i];
    }
  }

  /** A lease list naming every client once rebuilds a hardware index holding each of its leases under its client. */
  lemma {:induction false} RehydrateDistinctHoldsEveryLease(leases: seq<Lease>)
    requires forall i, j :: 0 <= i < j < |leases| ==> leases[i].hwAddress != leases[j].hwAddress
    ensures forall i :: 0 <= i < |leases| ==>
      leases[i].hwAddress in Rehydrate(leases).byHw && Rehydrate(leases).byHw[leases[i].hwAddress] == leases[i]
  {
    if leases != [] {
      var prefix := leases[..|leases| - 1];
      RehydrateDistinctHoldsEveryLease(prefix);
      forall i | 0 <= i < |leases|
        ensures leases[i].hwAddress in Rehydrate(leases).byHw && Rehydrate(leases).byHw[leases[i].hwAddress] == leases[i]
      {
        if i < |leases| - 1 {
          assert prefix[i] == leases[i];
        }
      }
    }
  }

  /**
   * A lease list naming every client once and every address once rebuilds a
   * consistent table, when none is the sentinel.
   */
  lemma {:induction false} RehydrateDistinctIsConsistent(leases: seq<Lease>)
    requires forall i, j :: 0 <= i < j < |leases| ==> leases[i].hwAddress != leases[j].hwAddress
    requires forall i, j :: 0 <= i < j < |leases| ==> leases[i].ipAddress != leases[j].ipAddress
    requires forall i :: 0 <= i < |leases| ==> IsLeaseEntryValid(leases[i])
    ensures Consistent(Rehydrate(leases))
  {
    if leases != [] {
      var prefix := leases[..|leases| - 1];
      var last := leases[|leases| - 1];
      RehydrateDistinctIsConsistent(prefix);
      RehydrateIndexesEveryLease(prefix);
      forall i | 0 <= i < |prefix|
        ensures prefix[i].hwAddress != last.hwAddress && prefix[i].ipAddress != last.ipAddress
      {
        assert prefix[i] == leases[i];
      }
      var t := Rehydrate(prefix);
      AddLeaseKeepsConsistent(t, last.hwAddress, last.ipAddress, last.startTime);
      assert Put(t, last) == AddLease(t, last.hwAddress, last.ipAddress, last.startTime);
    }
  }

  /** Two persisted leases of different clients on one address rebuild a table that is not mirrored. */
  lemma RehydrateCanBreakMirror(a: Lease, b: Lease)
    requires a.ipAddress == b.ipAddress && a.hwAddress != b.hwAddress
    ensures !Mirrored(Rehydrate([a, b]))
  {
    assert [a, b][..1] == [a];
    AddLeaseCanBreakMirror(Rehydrate([a]), a.hwAddress, b.hwAddress, a.ipAddress, b.startTime);
    assert Rehydrate([a, b]) == AddLease(Rehydrate([a]), b.hwAddress, b.ipAddress, b.startTime);
  }
}
