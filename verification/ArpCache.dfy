/** The ARP cache and its mirror in the switching hardware (arp/server/arpCache.go, arp/server/arpActions.go).
  *
  * Calls to the hardware succeed; it overwrites on create and ignores the deletion of what it does not hold. Requests on the
  * wire, the database, events and the kernel's table are not part of this model.
  */
module ArpCaches {
  import opened Paths

  const INCOMPLETE: string := "incomplete"
  const MIN_CNT: int := 1
  const RETRY_CNT: int := 5
  const ONE_MIN_CNT: int := 60
  const THIRTY_SEC_CNT: int := 30

  // `fromRib` is the field Type: the entry is the next hop of some route.
  datatype ArpEntry = ArpEntry(mac: string, vlan: int, port: int, l3IfIdx: int, counter: int, fromRib: bool) {
    predicate Resolved() { mac != INCOMPLETE }
  }

  datatype HwEntry = HwEntry(mac: string, vlan: int)

  datatype Update = Update(port: int, ip: string, mac: string, fromRib: bool, vlan: int, l3IfIdx: int)

  datatype DeleteBy = ByPort(ifIdx: int) | ByVlan(ifIdx: int) | ByL3(ifIdx: int) {
    predicate Hits(e: ArpEntry) {
      match this
      case ByPort(i) => e.port == i
      case ByVlan(i) => e.vlan == i
      case ByL3(i) => e.l3IfIdx == i
    }
  }

  type Cache = map<string, ArpEntry>

  // ---------- ageing one entry ----------

  // What one tick of the timer leaves of an entry. The last branch drops an entry that stays unresolved.
  function Tick(e: ArpEntry, timeout: nat): Option<ArpEntry> {
    if e.counter <= MIN_CNT then
      if !e.fromRib then None else Some(e.(mac := INCOMPLETE, counter := timeout))
    else
      var d := e.(counter := e.counter - 1);
      if d.counter <= MIN_CNT + RETRY_CNT + 1 || d.counter == timeout / 2 || d.counter == timeout / 4
         || d.counter == ONE_MIN_CNT || d.counter == THIRTY_SEC_CNT then Some(d)
      else if d.counter <= timeout && d.counter > timeout - RETRY_CNT && !d.Resolved() then Some(d)
      else if d.Resolved() || d.fromRib then Some(d)
      else None
  }

  function Ticks(e: Option<ArpEntry>, n: nat, timeout: nat): Option<ArpEntry>
    decreases n
  {
    if n == 0 || e.None? then e else Ticks(Tick(e.value, timeout), n - 1, timeout)
  }

  // How many ticks a resolved entry has left: it goes with the tick after its counter reached the minimum.
  function Life(e: ArpEntry): nat { if e.counter <= 1 then 1 else e.counter }

  // A resolved dynamic entry that is not refreshed lives exactly that long.
  lemma {:induction false} ResolvedLife(e: ArpEntry, n: nat, timeout: nat)
    requires e.Resolved() && !e.fromRib
    ensures Ticks(Some(e), n, timeout).None? <==> n >= Life(e)
    decreases n
  {
    if n > 0 && e.counter > MIN_CNT { ResolvedLife(e.(counter := e.counter - 1), n - 1, timeout); }
  }

  // An unresolved dynamic entry just made gets four more requests and goes with the fifth tick.
  lemma {:induction false} UnresolvedLife(e: ArpEntry, n: nat, k: nat, timeout: nat)
    requires !e.Resolved() && !e.fromRib && timeout >= 300 && k < 5 && e.counter == timeout - k
    ensures Ticks(Some(e), n, timeout).None? <==> n >= 5 - k
    decreases n
  {
    if n > 0 {
      var d := e.(counter := e.counter - 1);
      assert d.counter > timeout / 2 && d.counter > ONE_MIN_CNT;
      if k + 1 < RETRY_CNT {
        UnresolvedLife(d, n - 1, k + 1, timeout);
      } else {
        assert Tick(e, timeout) == None;
      }
    }
  }

  // An entry of the RIB outlives any number of ticks, and stays the RIB's.
  lemma {:induction false} RibEntryStays(e: ArpEntry, n: nat, timeout: nat)
    requires e.fromRib
    ensures Ticks(Some(e), n, timeout).Some? && Ticks(Some(e), n, timeout).value.fromRib
    decreases n
  {
    if n > 0 { RibEntryStays(Tick(e, timeout).value, n - 1, timeout); }
  }

  // Resolved, it stays so exactly as long as a dynamic one lives, and then waits for an answer from the full counter on.
  lemma {:induction false} RibEntryExpires(e: ArpEntry, n: nat, timeout: nat)
    requires e.fromRib && e.Resolved()
    ensures var after := Ticks(Some(e), n, timeout);
            && after.Some? && (after.value.Resolved() <==> n < Life(e))
            && (n < Life(e) ==> after.value == e.(counter := e.counter - n))
            && (n == Life(e) ==> after.value == e.(mac := INCOMPLETE, counter := timeout))
    decreases n
  {
    if n > 0 {
      if e.counter > MIN_CNT {
        RibEntryExpires(e.(counter := e.counter - 1), n - 1, timeout);
      } else {
        StaysUnresolved(Tick(e, timeout).value, n - 1, timeout);
      }
    }
  }

  lemma {:induction false} StaysUnresolved(e: ArpEntry, n: nat, timeout: nat)
    requires e.fromRib && !e.Resolved()
    ensures Ticks(Some(e), n, timeout).Some? && !Ticks(Some(e), n, timeout).value.Resolved()
    decreases n
  {
    if n > 0 { StaysUnresolved(Tick(e, timeout).value, n - 1, timeout); }
  }

  // ---------- the cache and the hardware ----------

  function HwOf(cache: Cache): map<string, HwEntry> {
    map ip | ip in cache && cache[ip].Resolved() :: HwEntry(cache[ip].mac, cache[ip].vlan)
  }

  function TickAll(cache: Cache, timeout: nat): Cache {
    map ip | ip in cache && Tick(cache[ip], timeout).Some? :: Tick(cache[ip], timeout).value
  }

  // A tick takes out of the hardware exactly the entries whose counter has run out, whoever owns them.
  lemma HardwareAfterTick(cache: Cache, timeout: nat, ip: string)
    ensures ip in HwOf(TickAll(cache, timeout)) <==> ip in cache && cache[ip].Resolved() && cache[ip].counter > 1
    ensures ip in HwOf(TickAll(cache, timeout)) ==> HwOf(TickAll(cache, timeout))[ip] == HwOf(cache)[ip]
  {
  }

  // No entry the RIB owns is lost or given away.
  ghost predicate KeepsRib(before: Cache, after: Cache) {
    forall ip :: ip in before && before[ip].fromRib ==> ip in after && after[ip].fromRib
  }

  // The slice for bulk reads lists every entry, and no address twice.
  ghost predicate Lists(slice: seq<string>, cache: Cache) {
    (forall ip :: ip in cache ==> ip in slice) && forall i, j :: 0 <= i < j < |slice| ==> slice[i] != slice[j]
  }

  lemma StillLists(slice: seq<string>, cache: Cache, ip: string, e: ArpEntry)
    requires Lists(slice, cache)
    ensures Lists(slice, cache - {ip}) && (ip in slice ==> Lists(slice, cache[ip := e]))
    ensures ip !in slice ==> Lists(slice + [ip], cache[ip := e])
    ensures ip in cache ==> ip in slice
  {
  }

  lemma Stored(cache: Cache, ip: string, e: ArpEntry)
    ensures HwOf(cache[ip := e]) == if e.Resolved() then HwOf(cache)[ip := HwEntry(e.mac, e.vlan)] else HwOf(cache) - {ip}
    ensures HwOf(cache - {ip}) == HwOf(cache) - {ip}
    ensures ip in cache && e.mac == cache[ip].mac && e.vlan == cache[ip].vlan ==> HwOf(cache[ip := e]) == HwOf(cache)
    ensures (ip in cache ==> !cache[ip].Resolved()) ==> HwOf(cache) - {ip} == HwOf(cache)
  {
  }

  class ArpServer {
    var arpCache: Cache
    var arpSlice: seq<string>
    var timeoutCounter: nat
    // What the hardware holds.
    var hw: map<string, HwEntry>

    // The hardware holds exactly the resolved entries.
    ghost predicate Valid()
      reads this
    {
      hw == HwOf(arpCache) && Lists(arpSlice, arpCache)
    }

    constructor (timeout: nat)
      ensures Valid() && arpCache == map[] && timeoutCounter == timeout
    {
      arpCache, arpSlice, timeoutCounter, hw := map[], [], timeout, map[];
    }

    method HwCreate(ip: string, mac: string, vlan: int)
      modifies `hw
      ensures hw == old(hw)[ip := HwEntry(mac, vlan)]
    {
      hw := hw[ip := HwEntry(mac, vlan)];
    }

    method HwDelete(ip: string)
      modifies `hw
      ensures hw == old(hw) - {ip}
    {
      hw := hw - {ip};
    }

    method UpdateArpSlice(ip: string)
      modifies `arpSlice
      ensures arpSlice == if ip in old(arpSlice) then old(arpSlice) else old(arpSlice) + [ip]
    {
      for i := 0 to |arpSlice|
        invariant arpSlice == old(arpSlice) && forall k :: 0 <= k < i ==> arpSlice[k] != ip
      {
        if arpSlice[i] == ip { return; }
      }
      arpSlice := arpSlice + [ip];
    }

    // ---------- updates ----------

    // A next hop to resolve. Ownership by the RIB sticks.
    method IncompleteUpdate(ip: string, fromRib: bool, l3IfIdx: int)
      requires Valid()
      modifies `arpCache, `arpSlice
      ensures Valid() && KeepsRib(old(arpCache), arpCache)
      ensures arpCache == if ip !in old(arpCache)
                          then old(arpCache)[ip := ArpEntry(INCOMPLETE, -1, -1, l3IfIdx, timeoutCounter, fromRib)]
                          else if old(arpCache)[ip].l3IfIdx != l3IfIdx then old(arpCache)
                          else
                            var e := old(arpCache)[ip];
                            old(arpCache)[ip := e.(fromRib := e.fromRib || fromRib,
                                                   counter := if e.Resolved() then e.counter else timeoutCounter)]
    {
      hide HwOf, Lists, Tick;
      var e := ArpEntry(INCOMPLETE, -1, -1, l3IfIdx, timeoutCounter, fromRib);
      if ip in arpCache {
        e := arpCache[ip];
        if l3IfIdx != e.l3IfIdx { return; }
        if !e.fromRib { e := e.(fromRib := fromRib); }
        if !e.Resolved() { e := e.(counter := timeoutCounter); }
      }
      Stored(arpCache, ip, e);
      StillLists(arpSlice, arpCache, ip, e);
      arpCache := arpCache[ip := e];
      UpdateArpSlice(ip);
    }

    method LearnedUpdate(m: Update)
      requires Valid() && m.mac != INCOMPLETE
      modifies `arpCache, `arpSlice, `hw
      ensures Valid() && KeepsRib(old(arpCache), arpCache)
      ensures m.ip in arpCache && arpCache - {m.ip} == old(arpCache) - {m.ip}
      ensures arpCache[m.ip] == ArpEntry(m.mac, m.vlan, m.port, m.l3IfIdx, timeoutCounter, arpCache[m.ip].fromRib)
      ensures arpCache[m.ip].fromRib == if m.ip in old(arpCache) && old(arpCache)[m.ip].mac == m.mac
              && old(arpCache)[m.ip].port == m.port && old(arpCache)[m.ip].vlan == m.vlan
              && old(arpCache)[m.ip].l3IfIdx == m.l3IfIdx
              then old(arpCache)[m.ip].fromRib
                                        else m.fromRib || (m.ip in old(arpCache) && old(arpCache)[m.ip].fromRib)
    {
      hide HwOf, Lists, Tick;
      if m.ip in arpCache && SameEntry(arpCache[m.ip], m) {
        var e := arpCache[m.ip].(counter := timeoutCounter);
        Stored(arpCache, m.ip, e);
        StillLists(arpSlice, arpCache, m.ip, e);
        arpCache := arpCache[m.ip := e];
        return;
      }
      HwCreate(m.ip, m.mac, m.vlan);
      var e := ArpEntry(m.mac, m.vlan, m.port, m.l3IfIdx, timeoutCounter,
        (m.ip in arpCache && arpCache[m.ip].fromRib) || m.fromRib);
      Stored(arpCache, m.ip, e);
      StillLists(arpSlice, arpCache, m.ip, e);
      arpCache := arpCache[m.ip := e];
      UpdateArpSlice(m.ip);
    }

    method EntryUpdate(m: Update)
      requires Valid()
      modifies `arpCache, `arpSlice, `hw
      ensures Valid() && KeepsRib(old(arpCache), arpCache)
      ensures arpCache - {m.ip} == old(arpCache) - {m.ip}
    {
      hide HwOf, Lists, Tick;
      if m.mac == INCOMPLETE { IncompleteUpdate(m.ip, m.fromRib, m.l3IfIdx); } else { LearnedUpdate(m); }
    }

    // ---------- removals ----------

    // One entry and what the hardware holds for it.
    method Remove(ip: string)
      requires Valid() && ip in arpCache
      modifies `arpCache, `hw
      ensures Valid() && arpCache == old(arpCache) - {ip}
    {
      hide HwOf, Lists, Tick;
      if arpCache[ip].Resolved() { HwDelete(ip); }
      Stored(arpCache, ip, arpCache[ip]);
      StillLists(arpSlice, arpCache, ip, arpCache[ip]);
      arpCache := arpCache - {ip};
    }

    // Asked for by the operator, or internally: an entry of the RIB is refused.
    method DeleteByIp(ip: string)
      requires Valid()
      modifies `arpCache, `hw
      ensures Valid() && KeepsRib(old(arpCache), arpCache)
      ensures arpCache == if ip in old(arpCache) && !old(arpCache)[ip].fromRib then old(arpCache) - {ip} else old(arpCache)
    {
      hide HwOf, Lists, Tick;
      if ip !in arpCache || arpCache[ip].fromRib { return; }
      Remove(ip);
    }

    // Asked for by the RIB: only its own entries go.
    method DeleteFromRib(ip: string)
      requires Valid()
      modifies `arpCache, `hw
      ensures Valid()
      ensures arpCache == if ip in old(arpCache) && old(arpCache)[ip].fromRib then old(arpCache) - {ip} else old(arpCache)
    {
      hide HwOf, Lists, Tick;
      if ip !in arpCache || !arpCache[ip].fromRib { return; }
      Remove(ip);
    }

    // A port, a VLAN or an interface is gone, and every entry on it with it. The hardware is told of all of them.
    method DeleteInterface(scope: DeleteBy)
      requires Valid()
      modifies `arpCache, `hw
      ensures Valid() && arpCache == map ip | ip in old(arpCache) && !scope.Hits(old(arpCache)[ip]) :: old(arpCache)[ip]
      ensures forall ip :: ip in old(arpCache) ==>
                var e := old(arpCache)[ip];
                ip !in arpCache <==> (scope.ByPort? && e.port == scope.ifIdx) || (scope.ByVlan? && e.vlan == scope.ifIdx)
                                     || (scope.ByL3? && e.l3IfIdx == scope.ifIdx)
    {
      hide HwOf, Lists, Tick;
      var todo := arpCache.Keys;
      while todo != {}
        invariant Valid() && todo <= arpCache.Keys
        invariant forall ip :: ip in arpCache ==> ip in old(arpCache) && arpCache[ip] == old(arpCache)[ip]
        invariant forall ip :: ip in old(arpCache) ==> (ip in arpCache <==> ip in todo || !scope.Hits(old(arpCache)[ip]))
        decreases |todo|
      {
        var ip :| ip in todo;
        if scope.Hits(arpCache[ip]) {
          HwDelete(ip);
          Stored(arpCache, ip, arpCache[ip]);
          StillLists(arpSlice, arpCache, ip, arpCache[ip]);
          arpCache := arpCache - {ip};
        }
        todo := todo - {ip};
      }
    }

    // Every dynamic entry on the interfaces of one name.
    method DeleteByIfName(idxs: set<int>)
      requires Valid()
      modifies `arpCache, `hw
      ensures Valid() && KeepsRib(old(arpCache), arpCache)
      ensures arpCache == map ip | ip in old(arpCache)
              && (old(arpCache)[ip].fromRib || old(arpCache)[ip].l3IfIdx !in idxs) :: old(arpCache)[ip]
    {
      hide HwOf, Lists, Tick;
      var todo := arpCache.Keys;
      while todo != {}
        invariant Valid() && todo <= arpCache.Keys
        invariant forall ip :: ip in arpCache ==> ip in old(arpCache) && arpCache[ip] == old(arpCache)[ip]
        invariant forall ip :: ip in old(arpCache) ==>
                    (ip in arpCache <==> ip in todo || old(arpCache)[ip].fromRib || old(arpCache)[ip].l3IfIdx !in idxs)
        decreases |todo|
      {
        var ip :| ip in todo;
        if arpCache[ip].l3IfIdx in idxs { DeleteByIp(ip); }
        todo := todo - {ip};
      }
    }

    method RefreshByIp(ip: string)
      requires Valid()
      modifies `arpCache, `hw
      ensures Valid() && KeepsRib(old(arpCache), arpCache)
      ensures arpCache == if ip in old(arpCache)
                          then old(arpCache)[ip := old(arpCache)[ip].(mac := INCOMPLETE, counter := timeoutCounter)]
                          else old(arpCache)
    {
      hide HwOf, Lists, Tick;
      if ip !in arpCache { return; }
      if arpCache[ip].Resolved() { HwDelete(ip); }
      var e := arpCache[ip].(mac := INCOMPLETE, counter := timeoutCounter);
      Stored(arpCache, ip, e);
      StillLists(arpSlice, arpCache, ip, e);
      arpCache := arpCache[ip := e];
    }

    // Every entry on the interfaces of one name, whoever owns it.
    method RefreshByIfName(idxs: set<int>)
      requires Valid()
      modifies `arpCache, `hw
      ensures Valid() && KeepsRib(old(arpCache), arpCache)
      ensures arpCache == map ip | ip in old(arpCache) ::
                            if old(arpCache)[ip].l3IfIdx in idxs
                            then old(arpCache)[ip].(mac := INCOMPLETE, counter := timeoutCounter)
                            else old(arpCache)[ip]
    {
      hide HwOf, Lists, Tick;
      var todo := arpCache.Keys;
      while todo != {}
        invariant Valid() && todo <= arpCache.Keys == old(arpCache).Keys
        invariant forall ip :: ip in arpCache ==>
                    arpCache[ip] == if ip !in todo && old(arpCache)[ip].l3IfIdx in idxs
                                    then old(arpCache)[ip].(mac := INCOMPLETE, counter := timeoutCounter)
                                      else old(arpCache)[ip]
        decreases |todo|
      {
        var ip :| ip in todo;
        if arpCache[ip].l3IfIdx in idxs { RefreshByIp(ip); }
        todo := todo - {ip};
      }
    }

    // ---------- the rest ----------

    method MacMove(ip: string, port: int)
      requires Valid()
      modifies `arpCache
      ensures Valid() && KeepsRib(old(arpCache), arpCache)
      ensures arpCache == if ip in old(arpCache) then old(arpCache)[ip := old(arpCache)[ip].(port := port)]
              else old(arpCache)
    {
      hide HwOf, Lists, Tick;
      if ip in arpCache {
        Stored(arpCache, ip, arpCache[ip].(port := port));
        StillLists(arpSlice, arpCache, ip, arpCache[ip].(port := port));
        arpCache := arpCache[ip := arpCache[ip].(port := port)];
      }
    }

    // A shorter timeout cuts the counters.
    method CounterLimit(cnt: int)
      requires Valid()
      modifies `arpCache
      ensures Valid() && KeepsRib(old(arpCache), arpCache)
      ensures arpCache == map ip | ip in old(arpCache) :: Cut(old(arpCache)[ip], cnt)
      ensures forall ip :: ip in arpCache ==>
                var e := old(arpCache)[ip]; arpCache[ip] == e.(counter := if e.counter > cnt then cnt else e.counter)
    {
      hide HwOf, Lists, Tick;
      var todo := arpCache.Keys;
      while todo != {}
        invariant Valid() && todo <= arpCache.Keys
        invariant arpCache.Keys == old(arpCache).Keys
        invariant forall ip :: ip in arpCache ==> arpCache[ip] == if ip in todo then old(arpCache)[ip]
                  else Cut(old(arpCache)[ip], cnt)
        decreases |todo|
      {
        var ip :| ip in todo;
        if arpCache[ip].counter > cnt {
          Stored(arpCache, ip, arpCache[ip].(counter := cnt));
          StillLists(arpSlice, arpCache, ip, arpCache[ip].(counter := cnt));
          arpCache := arpCache[ip := arpCache[ip].(counter := cnt)];
        }
        todo := todo - {ip};
      }
    }

    // The timer.
    method CounterUpdate()
      requires Valid()
      modifies `arpCache, `hw
      ensures Valid() && KeepsRib(old(arpCache), arpCache) && arpCache == TickAll(old(arpCache), timeoutCounter)
    {
      hide HwOf, Lists, Tick;
      var todo := arpCache.Keys;
      while todo != {}
        invariant Valid() && todo <= arpCache.Keys <= old(arpCache).Keys
        invariant forall ip :: ip in todo ==> arpCache[ip] == old(arpCache)[ip]
        invariant forall ip :: ip in old(arpCache) && ip !in todo ==>
                    (ip in arpCache <==> Tick(old(arpCache)[ip], timeoutCounter).Some?)
                    && (ip in arpCache ==> Some(arpCache[ip]) == Tick(old(arpCache)[ip], timeoutCounter))
        decreases |todo|
      {
        var ip :| ip in todo;
        TickEntry(ip);
        todo := todo - {ip};
      }
      TicksKeepRib(old(arpCache), timeoutCounter);
    }

    // One entry's turn.
    method TickEntry(ip: string)
      requires Valid() && ip in arpCache
      modifies `arpCache, `hw
      ensures Valid()
      ensures var t := Tick(old(arpCache)[ip], timeoutCounter);
              arpCache == if t.Some? then old(arpCache)[ip := t.value] else old(arpCache) - {ip}
    {
      hide HwOf, Lists;
      var e := arpCache[ip];
      if e.counter <= MIN_CNT {
        if !e.fromRib {
          Remove(ip);
        } else {
          if e.Resolved() { HwDelete(ip); }
          Stored(arpCache, ip, e.(mac := INCOMPLETE, counter := timeoutCounter));
          StillLists(arpSlice, arpCache, ip, e.(mac := INCOMPLETE, counter := timeoutCounter));
          arpCache := arpCache[ip := e.(mac := INCOMPLETE, counter := timeoutCounter)];
        }
      } else {
        e := e.(counter := e.counter - 1);
        Stored(arpCache, ip, e);
        StillLists(arpSlice, arpCache, ip, e);
        arpCache := arpCache[ip := e];
        if e.counter <= MIN_CNT + RETRY_CNT + 1 || e.counter == timeoutCounter / 2 || e.counter == timeoutCounter / 4
           || e.counter == ONE_MIN_CNT || e.counter == THIRTY_SEC_CNT {
          // one more request
        } else if e.counter <= timeoutCounter && e.counter > timeoutCounter - RETRY_CNT && !e.Resolved() {
          // one more request
        } else if e.counter > MIN_CNT + RETRY_CNT + 1 && e.Resolved() {
        } else if !e.fromRib {
          Stored(arpCache, ip, e);
          StillLists(arpSlice, arpCache, ip, e);
          arpCache := arpCache - {ip};
        }
      }
    }

    method RefreshSlice()
      requires Valid()
      modifies `arpSlice
      ensures Valid() && forall ip :: ip in arpSlice ==> ip in arpCache
    {
      arpSlice := [];
      var todo := arpCache.Keys;
      while todo != {}
        invariant todo <= arpCache.Keys && forall ip :: ip in arpSlice <==> ip in arpCache && ip !in todo
        invariant forall i, j :: 0 <= i < j < |arpSlice| ==> arpSlice[i] != arpSlice[j]
        decreases |todo|
      {
        var ip :| ip in todo;
        arpSlice := arpSlice + [ip];
        todo := todo - {ip};
      }
    }
  }

  predicate SameEntry(e: ArpEntry, m: Update) {
    e.l3IfIdx == m.l3IfIdx && e.mac == m.mac && e.vlan == m.vlan && e.port == m.port
  }

  function Cut(e: ArpEntry, cnt: int): ArpEntry { if e.counter > cnt then e.(counter := cnt) else e }

  lemma TicksKeepRib(cache: Cache, timeout: nat)
    ensures KeepsRib(cache, TickAll(cache, timeout))
  {
  }
}
