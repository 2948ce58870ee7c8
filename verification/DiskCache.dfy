/** The cache of streams on disk: locks, open adapters, the accounting of sizes and the eviction of
    old entries.  Files and clocks are up to the environment. */
module DiskCache {
  import opened Eviction
  import opened Options
  import opened Strings

  // ---------------------------------------------------------------- adapters

  /** An open stream of the cache. */
  datatype Adapter = Adapter(id: string, index: nat, writing: bool)

  type Adapters = map<nat, Adapter>

  ghost function Tickets(open: Adapters, id: string): set<nat> { set t | t in open && open[t].id == id }

  lemma KeysWith<V>(m: map<nat, V>, t: nat, v: V)
    requires t !in m
    ensures |m[t := v]| == |m| + 1
  {
    assert m[t := v].Keys == m.Keys + {t};
  }

  lemma TicketsWith(open: Adapters, t: nat, a: Adapter, id: string)
    requires t !in open
    ensures |Tickets(open[t := a], id)| == |Tickets(open, id)| + if id == a.id then 1 else 0
  {
    if id == a.id {
      assert Tickets(open[t := a], id) == Tickets(open, id) + {t};
    } else {
      assert Tickets(open[t := a], id) == Tickets(open, id);
    }
  }

  lemma TicketsWithout(open: Adapters, t: nat, id: string)
    requires t in open
    ensures |Tickets(open - {t}, id)| == |Tickets(open, id)| - if id == open[t].id then 1 else 0
  {
    assert Tickets(open - {t}, id) == Tickets(open, id) - {t};
  }

  lemma NoTickets(open: Adapters, id: string)
    requires |Tickets(open, id)| == 0
    ensures forall t | t in open :: open[t].id != id
  {
    assert forall t | t in open :: open[t].id == id <==> t in Tickets(open, id);
  }

  // ---------------------------------------------------------------- invariants

  /** Every open adapter belongs to an entry, and is a writer exactly if the entry is not unlocked;
      the counters count them. */
  ghost predicate Access(entries: Entries, open: Adapters) {
    && (forall t | t in open :: open[t].id in entries && open[t].writing == (entries[open[t].id].state != Unlocked))
    && (forall id | id in entries :: entries[id].accessors == |Tickets(open, id)|)
    && (forall id | id in entries :: entries[id].state == Unlocking ==> entries[id].accessors > 0)
  }

  ghost predicate Accounts(entries: Entries, totalSize: nat, totalAccessors: nat) {
    totalSize == Sum(Sizes(entries)) && totalAccessors == Sum(Accessors(entries))
  }

  /** Readers and writers of one entry exclude each other, readers have it unlocked, and writers
      have it locked or about to be unlocked. */
  lemma ReadersExcludeWriters(entries: Entries, open: Adapters, t: nat, u: nat)
    requires Access(entries, open) && t in open && u in open && open[t].id == open[u].id
    ensures open[t].writing == open[u].writing
    ensures !open[t].writing ==> entries[open[t].id].state == Unlocked
    ensures open[t].writing ==> entries[open[t].id].state in {Locked, Unlocking}
    ensures !entries[open[t].id].Idle()
  {
    assert t in Tickets(open, open[t].id);
  }

  /** Erasing idle entries loses no adapter. */
  lemma EraseIdle(entries: Entries, open: Adapters, id: string)
    requires Access(entries, open) && id in entries && entries[id].Idle()
    ensures Access(entries - {id}, open)
  {
    hide Tickets;
    NoTickets(open, id);
  }

  lemma NewEntry(entries: Entries, open: Adapters, id: string)
    requires Access(entries, open) && id !in entries
    ensures Tickets(open, id) == {}
  {
    assert forall t | t in open :: open[t].id in entries;
  }

  lemma OpenAdapter(entries: Entries, open: Adapters, id: string, e: Entry, t: nat, a: Adapter)
    requires Access(entries, open) && id in entries && t !in open && a.id == id
    requires e.state == entries[id].state && e.accessors == entries[id].accessors + 1
    requires a.writing == (e.state != Unlocked)
    ensures Access(entries[id := e], open[t := a])
  {
    hide Tickets;
    var next := entries[id := e];
    forall i | i in next ensures next[i].accessors == |Tickets(open[t := a], i)| {
      TicketsWith(open, t, a, i);
    }
  }

  lemma CloseAdapter(entries: Entries, open: Adapters, t: nat, e: Entry)
    requires Access(entries, open) && t in open
    requires var old' := entries[open[t].id];
             && old'.accessors > 0 && e.accessors == old'.accessors - 1
             && e.state == if old'.state == Unlocking && e.accessors == 0 then Unlocked else old'.state
    ensures Access(entries[open[t].id := e], open - {t})
  {
    hide Tickets;
    var id, next, rest := open[t].id, entries[open[t].id := e], open - {t};
    forall i | i in next ensures next[i].accessors == |Tickets(rest, i)| {
      TicketsWithout(open, t, i);
    }
    if e.accessors == 0 {
      NoTickets(rest, id);
    }
    forall u | u in rest
      ensures rest[u].id in next && rest[u].writing == (next[rest[u].id].state != Unlocked)
    {
      assert rest[u] == open[u];
    }
  }

  lemma EmptySums()
    ensures Sum(Sizes(map[])) == 0 && Sum(Accessors(map[])) == 0
    ensures forall id :: Tickets(map[], id) == {}
  {
  }

  /** What the search for a victim comes to. */
  datatype Search = Found(id: string) | NothingIdle | RanPast

  class DiskCache {
    var maxCache: nat
    var totalSize: nat
    var totalAccessors: nat
    var entries: Entries
    // The adapters handed out and not destroyed yet, and the number of the next one.
    var open: Adapters
    var nextTicket: nat
    // Whether there is a folder.
    var initialized: bool

    ghost predicate Valid()
      reads this
    {
      && Access(entries, open)
      && Accounts(entries, totalSize, totalAccessors)
      && totalAccessors == |open|
      && forall t | t in open :: t < nextTicket
    }

    constructor ()
      ensures Valid() && entries == map[] && open == map[] && !initialized
    {
      maxCache, entries, initialized := 0, map[], false;
      totalSize, totalAccessors, open, nextTicket := 0, 0, map[], 0;
      new;
      EmptySums();
    }

    /** Takes over the entries found in the folder, and brings them within the limit. */
    method Initialize(size: nat, found: Entries, folderCreated: bool)
      returns (ok: bool, halt: Halt, ghost victims: seq<string>)
      requires Valid() && (!initialized ==> entries == map[] && open == map[])
      requires forall id | id in found :: found[id].Idle()
      modifies this
      ensures Valid() && open == old(open)
      ensures old(initialized) || !folderCreated ==>
                !ok && entries == old(entries) && maxCache == old(maxCache) && initialized == old(initialized)
      ensures !old(initialized) && folderCreated ==>
                && initialized && maxCache == size
                && Swept(found, entries, totalSize, size, halt, victims)
                && (ok <==> halt == WithinLimit) && halt != InUse && halt != NoneIdle
                && (halt != FileKept ==> (ok <==> Clears(found, size)))
                && (ok ==> entries == Remaining(found, size))
    {
      halt, victims := WithinLimit, [];
      if initialized || !folderCreated {
        return false, halt, victims;
      }
      hide Swept, Clears, Remaining, CanBlock, Evicted, Access, Accounts, Total;
      initialized, maxCache, entries, totalSize := true, size, found, 0;
      InitializeEntries();
      assert Valid();
      ok, halt, victims := CheckLimit();
      NoneBusy(found, entries, totalSize, size, halt, victims);
    }

    lemma NoneBusy(before: Entries, now: Entries, total: nat, limit: nat, halt: Halt, victims: seq<string>)
      requires Swept(before, now, total, limit, halt, victims)
      requires forall id | id in before :: before[id].Idle()
      ensures halt != InUse && halt != NoneIdle
    {
      hide Total, Evicting, After;
      SweptExactly(before, now, limit, halt, victims);
      if halt == NoneIdle {
        TotalOfNone(now);
      }
    }

    /** Adds up the sizes of the entries. */
    method InitializeEntries()
      requires totalSize == totalAccessors == 0 && open == map[]
      requires forall id | id in entries :: entries[id].Idle()
      modifies `totalSize
      ensures Valid()
    {
      hide Sum, Sizes, Accessors;
      var left := entries;
      while left != map[]
        invariant forall id | id in left :: id in entries && left[id] == entries[id]
        invariant totalSize + Sum(Sizes(left)) == Sum(Sizes(entries))
        invariant Sum(Accessors(left)) == Sum(Accessors(entries))
        decreases |left|
      {
        var id :| id in left;
        EraseEntry(left, id);
        KeysWithout(left, id);
        totalSize := totalSize + left[id].size;
        left := left - {id};
      }
      EmptySums();
    }

    /** The entries in the order of their ids. */
    method ListEntries() returns (order: seq<string>)
      ensures Sorted(order) && forall id :: id in order <==> id in entries
    {
      order := [];
      var left := entries.Keys;
      while left != {}
        invariant forall id :: id in entries <==> id in left || id in order
        invariant forall i | 0 <= i < |order| :: forall id | id in left :: Less(order[i], id)
        invariant Sorted(order)
        decreases |left|
      {
        ghost var least := LeastOf(left);
        var id :| id in left && forall i | i in left && i != id :: Less(id, i);
        order := order + [id];
        left := left - {id};
      }
    }

    /** The two loops of the search.  When the first idle entry is the last of all, the second loop
        starts past the end of the map. */
    method FindVictim(order: seq<string>) returns (found: Search, ghost first: string, ghost next: string)
      requires Sorted(order) && forall id :: id in order <==> id in entries
      ensures found == NothingIdle <==> forall id | id in entries :: !entries[id].Idle()
      ensures found == RanPast ==> LastIsFirstIdle(entries, first)
      ensures found.Found? ==> Victim(entries, first, next, found.id)
    {
      hide Less, Sorted, Victim, FirstIdle, Follows, LastIsFirstIdle;
      first, next := "", "";
      assert forall k | 0 <= k < |order| :: order[k] in entries;
      var i := 0;
      while i < |order| && !entries[order[i]].Idle()
        invariant i <= |order|
        invariant forall k | 0 <= k < i :: !entries[order[k]].Idle()
      {
        i := i + 1;
      }
      if i == |order| {
        NoneListed(order);
        return NothingIdle, first, next;
      }
      FirstListed(order, i);
      first := order[i];
      var oldest := i + 1;
      if oldest == |order| {
        return RanPast, first, next;
      }
      ghost var second := oldest;
      next := order[second];
      var it := i;
      while it < |order|
        invariant i <= it <= |order| && i <= oldest < |order| && (oldest == second || oldest < it)
        invariant forall k: nat | (i <= k < it || k == second) && k != oldest :: BeatsAt(order, second, oldest, k)
      {
        ghost var was := oldest;
        if entries[order[it]].lastModified < entries[order[oldest]].lastModified {
          oldest := it;
        }
        forall k: nat | (i <= k <= it || k == second) && k != oldest ensures BeatsAt(order, second, oldest, k) {
          assert k != was && (k < it || k == second) ==> BeatsAt(order, second, was, k);
        }
        it := it + 1;
      }
      BestListed(order, i, second, oldest);
      found := Found(order[oldest]);
    }

    /** Beats, by the places in a list. */
    ghost predicate BeatsAt(order: seq<string>, next: nat, j: nat, k: nat)
      requires forall id | id in order :: id in entries
      requires j < |order| && k < |order|
      reads this
    {
      || entries[order[j]].lastModified < entries[order[k]].lastModified
      || (entries[order[j]].lastModified == entries[order[k]].lastModified && (j == next || (k != next && j < k)))
    }

    lemma NoneListed(order: seq<string>)
      requires forall id | id in entries :: id in order
      requires forall k | 0 <= k < |order| :: order[k] in entries && !entries[order[k]].Idle()
      ensures forall id | id in entries :: !entries[id].Idle()
    {
      forall id | id in entries ensures !entries[id].Idle() {
        var k :| 0 <= k < |order| && order[k] == id;
      }
    }

    lemma FirstListed(order: seq<string>, i: nat)
      requires Sorted(order) && forall id :: id in order <==> id in entries
      requires i < |order| && entries[order[i]].Idle() && forall k | 0 <= k < i :: !entries[order[k]].Idle()
      ensures FirstIdle(entries, order[i])
      ensures i + 1 == |order| ==> LastIsFirstIdle(entries, order[i])
      ensures i + 1 < |order| ==> Follows(entries, order[i], order[i + 1])
    {
      hide Less;
      assert order[i] in order;
      forall id | id in entries && id != order[i]
        ensures entries[id].Idle() ==> Less(order[i], id)
        ensures Less(order[i], id) ==> i + 1 < |order| && (id == order[i + 1] || Less(order[i + 1], id))
      {
        var k :| 0 <= k < |order| && order[k] == id;
        if k < i {
          LessAsymmetric(id, order[i]);
        }
      }
      LessTotal(order[i], order[i]);
      assert i + 1 < |order| ==> order[i + 1] in order;
    }

    lemma BestListed(order: seq<string>, i: nat, second: nat, best: nat)
      requires Sorted(order) && forall id :: id in order <==> id in entries
      requires second == i + 1 < |order| && i <= best < |order|
      requires FirstIdle(entries, order[i]) && Follows(entries, order[i], order[second])
      requires forall k: nat | i <= k < |order| && k != best :: BeatsAt(order, second, best, k)
      ensures Victim(entries, order[i], order[second], order[best])
    {
      hide Less;
      assert order[best] in order;
      forall id | id in entries && !Less(id, order[i]) && id != order[best]
        ensures Beats(entries, order[second], order[best], id)
      {
        var k :| 0 <= k < |order| && order[k] == id;
        assert BeatsAt(order, second, best, k);
        DistinctListed(order, k, second);
      }
      DistinctListed(order, i, best);
    }

    lemma DistinctListed(order: seq<string>, j: nat, k: nat)
      requires Sorted(order) && j < |order| && k < |order|
      ensures order[j] == order[k] ==> j == k
      ensures j <= k ==> !Less(order[k], order[j])
    {
      LessTotal(order[j], order[j]);
      if j < k {
        LessAsymmetric(order[j], order[k]);
      }
    }

    /** Tries to delete the files of an entry that exist. */
    method DeleteFiles(streams: nat) returns (ok: bool)
      ensures streams == 0 ==> ok
    {
      ok := true;
      for index := 0 to streams
        invariant index == 0 ==> ok
      {
        var fileExists, deleted: bool := *, *;
        if fileExists && !deleted {
          ok := false;
        }
      }
    }

    /** Erases an idle entry, even if some of its files cannot be deleted. */
    method DeleteResource(id: string) returns (ok: bool)
      requires Valid()
      modifies `entries, `totalSize
      ensures Valid()
      ensures id !in old(entries) ==> ok
      ensures id in old(entries) && !old(entries)[id].Idle() ==> !ok
      ensures if id in old(entries) && old(entries)[id].Idle()
              then entries == old(entries) - {id} && totalSize == old(totalSize) - old(entries)[id].size
              else entries == old(entries) && totalSize == old(totalSize)
    {
      hide Sum, Sizes, Accessors, Access;
      if id !in entries {
        return true;
      }
      var entry := entries[id];
      if entry.state != Unlocked || entry.accessors > 0 {
        return false;
      }
      ok := DeleteFiles(entry.streams);
      EraseEntry(entries, id);
      EraseIdle(entries, open, id);
      totalSize := totalSize - entry.size;
      entries := entries - {id};
    }

    /** One round of the search, and the deletion of what it finds. */
    method EvictOne(ghost before: Entries, ghost taken: seq<string>) returns (halt: Halt, ghost victims: seq<string>)
      requires Valid() && totalSize > maxCache
      requires Evicting(before, taken, maxCache) && entries == After(before, taken)
      modifies `entries, `totalSize
      ensures Valid()
      ensures Evicting(before, victims, maxCache) && entries == After(before, victims)
      ensures halt == WithinLimit ==> |entries| < |old(entries)|
      ensures halt != WithinLimit ==> Halted(halt, entries, totalSize, maxCache)
      ensures halt == FileKept ==> victims != []
    {
      hide Access, Accounts, Victim, Evicting, After, Total;
      TotalIs();
      var order := ListEntries();
      var found;
      ghost var first, next;
      found, first, next := FindVictim(order);
      victims := taken;
      match found
      case NothingIdle => return NoneIdle, victims;
      case RanPast => return PastEnd, victims;
      case Found(id) =>
        VictimThere(first, next, id);
        if !entries[id].Idle() {
          var refused := DeleteResource(id);
          return InUse, victims;
        }
        EvictOneMore(before, taken, maxCache, id);
        KeysWithout(entries, id);
        victims := taken + [id];
        var deleted := DeleteResource(id);
        halt := if deleted then WithinLimit else FileKept;
    }

    lemma VictimThere(first: string, next: string, id: string)
      requires Victim(entries, first, next, id)
      ensures id in entries && (entries[id].Idle() ==> Taken(entries, id))
    {
    }

    /** Erases entries until the rest is within the limit.  Unless a file cannot be deleted, the
        entries before decide whether that succeeds, and which ones are left. */
    method CheckLimit() returns (ok: bool, halt: Halt, ghost victims: seq<string>)
      requires Valid()
      modifies `entries, `totalSize
      ensures Valid()
      ensures Swept(old(entries), entries, totalSize, maxCache, halt, victims) && (ok <==> halt == WithinLimit)
      ensures Evicted(old(entries), entries)
      ensures halt != FileKept ==> (ok <==> Clears(old(entries), maxCache))
      ensures ok ==> entries == Remaining(old(entries), maxCache)
      ensures old(totalSize) <= maxCache ==> ok && entries == old(entries)
      ensures halt == InUse ==> CanBlock(old(entries), maxCache)
    {
      hide Access, Accounts, Evicting, After, Total, Evicted, Clears, Remaining, CanBlock;
      victims, halt := [], WithinLimit;
      NoEviction(entries, maxCache);
      while totalSize > maxCache
        invariant Valid() && Evicting(old(entries), victims, maxCache) && entries == After(old(entries), victims)
        invariant old(totalSize) <= maxCache ==> entries == old(entries) && totalSize == old(totalSize)
        decreases |entries|
      {
        halt, victims := EvictOne(old(entries), victims);
        if halt != WithinLimit {
          TotalIs();
          SweptExactly(old(entries), entries, maxCache, halt, victims);
          if halt == InUse {
            BlockedByOlder(old(entries), entries, maxCache, victims);
          }
          return false, halt, victims;
        }
      }
      TotalIs();
      SweptExactly(old(entries), entries, maxCache, WithinLimit, victims);
      return true, WithinLimit, victims;
    }

    lemma TotalIs()
      requires Valid()
      ensures totalSize == Total(entries)
    {
    }

    // ------------------------------------------------------------ the operations

    /** The entries once the one asked for exists. */
    function WithEntry(id: string, now: int): Entries
      reads this
    {
      if id in entries then entries else entries[id := Entry(Unlocked, 0, 0, 0, now)]
    }

    /** Locks an entry, creating it if need be; writers that have not finished may go on.  When the
        cache is over its limit, eviction may take the very entry that is being locked; the source
        then writes through a dangling pointer, and the model stops. */
    method LockResource(id: string, now: int)
      returns (ok: bool, dangling: bool, halt: Halt, ghost victims: seq<string>)
      requires Valid()
      modifies `entries, `totalSize
      ensures Valid()
      ensures var before := old(WithEntry(id, now));
              var lockable := before[id].Idle() || before[id].state == Unlocking;
              && (!lockable ==> !ok && !dangling && entries == before)
              && (lockable ==>
                    && Swept(before, After(before, victims), Total(After(before, victims)), maxCache, halt, victims)
                    && (halt != FileKept ==> (halt == WithinLimit <==> Clears(before, maxCache)))
                    && (dangling <==> halt == WithinLimit && CanLose(before, id, maxCache))
                    && (ok <==> halt == WithinLimit && !CanLose(before, id, maxCache))
                    && (halt == WithinLimit ==> After(before, victims) == Remaining(before, maxCache))
                    && (halt == InUse ==> CanBlock(before, maxCache))
                    && (ok ==> entries == After(before, victims)[id := before[id].(state := Locked)])
                    && (!ok ==> entries == After(before, victims)))
      ensures old(totalSize) <= maxCache ==> victims == [] && halt == WithinLimit
      // A new entry is empty and dated now, so that eviction spares it if the clock has moved on.
      ensures ok ==> id in entries && entries[id] == if id in old(entries) then old(entries)[id].(state := Locked)
                                                     else Entry(Locked, 0, 0, 0, now)
      ensures id !in old(entries) && (forall i | i in old(entries) :: old(entries)[i].lastModified < now) ==> !dangling
      ensures id !in old(entries) && id in entries && !ok ==> entries[id] == Entry(Unlocked, 0, 0, 0, now)
      ensures forall i | i in entries && i != id :: i in old(entries) && entries[i] == old(entries)[i]
    {
      hide Access, Accounts, Evicting, After, Total, Halted, CanBlock, Clears, Turn, Remaining;
      GetOrCreate(id, now);
      ghost var before := entries;
      if id !in old(entries) && forall i | i in old(entries) :: old(entries)[i].lastModified < now {
        NewestIsSafe(before, id, maxCache);
      }
      NoEviction(before, maxCache);
      var entry := entries[id];
      dangling, halt, victims := false, WithinLimit, [];
      if entry.state == Locked {
        return false, false, halt, victims;
      }
      if entry.state == Unlocked && entry.accessors > 0 {
        return false, false, halt, victims;
      }
      TotalIs();
      if totalSize > maxCache {
        var within;
        within, halt, victims := CheckLimit();
        SweptExactly(before, entries, maxCache, halt, victims);
        if !within {
          return false, false, halt, victims;
        }
      } else {
        HaltedAtOnce(entries, totalSize, maxCache);
        SweptExactly(before, entries, maxCache, halt, victims);
      }
      InRemaining(before, id, maxCache);
      if id !in entries {
        return false, true, halt, victims;
      }
      SetState(id, Locked, entries[id].lastModified);
      ok := true;
    }

    lemma InRemaining(before: Entries, id: string, limit: nat)
      requires id in before
      ensures id in Remaining(before, limit) <==> !Turn(before, id, limit)
      ensures id in Remaining(before, limit) ==> Remaining(before, limit)[id] == before[id]
    {
    }

    lemma HaltedAtOnce(entries: Entries, total: nat, limit: nat)
      requires total <= limit
      ensures Halted(WithinLimit, entries, total, limit)
    {
    }

    /** The part of GetOrCreateEntry that inserts. */
    method GetOrCreate(id: string, now: int)
      requires Valid()
      modifies `entries
      ensures Valid()
      ensures entries == old(WithEntry(id, now)) && id in entries && totalSize == old(totalSize)
    {
      hide Sum, Sizes, Accessors, Tickets;
      if id !in entries {
        var e := Entry(Unlocked, 0, 0, 0, now);
        SetEntry(entries, id, e);
        NewEntry(entries, open, id);
        entries := entries[id := e];
      }
    }

    method SetState(id: string, state: LockState, modified: int)
      requires Valid() && id in entries
      requires entries[id].state == Unlocked || state == Unlocked ==> entries[id].accessors == 0
      requires state == Unlocking ==> entries[id].accessors > 0
      modifies `entries
      ensures Valid()
      ensures entries == old(entries)[id := old(entries)[id].(state := state, lastModified := modified)]
    {
      hide Sum, Sizes, Accessors, Tickets;
      var e := entries[id].(state := state, lastModified := modified);
      SetEntry(entries, id, e);
      if e.accessors == 0 {
        NoTickets(open, id);
      }
      entries := entries[id := e];
    }

    /** Opens a stream of a locked entry for writing; the space its file took is free again. */
    method WriteResource(id: string, index: nat, previousSize: nat, opens: bool) returns (ticket: Option<nat>)
      requires Valid() && id in entries
      modifies `entries, `totalSize, `totalAccessors, `open, `nextTicket
      ensures Valid()
      ensures ticket.Some? <==> old(entries)[id].state == Locked && opens
      ensures ticket == None ==> entries == old(entries) && open == old(open) && totalSize == old(totalSize)
      ensures ticket.Some? ==>
                var e := old(entries)[id];
                var freed := if previousSize < e.size then previousSize else e.size;
                && ticket.value !in old(open)
                && open == old(open)[ticket.value := Adapter(id, index, true)]
                && entries == old(entries)[id := Entry(Locked, e.accessors + 1, e.size - freed,
                                                       if e.streams > index then e.streams else index + 1,
                                                       e.lastModified)]
                && totalSize == old(totalSize) - freed
    {
      hide Access, Accounts;
      var entry := entries[id];
      if entry.state != Locked {
        return None;
      }
      var freed := if previousSize > entry.size then entry.size else previousSize;
      if !opens {
        return None;
      }
      var streams := if entry.streams > index then entry.streams else index + 1;
      entry := entry.(streams := streams, size := entry.size - freed);
      var t := OpenStream(id, entry, Adapter(id, index, true));
      ticket := Some(t);
    }

    /** Hands out an adapter for a stream of an entry. */
    method OpenStream(id: string, entry: Entry, a: Adapter) returns (ticket: nat)
      requires Valid() && id in entries && a.id == id && a.writing == (entry.state != Unlocked)
      requires entry.state == entries[id].state && entry.accessors == entries[id].accessors
      requires entry.size <= entries[id].size
      modifies `entries, `totalSize, `totalAccessors, `open, `nextTicket
      ensures Valid() && ticket !in old(open) && open == old(open)[ticket := a]
      ensures entries == old(entries)[id := entry.(accessors := entry.accessors + 1)]
      ensures totalSize == old(totalSize) - (old(entries)[id].size - entry.size)
    {
      hide Access, Sum, Sizes, Accessors;
      var e := entry.(accessors := entry.accessors + 1);
      ticket := nextTicket;
      assert ticket !in open;
      SetEntry(entries, id, e);
      OpenAdapter(entries, open, id, e, ticket, a);
      KeysWith(open, ticket, a);
      totalSize := totalSize - (entries[id].size - entry.size);
      totalAccessors := totalAccessors + 1;
      entries, open, nextTicket := entries[id := e], open[ticket := a], ticket + 1;
    }

    /** Opens a stream of an unlocked entry for reading. */
    method ReadResource(id: string, index: nat, opens: bool) returns (ticket: Option<nat>)
      requires Valid() && id in entries
      modifies `entries, `totalSize, `totalAccessors, `open, `nextTicket
      ensures Valid() && totalSize == old(totalSize)
      ensures ticket.Some? <==> old(entries)[id].state == Unlocked && index < old(entries)[id].streams && opens
      ensures ticket == None ==> entries == old(entries) && open == old(open)
      ensures ticket.Some? ==>
                && ticket.value !in old(open)
                && open == old(open)[ticket.value := Adapter(id, index, false)]
                && entries == old(entries)[id := old(entries)[id].(accessors := old(entries)[id].accessors + 1)]
    {
      if entries[id].state != Unlocked || index >= entries[id].streams || !opens {
        return None;
      }
      var t := OpenStream(id, entries[id], Adapter(id, index, false));
      ticket := Some(t);
    }

    /** Ends the lock, or leaves that to the last writer. */
    method UnlockResource(id: string, now: int)
      returns (ok: bool, halt: Halt, ghost victims: seq<string>)
      requires Valid() && id in entries
      modifies `entries, `totalSize
      ensures Valid()
      ensures ok <==> old(entries)[id].state == Locked
      ensures !ok ==> entries == old(entries)
      ensures ok && old(entries)[id].accessors > 0 ==>
                entries == old(entries)[id := old(entries)[id].(state := Unlocking)]
      ensures ok && old(entries)[id].accessors == 0 ==>
                var before := old(entries)[id := old(entries)[id].(state := Unlocked, lastModified := now)];
                && Swept(before, entries, totalSize, maxCache, halt, victims)
                && (halt != FileKept ==> (halt == WithinLimit <==> Clears(before, maxCache)))
    {
      halt, victims := WithinLimit, [];
      if entries[id].state != Locked {
        return false, halt, victims;
      }
      hide Swept, Clears, Remaining, Evicted, CanBlock;
      if entries[id].accessors > 0 {
        SetState(id, Unlocking, entries[id].lastModified);
      } else {
        SetState(id, Unlocked, now);
        var within;
        within, halt, victims := CheckLimit();
      }
      ok := true;
    }

    /** The destructor of an adapter: gives back its access, counts what a writer has written, and
        ends the lock after the last one. */
    method ReleaseResource(ticket: nat, newSize: nat, now: int)
      returns (halt: Halt, ghost victims: seq<string>)
      requires Valid() && ticket in open
      modifies `entries, `totalSize, `totalAccessors, `open
      ensures Valid() && open == old(open) - {ticket}
      ensures var a := old(open)[ticket];
              var e := old(entries)[a.id];
              var released := e.(accessors := e.accessors - 1, size := e.size + if a.writing then newSize else 0);
              if e.state == Unlocking && e.accessors == 1
              then
                var before := old(entries)[a.id := released.(state := Unlocked, lastModified := now)];
                && Swept(before, entries, totalSize, maxCache, halt, victims)
                && (halt != FileKept ==> (halt == WithinLimit <==> Clears(before, maxCache)))
              else entries == old(entries)[a.id := released]
    {
      hide Access, Accounts, Swept, Clears, Remaining, Evicted, CanBlock;
      var id := open[ticket].id;
      ReleaseOne(ticket);
      var e := entries[id];
      var released := e.(accessors := e.accessors - 1);
      if e.state != Unlocked {
        released := released.(size := released.size + newSize);
      }
      var last := e.state == Unlocking && released.accessors == 0;
      if last {
        released := released.(state := Unlocked, lastModified := now);
      }
      CloseStream(ticket, released);
      halt, victims := WithinLimit, [];
      if last {
        var within;
        within, halt, victims := CheckLimit();
      }
    }

    /** Takes an adapter back. */
    method CloseStream(ticket: nat, e: Entry)
      requires Valid() && ticket in open
      requires open[ticket].id in entries
      requires var old' := entries[open[ticket].id];
               && e.accessors == old'.accessors - 1 && e.size >= old'.size
               && e.state == if old'.state == Unlocking && e.accessors == 0 then Unlocked else old'.state
      modifies `entries, `totalSize, `totalAccessors, `open
      ensures Valid() && open == old(open) - {ticket}
      ensures entries == old(entries)[old(open)[ticket].id := e]
    {
      hide Access, Sum, Sizes, Accessors;
      var id := open[ticket].id;
      ReleaseOne(ticket);
      SetEntry(entries, id, e);
      CloseAdapter(entries, open, ticket, e);
      KeysWithout(open, ticket);
      totalSize := totalSize + (e.size - entries[id].size);
      totalAccessors := totalAccessors - 1;
      entries, open := entries[id := e], open - {ticket};
    }

    lemma ReleaseOne(ticket: nat)
      requires Valid() && ticket in open
      ensures open[ticket].id in entries && entries[open[ticket].id].accessors > 0
      ensures open[ticket].writing == (entries[open[ticket].id].state != Unlocked)
      ensures totalAccessors > 0
    {
      assert ticket in Tickets(open, open[ticket].id);
    }

    /** Forgets all entries, but not their total size: the accounts are right afterwards only if
        nothing was stored. */
    method Purge(removed: bool) returns (ok: bool)
      requires Valid()
      modifies `entries
      ensures ok <==> initialized && removed && old(open) == map[]
      ensures entries == if ok then map[] else old(entries)
      ensures ok ==> (Valid() <==> totalSize == 0)
    {
      if !initialized || totalAccessors > 0 || !removed {
        return false;
      }
      EmptySums();
      entries := map[];
      ok := true;
    }
  }
}
