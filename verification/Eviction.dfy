/** The entries of the disk cache, their sizes, and eviction: which entries it erases, and exactly when
    it succeeds. */
module Eviction {
  import opened Strings

  // ---------------------------------------------------------------- sums over maps

  ghost function Sum(m: map<string, nat>): nat {
    if exists k :: k in m then
      var k :| k in m;
      m[k] + Sum(m - {k})
    else 0
  }

  lemma {:induction false} SumWithout(m: map<string, nat>, k: string)
    requires k in m
    ensures Sum(m) == m[k] + Sum(m - {k})
    decreases |m|
  {
    var j :| j in m && Sum(m) == m[j] + Sum(m - {j});
    if j != k {
      KeysWithout(m, j);
      KeysWithout(m, k);
      SumWithout(m - {j}, k);
      SumWithout(m - {k}, j);
      assert m - {j} - {k} == m - {k} - {j};
    }
  }

  lemma SumUpdate(m: map<string, nat>, k: string, v: nat)
    ensures Sum(m[k := v]) == Sum(m) + v - (if k in m then m[k] else 0)
  {
    var n := m[k := v];
    SumWithout(n, k);
    assert n - {k} == m - {k};
    if k in m {
      SumWithout(m, k);
    } else {
      assert m - {k} == m;
    }
  }

  // ---------------------------------------------------------------- entries

  datatype LockState = Unlocked | Locked | Unlocking

  datatype Entry = Entry(state: LockState, accessors: nat, size: nat, streams: nat, lastModified: int) {
    /** Only such an entry may be erased. */
    predicate Idle() { state == Unlocked && accessors == 0 }
  }

  type Entries = map<string, Entry>

  ghost function Sizes(entries: Entries): map<string, nat> { map id | id in entries :: entries[id].size }

  ghost function Accessors(entries: Entries): map<string, nat> { map id | id in entries :: entries[id].accessors }

  lemma KeysWithout<K, V>(m: map<K, V>, k: K)
    requires k in m
    ensures |m - {k}| == |m| - 1
  {
    assert (m - {k}).Keys == m.Keys - {k};
  }

  lemma SetEntry(entries: Entries, id: string, e: Entry)
    ensures Sum(Sizes(entries[id := e]))
         == Sum(Sizes(entries)) + e.size - (if id in entries then entries[id].size else 0)
    ensures Sum(Accessors(entries[id := e]))
         == Sum(Accessors(entries)) + e.accessors - (if id in entries then entries[id].accessors else 0)
  {
    SumUpdate(Sizes(entries), id, e.size);
    SumUpdate(Accessors(entries), id, e.accessors);
    assert Sizes(entries[id := e]) == Sizes(entries)[id := e.size];
    assert Accessors(entries[id := e]) == Accessors(entries)[id := e.accessors];
  }

  lemma EraseEntry(entries: Entries, id: string)
    requires id in entries
    ensures Sum(Sizes(entries - {id})) == Sum(Sizes(entries)) - entries[id].size
    ensures Sum(Accessors(entries - {id})) == Sum(Accessors(entries)) - entries[id].accessors
  {
    SumWithout(Sizes(entries), id);
    SumWithout(Accessors(entries), id);
    assert Sizes(entries - {id}) == Sizes(entries) - {id};
    assert Accessors(entries - {id}) == Accessors(entries) - {id};
  }

  // ---------------------------------------------------------------- totals

  ghost function Total(entries: Entries): nat { Sum(Sizes(entries)) }

  ghost predicate Within(some: Entries, entries: Entries) {
    forall id | id in some :: id in entries && some[id] == entries[id]
  }

  lemma TotalWithout(entries: Entries, id: string)
    requires id in entries
    ensures Total(entries - {id}) == Total(entries) - entries[id].size
  {
    EraseEntry(entries, id);
  }

  lemma TotalOfNone(entries: Entries)
    requires forall id :: id !in entries
    ensures Total(entries) == 0
  {
  }

  lemma {:induction false} TotalWithin(some: Entries, entries: Entries)
    requires Within(some, entries)
    ensures Total(some) <= Total(entries)
    decreases |some|
  {
    hide Total;
    if id :| id in some {
      TotalWithout(some, id);
      TotalWithout(entries, id);
      KeysWithout(some, id);
      TotalWithin(some - {id}, entries - {id});
    } else {
      TotalOfNone(some);
    }
  }

  // ---------------------------------------------------------------- the search for a victim

  /** The first idle entry in the order of the ids, in which the map is passed through. */
  ghost predicate FirstIdle(entries: Entries, first: string) {
    && first in entries && entries[first].Idle()
    && forall i | i in entries && entries[i].Idle() && i != first :: Less(first, i)
  }

  ghost predicate Follows(entries: Entries, id: string, next: string) {
    && next in entries && Less(id, next)
    && forall i | i in entries && Less(id, i) && i != next :: Less(next, i)
  }

  /** The older of two entries; of those last modified in the same second the one that the loop
      starts with, and otherwise the first one. */
  ghost predicate Beats(entries: Entries, next: string, u: string, v: string)
    requires u in entries && v in entries
  {
    || entries[u].lastModified < entries[v].lastModified
    || (entries[u].lastModified == entries[v].lastModified && (u == next || (v != next && Less(u, v))))
  }

  /** What the search comes to.  It starts with the entry after the first idle one and compares it
      with all from that one on, idle or not. */
  ghost predicate Victim(entries: Entries, first: string, next: string, v: string) {
    && FirstIdle(entries, first) && Follows(entries, first, next)
    && v in entries && !Less(v, first)
    && forall i | i in entries && !Less(i, first) && i != v :: Beats(entries, next, v, i)
  }

  /** Exactly when it finds an idle entry. */
  lemma VictimIsIdle(entries: Entries, first: string, next: string, v: string)
    requires Victim(entries, first, next, v)
    ensures entries[v].Idle()
       <==> forall b | b in entries && !entries[b].Idle() && !Less(b, first) ::
              exists i :: i in entries && entries[i].Idle() && Beats(entries, next, i, b)
  {
    forall i | i in entries && entries[i].Idle() && v != i ensures !Beats(entries, next, i, v) {
      if i != first {
        LessAsymmetric(first, i);
      }
      LessTotal(first, first);
      assert Beats(entries, next, v, i);
      if Less(i, v) && Less(v, i) {
        LessAsymmetric(v, i);
      }
    }
  }

  lemma OneVictim(entries: Entries, first: string, next: string, v: string, other: string, after: string, w: string)
    requires Victim(entries, first, next, v) && Victim(entries, other, after, w)
    ensures first == other && next == after && v == w
  {
    if first != other {
      LessAsymmetric(first, other);
    }
    if next != after {
      LessAsymmetric(next, after);
    }
    if v != w {
      assert Beats(entries, next, v, w) && Beats(entries, next, w, v);
      if Less(v, w) && Less(w, v) {
        LessAsymmetric(v, w);
      }
    }
  }

  /** Such a state: the search comes to a locked entry, although there is an idle one. */
  lemma LockedVictim(entries: Entries)
    requires entries == map["a" := Entry(Unlocked, 0, 1, 1, 7), "b" := Entry(Locked, 0, 1, 1, 3)]
    ensures Victim(entries, "a", "b", "b") && entries["a"].Idle() && !entries["b"].Idle()
  {
    Letters();
  }

  lemma Letters()
    ensures Less("a", "b") && !Less("b", "a") && "a" != "b"
  {
    assert SmallerAt("a", "b", 0);
    LessAsymmetric("a", "b");
  }

  /** The search comes to this entry, without reading past the end of the map, and it is idle. */
  ghost predicate Taken(entries: Entries, v: string) {
    exists first, next :: Victim(entries, first, next, v) && entries[v].Idle()
  }

  lemma TakenOnce(entries: Entries, v: string, first: string, next: string, w: string)
    requires Taken(entries, v) && Victim(entries, first, next, w)
    ensures v == w
  {
    var other, after :| Victim(entries, other, after, v) && entries[v].Idle();
    OneVictim(entries, first, next, w, other, after, v);
  }

  // ---------------------------------------------------------------- whose turn it is

  /** Everything between two idle entries of one time is gone when it is their turn. */
  ghost predicate Joined(entries: Entries, u: string, v: string)
    requires u in entries
  {
    forall w | w in entries && Less(u, w) && Less(w, v) ::
      entries[w].Idle() && entries[w].lastModified <= entries[u].lastModified
  }

  /** An idle entry that will be the first one when its time has come, and not be next to another
      one of that time. */
  ghost predicate Heads(entries: Entries, u: string)
    requires u in entries
  {
    forall w | w in entries && entries[w].Idle() && Less(w, u) ::
      || entries[w].lastModified < entries[u].lastModified
      || (entries[w].lastModified == entries[u].lastModified && !Joined(entries, w, u))
  }

  /** The order in which idle entries are erased: by time, then by id, except that the first one, with
      which the second loop does not start, goes after those of its time that directly follow it. */
  ghost predicate Before(entries: Entries, u: string, v: string)
    requires u in entries && v in entries
  {
    || entries[u].lastModified < entries[v].lastModified
    || (entries[u].lastModified == entries[v].lastModified && u != v
        && if Less(u, v) then !(Heads(entries, u) && Joined(entries, u, v))
           else Heads(entries, v) && Joined(entries, v, u))
  }

  lemma BeforeTotal(entries: Entries, u: string, v: string)
    requires u in entries && v in entries
    ensures !Before(entries, u, u)
    ensures u != v ==> (Before(entries, u, v) <==> !Before(entries, v, u))
  {
    LessTotal(u, v);
    if Less(u, v) {
      LessAsymmetric(u, v);
    }
  }

  /** Of three idle entries of one time. */
  lemma JoinedSplit(entries: Entries, u: string, v: string, w: string)
    requires u in entries && v in entries && entries[v].Idle()
    requires entries[u].lastModified == entries[v].lastModified
    requires Less(u, v) && Less(v, w)
    ensures Joined(entries, u, w) ==> Joined(entries, u, v) && Joined(entries, v, w)
    ensures Joined(entries, u, v) && Joined(entries, v, w) ==> Joined(entries, u, w)
  {
    hide Less;
    if Joined(entries, u, w) {
      forall x | x in entries && Less(u, x) && Less(x, v)
        ensures entries[x].Idle() && entries[x].lastModified <= entries[u].lastModified
      {
        LessTransitive(x, v, w);
      }
      assert Joined(entries, u, v);
      forall x | x in entries && Less(v, x) && Less(x, w)
        ensures entries[x].Idle() && entries[x].lastModified <= entries[v].lastModified
      {
        LessTransitive(u, v, x);
      }
      assert Joined(entries, v, w);
    }
    if Joined(entries, u, v) && Joined(entries, v, w) {
      forall x | x in entries && Less(u, x) && Less(x, w)
        ensures entries[x].Idle() && entries[x].lastModified <= entries[u].lastModified
      {
        LessTotal(x, v);
      }
      assert Joined(entries, u, w);
    }
  }

  lemma BeforeTransitive(entries: Entries, u: string, v: string, w: string)
    requires u in entries && v in entries && w in entries
    requires entries[u].Idle() && entries[v].Idle() && entries[w].Idle()
    requires Before(entries, u, v) && Before(entries, v, w)
    ensures Before(entries, u, w)
  {
    hide Less, Joined;
    if entries[u].lastModified == entries[w].lastModified {
      LessTotal(u, v);
      LessTotal(v, w);
      LessTotal(u, w);
      BeforeTotal(entries, u, v);
      SplitAnyway(entries, u, v, w);
      SplitAnyway(entries, u, w, v);
      SplitAnyway(entries, v, u, w);
      SplitAnyway(entries, v, w, u);
      SplitAnyway(entries, w, u, v);
      SplitAnyway(entries, w, v, u);
    }
  }

  lemma SplitAnyway(entries: Entries, u: string, v: string, w: string)
    requires u in entries && v in entries && w in entries && entries[v].Idle()
    requires entries[u].lastModified == entries[v].lastModified
    ensures Less(u, v) && Less(v, w) ==>
              && Less(u, w) && !Less(v, u) && !Less(w, v) && !Less(w, u)
              && (Joined(entries, u, w) <==> Joined(entries, u, v) && Joined(entries, v, w))
    ensures Less(u, v) ==> !Less(v, u)
    ensures Less(v, w) ==> !Less(w, v)
  {
    if Less(u, v) {
      LessAsymmetric(u, v);
    }
    if Less(v, w) {
      LessAsymmetric(v, w);
    }
    if Less(u, v) && Less(v, w) {
      JoinedSplit(entries, u, v, w);
      LessTransitive(u, v, w);
      LessAsymmetric(u, w);
    }
  }

  lemma {:induction false} FirstInTurn(entries: Entries, ids: set<string>) returns (v: string)
    requires ids != {} && forall id | id in ids :: id in entries && entries[id].Idle()
    ensures v in ids && forall u | u in ids && u != v :: Before(entries, v, u)
  {
    hide Before;
    var some :| some in ids;
    v := some;
    if ids != {some} {
      var rest := ids - {some};
      var other := FirstInTurn(entries, rest);
      BeforeTotal(entries, some, other);
      if Before(entries, some, other) {
        forall u | u in rest && u != other ensures Before(entries, some, u) {
          BeforeTransitive(entries, some, other, u);
        }
      } else {
        v := other;
      }
      assert forall u | u in ids :: u == some || u in rest;
    }
  }

  /** The entries that are left when it is the turn of one of them. */
  ghost function Rest(entries: Entries, v: string): Entries
    requires v in entries
  {
    map id | id in entries && (entries[id].Idle() ==> !Before(entries, id, v)) :: entries[id]
  }

  /** What is left is the entries in use and the idle ones that come last in the order. */
  ghost predicate Left(entries: Entries, left: Entries) {
    && Within(left, entries)
    && (forall id | id in entries && id !in left :: entries[id].Idle())
    && forall u, v | u in entries && u !in left && v in left && left[v].Idle() :: Before(entries, u, v)
  }

  lemma LeftIsRest(entries: Entries, left: Entries, v: string)
    requires Left(entries, left) && v in left && left[v].Idle()
    requires forall u | u in left && left[u].Idle() && u != v :: Before(entries, v, u)
    ensures left == Rest(entries, v) && Left(entries, left - {v})
  {
    hide Before;
    forall id | id in entries ensures id in left <==> id in Rest(entries, v) {
      BeforeTotal(entries, id, v);
    }
  }

  // ---------------------------------------------------------------- the search follows that order

  /** Going back over idle entries of one time that join each other. */
  lemma {:induction false} RunStart(entries: Entries, u: string) returns (start: string)
    requires u in entries && entries[u].Idle()
    ensures start in entries && entries[start].Idle() && entries[start].lastModified == entries[u].lastModified
    ensures start == u || (Less(start, u) && Joined(entries, start, u))
    ensures Heads(entries, start) || exists w :: && w in entries && entries[w].Idle() && Less(w, start)
                                                 && entries[w].lastModified > entries[start].lastModified
    decreases |Smaller(entries, u)|
  {
    hide Less, Joined;
    start := u;
    if !Heads(entries, u) {
      var w :| w in entries && entries[w].Idle() && Less(w, u)
               && !(|| entries[w].lastModified < entries[u].lastModified
                    || (entries[w].lastModified == entries[u].lastModified && !Joined(entries, w, u)));
      if entries[w].lastModified == entries[u].lastModified {
        FewerSmaller(entries, w, u);
        start := RunStart(entries, w);
        SplitAnyway(entries, start, w, u);
      }
    }
  }

  ghost function Smaller(entries: Entries, u: string): set<string> { set i | i in entries && Less(i, u) }

  lemma FewerSmaller(entries: Entries, w: string, u: string)
    requires w in entries && Less(w, u)
    ensures |Smaller(entries, w)| < |Smaller(entries, u)|
  {
    forall i | i in Smaller(entries, w) ensures i in Smaller(entries, u) && i != w {
      LessTransitive(i, w, u);
      LessTotal(w, w);
    }
    SmallerSet(Smaller(entries, w), Smaller(entries, u), w);
  }

  lemma {:induction false} SmallerSet(a: set<string>, b: set<string>, x: string)
    requires a <= b && x in b && x !in a
    ensures |a| < |b|
  {
    if y :| y in a {
      SmallerSet(a - {y}, b - {y}, x);
    }
  }

  /** Between the first idle entry left and the one that follows it, everything is gone. */
  lemma GoneBetween(entries: Entries, left: Entries, first: string, next: string, t: int)
    requires Left(entries, left) && FirstIdle(left, first) && Follows(left, first, next)
    requires left[first].lastModified == t
    ensures Joined(entries, first, next)
  {
    forall w | w in entries && Less(first, w) && Less(w, next)
      ensures entries[w].Idle() && entries[w].lastModified <= t
    {
      LessAsymmetric(w, next);
      assert w !in left;
      assert Before(entries, w, first);
    }
  }

  /** The first idle entry left, if nothing newer went before it, is where its run starts. */
  lemma FirstHeads(entries: Entries, left: Entries, first: string)
    requires Left(entries, left) && FirstIdle(left, first)
    ensures Heads(entries, first)
  {
    forall w | w in entries && entries[w].Idle() && Less(w, first)
      ensures || entries[w].lastModified < entries[first].lastModified
              || (entries[w].lastModified == entries[first].lastModified && !Joined(entries, w, first))
    {
      GoneBeforeFirst(entries, left, first, w);
      if entries[w].lastModified == entries[first].lastModified {
        NoneJoinsFirst(entries, left, first, w);
      }
    }
  }

  lemma NoneJoinsFirst(entries: Entries, left: Entries, first: string, w: string)
    requires Left(entries, left) && FirstIdle(left, first)
    requires w in entries && entries[w].Idle() && Less(w, first)
    requires entries[w].lastModified == entries[first].lastModified
    ensures !Joined(entries, w, first)
  {
    if Joined(entries, w, first) {
      var start := RunStart(entries, w);
      SplitAnyway(entries, start, w, first);
      GoneBeforeFirst(entries, left, first, start);
      var newer :| newer in entries && entries[newer].Idle() && Less(newer, start)
                   && entries[newer].lastModified > entries[start].lastModified;
      LessTransitive(newer, start, first);
      GoneBeforeFirst(entries, left, first, newer);
    }
  }

  lemma GoneBeforeFirst(entries: Entries, left: Entries, first: string, w: string)
    requires Left(entries, left) && FirstIdle(left, first)
    requires w in entries && entries[w].Idle() && Less(w, first)
    ensures w !in left && Before(entries, w, first) && entries[w].lastModified <= entries[first].lastModified
  {
    LessAsymmetric(w, first);
  }

  /** Whenever the search comes to an idle entry, it is that one's turn. */
  lemma TakenInTurn(entries: Entries, left: Entries, w: string, v: string)
    requires Left(entries, left) && Taken(left, w) && v in left && left[v].Idle() && v != w
    ensures Before(entries, w, v)
  {
    hide Less, Heads, Joined;
    var first, next :| Victim(left, first, next, w) && left[w].Idle();
    SeenFrom(left, first, v);
    SeenFrom(left, first, w);
    SeenFrom(left, first, next);
    assert Beats(left, next, w, v);
    LessTotal(v, w);
    if left[v].lastModified == left[w].lastModified {
      if Less(w, v) {
        LaterTie(entries, left, first, next, w, v);
      } else {
        EarlierTie(entries, left, first, next, w, v);
      }
    }
  }

  lemma SeenFrom(entries: Entries, first: string, v: string)
    requires FirstIdle(entries, first) && v in entries && (entries[v].Idle() || Less(first, v))
    ensures !Less(v, first)
  {
    if v != first {
      LessAsymmetric(first, v);
    }
    LessTotal(first, first);
  }

  /** What the search comes to does not go after later ones of its time. */
  lemma LaterTie(entries: Entries, left: Entries, first: string, next: string, w: string, v: string)
    requires Left(entries, left) && Victim(left, first, next, w) && v in left && left[v].Idle() && left[w].Idle()
    requires left[v].lastModified == left[w].lastModified && Less(w, v)
    ensures !(Heads(entries, w) && Joined(entries, w, v))
  {
    hide Less;
    SeenFrom(left, first, first);
    SeenFrom(left, first, next);
    LessTotal(first, next);
    GoneBetween(entries, left, first, next, left[first].lastModified);
    if first != w {
      assert Beats(left, next, w, first);
    } else if w != next {
      assert Beats(left, next, w, next);
    }
  }

  lemma EarlierTie(entries: Entries, left: Entries, first: string, next: string, w: string, v: string)
    requires Left(entries, left) && Victim(left, first, next, w) && v in left && left[v].Idle() && left[w].Idle()
    requires left[v].lastModified == left[w].lastModified && Less(v, w)
    ensures Before(entries, w, v)
  {
    hide Less;
    SeenFrom(left, first, v);
    LessTotal(v, w);
    SplitAnyway(entries, v, w, w);
    assert Beats(left, next, w, v);
    assert w == next;
    if v != first {
      SplitAnyway(entries, first, v, w);
      assert false;
    }
    FirstHeads(entries, left, first);
    GoneBetween(entries, left, first, next, entries[first].lastModified);
  }

  /** The idle entry whose turn it is beats all other idle ones. */
  lemma FirstInTurnBeats(entries: Entries, left: Entries, v: string, first: string, next: string, u: string)
    requires Left(entries, left) && FirstIdle(left, first) && Follows(left, first, next)
    requires v in left && left[v].Idle() && forall i | i in left && left[i].Idle() && i != v :: Before(entries, v, i)
    requires u in left && left[u].Idle() && u != v
    ensures Beats(left, next, v, u)
  {
    hide Less;
    LessTotal(u, v);
    LessTotal(first, first);
    SeenFrom(left, first, u);
    SeenFrom(left, first, v);
    GoneBetween(entries, left, first, next, left[first].lastModified);
    FirstHeads(entries, left, first);
    if left[u].lastModified == left[v].lastModified {
      if Less(u, v) {
        SplitAnyway(entries, u, v, v);
        if left[first].lastModified == left[u].lastModified {
          SplitAnyway(entries, first, u, v);
        }
        assert first == v || Before(entries, v, first);
        assert first == u;
        if next != v {
          assert Joined(entries, u, v) && Less(next, v);
          assert Before(entries, v, next);
          SplitAnyway(entries, first, next, v);
        }
      } else {
        SplitAnyway(entries, v, u, u);
        if u == next {
          LessTotal(v, first);
        }
      }
    }
  }

  /** When the search comes to the idle entry whose turn it is: it does not run past the end, and
      that entry beats the entries in use after the first idle one. */
  lemma TakenExactly(entries: Entries, left: Entries, v: string, first: string)
    requires Left(entries, left) && FirstIdle(left, first)
    requires v in left && left[v].Idle() && forall i | i in left && left[i].Idle() && i != v :: Before(entries, v, i)
    ensures Taken(left, v)
       <==> exists next ::
              && Follows(left, first, next)
              && forall b | b in left && !left[b].Idle() && Less(first, b) :: Beats(left, next, v, b)
  {
    hide Less, Before, Beats;
    forall next | Follows(left, first, next)
                  && forall b | b in left && !left[b].Idle() && Less(first, b) :: Beats(left, next, v, b)
      ensures Victim(left, first, next, v)
    {
      SeenFrom(left, first, v);
      forall i | i in left && !Less(i, first) && i != v ensures Beats(left, next, v, i) {
        LessTotal(i, first);
        if left[i].Idle() {
          FirstInTurnBeats(entries, left, v, first, next, i);
        }
      }
    }
    if Taken(left, v) {
      var other, next :| Victim(left, other, next, v) && left[v].Idle();
      if other != first {
        LessAsymmetric(first, other);
      }
      forall b | b in left && !left[b].Idle() && Less(first, b) ensures Beats(left, next, v, b) {
        SeenFrom(left, first, b);
      }
    }
  }

  // ---------------------------------------------------------------- what eviction comes to

  /** Erasing one victim after the other, as long as the rest is over the limit. */
  ghost predicate Evicting(entries: Entries, victims: seq<string>, limit: nat)
    decreases |victims|
  {
    victims == [] ||
    (&& Taken(entries, victims[0]) && Total(entries) > limit
     && Evicting(entries - {victims[0]}, victims[1..], limit))
  }

  ghost function After(entries: Entries, victims: seq<string>): Entries
    decreases |victims|
  {
    if victims == [] then entries else After(entries - {victims[0]}, victims[1..])
  }

  lemma {:induction false} EvictOneMore(entries: Entries, victims: seq<string>, limit: nat, id: string)
    requires Evicting(entries, victims, limit)
    requires Taken(After(entries, victims), id) && Total(After(entries, victims)) > limit
    ensures Evicting(entries, victims + [id], limit)
    ensures After(entries, victims + [id]) == After(entries, victims) - {id}
    decreases |victims|
  {
    hide Taken, Total;
    if victims == [] {
      assert [id][1..] == [];
    } else {
      EvictOneMore(entries - {victims[0]}, victims[1..], limit, id);
      assert (victims + [id])[1..] == victims[1..] + [id];
    }
  }

  /** It becomes the turn of an entry if erasing all idle entries before it is not enough. */
  ghost predicate Turn(entries: Entries, v: string, limit: nat) {
    v in entries && entries[v].Idle() && Total(Rest(entries, v)) > limit
  }

  ghost function Busy(entries: Entries): Entries {
    map id | id in entries && !entries[id].Idle() :: entries[id]
  }

  /** Eviction succeeds exactly if the entries in use are within the limit, and each entry whose turn
      it becomes is found then: it beats the entries in use after the first idle one, and the search
      does not run past the end. */
  ghost predicate Clears(entries: Entries, limit: nat) {
    && Total(Busy(entries)) <= limit
    && forall v | Turn(entries, v, limit) :: Taken(Rest(entries, v), v)
  }

  /** What is left then. */
  ghost function Remaining(entries: Entries, limit: nat): Entries {
    map id | id in entries && !Turn(entries, id, limit) :: entries[id]
  }

  lemma NoEviction(entries: Entries, limit: nat)
    ensures Evicting(entries, [], limit) && After(entries, []) == entries
  {
  }

  lemma NothingErased(entries: Entries)
    ensures Left(entries, entries)
  {
  }

  lemma OneTaken(entries: Entries, left: Entries, v: string, limit: nat)
    requires Left(entries, left) && Taken(left, v) && Total(left) > limit
    ensures Turn(entries, v, limit) && Taken(Rest(entries, v), v) && Left(entries, left - {v})
  {
    hide Taken, Before;
    assert v in left && left[v].Idle() by { TakenIdle(left, v); }
    forall u | u in left && left[u].Idle() && u != v ensures Before(entries, v, u) {
      TakenInTurn(entries, left, v, u);
    }
    LeftIsRest(entries, left, v);
  }

  lemma TakenIdle(entries: Entries, v: string)
    requires Taken(entries, v)
    ensures v in entries && entries[v].Idle()
  {
  }

  /** Whatever has been erased had its turn. */
  lemma {:induction false} ErasedInTurn(entries: Entries, left: Entries, victims: seq<string>, limit: nat)
    requires Left(entries, left) && Evicting(left, victims, limit)
    ensures Left(entries, After(left, victims))
    ensures forall id | id in left :: id in victims <==> id !in After(left, victims)
    ensures forall v | v in victims :: v in left && Turn(entries, v, limit) && Taken(Rest(entries, v), v)
    decreases |victims|
  {
    hide Left, Taken, Turn, Rest, Total;
    if victims != [] {
      var v := victims[0];
      TakenIdle(left, v);
      OneTaken(entries, left, v, limit);
      ErasedInTurn(entries, left - {v}, victims[1..], limit);
      assert victims == [v] + victims[1..];
      StaysOut(left - {v}, victims[1..], v);
    }
  }

  lemma {:induction false} StaysOut(entries: Entries, victims: seq<string>, id: string)
    requires id !in entries
    ensures id !in After(entries, victims)
    decreases |victims|
  {
    if victims != [] {
      StaysOut(entries - {victims[0]}, victims[1..], id);
    }
  }

  lemma NoTurnWithin(entries: Entries, left: Entries, limit: nat, v: string)
    requires Left(entries, left) && Total(left) <= limit && v in left
    ensures !Turn(entries, v, limit)
  {
    hide Total, Before;
    if entries[v].Idle() {
      assert Within(Rest(entries, v), left);
      TotalWithin(Rest(entries, v), left);
    }
  }

  lemma BusyLeft(entries: Entries, left: Entries)
    requires Left(entries, left)
    ensures Total(Busy(entries)) <= Total(left) && Busy(left) == Busy(entries)
  {
    TotalWithin(Busy(entries), left);
  }

  /** Coming within the limit settles everything: the condition holds, and what has been erased is
      what had its turn. */
  lemma WithinIsClear(entries: Entries, victims: seq<string>, limit: nat)
    requires Evicting(entries, victims, limit) && Total(After(entries, victims)) <= limit
    ensures Clears(entries, limit) && After(entries, victims) == Remaining(entries, limit)
    ensures forall id :: id in victims <==> Turn(entries, id, limit)
  {
    hide Left, Taken, Turn, Rest, Total, Evicting, After, Busy;
    NothingErased(entries);
    ErasedInTurn(entries, entries, victims, limit);
    var left := After(entries, victims);
    BusyLeft(entries, left);
    forall v | Turn(entries, v, limit) ensures v in victims && Taken(Rest(entries, v), v) {
      TurnThere(entries, v, limit);
      if v in left {
        NoTurnWithin(entries, left, limit, v);
      }
    }
    LeftWithin(entries, left);
    assert forall id | id in entries :: id in left <==> id in Remaining(entries, limit);
  }

  lemma TurnThere(entries: Entries, v: string, limit: nat)
    requires Turn(entries, v, limit)
    ensures v in entries && entries[v].Idle()
  {
  }

  lemma LeftWithin(entries: Entries, left: Entries)
    requires Left(entries, left)
    ensures Within(left, entries) && forall id | id in entries && id !in left :: entries[id].Idle()
  {
  }

  lemma NoneIdleLeft(entries: Entries, left: Entries)
    requires Left(entries, left) && forall id | id in left :: !left[id].Idle()
    ensures Total(left) <= Total(Busy(entries))
  {
    TotalWithin(left, Busy(entries));
  }

  /** As long as the condition holds, there is a next step. */
  lemma NextTaken(entries: Entries, left: Entries, limit: nat) returns (v: string)
    requires Left(entries, left) && Clears(entries, limit) && Total(left) > limit
    ensures Taken(left, v)
  {
    hide Taken, Before, Total;
    var idle := set id | id in left && left[id].Idle();
    if forall id | id in left :: !left[id].Idle() {
      NoneIdleLeft(entries, left);
      assert false;
    }
    var some :| some in left && left[some].Idle();
    assert some in idle;
    v := FirstInTurn(entries, idle);
    LeftIsRest(entries, left, v);
    assert Turn(entries, v, limit);
  }

  lemma {:induction false} EvictRest(entries: Entries, left: Entries, limit: nat) returns (victims: seq<string>)
    requires Left(entries, left) && Clears(entries, limit)
    ensures Evicting(left, victims, limit) && Total(After(left, victims)) <= limit
    decreases |left|
  {
    hide Left, Clears, Taken, Total;
    victims := [];
    if Total(left) > limit {
      var v := NextTaken(entries, left, limit);
      OneTaken(entries, left, v, limit);
      TakenIdle(left, v);
      KeysWithout(left, v);
      var rest := EvictRest(entries, left - {v}, limit);
      victims := [v] + rest;
      assert victims[1..] == rest;
    }
  }

  /** Eviction comes within the limit if and only if the condition holds, which is one on the entries
      as they are before. */
  lemma EvictsExactly(entries: Entries, limit: nat)
    ensures Clears(entries, limit)
       <==> exists victims :: Evicting(entries, victims, limit) && Total(After(entries, victims)) <= limit
  {
    hide Clears, Total, Evicting, After;
    NothingErased(entries);
    if Clears(entries, limit) {
      var victims := EvictRest(entries, entries, limit);
    }
    forall victims | Evicting(entries, victims, limit) && Total(After(entries, victims)) <= limit
      ensures Clears(entries, limit)
    {
      WithinIsClear(entries, victims, limit);
    }
  }

  /** When it takes a given entry on the way. */
  ghost predicate CanLose(entries: Entries, id: string, limit: nat) {
    Clears(entries, limit) && Turn(entries, id, limit)
  }

  lemma LosesExactly(entries: Entries, id: string, limit: nat)
    ensures CanLose(entries, id, limit)
       <==> exists victims ::
              Evicting(entries, victims, limit) && id in victims && Total(After(entries, victims)) <= limit
  {
    hide Clears, Turn, Total, Evicting, After;
    NothingErased(entries);
    if CanLose(entries, id, limit) {
      var victims := EvictRest(entries, entries, limit);
      WithinIsClear(entries, victims, limit);
    }
    forall victims | Evicting(entries, victims, limit) && id in victims && Total(After(entries, victims)) <= limit
      ensures CanLose(entries, id, limit)
    {
      WithinIsClear(entries, victims, limit);
    }
  }

  /** The locked entry that the search comes to in `LockedVictim` keeps eviction from succeeding. */
  lemma LockedKeeps(entries: Entries, limit: nat)
    requires entries == map["a" := Entry(Unlocked, 0, 1, 1, 7), "b" := Entry(Locked, 0, 1, 1, 3)] && limit < 2
    ensures !Clears(entries, limit) && !CanLose(entries, "a", limit)
  {
    hide Total, Taken;
    LockedVictim(entries);
    BeforeTotal(entries, "a", "a");
    assert Rest(entries, "a") == entries;
    TotalWithout(entries, "a");
    TotalWithout(entries - {"a"}, "b");
    if Taken(entries, "a") {
      TakenOnce(entries, "a", "a", "b", "b");
    }
  }

  /** It does happen: of two idle entries the older one is too large. */
  lemma LostEntry(entries: Entries)
    requires entries == map["a" := Entry(Unlocked, 0, 5, 1, 1), "b" := Entry(Unlocked, 0, 1, 1, 2)]
    ensures CanLose(entries, "a", 3)
  {
    hide Total;
    Letters();
    LessTotal("a", "a");
    LessTotal("b", "b");
    assert Victim(entries, "a", "b", "a");
    assert Rest(entries, "a") == entries && Rest(entries, "b") == entries - {"a"};
    TotalWithout(entries, "a");
    TotalWithout(entries - {"a"}, "b");
    TotalOfNone(entries - {"a"} - {"b"});
    TotalOfNone(Busy(entries));
  }

  /** An empty entry newer than all others is never lost. */
  lemma NewestIsSafe(entries: Entries, id: string, limit: nat)
    requires id in entries && entries[id].Idle() && entries[id].size == 0
    requires forall i | i in entries && i != id :: entries[i].lastModified < entries[id].lastModified
    ensures !CanLose(entries, id, limit)
  {
    BeforeTotal(entries, id, id);
    var rest := Rest(entries, id);
    TotalWithout(rest, id);
    assert rest - {id} == Busy(entries);
  }

  // ---------------------------------------------------------------- how eviction ends

  /** Within the limit, with nothing idle, past the end of the map, at an entry in use, or at a file
      that could not be deleted. */
  datatype Halt = WithinLimit | NoneIdle | PastEnd | InUse | FileKept

  ghost predicate Halted(halt: Halt, entries: Entries, total: nat, limit: nat) {
    match halt
    case WithinLimit => total <= limit
    case NoneIdle => total > limit && forall id | id in entries :: !entries[id].Idle()
    case PastEnd => total > limit && exists first :: LastIsFirstIdle(entries, first)
    case InUse => total > limit && exists first, next, v :: Victim(entries, first, next, v) && !entries[v].Idle()
    case FileKept => true
  }

  /** The second loop starts past the end of the map. */
  ghost predicate LastIsFirstIdle(entries: Entries, first: string) {
    FirstIdle(entries, first) && forall i | i in entries :: !Less(first, i)
  }

  /** A whole eviction, which erases entries as long as the total is over the limit, and no longer
      unless it comes to a halt. */
  ghost predicate Swept(before: Entries, now: Entries, total: nat, limit: nat, halt: Halt, victims: seq<string>) {
    && Evicting(before, victims, limit) && now == After(before, victims)
    && total == Total(now) && Halted(halt, now, total, limit)
    && (halt == FileKept ==> victims != [])
  }

  lemma HaltedStuck(halt: Halt, entries: Entries, limit: nat, v: string)
    requires Halted(halt, entries, Total(entries), limit) && halt != WithinLimit && halt != FileKept
    ensures !Taken(entries, v) && Total(entries) > limit
  {
    hide Total;
    if first, next :| Victim(entries, first, next, v) && entries[v].Idle() {
      match halt
      case NoneIdle =>
      case InUse =>
        var other, after, w :| Victim(entries, other, after, w) && !entries[w].Idle();
        OneVictim(entries, first, next, v, other, after, w);
      case PastEnd =>
    }
  }

  /** The outcome of an eviction is settled by the entries before it, unless a file is kept. */
  lemma SweptExactly(before: Entries, now: Entries, limit: nat, halt: Halt, victims: seq<string>)
    requires Swept(before, now, Total(now), limit, halt, victims)
    ensures halt != FileKept ==> (halt == WithinLimit <==> Clears(before, limit))
    ensures halt == WithinLimit ==>
              now == Remaining(before, limit) && forall id :: id in victims <==> Turn(before, id, limit)
    ensures Evicted(before, now) && forall id | id in before :: id in victims <==> id !in now
  {
    hide Evicting, After, Total, Clears, Turn, Taken, Rest, Remaining;
    NothingErased(before);
    ErasedInTurn(before, before, victims, limit);
    LeftWithin(before, now);
    if halt == WithinLimit {
      WithinIsClear(before, victims, limit);
    } else if halt != FileKept && Clears(before, limit) {
      HaltedStuck(halt, now, limit, "");
      var v := NextTaken(before, now, limit);
      HaltedStuck(halt, now, limit, v);
    }
  }

  /** Entries are as before, except that idle ones may be gone. */
  ghost predicate Evicted(before: Entries, now: Entries) {
    && (forall id | id in now :: id in before && now[id] == before[id])
    && (forall id | id in before && id !in now :: before[id].Idle())
  }

  /** A halt at an entry in use needs one that is not newer than some idle entry, while erasing all
      idle entries older than it is not enough. */
  ghost predicate CanBlock(entries: Entries, limit: nat) {
    exists j, i ::
      && j in entries && !entries[j].Idle()
      && i in entries && entries[i].Idle() && entries[j].lastModified <= entries[i].lastModified
      && limit < Total(NotOlder(entries, entries[j].lastModified))
  }

  ghost function NotOlder(entries: Entries, time: int): Entries {
    map id | id in entries && (entries[id].Idle() ==> time <= entries[id].lastModified) :: entries[id]
  }

  lemma BlockedByOlder(before: Entries, now: Entries, limit: nat, victims: seq<string>)
    requires Swept(before, now, Total(now), limit, InUse, victims)
    ensures CanBlock(before, limit)
  {
    hide Evicting, After, Total, Clears, Turn, Taken, Rest, Remaining, Less;
    SweptExactly(before, now, limit, InUse, victims);
    var first, next, j :| Victim(now, first, next, j) && !now[j].Idle();
    forall i | i in now && now[i].Idle() ensures now[j].lastModified <= now[i].lastModified {
      SeenFrom(now, first, i);
      assert Beats(now, next, j, i);
    }
    TotalWithin(now, NotOlder(before, now[j].lastModified));
    assert before[first].Idle() && before[j].lastModified <= before[first].lastModified;
  }
}
