/** Which account a conversation last used: a bounded map with first-in-first-out eviction,
    kept as a map and a queue of its keys. */
module Affinity {
  import opened Machine

  datatype Sessions<V> = Sessions(last: map<string, V>, order: seq<string>, capacity: nat) {
    /** The map and the queue are one index. */
    ghost predicate Valid() {
      OneIndex() && |order| <= capacity
    }

    ghost predicate OneIndex() {
      && (forall i, j :: 0 <= i < j < |order| ==> order[i] != order[j])
      && (forall k :: k in order <==> k in last)
    }

    function Remember(session: string, account: V): Sessions<V> {
      var known := session in last;
      var updated := this.(last := last[session := account]);
      if known then updated
      else updated.(order := order + [session]).Evict()
    }

    /** Drop the oldest keys until the queue fits. */
    function Evict(): Sessions<V>
      decreases |order|
    {
      if |order| <= capacity then this
      else this.(last := last - {order[0]}, order := order[1..]).Evict()
    }

    function Lookup(session: string): Option<V> {
      if session in last then Some(last[session]) else None
    }
  }

  lemma EvictsTheHead<V>(s: Sessions<V>)
    requires s.OneIndex() && s.capacity >= 1 && |s.order| == s.capacity + 1
    ensures s.Evict() == Sessions(s.last - {s.order[0]}, s.order[1..], s.capacity)
    ensures s.Evict().Valid()
  {
    var r := Sessions(s.last - {s.order[0]}, s.order[1..], s.capacity);
    assert s.Evict() == r.Evict() == r;
    forall k
      ensures k in r.order <==> k in r.last
    {
      assert s.order == [s.order[0]] + r.order;
    }
  }

  lemma AppendKeepsOneIndex<V>(s: Sessions<V>, session: string, account: V)
    requires s.OneIndex() && session !in s.last
    ensures Sessions(s.last[session := account], s.order + [session], s.capacity).OneIndex()
  {
  }

  /** One call: at most the oldest session is forgotten, and only to make room for a new one. */
  lemma RememberKeepsIndex<V>(s: Sessions<V>, session: string, account: V)
    requires s.Valid() && s.capacity >= 1
    ensures var r := s.Remember(session, account);
      && r.Valid() && r.capacity == s.capacity
      && r.Lookup(session) == Some(account)
      && r.order == (if session in s.last then s.order
                     else if |s.order| < s.capacity then s.order + [session]
                     else s.order[1..] + [session])
      && (forall k :: k in r.last && k != session ==> r.Lookup(k) == s.Lookup(k))
  {
    if session !in s.last {
      var grown := Sessions(s.last[session := account], s.order + [session], s.capacity);
      AppendKeepsOneIndex(s, session, account);
      if |s.order| == s.capacity {
        EvictsTheHead(grown);
        assert grown.order[0] == s.order[0] && s.order[0] in s.last;
      }
    }
  }

  // ----- Runs -----

  datatype Use<V> = Use(session: string, account: V)

  function RememberAll<V>(capacity: nat, run: seq<Use<V>>): Sessions<V> {
    if run == [] then Sessions(map[], [], capacity)
    else
      var last := run[|run| - 1];
      RememberAll(capacity, run[..|run| - 1]).Remember(last.session, last.account)
  }

  /** The account the session was last routed to, over the whole run. */
  function LastUse<V>(run: seq<Use<V>>, session: string): Option<V> {
    if run == [] then None
    else
      var last := run[|run| - 1];
      if last.session == session then Some(last.account) else LastUse(run[..|run| - 1], session)
  }

  /** The position where the session last entered the queue: the start of its current stay. */
  function Entered<V>(capacity: nat, run: seq<Use<V>>, session: string): int {
    if run == [] then -1
    else
      var earlier := run[..|run| - 1];
      if run[|run| - 1].session == session && session !in RememberAll(capacity, earlier).last
      then |run| - 1
      else Entered(capacity, earlier, session)
  }

  /** The queue is in order of entry, and nothing entered in the future. */
  ghost predicate InOrderOfEntry<V>(capacity: nat, run: seq<Use<V>>, order: seq<string>) {
    && (forall i, j :: 0 <= i < j < |order| ==>
          Entered(capacity, run, order[i]) < Entered(capacity, run, order[j]))
    && (forall k :: Entered(capacity, run, k) < |run|)
  }

  lemma EntryOrderKept<V>(capacity: nat, run: seq<Use<V>>)
    requires run != []
    requires var s := RememberAll(capacity, run[..|run| - 1]);
      s.Valid() && s.capacity == capacity >= 1 && InOrderOfEntry(capacity, run[..|run| - 1], s.order)
    ensures InOrderOfEntry(capacity, run, RememberAll(capacity, run).order)
  {
    var earlier, last := run[..|run| - 1], run[|run| - 1];
    var s, t := RememberAll(capacity, earlier), RememberAll(capacity, run);
    RememberKeepsIndex(s, last.session, last.account);
    forall i, j | 0 <= i < j < |t.order|
      ensures Entered(capacity, run, t.order[i]) < Entered(capacity, run, t.order[j])
    {
      LaterEnteredLater(capacity, run, s, t.order, i, j);
    }
    forall k ensures Entered(capacity, run, k) < |run| {
      EnteredNext(capacity, run, k);
    }
  }

  lemma LaterEnteredLater<V>(capacity: nat, run: seq<Use<V>>, s: Sessions<V>, order: seq<string>, i: nat, j: nat)
    requires run != [] && s == RememberAll(capacity, run[..|run| - 1]) && s.Valid() && s.capacity == capacity >= 1
    requires InOrderOfEntry(capacity, run[..|run| - 1], s.order) && i < j < |order|
    requires var session := run[|run| - 1].session;
      order == (if session in s.last then s.order
                else if |s.order| < capacity then s.order + [session]
                else s.order[1..] + [session])
    ensures Entered(capacity, run, order[i]) < Entered(capacity, run, order[j])
  {
    var shift := if run[|run| - 1].session in s.last || |s.order| < capacity then 0 else 1;
    EnteredNext(capacity, run, order[i]);
    EnteredNext(capacity, run, order[j]);
    assert order[i] == s.order[i + shift] && s.order[i + shift] in s.last;
    assert j + shift < |s.order| ==> order[j] == s.order[j + shift] && s.order[j + shift] in s.last;
  }

  lemma EnteredNext<V>(capacity: nat, run: seq<Use<V>>, k: string)
    requires run != []
    ensures var earlier := run[..|run| - 1];
      Entered(capacity, run, k) ==
        if run[|run| - 1].session == k && k !in RememberAll(capacity, earlier).last then |run| - 1
        else Entered(capacity, earlier, k)
  {
  }

  /** After any run the index is consistent, a surviving session answers with its last
      account, the session used last survives, and the queue is in order of entry: so the head, next to be evicted, is the
      session that has been in it longest. */
  lemma {:induction false} AffinityOverRuns<V>(capacity: nat, run: seq<Use<V>>)
    requires capacity >= 1
    ensures var s := RememberAll(capacity, run);
      && s.Valid() && s.capacity == capacity
      && (forall k :: k in s.last ==> s.Lookup(k) == LastUse(run, k))
      && (run != [] ==> s.Lookup(run[|run| - 1].session) == Some(run[|run| - 1].account))
      && InOrderOfEntry(capacity, run, s.order)
  {
    if run != [] {
      var earlier, last := run[..|run| - 1], run[|run| - 1];
      AffinityOverRuns(capacity, earlier);
      RememberKeepsIndex(RememberAll(capacity, earlier), last.session, last.account);
      EntryOrderKept(capacity, run);
    }
  }
}
