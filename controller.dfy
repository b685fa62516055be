/** The controller's store of the latest statistics each agent reported:
    agent ID to a (possibly nil) snapshot. Each method is one atomic step;
    the lock that serialises them is not modelled. */
module Controller {
  import Faild

  /** The store that a sequence of `Set(agent, stats)` calls builds from an
      empty map, the last call for an agent deciding its entry. */
  function Replay(log: seq<(string, Faild.Stats?)>): map<string, Faild.Stats?>
    decreases |log|
  {
    if log == [] then map[]
    else Replay(log[..|log| - 1])[log[|log| - 1].0 := log[|log| - 1].1]
  }

  /** The agents that some call in `log` names. */
  function Agents(log: seq<(string, Faild.Stats?)>): set<string>
  {
    set i | 0 <= i < |log| :: log[i].0
  }

  /** No entry is ever removed: the keys are exactly the agents ever set. */
  lemma {:induction false} ReplayKeys(log: seq<(string, Faild.Stats?)>)
    ensures Replay(log).Keys == Agents(log)
    decreases |log|
  {
    if log != [] {
      var n := |log| - 1;
      var init := log[..n];
      ReplayKeys(init);
      forall a | a in Agents(log) ensures a in Replay(log) {
        var i :| 0 <= i < |log| && log[i].0 == a;
        if i < n {
          assert init[i] == log[i];
        }
      }
      forall a | a in Replay(log) ensures a in Agents(log) {
        if a != log[n].0 {
          var i :| 0 <= i < |init| && init[i].0 == a;
          assert log[i] == init[i];
        }
      }
    }
  }

  /** The last `Set` for an agent decides what `Get` returns for it. */
  lemma {:induction false} ReplayLastWins(log: seq<(string, Faild.Stats?)>, j: int)
    requires 0 <= j < |log|
    requires forall i :: j < i < |log| ==> log[i].0 != log[j].0
    ensures log[j].0 in Replay(log) && Replay(log)[log[j].0] == log[j].1
    decreases |log|
  {
    var n := |log| - 1;
    if j < n {
      var init := log[..n];
      assert init[j] == log[j];
      forall i | j < i < |init| ensures init[i].0 != init[j].0 {
        assert init[i] == log[i];
      }
      ReplayLastWins(init, j);
    }
  }

  class GlobalStats {
    /** The store itself. */
    var m: map<string, Faild.Stats?>
    /** Every `Set` so far, oldest first. */
    ghost var Log: seq<(string, Faild.Stats?)>

    ghost predicate Valid()
      reads this
    {
      m == Replay(Log)
    }

    constructor()
      ensures Valid() && m == map[] && Log == []
    {
      m := map[];
      Log := [];
    }

    /** The entry for `agent`, and whether there is one; nil and false for
        an agent never set. */
    method Get(agent: string) returns (stats: Faild.Stats?, found: bool)
      ensures found <==> agent in m
      ensures found ==> stats == m[agent]
      ensures !found ==> stats == null
    {
      if agent in m {
        stats, found := m[agent], true;
      } else {
        stats, found := null, false;
      }
    }

    /** Stores `stats` (possibly nil) for `agent`, overwriting any entry
        and leaving every other agent's entry as it was. */
    method Set(agent: string, stats: Faild.Stats?)
      requires Valid()
      modifies this
      ensures Valid()
      ensures Log == old(Log) + [(agent, stats)]
      ensures m == old(m)[agent := stats]
    {
      m := m[agent := stats];
      Log := Log + [(agent, stats)];
      assert Log[..|Log| - 1] == old(Log);
    }

    /** A copy of the store, entry by entry. */
    method Dump() returns (dump: map<string, Faild.Stats?>)
      ensures dump == m
    {
      dump := map[];
      var todo := m.Keys;
      while todo != {}
        invariant todo <= m.Keys
        invariant dump == map k | k in m.Keys - todo :: m[k]
        decreases |todo|
      {
        var k :| k in todo;
        dump := dump[k := m[k]];
        todo := todo - {k};
      }
    }
  }

  /** After `Set(a, s)`, `Get(a)` gives `(s, true)`, and `Get` of any other
      agent gives what it gave before. */
  method SetThenGet(g: GlobalStats, a: string, s: Faild.Stats?, other: string)
    returns (stats: Faild.Stats?, found: bool,
             otherBefore: Faild.Stats?, foundBefore: bool, otherAfter: Faild.Stats?, foundAfter: bool)
    requires g.Valid() && other != a
    modifies g
    ensures stats == s && found
    ensures otherAfter == otherBefore && foundAfter == foundBefore
  {
    otherBefore, foundBefore := g.Get(other);
    g.Set(a, s);
    stats, found := g.Get(a);
    otherAfter, foundAfter := g.Get(other);
  }

  /** `Get` of an agent that was never set gives `(nil, false)`. */
  method GetNeverSet(g: GlobalStats, a: string) returns (stats: Faild.Stats?, found: bool)
    requires g.Valid() && a !in Agents(g.Log)
    ensures stats == null && !found
  {
    ReplayKeys(g.Log);
    stats, found := g.Get(a);
  }

  /** A dump is a snapshot: a later `Set` leaves it as it was, and the
      store's keys are exactly the agents ever set. */
  method DumpThenSet(g: GlobalStats, a: string, s: Faild.Stats?) returns (dump: map<string, Faild.Stats?>)
    requires g.Valid()
    modifies g
    ensures dump == old(g.m)
    ensures g.m.Keys == dump.Keys + {a} == Agents(g.Log)
  {
    dump := g.Dump();
    g.Set(a, s);
    ReplayKeys(g.Log);
  }
}
