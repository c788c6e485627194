/**
 The scenario store: which scenarios exist, which are active, the fault that
 applies to a protocol, and the rate-limit windows.
 */
module ScenarioStore {
  import opened Options
  import opened Text
  import opened RateLimit

  /** A scenario's faults are absent, or hold a possibly absent fault per protocol. */
  datatype Scenario<+F> = Scenario(id: string, faults: Option<F>)

  /** The fault scenario `id` defines for the selected protocol. */
  function Offer<F, T>(scenarios: map<string, Scenario<F>>, selector: F -> Option<T>, id: string): Option<T> {
    if id in scenarios && scenarios[id].faults.Some? then selector(scenarios[id].faults.value) else None
  }

  /** `id` is the greatest active scenario that defines the fault. */
  ghost predicate Wins<F, T>(scenarios: map<string, Scenario<F>>, active: set<string>, selector: F -> Option<T>,
                             id: string) {
    && id in active && Offer(scenarios, selector, id).Some?
    && forall other | other in active && Offer(scenarios, selector, other).Some? :: other == id || Less(other, id)
  }

  /** The fault in effect: the winner's, or the direct one when no active scenario defines any. */
  ghost predicate InEffect<F, T>(scenarios: map<string, Scenario<F>>, active: set<string>, direct: F,
                                 selector: F -> Option<T>, fault: Option<T>) {
    if exists id | id in active :: Offer(scenarios, selector, id).Some? then
      exists id :: Wins(scenarios, active, selector, id) && fault == Offer(scenarios, selector, id)
    else
      fault == selector(direct)
  }

  /** There is one such fault, so the order in which the active set is walked cannot show. */
  lemma InEffectUnique<F, T>(scenarios: map<string, Scenario<F>>, active: set<string>, direct: F,
                             selector: F -> Option<T>, a: Option<T>, b: Option<T>)
    requires InEffect(scenarios, active, direct, selector, a) && InEffect(scenarios, active, direct, selector, b)
    ensures a == b
  {
    if exists id | id in active :: Offer(scenarios, selector, id).Some? {
      var i :| Wins(scenarios, active, selector, i) && a == Offer(scenarios, selector, i);
      var j :| Wins(scenarios, active, selector, j) && b == Offer(scenarios, selector, j);
      if i != j {
        LessAsymmetric(i, j);
      }
    }
  }

  class Store<F> {
    var scenarios: map<string, Scenario<F>>
    var active: set<string>
    var direct: F
    var rateWindows: map<string, Window>
    /** The requests counted so far under each key. */
    ghost var requests: map<string, seq<int>>

    /** Only scenarios that exist are active, and every window is the one its requests led to. */
    ghost predicate Valid()
      reads this
    {
      && active <= scenarios.Keys
      && (forall id | id in scenarios :: scenarios[id].id == id)
      && requests.Keys == rateWindows.Keys
      && forall key | key in requests :: requests[key] != [] && After(requests[key]) == Some(rateWindows[key])
    }

    constructor (noFaults: F)
      ensures Valid() && scenarios == map[] && active == {} && direct == noFaults && requests == map[]
    {
      scenarios, active, direct, rateWindows, requests := map[], {}, noFaults, map[], map[];
    }

    /** `Set`; a scenario without an id gets the generated one. */
    method Set(sc: Scenario<F>, generated: string) returns (stored: Scenario<F>)
      requires Valid()
      modifies this`scenarios
      ensures Valid()
      ensures stored == if sc.id == "" then sc.(id := generated) else sc
      ensures scenarios == old(scenarios)[stored.id := stored]
    {
      stored := if sc.id == "" then sc.(id := generated) else sc;
      scenarios := scenarios[stored.id := stored];
    }

    method Delete(id: string) returns (found: bool)
      requires Valid()
      modifies this`scenarios, this`active
      ensures Valid()
      ensures found <==> id in old(scenarios)
      ensures scenarios == old(scenarios) - {id} && active == old(active) - {id}
    {
      found := id in scenarios;
      scenarios := scenarios - {id};
      active := active - {id};
    }

    method Activate(id: string) returns (ok: bool)
      requires Valid()
      modifies this`active
      ensures Valid()
      ensures ok <==> id in scenarios
      ensures active == if ok then old(active) + {id} else old(active)
    {
      if id !in scenarios {
        return false;
      }
      active := active + {id};
      return true;
    }

    method Deactivate(id: string)
      requires Valid()
      modifies this`active
      ensures Valid() && active == old(active) - {id}
    {
      active := active - {id};
    }

    method SetDirectFaults(f: F)
      requires Valid()
      modifies this`direct
      ensures Valid() && direct == f
    {
      direct := f;
    }

    /** `effectiveFault`, walking the active set in whatever order it comes. */
    method EffectiveFault<T>(selector: F -> Option<T>) returns (fault: Option<T>)
      requires Valid()
      ensures InEffect(scenarios, active, direct, selector, fault)
    {
      var result: Option<T>, winner, rest := None, "", active;
      while rest != {}
        invariant rest <= active
        invariant result.None? ==> forall id | id in active - rest :: Offer(scenarios, selector, id).None?
        invariant result.Some? ==>
                  Wins(scenarios, active - rest, selector, winner) && result == Offer(scenarios, selector, winner)
        decreases rest
      {
        var id :| id in rest;
        ghost var seen := active - rest;
        var offer := Offer(scenarios, selector, id);
        rest := rest - {id};
        assert active - rest == seen + {id};
        if offer.Some? && (result.None? || Less(winner, id)) {
          if result.Some? {
            NewWinner(scenarios, seen, selector, winner, id);
          }
          result, winner := offer, id;
        } else if offer.Some? {
          LessTotal(winner, id);
        }
      }
      assert active - rest == active;
      if result.Some? {
        return result;
      }
      return selector(direct);
    }

    /** `RateLimited`: the request is turned away unless it passes among those seen under its key. */
    method RateLimited(key: string, perSecond: int, now: int) returns (limited: bool)
      requires Valid()
      modifies this`rateWindows, this`requests
      ensures Valid()
      ensures perSecond <= 0 ==> !limited && requests == old(requests)
      ensures perSecond > 0 ==>
                && requests == old(requests)[key := (if key in old(requests) then old(requests)[key] else []) + [now]]
                && (limited <==> !Passes(requests[key], perSecond))
    {
      if perSecond <= 0 {
        return false;
      }
      ghost var before := if key in requests then requests[key] else [];
      assert (before + [now])[..|before|] == before;
      var w := if key in rateWindows then rateWindows[key] else Window(now, 0);
      if key !in rateWindows || now - w.start >= SECOND {
        w := Window(now, 0);
      }
      w := w.(count := w.count + 1);
      rateWindows := rateWindows[key := w];
      requests := requests[key := before + [now]];
      return w.count > perSecond;
    }
  }

  lemma NewWinner<F, T>(scenarios: map<string, Scenario<F>>, seen: set<string>, selector: F -> Option<T>,
                        former: string, id: string)
    requires Wins(scenarios, seen, selector, former) && Less(former, id) && Offer(scenarios, selector, id).Some?
    ensures Wins(scenarios, seen + {id}, selector, id)
  {
    forall other | other in seen && Offer(scenarios, selector, other).Some?
      ensures other == id || Less(other, id)
    {
      if other != former {
        LessTransitive(other, former, id);
      }
    }
  }
}
