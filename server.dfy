/**
 * The oracle coordinator: it registers a pool of oracle accounts with the
 * FlightSuretyApp contract, keeps the indexes the contract assigned to each,
 * answers every OracleRequest event from exactly the oracles holding the
 * requested index, registers a fixed list of flights and caches every
 * FlightRegistered event for the `/api/flights` endpoint.
 *
 * Contract calls are opaque: their outcomes are parameters.
 */
module OracleServer {
  import opened Common

  /** The status codes an oracle may report (`statuses`). */
  const Statuses: seq<nat> := [0, 10, 20, 30, 40, 50]

  /** The flights registered at start-up, in this order. */
  const BootstrapFlightNames: seq<string> := ["Fly Airpeace", "Dana Airways", "Arik Air"]

  /** How many accounts after the default one become oracles. */
  const OracleCount: nat := 20

  /** A position in `Statuses`: what the injected sampler picks. */
  type StatusChoice = c: nat | c < 6

  /** The fields of an OracleRequest event. */
  datatype OracleRequest = OracleRequest(index: nat, airline: Address, flight: string, timestamp: nat)

  /** What the OracleRequest subscription passes to its callback. */
  datatype RequestEvent = RequestError(message: string) | Request(request: OracleRequest)

  /** One `submitOracleResponse` call, sent `from` an oracle account. */
  datatype Submission = Submission(index: nat, airline: Address, flight: string, timestamp: nat,
                                   status: nat, from: Address)

  /** A submission together with whether the contract accepted it. */
  datatype Attempt = Attempt(submission: Submission, accepted: bool)

  /** The fields of a FlightRegistered event, kept as one cached record. */
  datatype FlightRecord = FlightRecord(flight: string, key: string, timestamp: nat, airline: Address)

  /** What the FlightRegistered subscription passes to its callback. */
  datatype FlightEvent = FlightEventError(message: string) | FlightRegistered(record: FlightRecord)

  /** One `registerFlight` call; `airline` and `from` are the default account, undefined when there is none. */
  datatype FlightRegistration = FlightRegistration(airline: Option<Address>, flight: string, timestamp: nat,
                                                   from: Option<Address>)

  function Min(a: nat, b: nat): (m: nat)
    ensures m <= a && m <= b && (m == a || m == b)
  {
    if a <= b then a else b
  }

  /** `result.slice(1, 21)`: the oracle accounts. */
  function OraclePool(result: seq<Address>): (pool: seq<Address>)
    ensures |pool| == if |result| <= 1 then 0 else Min(|result| - 1, OracleCount)
    ensures forall i :: 0 <= i < |pool| ==> pool[i] == result[i + 1]
  {
    if |result| <= 1 then [] else result[1..Min(|result|, OracleCount + 1)]
  }

  /** When the node's accounts are distinct, the default account is never an oracle. */
  lemma DefaultAccountIsNoOracle(result: seq<Address>)
    requires |result| > 0 && NoDuplicates(result)
    ensures result[0] !in OraclePool(result)
    ensures |OraclePool(result)| <= OracleCount
  {
    var pool := OraclePool(result);
    assert forall i :: 0 <= i < |pool| ==> pool[i] == result[i + 1] != result[0];
  }

  /** `hash[account].includes(index)` for an account of `Object.keys(hash)`: some position holds the index. */
  predicate Eligible(hash: map<Address, seq<nat>>, account: Address, index: nat): (b: bool)
    ensures b <==> account in hash && exists k :: 0 <= k < |hash[account]| && hash[account][k] == index
  {
    account in hash && index in hash[account]
  }

  /** The accounts of `keys`, in their order, whose stored indexes include `index`. */
  function Matching(keys: seq<Address>, hash: map<Address, seq<nat>>, index: nat): (m: seq<Address>)
    ensures |m| <= |keys|
    ensures forall j :: 0 <= j < |m| ==> Eligible(hash, m[j], index)
  {
    if keys == [] then []
    else
      var last := keys[|keys| - 1];
      Matching(keys[..|keys| - 1], hash, index) + (if Eligible(hash, last, index) then [last] else [])
  }

  /** An account answers a request exactly when it is a registry key holding the index. */
  lemma {:induction false} MatchingExactly(keys: seq<Address>, hash: map<Address, seq<nat>>, index: nat, a: Address)
    ensures a in Matching(keys, hash, index) <==> a in keys && Eligible(hash, a, index)
  {
    if keys != [] {
      var init := keys[..|keys| - 1];
      MatchingExactly(init, hash, index, a);
      assert keys == init + [keys[|keys| - 1]];
    }
  }

  /** Matching is a filter: it distributes over concatenation, so it keeps the registry order. */
  lemma {:induction false} MatchingConcat(front: seq<Address>, back: seq<Address>, hash: map<Address, seq<nat>>, index: nat)
    ensures Matching(front + back, hash, index) == Matching(front, hash, index) + Matching(back, hash, index)
  {
    if back == [] {
      assert front + back == front;
    } else {
      var init := back[..|back| - 1];
      MatchingConcat(front, init, hash, index);
      assert (front + back)[..|front + back| - 1] == front + init;
    }
  }

  /** Each matching account answers once: no account is listed twice. */
  lemma {:induction false} MatchingNoDuplicates(keys: seq<Address>, hash: map<Address, seq<nat>>, index: nat)
    requires NoDuplicates(keys)
    ensures NoDuplicates(Matching(keys, hash, index))
  {
    if keys != [] {
      var init := keys[..|keys| - 1];
      var last := keys[|keys| - 1];
      assert NoDuplicates(init);
      MatchingNoDuplicates(init, hash, index);
      assert forall p :: 0 <= p < |init| ==> init[p] != last;
      MatchingExactly(init, hash, index, last);
    }
  }

  /** Writing one account's indexes changes whether that account answers, and no other. */
  lemma RecordChangesOnlyThatAccount(keys: seq<Address>, hash: map<Address, seq<nat>>,
                                     account: Address, assignment: seq<nat>, index: nat, other: Address)
    requires forall a :: a in keys <==> a in hash
    requires other != account
    ensures var keys' := if account in hash then keys else keys + [account];
            var hash' := hash[account := assignment];
            && (account in Matching(keys', hash', index) <==> index in assignment)
            && (other in Matching(keys', hash', index) <==> other in Matching(keys, hash, index))
  {
    var keys' := if account in hash then keys else keys + [account];
    var hash' := hash[account := assignment];
    MatchingExactly(keys', hash', index, account);
    MatchingExactly(keys', hash', index, other);
    MatchingExactly(keys, hash, index, other);
  }

  /** The submission an eligible account sends for a request, with the sampled status. */
  function Respond(request: OracleRequest, account: Address, choice: StatusChoice): (s: Submission)
    ensures s.status in Statuses && s.from == account
    ensures s.index == request.index && s.airline == request.airline
    ensures s.flight == request.flight && s.timestamp == request.timestamp
  {
    Submission(request.index, request.airline, request.flight, request.timestamp, Statuses[choice], account)
  }

  /**
   * The registry of oracle indexes (`hash`): a table from account to the
   * indexes `getMyIndexes` returned for it, and the order in which
   * `Object.keys` lists its accounts (insertion order for `0x…` keys).
   */
  class IndexRegistry {
    var indexes: map<Address, seq<nat>>
    var keys: seq<Address>

    ghost predicate Valid()
      reads this
    {
      NoDuplicates(keys) && forall a :: a in keys <==> a in indexes
    }

    constructor ()
      ensures Valid() && indexes == map[] && keys == []
    {
      indexes := map[];
      keys := [];
    }

    /** `hash[account] = indexes`: last write wins; a new account goes to the end of the key order. */
    method Record(account: Address, assignment: seq<nat>)
      requires Valid()
      modifies this
      ensures Valid()
      ensures indexes == old(indexes)[account := assignment]
      ensures keys == if account in old(indexes) then old(keys) else old(keys) + [account]
    {
      if account !in indexes {
        keys := keys + [account];
      }
      indexes := indexes[account := assignment];
    }

    /**
     * Registers every pool account as an oracle and stores the indexes its
     * `getMyIndexes` query returns (`None` when the query fails). The
     * outcome of `registerOracle` is only logged, so the index query is
     * issued for every account whatever that outcome was: the model takes
     * no parameter for it, and every pool account whose query succeeds is
     * recorded.
     */
    method RegisterOracles(pool: seq<Address>, myIndexes: Address -> Option<seq<nat>>)
      requires Valid()
      modifies this
      ensures Valid()
      ensures forall a :: a in indexes <==> a in old(indexes) || (a in pool && myIndexes(a).Some?)
      ensures forall a :: a in indexes ==>
        indexes[a] == if a in pool && myIndexes(a).Some? then myIndexes(a).value else old(indexes)[a]
      ensures |old(keys)| <= |keys| && keys[..|old(keys)|] == old(keys)
    {
      var i := 0;
      while i < |pool|
        invariant 0 <= i <= |pool|
        invariant Valid()
        invariant forall a :: a in indexes <==> a in old(indexes) || (a in pool[..i] && myIndexes(a).Some?)
        invariant forall a :: a in indexes ==>
          indexes[a] == if a in pool[..i] && myIndexes(a).Some? then myIndexes(a).value else old(indexes)[a]
        invariant |old(keys)| <= |keys| && keys[..|old(keys)|] == old(keys)
      {
        var account := pool[i];
        match myIndexes(account) {
          case Some(assignment) => Record(account, assignment);
          case None =>
        }
        assert pool[..i + 1] == pool[..i] + [account];
        i := i + 1;
      }
      assert pool[..i] == pool;
    }

    /**
     * The OracleRequest callback. An error event is dropped. Otherwise every
     * registry account, in key order, whose indexes include the requested
     * index sends one submission; `draw(j)` is the status sampled for the
     * j-th of them and `accepts` is the contract's verdict on each send.
     * A rejected send does not stop the ones after it.
     */
    method OnOracleRequest(event: RequestEvent, draw: nat -> StatusChoice, accepts: Submission -> bool)
      returns (attempts: seq<Attempt>)
      requires Valid()
      ensures event.RequestError? ==> attempts == []
      ensures event.Request? ==>
        var matching := Matching(keys, indexes, event.request.index);
        && |attempts| == |matching|
        && forall j :: 0 <= j < |attempts| ==>
             attempts[j].submission == Respond(event.request, matching[j], draw(j))
             && attempts[j].accepted == accepts(attempts[j].submission)
    {
      attempts := [];
      if event.RequestError? {
        return;
      }
      var request := event.request;
      var i := 0;
      while i < |keys|
        invariant 0 <= i <= |keys|
        invariant |attempts| == |Matching(keys[..i], indexes, request.index)|
        invariant forall j :: 0 <= j < |attempts| ==>
          attempts[j].submission == Respond(request, Matching(keys[..i], indexes, request.index)[j], draw(j))
          && attempts[j].accepted == accepts(attempts[j].submission)
      {
        var key := keys[i];
        assert keys[..i + 1][..i] == keys[..i];
        if key in indexes && request.index in indexes[key] {
          var submission := Submission(request.index, request.airline, request.flight, request.timestamp,
                                       Statuses[draw(|attempts|)], key);
          attempts := attempts + [Attempt(submission, accepts(submission))];
        }
        i := i + 1;
      }
      assert keys[..i] == keys;
    }
  }

  /** Every request is answered from exactly the eligible registry accounts, each once. */
  lemma DispatchAnswersExactlyEligible(keys: seq<Address>, hash: map<Address, seq<nat>>, request: OracleRequest,
                                       draw: nat -> StatusChoice, attempts: seq<Attempt>, a: Address)
    requires NoDuplicates(keys)
    requires |attempts| == |Matching(keys, hash, request.index)|
    requires forall j :: 0 <= j < |attempts| ==>
      attempts[j].submission == Respond(request, Matching(keys, hash, request.index)[j], draw(j))
    ensures (exists j :: 0 <= j < |attempts| && attempts[j].submission.from == a) <==> a in keys && Eligible(hash, a, request.index)
    ensures forall j, k :: 0 <= j < k < |attempts| ==> attempts[j].submission.from != attempts[k].submission.from
  {
    var matching := Matching(keys, hash, request.index);
    MatchingExactly(keys, hash, request.index, a);
    MatchingNoDuplicates(keys, hash, request.index);
    if a in matching {
      var j :| 0 <= j < |matching| && matching[j] == a;
      assert attempts[j].submission.from == a;
    }
  }

  /** Five oracles holding indexes [1,3], [2,4], [1,2], [3,4] and [2,3]: a request for index 2 is answered by the second, third and fifth. */
  lemma MatchingExample()
    ensures Matching(["a1", "a2", "a3", "a4", "a5"],
                     map["a1" := [1, 3], "a2" := [2, 4], "a3" := [1, 2], "a4" := [3, 4], "a5" := [2, 3]], 2)
            == ["a2", "a3", "a5"]
  {
    var keys: seq<Address> := ["a1", "a2", "a3", "a4", "a5"];
    var hash := map["a1" := [1, 3], "a2" := [2, 4], "a3" := [1, 2], "a4" := [3, 4], "a5" := [2, 3]];
    assert keys[..4] == ["a1", "a2", "a3", "a4"];
    assert keys[..4][..3] == ["a1", "a2", "a3"];
    assert keys[..4][..3][..2] == ["a1", "a2"];
    assert keys[..4][..3][..2][..1] == ["a1"];
    assert Matching(["a1"], hash, 2) == [];
    assert Matching(["a1", "a2"], hash, 2) == ["a2"];
    assert Matching(["a1", "a2", "a3"], hash, 2) == ["a2", "a3"];
    assert Matching(["a1", "a2", "a3", "a4"], hash, 2) == ["a2", "a3"];
  }

  /** The flight-record cache (`flightRecords`): append-only, served whole. */
  class FlightRecordCache {
    var records: seq<FlightRecord>

    constructor ()
      ensures records == []
    {
      records := [];
    }

    /**
     * The FlightRegistered callback: appends the event's record. The source
     * does not check the error argument; an error event makes it throw
     * before anything is appended.
     */
    method OnFlightRegistered(event: FlightEvent)
      modifies this
      ensures event.FlightRegistered? ==> records == old(records) + [event.record]
      ensures event.FlightEventError? ==> records == old(records)
    {
      if event.FlightRegistered? {
        records := records + [event.record];
      }
    }

    /** `GET /api/flights`: every cached record, in append order. */
    method Flights() returns (flights: seq<FlightRecord>)
      ensures flights == records
    {
      flights := records;
    }
  }

  /** A sequence of FlightRegistered events leaves exactly their records, in event order, after the earlier ones. */
  function Registered(events: seq<FlightEvent>): (rs: seq<FlightRecord>)
  {
    if events == [] then []
    else
      var last := events[|events| - 1];
      Registered(events[..|events| - 1]) + (if last.FlightRegistered? then [last.record] else [])
  }

  /** Replaying events into a cache keeps what it held and appends the registered records. */
  method ReplayFlightEvents(cache: FlightRecordCache, events: seq<FlightEvent>)
    modifies cache
    ensures cache.records == old(cache.records) + Registered(events)
  {
    var i := 0;
    while i < |events|
      invariant 0 <= i <= |events|
      invariant cache.records == old(cache.records) + Registered(events[..i])
    {
      assert events[..i + 1][..i] == events[..i];
      cache.OnFlightRegistered(events[i]);
      i := i + 1;
    }
    assert events[..i] == events;
  }

  /** Only registration events leave records, and every one of them does. */
  lemma {:induction false} RegisteredCount(events: seq<FlightEvent>)
    ensures |Registered(events)| <= |events|
    ensures (forall i :: 0 <= i < |events| ==> events[i].FlightRegistered?) ==> |Registered(events)| == |events|
    ensures forall r :: r in Registered(events) ==> FlightRegistered(r) in events
  {
    if events != [] {
      var init := events[..|events| - 1];
      RegisteredCount(init);
      assert forall i :: 0 <= i < |init| ==> init[i] == events[i];
      assert forall e :: e in init ==> e in events;
    }
  }

  /**
   * Issues one `registerFlight` per bootstrap flight name, in list order,
   * with the default account as airline and sender; `clock(i)` is the
   * `Date.now()` reading when the i-th payload is built.
   */
  method RegisterBootstrapFlights(defaultAccount: Option<Address>, clock: nat -> nat)
    returns (calls: seq<FlightRegistration>)
    ensures |calls| == |BootstrapFlightNames|
    ensures forall i :: 0 <= i < |calls| ==>
      calls[i] == FlightRegistration(defaultAccount, BootstrapFlightNames[i], clock(i) / 1000, defaultAccount)
  {
    calls := [];
    var i := 0;
    while i < |BootstrapFlightNames|
      invariant 0 <= i <= |BootstrapFlightNames|
      invariant |calls| == i
      invariant forall k :: 0 <= k < i ==>
        calls[k] == FlightRegistration(defaultAccount, BootstrapFlightNames[k], clock(k) / 1000, defaultAccount)
    {
      var payload := FlightRegistration(defaultAccount, BootstrapFlightNames[i], clock(i) / 1000, defaultAccount);
      calls := calls + [payload];
      i := i + 1;
    }
  }

  /**
   * The `getAccounts` callback: picks the default account, registers the
   * oracle pool in the registry and issues the bootstrap flight
   * registrations. `accounts` is `None` when `getAccounts` fails: the
   * callback then throws reading `result[0]`, so nothing is registered and
   * nothing is issued.
   */
  method OnAccounts(registry: IndexRegistry, accounts: Option<seq<Address>>, myIndexes: Address -> Option<seq<nat>>,
                    clock: nat -> nat)
    returns (defaultAccount: Option<Address>, pool: seq<Address>, flightCalls: seq<FlightRegistration>)
    requires registry.Valid()
    modifies registry
    ensures registry.Valid()
    ensures accounts.None? ==>
      && defaultAccount == None && pool == [] && flightCalls == []
      && registry.indexes == old(registry.indexes) && registry.keys == old(registry.keys)
    ensures accounts.Some? ==> defaultAccount == At(accounts.value, 0) && pool == OraclePool(accounts.value)
    ensures forall a :: a in registry.indexes <==> a in old(registry.indexes) || (a in pool && myIndexes(a).Some?)
    ensures forall a :: a in registry.indexes ==>
      registry.indexes[a] == if a in pool && myIndexes(a).Some? then myIndexes(a).value else old(registry.indexes)[a]
    ensures |old(registry.keys)| <= |registry.keys| && registry.keys[..|old(registry.keys)|] == old(registry.keys)
    ensures accounts.Some? && |accounts.value| > 0 && NoDuplicates(accounts.value)
            && accounts.value[0] !in old(registry.indexes) ==>
      accounts.value[0] !in registry.indexes
    ensures accounts.Some? ==> |flightCalls| == |BootstrapFlightNames|
    ensures forall i :: 0 <= i < |flightCalls| ==>
      flightCalls[i] == FlightRegistration(defaultAccount, BootstrapFlightNames[i], clock(i) / 1000, defaultAccount)
  {
    match accounts {
      case None =>
        defaultAccount, pool, flightCalls := None, [], [];
      case Some(result) =>
        defaultAccount := At(result, 0);
        pool := OraclePool(result);
        registry.RegisterOracles(pool, myIndexes);
        if |result| > 0 && NoDuplicates(result) {
          DefaultAccountIsNoOracle(result);
        }
        flightCalls := RegisterBootstrapFlights(defaultAccount, clock);
    }
  }
}
