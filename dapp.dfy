/**
 * The dapp client's bookkeeping: how it splits the node's accounts into the
 * owner, five airlines and five passengers, how it finds the flight a
 * passenger buys insurance for, and what it reports after asking the oracles
 * for a flight's status.
 *
 * Contract calls are opaque: their outcomes are parameters.
 */
module DappContract {
  import opened Common
  import OracleServer

  type FlightRecord = OracleServer.FlightRecord

  /** The length at which the airline loop stops. */
  const AirlineCount: nat := 5

  /** The length at which the passenger loop stops. */
  const PassengerCount: nat := 5

  /** The status code for which the passenger's funds are fetched and shown. */
  const LateAirlineStatus: string := "20"

  /** How many pushes `while (list.length < target)` makes on a list of length `len`. */
  function Pushes(len: nat, target: nat): (k: nat)
    ensures len + k == if len < target then target else len
  {
    if len < target then target - len else 0
  }

  /** The reads `accts[from]`, …, `accts[from + n - 1]`; a read past the end gives `undefined`. */
  function Slots(accts: seq<Address>, from: nat, n: nat): (r: seq<Option<Address>>)
    ensures |r| == n
    ensures forall i :: 0 <= i < n ==> (r[i].Some? <==> from + i < |accts|)
    ensures forall i :: 0 <= i < n && from + i < |accts| ==> r[i] == Some(accts[from + i])
  {
    if n == 0 then [] else Slots(accts, from, n - 1) + [At(accts, from + n - 1)]
  }

  /** Every address of `s`, each defined. */
  function Defined(s: seq<Address>): (r: seq<Option<Address>>)
  {
    seq(|s|, i requires 0 <= i < |s| => Some(s[i]))
  }

  /** The response to `fetchFlightStatus`: the send's error, the status alone, or the status and the funds. */
  datatype StatusReply = Failed(error: string) | StatusOnly(status: string) | StatusWithFunds(status: string, funds: string)

  /** Why `payInsurance` cannot name a flight (the source throws a TypeError in both cases). */
  datatype PaymentError = FlightsNotLoaded | NoSuchFlight

  /** The `buyInsurance(key, airline)` call, sent from the first passenger. */
  datatype Purchase = BuyInsurance(key: string, airline: Address, from: Option<Address>)

  /** `flights.find(flight => flight.key === key)`: the first record with that key. */
  function FindFlight(flights: seq<FlightRecord>, key: string): (r: Option<FlightRecord>)
    ensures r.None? <==> forall i :: 0 <= i < |flights| ==> flights[i].key != key
    ensures r.Some? ==> exists i :: 0 <= i < |flights| && flights[i] == r.value && r.value.key == key
                                    && forall j :: 0 <= j < i ==> flights[j].key != key
  {
    if flights == [] then None
    else if flights[0].key == key then Some(flights[0])
    else
      var r := FindFlight(flights[1..], key);
      assert r.Some? ==> exists i :: 0 <= i < |flights[1..]| && flights[1..][i] == r.value && r.value.key == key
                                    && forall j :: 0 <= j < i ==> flights[1..][j].key != key;
      r
  }

  /**
   * `fetchFlightStatus`: `sendError` is the outcome of the
   * `fetchFlightStatus(key)` transaction, `status` the code
   * `fetchFlightStatusCode` returns and `funds` what `viewPassengersFund`
   * returns. The funds are fetched and reported only for status "20".
   */
  function FetchFlightStatus(sendError: Option<string>, status: string, funds: string): (r: StatusReply)
    ensures r.Failed? <==> sendError.Some?
    ensures r.Failed? ==> r.error == sendError.value
    ensures r.StatusWithFunds? <==> sendError.None? && status == LateAirlineStatus
    ensures !r.Failed? ==> r.status == status
    ensures r.StatusWithFunds? ==> r.funds == funds
  {
    match sendError
    case Some(error) => Failed(error)
    case None =>
      if status == LateAirlineStatus then StatusWithFunds(status, funds) else StatusOnly(status)
  }

  /** The client of the FlightSurety contracts (`Contract`). */
  class Contract {
    var owner: Option<Address>
    var airlines: seq<Option<Address>>
    var passengers: seq<Option<Address>>
    /** `this.flights`: undefined until `/api/flights` has answered. */
    var flights: Option<seq<FlightRecord>>

    /**
     * `new Contract(network, callback)`: `accts` is what `getAccounts`
     * returns, `None` when it fails, and `fetched` the `/api/flights`
     * reply, `None` when that request fails. Initialisation runs in a
     * callback, after the fields have been reset.
     */
    constructor (accts: Option<seq<Address>>, fetched: Option<seq<FlightRecord>>)
      ensures accts.None? ==> owner == None && airlines == [] && passengers == [] && flights == None
      ensures accts.Some? ==>
        && owner == At(accts.value, 0)
        && airlines == Slots(accts.value, 1, AirlineCount)
        && passengers == Slots(accts.value, 1 + AirlineCount, PassengerCount)
        && flights == fetched
    {
      owner := None;
      airlines := [];
      passengers := [];
      flights := None;
      new;
      Initialize(accts, fetched);
    }

    /**
     * `initialize`: the owner is the first account; the airline loop then the
     * passenger loop push consecutive accounts through one shared counter
     * until each list has five entries. When `getAccounts` fails
     * (`accounts` is `None`) the callback throws reading `accts[0]`:
     * nothing changes and the flights are never fetched.
     */
    method Initialize(accounts: Option<seq<Address>>, fetched: Option<seq<FlightRecord>>)
      modifies this
      ensures accounts.None? ==>
        owner == old(owner) && airlines == old(airlines) && passengers == old(passengers) && flights == old(flights)
      ensures accounts.Some? ==>
        var accts := accounts.value;
        && owner == At(accts, 0)
        && airlines == old(airlines) + Slots(accts, 1, Pushes(|old(airlines)|, AirlineCount))
        && passengers == old(passengers)
           + Slots(accts, 1 + Pushes(|old(airlines)|, AirlineCount), Pushes(|old(passengers)|, PassengerCount))
        && flights == if fetched.Some? then fetched else old(flights)
    {
      if accounts.None? {
        return;
      }
      var accts := accounts.value;
      owner := At(accts, 0);
      var counter: nat := 1;
      while |airlines| < AirlineCount
        invariant |old(airlines)| <= |airlines|
        invariant |airlines| == |old(airlines)| || |airlines| <= AirlineCount
        invariant counter == 1 + |airlines| - |old(airlines)|
        invariant airlines == old(airlines) + Slots(accts, 1, counter - 1)
        invariant owner == At(accts, 0) && passengers == old(passengers) && flights == old(flights)
        decreases AirlineCount - |airlines|
      {
        airlines := airlines + [At(accts, counter)];
        counter := counter + 1;
      }
      var start := counter;
      while |passengers| < PassengerCount
        invariant |old(passengers)| <= |passengers|
        invariant |passengers| == |old(passengers)| || |passengers| <= PassengerCount
        invariant counter == start + |passengers| - |old(passengers)|
        invariant passengers == old(passengers) + Slots(accts, start, counter - start)
        invariant owner == At(accts, 0) && flights == old(flights)
        invariant airlines == old(airlines) + Slots(accts, 1, Pushes(|old(airlines)|, AirlineCount))
        decreases PassengerCount - |passengers|
      {
        passengers := passengers + [At(accts, counter)];
        counter := counter + 1;
      }
      if fetched.Some? {
        flights := fetched;
      }
    }

    /** `this.passengers[0]`: the account every passenger transaction is sent from. */
    function Sender(): (r: Option<Address>)
      reads this
      ensures |passengers| == 0 ==> r == None
      ensures |passengers| > 0 ==> r == passengers[0]
    {
      if |passengers| > 0 then passengers[0] else None
    }

    /**
     * `payInsurance(value, amount)`: the `buyInsurance` call for the first
     * flight whose key is `value`, with that flight's key and airline.
     */
    function PayInsurance(value: string): (r: Result<Purchase, PaymentError>)
      reads this
      ensures flights.None? <==> r == Failure(FlightsNotLoaded)
      ensures r.Success? <==> flights.Some? && exists f :: f in flights.value && f.key == value
      ensures r.Success? ==>
        && FindFlight(flights.value, value).Some?
        && r.value.key == value
        && r.value.airline == FindFlight(flights.value, value).value.airline
        && r.value.from == Sender()
    {
      match flights
      case None => Failure(FlightsNotLoaded)
      case Some(list) =>
        match FindFlight(list, value)
        case None => Failure(NoSuchFlight)
        case Some(flight) => Success(BuyInsurance(flight.key, flight.airline, Sender()))
    }
  }

  /** With at least eleven accounts the owner, airlines and passengers are accts[0], accts[1..6] and accts[6..11]. */
  lemma PartitionOfEnoughAccounts(accts: seq<Address>)
    requires |accts| >= 1 + AirlineCount + PassengerCount
    ensures At(accts, 0) == Some(accts[0])
    ensures Slots(accts, 1, AirlineCount) == Defined(accts[1..6])
    ensures Slots(accts, 1 + AirlineCount, PassengerCount) == Defined(accts[6..11])
  {
    var airlines := Slots(accts, 1, AirlineCount);
    var passengers := Slots(accts, 1 + AirlineCount, PassengerCount);
    assert forall i :: 0 <= i < 5 ==> airlines[i] == Defined(accts[1..6])[i];
    assert forall i :: 0 <= i < 5 ==> passengers[i] == Defined(accts[6..11])[i];
  }

  /** Distinct accounts give an owner, airlines and passengers that never share an address. */
  lemma PartitionIsDisjoint(accts: seq<Address>)
    requires |accts| >= 1 + AirlineCount + PassengerCount && NoDuplicates(accts)
    ensures At(accts, 0) !in Slots(accts, 1, AirlineCount)
    ensures At(accts, 0) !in Slots(accts, 1 + AirlineCount, PassengerCount)
    ensures forall x :: x in Slots(accts, 1, AirlineCount) ==> x !in Slots(accts, 1 + AirlineCount, PassengerCount)
  {
    var airlines := Slots(accts, 1, AirlineCount);
    var passengers := Slots(accts, 1 + AirlineCount, PassengerCount);
    assert forall i :: 0 <= i < 5 ==> airlines[i] == Some(accts[1 + i]) != Some(accts[0]);
    assert forall i :: 0 <= i < 5 ==> passengers[i] == Some(accts[6 + i]) != Some(accts[0]);
    forall x | x in airlines
      ensures x !in passengers
    {
      var i :| 0 <= i < 5 && airlines[i] == x;
      assert forall k :: 0 <= k < 5 ==> passengers[k] == Some(accts[6 + k]) != Some(accts[1 + i]);
    }
  }

  /** With fewer than eleven accounts the last passenger pushed is `undefined`. */
  lemma PartitionOfTooFewAccounts(accts: seq<Address>)
    requires |accts| < 1 + AirlineCount + PassengerCount
    ensures None in Slots(accts, 1 + AirlineCount, PassengerCount)
  {
    var passengers := Slots(accts, 1 + AirlineCount, PassengerCount);
    assert passengers[4] == None;
  }

  /**
   * Looking up a key in the cached records after one more FlightRegistered
   * record: an earlier record with that key still wins; otherwise the new
   * record is found when it has the key.
   */
  lemma {:induction false} FindFlightAfterAppend(records: seq<FlightRecord>, record: FlightRecord, key: string)
    ensures FindFlight(records + [record], key)
      == if FindFlight(records, key).Some? then FindFlight(records, key)
         else if record.key == key then Some(record) else None
  {
    if records != [] {
      FindFlightAfterAppend(records[1..], record, key);
      assert (records + [record])[1..] == records[1..] + [record];
    }
  }
}
