# Flight Surety oracle coordinator and dapp bookkeeping, in Dafny

This project models two parts of the Flight Surety dapp.

The first is the off-chain oracle server (`src/server/server.js`). At start-up it
takes the node's accounts. The first is the default account. The next twenty
become oracles: each is registered with the FlightSuretyApp contract, and the
indexes the contract assigns to it are stored in a table (`hash`). For every
OracleRequest event, each account in that table whose indexes include the
requested index submits one response. The response carries a status sampled
from `[0, 10, 20, 30, 40, 50]`. The server also registers three fixed flights
for the default account. Every FlightRegistered event is appended to a record
cache, which `GET /api/flights` serves whole.

The second is the dapp client's bookkeeping (`src/dapp/contract.js`):

- how `initialize` splits the accounts into an owner, five airlines and five
  passengers through one shared counter;
- how `payInsurance` picks the flight record for the selected key;
- how `fetchFlightStatus` decides to fetch and report the passenger's funds
  only for status `'20'`.

Files:

- `common.dfy` (module `Common`): addresses, `Option` (a JavaScript value that
  may be `undefined`), `Result`, JavaScript array reads (`At`).
- `server.dfy` (module `OracleServer`): the oracle pool, the matching rule and
  its lemmas, the index registry (`IndexRegistry`, a class with the table and
  its key order), the flight-record cache (`FlightRecordCache`), the bootstrap
  flight registrations and the `getAccounts` callback.
- `dapp.dfy` (module `DappContract`): the `Contract` class with its
  constructor and `Initialize` loops, the flight lookup, the insurance purchase
  and the status reply.

Contract calls are opaque. Their outcomes are parameters:

- `myIndexes(account)` is what `getMyIndexes` returns, or `None` when it fails.
- `accepts(submission)` is the contract's verdict on one `submitOracleResponse`.
- `draw(j)` is the status position `_.sample` picks for the j-th response to one event.
- `clock(i)` is the `Date.now()` reading when the i-th bootstrap flight payload is built.
- The error, status and funds of the dapp's calls are parameters too.

Indexes and timestamps are `nat`. web3 decodes both the contract's `uint8`
indexes and the event's `index` as decimal strings, so the source's
`includes` (string equality) agrees with integer equality on them.

Notes on what the code does:

- The code issues the `getMyIndexes` query for every oracle, also when
  `registerOracle` reported an error, because the error branch only logs.
- The FlightRegistered handler does not check its error argument.
- An account's indexes may be written again. The last write wins, and the
  account keeps its first place in the key order.

## Model

| member | source | states |
|---|---|---|
| `OracleServer.OraclePool` | src/server/server.js:36-37 | the pool has min(20, len-1) accounts, and its i-th account is result[i+1] |
| `OracleServer.DefaultAccountIsNoOracle` | src/server/server.js:36-37 | when the accounts are distinct, the default account result[0] is not in the pool, and the pool has at most 20 accounts |
| `OracleServer.Eligible` | src/server/server.js:82 | an account is eligible for an index exactly when it has a registry entry and some position of its stored indexes holds that index |
| `OracleServer.Matching` | src/server/server.js:81-82 | the accounts of the key order whose stored indexes include the index: never more than the keys, and each of them eligible |
| `OracleServer.MatchingExactly` | src/server/server.js:81-82 | an account is in the matching list exactly when it is a registry key whose stored indexes include the request index (both directions) |
| `OracleServer.MatchingConcat` | src/server/server.js:81-82 | matching distributes over concatenation of key lists, so matching accounts keep registry key order |
| `OracleServer.MatchingNoDuplicates` | src/server/server.js:81-95 | distinct registry keys give a matching list without repeats: one response per account |
| `OracleServer.RecordChangesOnlyThatAccount` | src/server/server.js:47 | after writing an account's indexes, that account matches an index exactly when the new indexes hold it; every other account matches as before |
| `OracleServer.Respond` | src/server/server.js:84-90 | a submission keeps the request's index, airline, flight and timestamp, is sent from the matching account, and has a status in {0,10,20,30,40,50} |
| `OracleServer.IndexRegistry.constructor` | src/server/server.js:26 | the registry starts with no accounts and an empty key order |
| `OracleServer.IndexRegistry.Record` | src/server/server.js:47 | the table is the old table with only this account's entry replaced; a new account is appended to the key order, an existing one keeps its place; no duplicate keys |
| `OracleServer.IndexRegistry.RegisterOracles` | src/server/server.js:40-50 | whatever `registerOracle` reported, exactly the accounts whose query succeeds are added, with the returned indexes; other entries are unchanged; the old key order is a prefix of the new one |
| `OracleServer.IndexRegistry.OnOracleRequest` | src/server/server.js:72-97 | an error event gives no submissions; otherwise one attempt per matching account, in key order, each with the request's fields, the j-th sampled status and its own outcome, so a rejection does not stop later attempts |
| `OracleServer.DispatchAnswersExactlyEligible` | src/server/server.js:81-95 | an account submits for a request exactly when it is a registry key holding the index, and no account submits twice |
| `OracleServer.MatchingExample` | src/server/server.js:81-95 | with indexes [[1,3],[2,4],[1,2],[3,4],[2,3]] a request for index 2 is answered by the 2nd, 3rd and 5th accounts, in that order |
| `OracleServer.FlightRecordCache.constructor` | src/server/server.js:24 | the cache starts empty |
| `OracleServer.FlightRecordCache.OnFlightRegistered` | src/server/server.js:99-104 | a FlightRegistered event appends exactly its record at the end and keeps the earlier records; an error event appends nothing |
| `OracleServer.FlightRecordCache.Flights` | src/server/server.js:163-165 | the endpoint returns the whole cached list in append order |
| `OracleServer.ReplayFlightEvents` | src/server/server.js:99-104 | a sequence of events leaves the old records followed by the records of the registration events, in event order |
| `OracleServer.RegisteredCount` | src/server/server.js:99-104 | at most one record per event, exactly one per event when all are registrations, and every record comes from a registration event |
| `OracleServer.RegisterBootstrapFlights` | src/server/server.js:57-70 | one registration per name of ['Fly Airpeace','Dana Airways','Arik Air'], in that order, with the default account as airline and sender, and the clock reading in seconds |
| `OracleServer.OnAccounts` | src/server/server.js:33-70 | when `getAccounts` fails nothing is registered or issued; otherwise the default account is result[0], the pool is the oracle pool, exactly the pool accounts whose query succeeds are added with their indexes and other entries are unchanged, the old key order is kept as a prefix, the distinct default account is never added, and the three bootstrap flights are registered in order for the default account with the clock reading in seconds |
| `DappContract.Slots` | src/dapp/contract.js:28-34 | n reads from position `from`: each is defined exactly when it is inside the account list, and then it is that account |
| `DappContract.Contract.constructor` | src/dapp/contract.js:8-19 | when `getAccounts` fails every field keeps its reset value; otherwise owner is accts[0], the airlines are the reads of accts[1..6), the passengers the reads of accts[6..11), the flights are the fetched list |
| `DappContract.Contract.Initialize` | src/dapp/contract.js:21-54 | when `getAccounts` fails nothing changes; otherwise owner is accts[0]; the airline loop appends reads from position 1 until the list has 5 entries; the passenger loop continues the shared counter until it has 5; the flights are replaced only when the fetch succeeds |
| `DappContract.PartitionOfEnoughAccounts` | src/dapp/contract.js:24-34 | with at least 11 accounts, the owner is accts[0], the airlines are exactly accts[1..6) and the passengers exactly accts[6..11), in order |
| `DappContract.PartitionIsDisjoint` | src/dapp/contract.js:26-34 | with at least 11 distinct accounts, the owner, the airlines and the passengers share no address |
| `DappContract.PartitionOfTooFewAccounts` | src/dapp/contract.js:28-34 | with fewer than 11 accounts an undefined passenger is pushed |
| `DappContract.FindFlight` | src/dapp/contract.js:95 | the result is undefined exactly when no record has the key; otherwise it is the first record with that key |
| `DappContract.FindFlightAfterAppend` | src/dapp/contract.js:95 | after one more cached record, a key found before is found at the same record; otherwise the new record is found when it has the key |
| `DappContract.Contract.Sender` | src/dapp/contract.js:97-98 | the sending account is the first passenger, undefined when there is none |
| `DappContract.Contract.PayInsurance` | src/dapp/contract.js:93-97 | fails when the flights were never loaded or no record has the key; otherwise buys insurance with the first matching record's key and airline, sent from the first passenger |
| `DappContract.FetchFlightStatus` | src/dapp/contract.js:64-91 | a failed send reports its error; otherwise the reply carries the status, and carries the funds exactly when the status is '20' |

## Left out

- The web3 transport, the contract ABIs and the Solidity contracts are not part of this model. Every contract call is a parameter of the model or is left out.
- `fundAirline` (src/server/server.js:53-55) is sent once with no callback. No state of the server depends on it, so it is not modelled.
- The outcomes of `registerOracle`, `registerFlight` and `submitOracleResponse` are only logged. The model keeps no log.
- OracleServer.IndexRegistry.RegisterOracles: processes the pool in pool order; in the source the key order is the order in which the `getMyIndexes` queries complete, which is asynchronous.
- Event subscriptions, replay from block 0, the interleaving of callbacks, and the `setTimeout` delay in `fetchFlightStatus` are concurrency and I/O. Each callback is modelled as one step.
- OracleServer.Respond: the status is an injected choice; the uniform distribution of `_.sample` is not modelled.
- OracleServer.FlightRecordCache.OnFlightRegistered: on an error event the source throws a TypeError reading `event.returnValues`. The model appends nothing and does not model the exception.
- DappContract.Contract.PayInsurance: the source throws a TypeError when the flights were never loaded or no key matches. The model returns a failure instead. The ether amount (`toWei`) and the follow-up `passengerInsured` query with its formatting (src/dapp/contract.js:98-108) are left out.
- DappContract.FetchFlightStatus: the status and the funds are taken as given values. What happens when the `fetchFlightStatusCode` or `viewPassengersFund` call fails (src/dapp/contract.js:77-87) is not modelled, nor is the `fromWei` conversion of the funds.
- DappContract.Contract.constructor: the network argument and the web3 setup are left out. The source calls `initialize` before resetting the fields, but its body runs in a later callback. The model therefore resets first and initialises after.
- Filling the flight selector in the page (src/dapp/contract.js:39-46), `isOperational` and `viewWallet` are UI wiring or single pass-through calls.
- The monitoring handlers (src/server/server.js:106-138), the `/api` and `/api/wallet` endpoints, and the `ex.data` access in the submission's catch are logging and HTTP plumbing.
- The unused constant `statusCode` (src/server/server.js:25) is not modelled.
