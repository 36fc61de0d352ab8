# The L3 database and the intrusive lists of the Marvell SAI plug-in

This project models two parts of the plug-in and proves what holds of them over every run.

**The L3 resolution database** (`src/mrvl_sai_router.c`, `src/mrvl_sai_router_intf.c`, `src/mrvl_sai_neighbor.c`,
`src/mrvl_sai_nexthop.c`, `src/mrvl_sai_route.c`). Interfaces head two index-linked lists in global tables, one of
neighbours and one of next hops. A next hop caches the neighbour it resolves to, a route caches the id of its next hop, and
one flow entry in the switch is compiled from that. Neighbours that come and go are pushed through next hop, list of routes
and flow entries.

- `L3Types` has the records, constants and tables; `L3Spec` has every operation as a function on the database value, branch
  by branch, with the index lists read as sequences. Addresses are the sources' union of 4 and 16 bytes, and are compared as
  the sources do: as many bytes as the family of the query has, whatever the family of the stored one. `L3Addresses` says
  this, and what the tables keep, byte by byte.
- `L3Invariant` says what holds between two calls. `L3Neighbors`, `L3NextHops`, `L3Interfaces`, `L3Routes` and `L3Runs`
  prove that each operation, and so every run, keeps it; `L3Reachable` names the states that runs can reach.
- `L3Reference` is a machine without lists, caches, counters or flow entries: five maps of what callers configured, and for
  each route whether it still has the id it was created with or follows its next hop. It uses no function of the operations
  and none of their constants: every check, default, size and library call is written out there a second time. `L3Refinement` proves that every run of
  the database answers, status by status, as that machine does, and that the switch does what that machine's state says.
- `L3Theorems` and `L3Lifetimes` have the further theorems about runs: resolution from scratch, host entries, dangling chains,
  MTU profiles, and what one call undoes of another. `L3Findings` and `L3TwoTables` have the cases in which the code misses.
- `L3Database` is the class with the arrays and the `next` links, one method per function of the sources, each proved to do
  to the tables what `L3Spec` says; `L3Tables` says how rows and links represent the value. `RouteStore` is the hash of route
  entries with a list element in each, and the circular list (`DList`) that each next hop heads: the entries on a ring are
  those of the keys of that next hop's list, in that order, and no two rings share an element. `Hardware` is the part of the
  switch that the sources use. It keeps a ghost history of all its states, and the database is valid only if in every one of
  them each group that an entry names exists, so the methods are proved to make before they break at every intermediate step.
  The two that do not always, entering and removing a neighbour, are valid afterwards if and only if their call is allowed or
  changes nothing.

**The circular list and its clients** (`src/utils/mrvl_sai_dlist.c`, and `mrvl_hostif_trap_list_set` in
`src/mrvl_sai_host_interface.c`). `DList` has the list over `next` and `prev` pointers, refining a sequence, for any kind of
entry. `SortedKeys` says what the sorted and the delta insertion mean and `SortedList` runs them on the ring. `TrapList` is
the mark-and-sweep update of a trap's list as a function, with its theorems; `TrapTable` runs it over the circular list.

`Words` and `SeqLib` hold integer widths and facts about sequences.

## Where the code does not do what it is for

Each of these has a lemma with a concrete input or an exact condition.

- Addresses of the two families are mixed up. An IPv4 address is taken for an IPv6 one on the same interface whose first four
  bytes it is: `MixedAddresses` has 2001:db8::1 and 32.1.13.184. `NbrLookupExactIff` and `NhLookupExactIff` say exactly when
  a lookup is right, `RemovalExactIff` when a removal is, and `CreateNextHopKeeps` and `CreateNeighborKeeps` that mixing
  addresses in this way breaks the invariant. The theorems about runs have as a hypothesis that the calls are allowed, which
  `StepKeepsIff` shows to be exactly what keeps the invariant.
- A removal deletes the host entry of the address asked for, and group and slot of the neighbour found. An IPv6 address that
  finds an IPv4 neighbour leaves the host entry of that behind, and it names a group that has gone, or later the group of
  whoever gets the slot: `RemovalStrandsHost` has 2001:db8:: and 32.1.13.184. It does so also when that address is entered
  again (`HostLeftBehindStays`). `RemoveNeighborKeeps` says that a removal keeps
  the invariant if and only if it is by an IPv4 address or by one that is taken for no IPv4 one there (or the interface is not
  valid, and nothing happens).
- Entering a neighbour on a VLAN answers success without having made a group if the bridging table holds the address without
  one, as it does for addresses whose packets are trapped: `NeighborWithoutGroup`. Host entry and routes then name a group
  that is not there, and the neighbour cannot be removed, though the removal answers success. `CreateNeighborKeeps` says that
  this and the mixing of addresses are the only ways in which a neighbour that is entered breaks the invariant.
- A route that is to DROP can trap: the compiler tests a cached TRAP id first. `SetDropDiscards` says exactly when the action
  setter discards, `DropRouteStillTraps` gives a run. A dropping route that follows its next hop discards while the neighbour
  is there and traps once it has gone, if the interface misses to TRAP: `DropRouteTrapsOnceNeighborLeaves`. `EndToEnd` says of
  every reachable state which dropping routes trap.
- Removing a virtual router does not look at its routes. They cannot be reached any more, their entries stay in the switch,
  and they are back when the slot is given out again: `StrandedRoute`. No other call does this (`StepKeepsHomed`, if and only
  if). The removal of such a route answers that it was not found only if reading an unset pointer survives: with an invalid
  virtual router `mrvl_sai_get_route_prv` returns before it sets the pointer it is to give back
  (`src/mrvl_sai_route.c:512-516`), and `mrvl_sai_remove_route` reads through that pointer before it looks at the status
  (`src/mrvl_sai_route.c:562-563`).
- IPv6 routes are added to one L3 unicast table of the library and deleted from the other. If the library keeps the two
  apart, no IPv6 route can be removed (`Ipv6RouteStays`), and a new action, a new next hop, and a neighbour that comes or goes
  lose every IPv6 route they touch: it leaves the hash, and its entry stays, with the group of a neighbour that has gone
  (`LostStillSends`). When a neighbour changes, its element stays on the ring as well, which then no longer mirrors the routes.
  `SetActionKeepsIff`, `SetNextHopKeepsIff`, `MirrorSurvivesIff`, `CreateNeighborKeepsIff`, `RemoveNeighborKeepsIff` and
  `RemoveAllKeepsIff` say exactly when that is; `RunApartIs` says that runs that make no IPv6 route do not depend on it. Everything else here takes
  the two for one table, as the route test of the repository does (`test/src/mrvl_sai_route_test.c:1646`).
- An interface created with MTU zero breaks the interning of MTUs: `CreateRifKeeps` (if and only if), `MtuZeroIsLost`.
- A next hop set on a route is not checked to be in use, nor to be in the route's virtual router: `SetRouteNextHopKeeps` and
  `SetNextHopVr` (if and only if).
- A route without next hop that is set to FORWARD is lost: `RefSetAction` in `L3Reference`, proved of the code by
  `SetActionRefines`.
- A trap list is exact only if no entry carries a stray mark, and the first set leaves the marks as allocation made them:
  `ResetExactIff`, `SecondSetExactIff`; from the third set on it is exact in any case (`LifeExact`).
- A trap list orders its entries by the low 32 bits of a 64-bit id. Port numbers are told apart by these, object ids are not:
  all ids of one object type collapse into a single entry (`ResetHoldsIff`, `ObjectIdsCollapse`).

## Model

| member | source | states |
|---|---|---|
| L3Refinement.RunIsReference | src/mrvl_sai_route.c:148-223 | for every run from empty tables in which no call mixes up addresses and every call is allowed: each call returns what the reference machine returns, the tables end up holding what that machine has configured, and the switch holds one entry per route and one per IPv4 neighbour, each matching the virtual router and address it is there for, and does with each exactly what the configuration determines, routes that drop included |
| L3Refinement.StepRefines | src/mrvl_sai_nexthop.c:167-529 | every call, in every state the invariant holds of, is a step of the reference machine with the same status, success and each refusal alike and whatever the library answers where a group is made, unless it asks about an address that one of the other family there can be taken for |
| L3Refinement.RunRefines | src/mrvl_sai_neighbor.c:174-421 | the same for runs from any state the invariant holds of |
| L3Refinement.SwitchFollows | src/mrvl_sai_route.c:148-223 | in any such state the entries, what they match, their effect (a group, the CPU or a clear, and only one of them) and the groups are those the configuration determines |
| L3Refinement.TablesFollow | src/mrvl_sai_nexthop.c:293-341 | the same between any two calls on the arrays, links and rings themselves |
| L3Refinement.CreateVrRefines | src/mrvl_sai_router.c:214-300 | the first free id is valid afterwards, or the refusal is one of the two the configuration justifies |
| L3Refinement.RemoveVrRefines | src/mrvl_sai_router.c:313-334 | the reference counter refuses exactly when some interface is in the virtual router |
| L3Refinement.CreateRifRefines | src/mrvl_sai_router_intf.c:378-792 | creation gives the first free slot the kind, place, virtual router, MTU (1514 by default) and miss action (TRAP by default) that the attributes name; it fails for want of a slot, for want of one of eight different MTUs, for bad attributes, or with what the first failing of the library calls returned that the other interfaces leave to be made, where three of these may report an entry that exists; a failure leaves the configuration alone |
| L3Refinement.RemoveRifRefines | src/mrvl_sai_router_intf.c:199-335 | removal is refused exactly when a neighbour or a next hop sits on the interface, or with what the first failing of the library calls returned that the other interfaces leave to be made |
| L3Refinement.CreateNbrRefines | src/mrvl_sai_neighbor.c:174-304 | the neighbour gets the first free slot unless its seat is taken, the bridging lookup on a VLAN fails, or the group is asked for and not added, and every route through the next hop of that seat follows it from then on |
| L3Refinement.RemoveNbrRefines | src/mrvl_sai_neighbor.c:352-421 | exactly the neighbour with that seat goes, and every route through the next hop of that seat follows it from then on |
| L3Refinement.RemoveAllRefines | src/mrvl_sai_neighbor.c:680-721 | exactly the neighbours go, and every route through a next hop of their seats follows it from then on |
| L3Refinement.CreateNhRefines | src/mrvl_sai_nexthop.c:167-275 | the next hop gets the first free slot unless its seat is taken |
| L3Refinement.RemoveNhRefines | src/mrvl_sai_nexthop.c:489-529 | removal is refused exactly when a route goes through the next hop |
| L3Refinement.CreateRouteRefines | src/mrvl_sai_route.c:269-492 | the route asked for is added, or refused with the status the configuration justifies; forwarding, trapping and dropping are supported and nothing else |
| L3Refinement.RemoveRouteRefines | src/mrvl_sai_route.c:549-597 | exactly that route goes, also one whose next hop is not there, of which the status tells |
| L3Refinement.SetActionRefines | src/mrvl_sai_route.c:798-875 | the action changes, a route with a next hop follows it from then on, and nothing else changes, except that forwarding without next hop destroys the route, and that a route whose next hop is not there keeps its id and its entry and answers that it is not there |
| L3Refinement.SetNextHopRefines | src/mrvl_sai_route.c:887-961 | for any next hop, used or not, the next hop changes and the route follows it only if it had one before and the new one is used |
| L3Refinement.MtuRoom | src/mrvl_sai_router_intf.c:444-458 | the profile search fails exactly when eight other sizes are in use |
| L3Routes.SettableIff | src/mrvl_sai_route.c:812-819 | setting an action is not supported if and only if it is none of FORWARD, TRAP and DROP |
| L3Routes.CreatableIff | src/mrvl_sai_route.c:303-325 | nor is creating a route with one, which may also come without |
| L3Theorems.EndToEnd | src/mrvl_sai_route.c:174-194 | in every reachable state a forwarding route goes where its next hop's address resolves from scratch, else by the miss action; a trapping one goes to the controller; a dropping one discards unless it was created with the TRAP id or follows a next hop that misses to TRAP; each entry has exactly one of a group, the CPU output and cleared actions, and clears if and only if the packets are to be discarded |
| L3Theorems.RouteFate | src/mrvl_sai_route.c:964-985 | the fate per route in any state in which caches and entries are coherent, where discarding means that the entry clears its actions and has neither group nor output |
| L3Theorems.LoggedGoesToBoth | src/mrvl_sai_route.c:157-196 | the fourth action of the compiler, LOG, sends to the CPU and to the neighbour, and is refused without next hop; no call can set it |
| L3Theorems.CacheIsResolution | src/mrvl_sai_nexthop.c:244-267 | in every reachable state a used next hop caches the one neighbour with its address, or if there is none the id for trapping exactly if its interface misses to TRAP, else that for dropping; that is also what the code's own walk finds, and the neighbour points back |
| L3Theorems.CachedOnce | src/mrvl_sai_nexthop.c:217-225 | a neighbour is cached by at most one next hop |
| L3Theorems.HostEntriesExact | src/mrvl_sai_neighbor.c:104-156 | in every state that allowed calls reach, host entries and IPv4 neighbours correspond one to one; each matches the full address in its interface's virtual router, names its neighbour's existing group, and has neither output nor clear |
| L3Theorems.ForwardCreated | src/mrvl_sai_route.c:269-492 | a forwarding route, or one without action, onto a used next hop of its virtual router is created whenever its key is new and there is room, and its packets go where that next hop resolves |
| L3Theorems.NoDanglingGroup | src/mrvl_sai_neighbor.c:377-402 | in every state that allowed calls reach, every group an entry names exists |
| L3Theorems.SetDropDiscards | src/mrvl_sai_route.c:798-875 | a route set to DROP discards if and only if the id it keeps or takes over is not the TRAP id |
| L3Theorems.DropRouteTrapsOnceNeighborLeaves | src/mrvl_sai_neighbor.c:352-421 | removing the neighbour of a dropping route's next hop by its own address makes the route trap if and only if the interface misses to TRAP, however the route was created; before, one that follows its next hop discards |
| L3Theorems.DropRouteStillTraps | src/mrvl_sai_route.c:174-194 | a run that ends with a DROP route whose packets go to the controller |
| L3Runs.RunKeeps | src/mrvl_sai_router_intf.c:1215-1273 | every allowed run keeps the invariant: lists partition the used slots, caches agree, addresses stay apart, route lists mirror routes, entries match, counters count |
| L3Runs.StepKeepsIff | src/mrvl_sai_route.c:887-961 | a call keeps the invariant if and only if it is allowed (no MTU zero, no unused next hop set, no address configured that mixes with another there, no removal by an IPv6 address that is taken for an IPv4 one there, no group reported that was not made) or changes nothing |
| L3Runs.RemoveAllClears | src/mrvl_sai_neighbor.c:680-721 | no neighbour, group or host entry is left, every next hop is on its miss action, no route entry names a group |
| L3Runs.DrainRifKeeps | src/mrvl_sai_neighbor.c:692-717 | destroying a list while walking it keeps the invariant and takes exactly that list |
| L3Runs.GroupsNamed | src/mrvl_sai_route.c:185-194 | an entry that names a group belongs to a used neighbour |
| L3Reachable.Outcome | src/mrvl_sai_route.c:887-961 | from a reachable state a call leads to a reachable one if and only if it is allowed or changes nothing |
| L3Reachable.RunReachable | src/mrvl_sai_neighbor.c:174-421 | every allowed run stays among the reachable states |
| L3Invariant.NbrLookupExactIff | src/mrvl_sai_neighbor.c:539-552 | the neighbour found is the one with the address, or none is there, if and only if no neighbour of the other family on the interface matches at the width of the query |
| L3Invariant.NhLookupExactIff | src/mrvl_sai_nexthop.c:119-150 | the same for next hops |
| L3Addresses.MatchesIsMemcmp | src/mrvl_sai_neighbor.c:541-550 | the comparison is that of the first four bytes of both unions for an IPv4 query and of all sixteen for an IPv6 one |
| L3Addresses.NeighborKeepsBytes | src/mrvl_sai_neighbor.c:233-268 | a neighbour goes into the first unused slot with the family and the four or sixteen bytes of its address, and zeros behind four |
| L3Addresses.NextHopKeepsBytes | src/mrvl_sai_nexthop.c:227-266 | a next hop goes into the first unused slot with all sixteen bytes, whatever its family |
| L3Findings.MixedAddresses | src/mrvl_sai_neighbor.c:539-552 | after neighbour 2001:db8::1 the neighbour 32.1.13.184 is refused as if it were there, and the next hop 32.1.13.184 caches the IPv6 neighbour |
| L3Findings.RemovalExactIff | src/mrvl_sai_neighbor.c:352-421 | a removal takes exactly the neighbour asked for, and exactly the host entry of that address, if and only if no neighbour of the other family there matches |
| L3Findings.RemovalStrandsHost | src/mrvl_sai_neighbor.c:366-402 | a run in which removing 2001:db8::, never entered, succeeds, takes the neighbour 32.1.13.184 and its group away, and leaves the host entry that names that group |
| L3Findings.HostLeftBehindStays | src/mrvl_sai_neighbor.c:118-125 | a host entry that is there already is not touched by entering a neighbour, so one left behind keeps naming its old group |
| L3Findings.NeighborWithoutGroup | src/utils/mrvl_sai_utils.c:1188-1199 | where the group is reported and not made, the neighbour is there without one, its host entry and next hop name it, and removing it answers success, keeps it, and sends its next hop to the miss action |
| L3Findings.StepKeepsHomed | src/mrvl_sai_router.c:313-334 | a call leaves a route without its virtual router if and only if it removes a virtual router that has routes |
| L3Findings.StrandedRoute | src/mrvl_sai_router.c:313-334 | such a route cannot be found or removed, its entry stays, and it is back when the slot is used again |
| L3TwoTables.DeletesFromOne | src/mrvl_sai_route.c:567 | deletion finds the entries of hosts and of IPv4 routes, and no other entry goes |
| L3TwoTables.RemoveAgreesIff | src/mrvl_sai_route.c:567-575 | with two tables apart a removal does what it does with one if and only if there is no such route or it is an IPv4 one |
| L3TwoTables.Ipv6RouteStays | src/mrvl_sai_route.c:214-219 | with two tables apart an IPv6 route that has been created cannot be removed |
| L3TwoTables.SetActionKeepsIff | src/mrvl_sai_route.c:773-875 | with two tables apart the action setter keeps the invariant if and only if the route is an IPv4 one or nothing changes |
| L3TwoTables.LostStays | src/mrvl_sai_route.c:773-875 | otherwise the route is gone for later calls and its entry stays; its element stays on the list if and only if the next hop caches the id that the route had |
| L3TwoTables.SetNextHopKeepsIff | src/mrvl_sai_route.c:887-961 | with two tables apart the next-hop setter keeps the invariant if and only if nothing changes, or the next hop is used and the route an IPv4 one |
| L3TwoTables.LostOffTheLists | src/mrvl_sai_route.c:906-941 | an IPv6 route lost in this way has left the hash and its list, and its entry stays |
| L3TwoTables.RepointApartExact | src/mrvl_sai_route.c:964-985 | the loop over a next hop's routes moves exactly the IPv4 ones, and takes exactly the IPv6 ones off the hash and leaves their entries |
| L3TwoTables.MirrorSurvivesIff | src/mrvl_sai_nexthop.c:329-338 | after that loop the lists mirror the routes if and only if no IPv6 route went through the next hop |
| L3TwoTables.CreateNeighborKeepsIff | src/mrvl_sai_neighbor.c:174-304 | with two tables apart a neighbour that is entered keeps the invariant if and only if it does so with one and no IPv6 route goes through the next hop of its address; the status is the same |
| L3TwoTables.RemoveNeighborKeepsIff | src/mrvl_sai_neighbor.c:352-421 | the same for a neighbour that is removed |
| L3TwoTables.RemoveAllKeepsIff | src/mrvl_sai_neighbor.c:680-721 | with two tables apart removing every neighbour keeps the invariant if and only if no IPv6 route goes through a next hop that caches a neighbour, and then does what it does with one |
| L3TwoTables.LostStillSends | src/mrvl_sai_route.c:973-982 | the entry of an IPv6 route that forwards to a neighbour names its group still when neighbour and group have gone |
| L3TwoTables.RunApartIs | src/mrvl_sai_route.c:567-575 | whole allowed runs in which no IPv6 route is created do the same with two tables as with one |
| L3Neighbors.PointNextHopExact | src/mrvl_sai_nexthop.c:293-341 | the update of a next hop moves exactly the routes through it and their entries |
| L3Neighbors.CreateNeighborKeeps | src/mrvl_sai_neighbor.c:174-304 | a failing creation changes nothing; one that succeeds keeps the invariant, whatever the uninitialised next-hop index holds, if and only if its address mixes with none there and its group was made |
| L3Neighbors.GroupExact | src/utils/mrvl_sai_utils.c:1188-1250 | past its other checks a creation fails if and only if the bridging lookup of a VLAN fails, or the group is asked for and not added; a group is there afterwards if and only if it was added and, on a VLAN, the lookup gave one |
| L3Neighbors.RemoveNeighborKeeps | src/mrvl_sai_neighbor.c:352-421 | removal keeps the invariant if and only if the interface is not valid, or the address is an IPv4 one, or it is taken for none of the other family there |
| L3Neighbors.DropAskedIs | src/mrvl_sai_neighbor.c:377-402 | where an IPv4 neighbour is removed by an IPv4 address, and an IPv6 one by any that finds it, deleting the host entry of the address asked for is deleting that of the neighbour |
| L3Neighbors.DropStrandsHost | src/mrvl_sai_neighbor.c:377-402 | otherwise the host entry stays, and names a group that has gone |
| L3NextHops.CreateNextHopKeeps | src/mrvl_sai_nexthop.c:167-275 | creation keeps the invariant if and only if it fails or its address mixes with none there |
| L3NextHops.RemoveNextHopKeeps | src/mrvl_sai_nexthop.c:489-529 | removal keeps the invariant and succeeds if and only if the next hop is used and no route is on its list |
| L3Interfaces.RemoveVirtualRouterKeeps | src/mrvl_sai_router.c:313-334 | removal keeps the invariant and succeeds if and only if no interface is in the virtual router |
| L3Interfaces.CreateRifKeeps | src/mrvl_sai_router_intf.c:770-785 | under any library failures a failing creation changes nothing; the invariant is kept if and only if it fails or the MTU is not zero |
| L3Interfaces.RemoveRifKeeps | src/mrvl_sai_router_intf.c:213-332 | under any library failures a failing removal changes nothing; neither reference counter ever refuses |
| L3Interfaces.InternOnCreate | src/mrvl_sai_router_intf.c:444-458 | interning keeps counts, distinct sizes and every interface's own size |
| L3Interfaces.InternOnRemove | src/mrvl_sai_router_intf.c:321-332 | releasing a profile keeps the same, and the counter is never zero before |
| L3Routes.CreateRouteKeeps | src/mrvl_sai_route.c:269-492 | creation keeps the invariant |
| L3Routes.RemoveRouteKeeps | src/mrvl_sai_route.c:549-597 | removal keeps the invariant and never reports a missing next hop |
| L3Routes.SetRouteActionKeeps | src/mrvl_sai_route.c:798-875 | the action setter keeps the invariant |
| L3Routes.SetRouteNextHopKeeps | src/mrvl_sai_route.c:887-961 | the next-hop setter keeps the invariant if and only if it refuses or the new next hop is used |
| L3Lifetimes.NoDanglingChain | src/mrvl_sai_route.c:357-377 | while next hops are set inside their virtual router, every route via a next hop has a used next hop, a valid interface and its own, valid virtual router |
| L3Lifetimes.SetNextHopVr | src/mrvl_sai_route.c:887-961 | the setter leaves a route in a foreign virtual router exactly when it is given a next hop there |
| L3Lifetimes.StepStable | src/mrvl_sai_router_intf.c:1109-1199 | no call changes what a living interface or next hop was created with |
| L3Lifetimes.MtuForLife | src/mrvl_sai_router_intf.c:1188-1199 | an interface reports its creation MTU for its whole life |
| L3Lifetimes.MtuZeroIsLost | src/mrvl_sai_router_intf.c:444-458 | with MTU zero it does not: a concrete run |
| L3Lifetimes.UndoVirtualRouter | src/mrvl_sai_router.c:214-334 | create then remove gives the database back |
| L3Lifetimes.UndoRif | src/mrvl_sai_router_intf.c:199-335 | create then remove gives the database back |
| L3Lifetimes.UndoNextHop | src/mrvl_sai_nexthop.c:489-529 | create then remove gives all back but one back pointer |
| L3Lifetimes.UndoRoute | src/mrvl_sai_route.c:549-597 | create then remove gives the database back |
| L3Lifetimes.UndoNeighbor | src/mrvl_sai_neighbor.c:352-421 | for an unmixed address whose group is made, create then remove gives back all tables, and all entries but those of dropping routes |
| L3Database.Database.constructor | inc/mrvl_sai.h:548-623 | zeroed tables represent the empty database |
| L3Database.Database.GetMatchNeighborId | src/mrvl_sai_neighbor.c:522-560 | the walk over the links, comparing at the width of the query, finds what the sequence walk finds, and terminates |
| L3Database.Database.NextHopGetMatchId | src/mrvl_sai_nexthop.c:119-150 | the same for next hops |
| L3Database.Database.CreateRoutePrv | src/mrvl_sai_route.c:148-223 | adds exactly the compiled entry, or refuses a route that forwards without next hop |
| L3Database.Database.ModifyRoutePrv | src/mrvl_sai_route.c:773-795 | replaces exactly the route's entry, or deletes it where it cannot be compiled |
| L3Database.Database.RouteUpdateNbrId | src/mrvl_sai_route.c:964-985 | the element that the ring gave out caches the new id and its entry is compiled again |
| L3Database.Database.UpdateRouteList | src/mrvl_sai_nexthop.c:329-338 | the do-while, stepping along the ring while it rewrites the elements it passes, updates every route on it and no other, and ends |
| L3Database.Database.UpdateNext | src/mrvl_sai_nexthop.c:331-338 | one round: from the element of one route to that of the next, which is updated; it is the last exactly when the list ends there |
| L3Database.Database.NextHopUpdateNbrId | src/mrvl_sai_nexthop.c:293-341 | the walk and the loop together are the batch update |
| L3Database.Database.NeighborSetNextHop | src/mrvl_sai_neighbor.c:487-494 | sets the back pointer of a used neighbour |
| L3Database.Database.RifAddFirstNhId | src/mrvl_sai_router_intf.c:1252-1273 | replaces the head and hands out the old one |
| L3Database.Database.RifAddFirstNbrId | src/mrvl_sai_router_intf.c:1215-1236 | replaces the head and hands out the old one |
| L3Database.Database.CreateNextHop | src/mrvl_sai_nexthop.c:167-275 | on arrays, links and rings what the value operation does, with an empty ring for the new slot; valid afterwards if and only if the call is allowed or changes nothing |
| L3Database.Database.NextHopRemoveEntry | src/mrvl_sai_nexthop.c:357-381 | cuts exactly that row out of the linked list |
| L3Database.Database.RemoveNextHop | src/mrvl_sai_nexthop.c:489-529 | on arrays and links what the value operation does |
| L3Database.Database.NextHopAddRoute | src/mrvl_sai_nexthop.c:396-403 | links the element at the tail of the ring of a used next hop |
| L3Database.Database.NextHopDelRoute | src/mrvl_sai_nexthop.c:417-424 | unlinks the element from the ring it is on, if the next hop is used |
| L3Database.Database.AddRouteDirect | src/mrvl_sai_neighbor.c:104-142 | adds the host entry unless it is there |
| L3Database.Database.DelRouteDirect | src/mrvl_sai_neighbor.c:144-156 | deletes the host entry, and answers 0 and changes nothing if there is none |
| L3Database.Database.CreateNeighborEntry | src/mrvl_sai_neighbor.c:174-304 | on arrays, links, rings and switch what the value operation does; the group before any entry that names it, and valid afterwards, if and only if the call is allowed or changes nothing |
| L3Database.Database.CreateGroup | src/utils/mrvl_sai_utils.c:1156-1250 | the group is made if and only if it was added and, on a VLAN, the lookup gave one; success is answered then, and on a VLAN behind an entry without group |
| L3Database.Database.NeighborRemoveEntry | src/mrvl_sai_neighbor.c:307-336 | frees the group and cuts exactly that row out, or fails and changes no row if there is no such group |
| L3Database.Database.RemoveNeighborEntry | src/mrvl_sai_neighbor.c:352-421 | on arrays, links and switch what the value operation does, host entry by the address asked for; the group after every entry that named it, and valid afterwards, if and only if the call is allowed or changes nothing |
| L3Database.Database.RemoveAllNeighborEntries | src/mrvl_sai_neighbor.c:680-721 | terminates with everything cleared, destroying each list while it walks it |
| L3Database.Database.GetRoutePrv | src/mrvl_sai_route.c:493-535 | finds a route of a valid virtual router |
| L3Database.Database.CreateRoute | src/mrvl_sai_route.c:269-492 | on hash, ring and switch what the value operation does; an entry that cannot be compiled leaves the hash again |
| L3Database.Database.RemoveRoute | src/mrvl_sai_route.c:549-597 | on hash, ring and switch what the value operation does |
| L3Database.Database.SetRouteAction | src/mrvl_sai_route.c:798-875 | on hash, ring and switch what the value operation does |
| L3Database.Database.SetRouteNextHop | src/mrvl_sai_route.c:887-961 | the same, and valid afterwards if and only if the next hop is used or nothing changes |
| L3Database.Database.CreateVirtualRouter | src/mrvl_sai_router.c:214-300 | on the table what the value operation does |
| L3Database.Database.RemoveVirtualRouter | src/mrvl_sai_router.c:313-334 | on the table what the value operation does |
| L3Database.Database.UpdateReferenceCounter | src/mrvl_sai_router.c:361-376 | counts up or down and refuses at zero or on an invalid router |
| L3Database.Database.FindMtuProfile | src/mrvl_sai_router_intf.c:444-458 | a profile of that size wins over the first empty one |
| L3Database.Database.FindSharing | src/mrvl_sai_router_intf.c:641-659 | decides which shared entries another interface needs |
| L3Database.Database.RifGetMtuSize | src/mrvl_sai_router_intf.c:1188-1199 | reports the interned size |
| L3Database.Database.ConfigureSwitch | src/mrvl_sai_router_intf.c:566-768 | stops at the first failing call and changes no table, even where it removes the interface not yet entered |
| L3Database.Database.CreateRouterInterface | src/mrvl_sai_router_intf.c:378-792 | atomic under library failures; valid afterwards if and only if the MTU is not zero or nothing changes |
| L3Database.Database.RemoveRouterInterface | src/mrvl_sai_router_intf.c:199-335 | atomic under library failures |
| RouteStore.Store.Insert | src/mrvl_sai_route.c:450-460 | a new entry is in the hash and on no ring |
| RouteStore.Store.Delete | src/mrvl_sai_route.c:593 | an entry on no ring leaves the hash |
| RouteStore.Store.Write | src/mrvl_sai_route.c:964-985 | writing an entry through the pointer that a ring gave out leaves all rings alone |
| RouteStore.Store.Join | src/mrvl_sai_nexthop.c:396-403 | the element of an entry on no ring goes to the tail of one, the other rings stay |
| RouteStore.Store.Leave | src/mrvl_sai_nexthop.c:417-424 | the element of an entry leaves whatever ring it is on, or none, the other rings stay |
| RouteStore.Store.NodesApart | src/mrvl_sai_nexthop.c:396-424 | the rings of two next hops never share an element |
| RouteStore.Store.InitHead | src/mrvl_sai_nexthop.c:268 | a zeroed header becomes an empty ring |
| RouteStore.Store.ZeroHead | src/mrvl_sai_nexthop.c:236 | zeroing the header of an empty ring harms no other |
| DList.List.constructor | src/utils/mrvl_sai_dlist.c:176-198 | the header alone is the empty list |
| DList.List.IsEmpty | src/utils/mrvl_sai_dlist.c:233-257 | tells the empty list |
| DList.List.IsLast | src/utils/mrvl_sai_dlist.c:1136-1161 | tells the last element |
| DList.List.GetFirst | src/utils/mrvl_sai_dlist.c:908-928 | hands out the first element, or the header of an empty list |
| DList.List.GetLast | src/utils/mrvl_sai_dlist.c:963-983 | hands out the last element, or the header of an empty list |
| DList.List.GetNext | src/utils/mrvl_sai_dlist.c:798-818 | steps to the next place on the ring, from the header too |
| DList.List.PrvInsert | src/utils/mrvl_sai_dlist.c:53-77 | inserts at that place of the sequence and keeps the ring linked both ways |
| DList.List.InsertAfter | src/utils/mrvl_sai_dlist.c:292-312 | inserts behind the given element |
| DList.List.InsertBefore | src/utils/mrvl_sai_dlist.c:347-367 | inserts before the given element |
| DList.List.InsertToHead | src/utils/mrvl_sai_dlist.c:402-422 | prepends |
| DList.List.InsertToTail | src/utils/mrvl_sai_dlist.c:457-477 | appends |
| DList.PrvRemove | src/utils/mrvl_sai_dlist.c:112-134 | cuts out one element and keeps the ring linked both ways |
| DList.Remove | src/utils/mrvl_sai_dlist.c:512-539 | cuts the element out of the ring it is on and clears its links; an element on no ring stays as it is |
| DList.List.RemoveFromHead | src/utils/mrvl_sai_dlist.c:574-595 | takes the first element, or the header of an empty list |
| DList.List.RemoveFromTail | src/utils/mrvl_sai_dlist.c:630-651 | takes the last element, or the header of an empty list |
| DList.List.MoveToHead | src/utils/mrvl_sai_dlist.c:686-707 | moves the element to the front and keeps the order of the others |
| DList.List.MoveToTail | src/utils/mrvl_sai_dlist.c:742-763 | moves the element to the back and keeps the order of the others |
| SortedList.FindSorted | src/utils/mrvl_sai_dlist.c:989-1023 | stops at the first key that is not smaller and says whether it is equal |
| SortedList.InsertSorted | src/utils/mrvl_sai_dlist.c:1068-1101 | puts the element before the first bigger key |
| SortedList.InsertBigger | src/utils/mrvl_sai_dlist.c:1026-1063 | on the ring, what the delta insertion does to the differences |
| SortedKeys.InsertKeepsAscending | src/utils/mrvl_sai_dlist.c:1068-1101 | sorted insertion keeps the order and adds exactly the new key, behind all that are not bigger and before all that are |
| SortedKeys.SearchFinds | src/utils/mrvl_sai_dlist.c:989-1023 | on a sorted list the search finds a key if and only if it is there |
| SortedKeys.DeltaInsertInsertsSum | src/utils/mrvl_sai_dlist.c:1026-1063 | all running sums stay, and the new one stands behind every sum that does not exceed it and before every other; no subtraction goes below zero |
| SortedKeys.SumsDetermine | src/utils/mrvl_sai_dlist.c:1026-1063 | the sums determine the stored differences |
| SortedKeys.KeysAreLowWords | src/utils/mrvl_sai_dlist.c:989-1023 | what the list functions order by is the low word of the data |
| SortedKeys.KeyWritten | src/utils/mrvl_sai_dlist.c:1026-1101 | writing a key writes the low word and no other bit |
| TrapTable.TrapPorts.Set | src/mrvl_sai_host_interface.c:1441-1581 | over any sequence of sets the counter is the list's length, and from the third set on the list has exactly the requested keys, strictly ascending, marks clear |
| TrapTable.FillIn | src/mrvl_sai_host_interface.c:1482-1503 | the first set, with whatever marks the entries carry |
| TrapTable.DeleteAll | src/mrvl_sai_host_interface.c:1507-1518 | the empty request empties the list |
| TrapTable.MarkOrInsert | src/mrvl_sai_host_interface.c:1522-1549 | step 1 on the ring, counter included |
| TrapTable.SweepOut | src/mrvl_sai_host_interface.c:1551-1579 | step 2 on the ring, with the loop bound taken before it and the counter going down on the way |
| TrapList.ResetExact | src/mrvl_sai_host_interface.c:1504-1581 | with all marks clear, a set leaves exactly the requested keys, strictly ascending, marks clear, earlier repeats gone |
| TrapList.ResetExactIff | src/mrvl_sai_host_interface.c:1520-1579 | a set by a non-empty request is exact if and only if no entry outside the request carries a mark |
| TrapList.ResetHoldsIff | src/mrvl_sai_host_interface.c:160-164 | the full 64-bit ids listed are those requested if and only if no requested id shares its low word with a different requested or listed one |
| TrapList.ObjectIdsCollapse | src/utils/mrvl_sai_utils.c:833-851 | a list set by ids of one object type has one entry |
| TrapList.FillSorted | src/mrvl_sai_host_interface.c:1482-1503 | the first set gives a sorted list of the requested keys |
| TrapList.LifeExact | src/mrvl_sai_host_interface.c:1441-1581 | whatever marks the first entries carried, from the third set on the low 32-bit words of the list ascend strictly and are exactly those of the requested ids, and all marks are clear |
| TrapList.SecondSetExactIff | src/mrvl_sai_host_interface.c:1482-1503 | the second set is exact if and only if it keeps every first entry that came with a mark |

## Left out

- L3Database.Database.SetRouteNextHop: sets next hops only, not router interfaces, because routes onto an interface are left out below.
- L3Refinement.SetNextHopRefines: next hops only, for the same reason.
- L3Database.Database.ModifyRoutePrv: deletes from and adds to one table; with two, the deletion of an IPv6 route fails, which `L3TwoTables` models on values.
- L3Database.Database.RemoveRoute: one table likewise.
- L3Findings.StrandedRoute: answers that there is no such route where the code first reads through an unset pointer.
- Routes set onto a router interface, `mrvl_sai_rif_update_nbr_id` for them (which follows host prefixes only) and its unset status: a route to an interface is modelled only as far as its creation traps; the interface's own list of routes stays empty and is not modelled.
- MAC addresses, the contents of groups and buckets, and the MAC setter of a neighbour.
- The switch library, beyond entries and groups of the L3 unicast table and the success or failure of the calls for interfaces. Calls for the L3 unicast table succeed, but for the deletion of what is not there. Making a group succeeds, fails, or reports success without a group; deleting a group that is not there is taken to fail. One table stands for both address families, but in `L3TwoTables`.
- L3Database.Database.RemoveAllNeighborEntries: starts from states in which every neighbour has its group; where one has none, the code stops in the middle.
- L3TwoTables.RepointApartExact: an element whose route has left the hash keeps its memory; what happens when the hash gives that memory out again is left out.
- Cookies are values of a datatype. The code uses a pointer, truncated to an integer, and a word made of address and interface; that the two kinds do not meet is assumed.
- The hash of routes is a finite map to entry objects with its limit of 8192 entries; the code of the hash itself is not part of the model, and an entry that leaves the map is not used again.
- The elements of the circular lists carry their entry as a field, where the code has the element inside the entry; a header gets a filler there.
- L3Database.Database.CreateNextHop: looks for the neighbour before it links the new slot, the code after; the two touch different rows.
- Attribute metadata, object-id packing (but for the trap list), ECMP groups, LAG buckets, `route_remove_all`, removal of all interfaces, dumps and logging: thin, or built on what is modelled.
- Port numbers of trap lists: the entries of the control-packet table and the update of the trap's action, since several traps share one cookie there; allocation failures; the 32-bit width of the counter, which a list of so many entries would exceed.
- Positions in list methods are ghost parameters; an element passed to the wrong list is modelled for removal only.
- Threads, netdevices, packet input and output.
