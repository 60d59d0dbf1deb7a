# IP address management controller: a verified model

The controller hands out IPv4 addresses to hosts and keeps a Kubernetes custom resource's
status in step with what it handed out. This project models it layer by layer and proves
what the layers keep, alone and together.

| file | what it holds |
|---|---|
| `Wrappers.dfy`, `Text.dfy` | optional values; splitting, trimming, decimal numbers, text order |
| `Ip.dfy` | 16-byte addresses, the in-place increment, prefixes, address and prefix text |
| `Store.dfy` | the tables `ipaddress_range` and `a_records` and the statements run on them |
| `Provider.dfy`, `Manager.dfy` | range expansion at start-up; the guards in front of the store |
| `Controller.dfy` | one request at a time, responses started in the background |
| `Orchestrator.dfy` | events to requests, responses to the status list |
| `Pool.dfy` | the store as slots and owners, and the refinement of that simple form |
| `Laws.dfy` | properties of every run of requests |
| `Ranges.dfy` | configurations: text round trip, and which of them give a sound pool |
| `Status.dfy` | the status list as a map, confluence, spec diffs |
| `System.dfy` | all parts as one transition system over one resource |
| `Settling.dfy` | the closed loop stops |
| `Agreement.dfy` | the invariant of spec, status, store and everything under way; what it means at rest |
| `Provenance.dfy` | where status addresses come from, in any response order |
| `Restart.dfy` | replaying a status, and what a restart answers |
| `Scenarios.dfy` | teardown and swap, starting from rest |
| `Lifecycle.dfy` | whole runs: end-to-end agreement, restarts, deletion and re-creation |
| `Outcomes.dfy` | the system left alone after one event, and exactly when that ends in agreement |
| `Arrivals.dfy` | agreement when responses arrive in any order at all |
| `Examples.dfy` | one configuration, from its text to the first address handed out |
| `Limits.dfy` | runs outside the hypotheses, and what goes wrong in them |

Each class method is proved equal to a function of the old state; the lemmas are about those
functions. `Pool.Consistent` is the pool hypothesis together with what every run keeps: no
address in two rows, every row an IPv4 address inside the prefix its label names, record
addresses pairwise distinct and drawn from the rows, a row allocated exactly when a record
names it. `Ranges.ConfigConsistentIff` says for which IPv4 configuration texts it holds at start-up.

## Where the code differs from its own words

* `PRIMARY_KEY` in the `a_records` schema is not a constraint. Uniqueness of record addresses
  is proved as an invariant.
* The provider's comment says that deleting an A record releases the address. It does not;
  the controller releases first and deletes second.
* A range is accepted when both mask texts are equal, whether or not both ends lie in one
  subnet, and its rows are labelled with the end address's prefix. Such rows can be handed out
  but never replayed (`Ranges.ReplayRefusedAcrossSubnets`).
* A CREATE that finds no free address gets no response and is tried again only by a restart.
  `Outcomes.RestartInvisibleIff` says when that shows.
* A restart keeps status entries that the spec no longer asks for. `Lifecycle.EndToEnd` states
  the outcome with these orphans and shows that they are the only obstacle to agreement.
* A lookup ignores the CIDR. A restart that catches a host on its way from one CIDR to another
  therefore leaves it with its old address under the new CIDR (`Limits.MidMoveRestart`), and so
  does a spec that asks for an orphan's host elsewhere (`Limits.OrphanMoved`);
  `Outcomes.BootAgreesIff` and `Outcomes.UpdateAgreesIff` give the exact conditions.
* A deletion tears down what the deleted copy's status lists. Deleted while requests are still
  to be served, a resource may leave addresses behind (`Limits.EarlyDelete`);
  `Outcomes.DeletionIff` says, in terms of the state at the deletion, exactly when it does.
* Answers from before a deletion may reach the resource once it is created again
  (`Limits.StaleAnswer`). `Outcomes.ReaddAgreesIff` says exactly when that spoils agreement, and
  `Lifecycle.CreateAnyTime` that it never does after a deletion at rest.
* Responses may overtake one another, within one key to lasting effect (`Limits.Overtaken`).
  `Status.CommuteIff` says which pairs commute on every map, and `Arrivals.AgreesIffSameLast`
  exactly which orders of arrival end in agreement.

## Model

| member | source | states |
|---|---|---|
| Text.SplitJoin | pkg/provider/provider.go:47-66 | splitting recovers exactly the pieces that were joined, for any separator none of them holds |
| Text.JoinSplit | pkg/provider/provider.go:47-73 | splitting any text loses nothing and leaves no separator inside a piece |
| Text.TrimPadded | pkg/provider/provider.go:50-63 | trimming gives back what stands between any run of the character on either side |
| Text.TrimTakes | pkg/provider/provider.go:50-63 | and takes away nothing but that character, all of it |
| Text.LexLeIff | pkg/provider/sqlite/store.go:156-169 | text order is: a prefix first, otherwise the first differing character decides |
| Text.TextOrder | pkg/provider/sqlite/store.go:156-169 | so 10.0.0.1 sorts before 10.0.0.2, and 10.0.0.10 before 10.0.0.9 |
| Text.NumberConcat | pkg/provider/provider.go:101-113 | digits count by their decimal place |
| Text.ItoaNumber | pkg/provider/provider.go:107-126 | every digit text without a leading zero is the rendering of the number it reads as |
| Text.ItoaCanonical | pkg/provider/provider.go:107-126 | a rendered number has no leading zero |
| Ip.Inc | pkg/provider/provider.go:134-141 | the in-place increment turns the bytes into their successor |
| Ip.SuccAddsOne | pkg/provider/provider.go:134-141 | on any number of bytes the increment adds one to the big-endian value, modulo 256^n |
| Ip.SuccCarry | pkg/provider/provider.go:134-141 | bytes above the carry stay, the absorbing byte grows by one, bytes below it become zero |
| Ip.HoldsNext | pkg/provider/provider.go:119-141 | incrementing the 16-byte form of n gives that of n + 1, and past 255.255.255.255 bytes that no longer read as IPv4 |
| Ip.HoldsContains | pkg/provider/provider.go:119 | the membership test on the bytes is an interval test on the number, false past the last IPv4 address |
| Ip.PrefixInterval | pkg/provider/provider.go:119 | prefix membership is membership in the interval of the prefix's size |
| Ip.PrefixRounds | pkg/provider/provider.go:101-119 | a prefix is the address rounded down to a multiple of its size, and 2^bits prefixes of that size fill the address space |
| Ip.PrefixOctets | pkg/provider/provider.go:101-119 | masking works octet by octet: whole octets kept, low bits of one cleared, the rest zero |
| Ip.ParseRender | pkg/provider/provider.go:120-126 | reading a rendered address gives the address back |
| Ip.RenderInjective | pkg/provider/provider.go:124-126 | comparing rendered texts decides equality of addresses |
| Ip.RenderSplit | pkg/provider/provider.go:120-124 | a rendered address is its four octets in decimal notation between three dots |
| Ip.RenderExample | pkg/provider/provider.go:120-124 | for instance 172.16.1.1 |
| Ip.ParseIPv4Iff | pkg/provider/provider.go:101-113 | exactly the texts that read as an address: four decimal numbers of at most 255 between three dots and nothing else, leading zeros allowed |
| Ip.ParseCIDRIs | pkg/provider/provider.go:101-113 | "address/length" reads as the address and its prefix exactly if the address reads and the length is a decimal number of at most 32 |
| Ip.ParseCIDRNone | pkg/provider/provider.go:101-113 | a text without a slash reads as no prefix |
| Ip.ParseLabel | pkg/provider/provider.go:107-109 | a stored CIDR label reads back as the prefix it names |
| Ip.LabelSplit | pkg/provider/provider.go:107-109 | a label is the rendered base and the length in decimal notation around one slash |
| Provider.ParseIPRange | pkg/provider/provider.go:42-53 | empty text gives nothing, other text its comma-separated pieces without outer blanks |
| Provider.ExpandRange | pkg/provider/provider.go:118-127 | yields start, start + 1, and so on: up to the end if it is reached inside the start's prefix, else up to that prefix's last address; terminates for every prefix length |
| Provider.IPAMProvider.GenerateExternalIPAddr | pkg/provider/provider.go:56-132 | folds every entry into labels and rows, skipping malformed ones, and registers a label even if the start address then fails to parse |
| Provider.NewProvider | pkg/provider/provider.go:26-40 | no provider for empty text, otherwise one loaded from an empty store |
| Provider.IPAMProvider.GetNextAddr | pkg/provider/provider.go:175-181 | unsupported labels get no address and change nothing, others first fit |
| Provider.IPAMProvider.AllocateIPAddress | pkg/provider/provider.go:184-204 | marks the address only if the label is supported, both texts parse and the prefix contains the address |
| Provider.IPAMProvider.ReleaseAddr | pkg/provider/provider.go:207-209 | makes every row of the address available, nothing else |
| Provider.Refused | pkg/provider/provider.go:175-204 | a label no range registered gets no address, nor does a text that is no IPv4 address |
| Provider.InPrefixIff | pkg/provider/provider.go:189-203 | the containment test admits exactly the addresses of the prefix's interval |
| Ranges.ReadEntry | pkg/provider/provider.go:63-96 | the text of a range reads back as its two ends and its mask |
| Ranges.ConfigRoundTrip | pkg/provider/provider.go:42-66 | a configuration written from ranges, with any blanks around its entries and any quotes around each, gives back those ranges, one entry each, in order |
| Ranges.EntriesOf | pkg/provider/provider.go:42-53 | the entries of any text are its pieces between commas without outer blanks |
| Ranges.RangesConcat | pkg/provider/provider.go:62-105 | a bad entry costs no other entry its range |
| Ranges.LoadAllConcat | pkg/provider/provider.go:62-128 | later entries are loaded after earlier ones |
| Ranges.RangeOfIff | pkg/provider/provider.go:63-117 | exactly the IPv4 entries taken for a range, and which: "a/m-b/m" up to quotes, with two address texts and one length of at most 32 written the same both times |
| Ranges.TwoEndsIff | pkg/provider/provider.go:72-117 | an entry of two ends is skipped exactly if the masks differ as text or an end or the mask does not read |
| Ranges.LastIs | pkg/provider/provider.go:118-127 | a range stops at its end if that lies above its start in the same subnet, else at the last address of the start's subnet |
| Ranges.LoadEntryParsed | pkg/provider/provider.go:56-132 | loading any entry but an IPv6 range, quotes, blanks and leading zeros included, adds exactly the range its ends parse to, and no row if one does not parse |
| Ranges.LoadEntryIs | pkg/provider/provider.go:62-128 | loading a range's text adds exactly its rows, in address order, labelled with the end address's prefix |
| Ranges.ConfigConsistentIff | pkg/provider/provider.go:42-128 | for any configuration text without IPv6 ranges, the loaded store is consistent exactly when every range the text stands for has both ends in one subnet and no two overlap |
| Ranges.ReplayRefusedAcrossSubnets | pkg/provider/provider.go:107-128 | every address of a range across subnets is refused on replay under its own label, although first fit hands it out |
| Ranges.OneRangeAscending | pkg/provider/provider.go:118-128 | the rows of a CIDR filled by one range are in ascending numerical order |
| Ranges.ConfiguredFirstFit | pkg/provider/sqlite/store.go:105-128 | from any configuration text without IPv6 ranges whose ranges are clean, after any requests: a new host in a CIDR filled by one range gets the numerically least free address, and is refused only when none is free |
| Ranges.NetworkCreate | pkg/provider/provider.go:107-181 | from any configuration text with clean ranges and no IPv6 range, after any requests: a new host that asks for a network as "base/length" is answered exactly when an address its ranges contribute is available, and with such an address |
| Examples.Loads | pkg/provider/provider.go:56-132 | one configuration, in plain texts: the label and the five rows it gives |
| Examples.FirstCreate | pkg/controller/controller.go:74-79 | and the address its first host gets |
| Examples.Skipped | pkg/provider/provider.go:80-105 | entries with two masks or an octet over 255 are skipped |
| Store.DBStore.InsertIP | pkg/provider/sqlite/store.go:70-81 | appends one available row per address, in order, under the label |
| Store.DBStore.AllocateIP | pkg/provider/sqlite/store.go:105-128 | allocates the available row of lowest id in the CIDR and returns its address, or changes nothing and returns "" |
| Store.DBStore.MarkIPAsAllocated | pkg/provider/sqlite/store.go:130-154 | allocates the available row of lowest id with that CIDR and address, or changes nothing and says so |
| Store.DBStore.GetIPAddress | pkg/provider/sqlite/store.go:156-169 | returns the host's address that sorts first as text, "" if it has none |
| Store.LeastRecord | pkg/provider/sqlite/store.go:156-169 | the specification behind it: a record of the host that no other of its records precedes in text order, none exactly when the host has none |
| Store.DBStore.ReleaseIP | pkg/provider/sqlite/store.go:171-179 | makes every row of the address available, keeps all others |
| Store.ReleasedIs | pkg/provider/sqlite/store.go:171-179 | a release makes available what was available or carries the address, and moves or relabels no row |
| Store.DBStore.CreateARecord | pkg/provider/sqlite/store.go:181-192 | appends the record, duplicates included |
| Store.DBStore.DeleteARecord | pkg/provider/sqlite/store.go:194-205 | removes every copy of the record, keeps the others in order |
| Manager.IPAMManager.CreateARecord | pkg/manager/f5ipammanager.go:30-38 | refuses what is not IPv4 text without touching the store, else records |
| Manager.IPAMManager.DeleteARecord | pkg/manager/f5ipammanager.go:41-48 | the same guard in front of deletion |
| Manager.IPAMManager.GetNextIPAddress | pkg/manager/f5ipammanager.go:56-63 | refuses CIDR text that does not parse, else asks the provider |
| Manager.IPAMManager.ReleaseIPAddress | pkg/manager/f5ipammanager.go:71-78 | the same guard in front of release |
| Manager.IsIPv4AddrIff | pkg/manager/f5ipammanager.go:81-91 | the guard lets exactly the IPv4 texts through |
| Manager.RefusesOthers | pkg/manager/f5ipammanager.go:30-78 | what is not IPv4 text never reaches the store |
| Controller.Controller.ServeRequest | pkg/controller/controller.go:34-94 | the four outcomes of a request: store and response, if one is started |
| Controller.Controller.RunController | pkg/controller/controller.go:32-96 | a whole channel of requests leaves the store and starts the responses of serving them one by one |
| Pool.GuardsTransparent | pkg/manager/f5ipammanager.go:30-91 | on a consistent store no guard of manager or provider ever changes an outcome |
| Pool.HandleRefines | pkg/controller/controller.go:33-95 | one request on the tables keeps them consistent and does, response included, what it does on slots and owners |
| Pool.HandleAllRefines | pkg/controller/controller.go:33-95 | the same for every run of requests |
| Pool.NextRefines | pkg/provider/sqlite/store.go:105-128 | first fit over rows in id order finds the first unowned slot |
| Laws.RecordsMatchRows | pkg/controller/controller.go:32-95 | after any requests a row is allocated exactly when exactly one record names it, every record names a row, no address has two hosts |
| Laws.RowsConserved | pkg/provider/sqlite/store.go:105-179 | no run adds, drops, relabels or reorders a row, on any store whatsoever |
| Laws.StickyIff | pkg/controller/controller.go:46-72 | once a CREATE, explicit or plain, answers a host, later plain ones repeat the address and change nothing exactly when it is not an explicit address sorting after one the host already held |
| Laws.Sticky | pkg/controller/controller.go:68-72 | so a plain CREATE is sticky for every CIDR, over any run that neither deletes the host nor asks an explicit address for it |
| Laws.CreateThenDelete | pkg/controller/controller.go:46-85 | a successful CREATE for a host without a record, then its DELETE, restores rows and records exactly |
| Laws.DrainedIsInitial | pkg/controller/controller.go:80-85 | whenever a run from no records ends with no records, the store is the initial one |
| Laws.EnoughDeletes | pkg/controller/controller.go:80-85 | any run that ends with a DELETE for every record left returns to the initial store |
| Laws.DeletesDrain | pkg/controller/controller.go:81-84 | deletes take a host's addresses in text order, one each, and no other host's |
| Laws.DrainedIff | pkg/controller/controller.go:80-85 | a host has no record left exactly when it was deleted at least once per record |
| Laws.FullReclamation | pkg/orchestration/kuberntes.go:235-248 | with enough deletes per named host exactly their records go and exactly their rows become available |
| Laws.Capacity | pkg/controller/controller.go:74-79 | newcomers with mixed CIDRs: per CIDR exactly the smaller of demand and free addresses is served and that many addresses go |
| Laws.StoreCapacity | pkg/controller/controller.go:68-79 | k new hosts into a CIDR with f available rows: exactly the smaller number of answers, distinct addresses of available rows of that CIDR, nothing for the rest |
| Laws.ServedIff | pkg/controller/controller.go:74-79 | a newcomer is answered exactly when fewer came before it for its CIDR than were free |
| Laws.SwapUnderExhaustion | pkg/orchestration/kuberntes.go:259-288 | deletes before creates, any order within each: every create is answered exactly when no CIDR is asked for more, by hosts that own nothing or are deleted, than free plus given back |
| Laws.FirstFitIsLeast | pkg/provider/sqlite/store.go:109-128 | after any run first fit returns the numerically least free address of a CIDR stored in ascending order |
| Orchestrator.K8sIPAMClient.EnqueueUpdatedIPAM | pkg/orchestration/kuberntes.go:158-167 | queues the old and new spec behind what waits |
| Orchestrator.K8sIPAMClient.ProcessResource | pkg/orchestration/kuberntes.go:192-292 | takes the oldest key and sends its requests: replays then creates, the teardown, or all deletes of the diff before all its creates, in any order within each |
| Orchestrator.K8sIPAMClient.SendDeletes | pkg/orchestration/kuberntes.go:259-273 | one DELETE per spec of the old set that the new one lacks, each once |
| Orchestrator.K8sIPAMClient.SendCreates | pkg/orchestration/kuberntes.go:275-288 | one CREATE per spec of the new set that the old one lacks, each once |
| Orchestrator.K8sIPAMClient.ProcessResponse | pkg/orchestration/kuberntes.go:294-379 | overwrites or appends on success, removes the last match on a failed CREATE or a DELETE, leaves the status alone when Get or Update fails |
| Status.PutIsMapPut | pkg/orchestration/kuberntes.go:308-324 | on unique keys a success is a map put, keys stay unique, existing entries keep their places |
| Status.RemoveIsMapRemove | pkg/orchestration/kuberntes.go:350-367 | on unique keys a removal takes the key out of the map and keeps the others' order |
| Status.AppliedAllRefines | pkg/orchestration/kuberntes.go:294-379 | any sequence of responses acts on the list as on the map and keeps keys unique |
| Status.OrderIff | pkg/orchestration/kuberntes.go:295-376 | on any map, the same responses in another order give the same map exactly when the last one with an effect on each key has the same effect |
| Status.Confluent | pkg/orchestration/kuberntes.go:295-376 | so responses for pairwise different keys give the same map in every order |
| Status.UpdateConfluent | pkg/orchestration/kuberntes.go:249-376 | the responses of one update, delivered in any permutation, give the same status map |
| Status.CommuteIff | pkg/orchestration/kuberntes.go:297-375 | two responses commute on all maps exactly when their keys differ, their effects are equal, or one has none |
| Status.UpdateKeysDistinct | pkg/orchestration/kuberntes.go:250-288 | an update names each key at most once, as deleted or as created |
| Status.UpdateWalks | pkg/orchestration/kuberntes.go:249-288 | an update's requests lead from the old spec set to the new one, for every iteration order |
| Status.UpdatesTelescope | pkg/orchestration/kuberntes.go:249-288 | a chain of updates leads from the first spec set to the last |
| Status.NoDiffNoRequests | pkg/orchestration/kuberntes.go:249-288 | an update that changes only the status asks for nothing |
| Settling.EmitsCost | pkg/orchestration/kuberntes.go:204-290 | an event sends exactly as many requests as its lists or its diff hold |
| Settling.InternalDecreases | pkg/orchestration/kuberntes.go:158-379 | every step of the controller's own decreases one measure, although status writes come back as events, in any response order |
| Settling.SettlesWithin | pkg/orchestration/kuberntes.go:158-379 | over whole runs, the controller's own steps number at most the starting measure plus what user actions and restarts bring in |
| Settling.MovesUntilQuiescent | pkg/orchestration/kuberntes.go:180-190 | as long as anything is queued, pending or in flight, some step is possible |
| Agreement.ServeReplay | pkg/controller/controller.go:46-67 | replaying a status entry binds nothing new: it succeeds if it is the first to name a slot of the pool, and is refused otherwise |
| Agreement.ServePlain | pkg/controller/controller.go:68-94 | a plain request keeps owners and bindings equal, one address per committed host in that host's CIDR |
| Agreement.OkUpdate | pkg/orchestration/kuberntes.go:249-288 | while an update is worked off, at every point each host is committed under at most one CIDR |
| Agreement.ViewDeliver | pkg/orchestration/kuberntes.go:294-379 | delivering the oldest response of any key keeps what status and responses in flight say together |
| Agreement.BootInv | pkg/orchestration/kuberntes.go:205-234 | starting on any status the system may have left establishes the invariant, provided no host has two CIDRs among the spec and the entries granted again |
| Agreement.RestAgrees | pkg/orchestration/kuberntes.go:294-378 | at rest the status list is exactly the spec's hosts with the addresses the store records for them, each an allocated row of the CIDR, and the store records nothing else |
| Lifecycle.StepKept | pkg/orchestration/kuberntes.go:158-379 | every orderly step keeps the invariant: updates, restarts that catch no host between two CIDRs, responses overtaking across keys, deletions whose status covers the store, re-creations during the teardown |
| Lifecycle.RecreatedIsBoot | pkg/orchestration/kuberntes.go:192-248 | creating the resource again once its teardown is served is a fresh start, but for answers still in flight |
| Lifecycle.CreateAnyTime | pkg/orchestration/kuberntes.go:235-248 | after a deletion at rest the resource may be created again at any moment: nothing still to be answered will touch the new status |
| Lifecycle.EndToEnd | pkg/orchestration/kuberntes.go:192-379 | at every rest of every orderly run: agreement for spec plus orphans, for the spec alone exactly when there are no orphans, and the configured store while the resource is deleted |
| Lifecycle.RestartsLoseNothing | pkg/orchestration/kuberntes.go:205-221 | with all responses in order, a restart at any moment would be granted every status entry |
| Lifecycle.NoOrphansIff | pkg/orchestration/kuberntes.go:205-221 | there are no orphans exactly when every entry the last start or restart was granted is in its spec or in a later one |
| Outcomes.Outcome | pkg/controller/controller.go:32-96 | from any state left alone, in any interleaving, the store ends as serving all that is under way gives, answers lost or not; with none lost and those for one key in order, the status ends as answering in that order gives |
| Outcomes.WorkedOff | pkg/orchestration/kuberntes.go:192-292 | so one event at rest ends where serving its requests one by one and applying their responses in order leads |
| Outcomes.DeletionIff | pkg/orchestration/kuberntes.go:235-248 | a deletion at any moment gives everything back exactly when the status then lists each host at least as often as it will have records once all asked for before is served |
| Outcomes.ComesToRest | pkg/controller/controller.go:32-96 | left alone the system reaches a state at rest, and that state is as end-to-end agreement says |
| Outcomes.BootAgreesIff | pkg/controller/controller.go:68-72 | a start agrees at the next rest exactly when no host has two CIDRs among the spec and the status entries granted again |
| Outcomes.UpdateAgreesIff | pkg/orchestration/kuberntes.go:249-288 | an update, whatever is under way, agrees at the next rest exactly when no orphan's host is asked for under another CIDR |
| Outcomes.ReaddAgreesIff | pkg/orchestration/kuberntes.go:192-248 | a re-creation at any stage of the teardown agrees at the next rest exactly when the fresh start grants every key for which answers from before leave an entry |
| Outcomes.RestartInvisibleIff | pkg/orchestration/kuberntes.go:205-234 | a restart at rest rebuilds the same store and status exactly when no refused host of the spec could be given an address now |
| Arrivals.AgreesIffSameLast | pkg/controller/controller.go:35-52 | a run of updates whose responses arrive in any order agrees at rest exactly when, for every key, the last response received with an effect has the effect of the last one started |
| Limits.MidMoveRestart | pkg/controller/controller.go:68-72 | for every pool with an address: a run in which a restart catches a host between two CIDRs and the status ends up showing its one address under both |
| Limits.OrphanMoved | pkg/controller/controller.go:68-72 | for every pool with an address: a run in which a spec asks for an orphan's host under another CIDR, with the same outcome |
| Limits.EarlyDelete | pkg/orchestration/kuberntes.go:235-248 | for every pool with an address: deleting the resource before its CREATE is served leaves the address taken, and a re-creation shows it under another CIDR |
| Limits.StaleAnswer | pkg/controller/controller.go:81-94 | for every pool with two CIDRs: a run in which an answer from before a deletion, which gave everything back, puts an entry into the re-created resource's status |
| Limits.Overtaken | pkg/controller/controller.go:35-52 | for every pool with an address: a DELETE's answer overtaking a CREATE's for the same key leaves a status entry the store knows nothing of |
| Provenance.HandleTraces | pkg/controller/controller.go:35-94 | a request leaves other hosts' records in place and each success is backed by a record |
| Provenance.Provenance | pkg/orchestration/kuberntes.go:298-337 | for hosts no DELETE has named, every status entry and success in flight carries a current record, in any order, with any failing writes and any specs |
| Provenance.NoSharedAddress | pkg/provider/sqlite/store.go:181-205 | along any such run two such hosts never show the same address, in the status or in a success in flight |
| Restart.ReplayStore | pkg/orchestration/kuberntes.go:208-221 | replaying into an unused store leaves one record per entry, in order, every replay a success |
| Restart.ReplayExactIff | pkg/orchestration/kuberntes.go:208-221 | the replayed store is the old one, up to record order, exactly when the status listed its records |
| Restart.SameAnswers | pkg/controller/controller.go:32-96 | stores with the same owners answer every later run of requests alike |
| Restart.RestartTransparent | pkg/orchestration/kuberntes.go:205-234 | replay plus the spec's CREATEs rebuilds the store exactly when no spec without an entry has a free address in its CIDR; it then answers all later runs as before and leaves the status list untouched |
| Scenarios.TeardownIff | pkg/orchestration/kuberntes.go:235-248 | for the store at the moment the teardown's requests start: it gives everything back exactly when the deleted copy lists each host at least as often as the host has records |
| Scenarios.TeardownReclaims | pkg/orchestration/kuberntes.go:235-248 | which it does when the resource is deleted at rest: the store is the configured one again, row for row |
| Scenarios.RestDrains | pkg/orchestration/kuberntes.go:235-248 | at rest the condition under which a deletion gives everything back always holds |
| Scenarios.SwapUpdate | pkg/orchestration/kuberntes.go:249-288 | one update of a system at rest, orphans included: every request is answered exactly when no CIDR is asked for more, by hosts that own nothing or are deleted, than free plus given back |

## Left out

- Provider.IPAMProvider.GenerateExternalIPAddr: ranges written as IPv6 are skipped here, while the source logs them as unsupported and inserts them all the same; address parsing reads IPv4 only, with the leading zeros Go 1.15 accepts.
- Ranges.LoadEntryParsed: IPv6 ranges, as above.
- Ranges.ConfigConsistentIff: IPv6 ranges, as above.
- Ranges.ConfiguredFirstFit: IPv6 ranges, as above.
- Ranges.NetworkCreate: IPv6 ranges, as above.
- Ranges.RangeOfIff: IPv6 ranges, as above.
- Lifecycle.EndToEnd: one resource and no lost response; outside it are restarts that catch a host between two CIDRs (exactly when that matters: `Outcomes.BootAgreesIff`), updates that ask for an orphan's host under another CIDR (`Outcomes.UpdateAgreesIff`), deletions whose status does not cover the store (`Outcomes.DeletionIff`), re-creations that answers from before will reach (`Outcomes.ReaddAgreesIff`) and overtaking within one key (`Arrivals.AgreesIffSameLast`).
- Lifecycle.StepKept: the same hypotheses, step by step.
- Agreement.BootInv: a host under two CIDRs is outside it, as `Outcomes.BootAgreesIff` shows it must be.
- Arrivals.AgreesIffSameLast: runs without a restart or deletion.
- Provenance.Provenance: runs without a restart; a restart empties the store until the status is replayed.
- Restart.RestartTransparent: one resource; with several, one resource's CREATEs may take an address another has not replayed yet.
- Orchestrator.K8sIPAMClient.ProcessResource: the resource's name and namespace, which only choose the resource to write back to.
- SQLite as such: connections, statement text and quoting, database errors; each statement is one atomic, successful table operation, and names are opaque texts.
- Go's net and strings packages are modelled by their documented behaviour on IPv4 text; masking clears low bits of the number, which `Ip.PrefixOctets` relates to the bytes.
- Kubernetes clients, informers, conflicts, rate limiting and tombstones: a Get followed by an Update is one step that may fail, and the queue is first in, first out.
- Channels: requests the worker has still to send and responses whose goroutines wait are sequences, taken up in order or, for responses, in any order.
- Logging, flags, signals, start-up and shutdown, and the build tools.
- The namespace bookkeeping in pkg/ipammachinery/informers.go, which would only add easy members.
