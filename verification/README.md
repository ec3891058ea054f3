# The async_mqtt broker core, modelled and verified in Dafny

This project models the part of async_mqtt in which the broker decides who gets a message, together with the small
data structures underneath it, and proves that each fast structure computes what a simple description says.

| part | files |
|---|---|
| levels, matching, tokenizer | `TopicFilter` |
| subscription map | `TrieModel`, `TreeCounts`, `NodeTable`, `TrieHandles`, `TrieMatch`, `EntryTable`, `EntryMatch`, `SubscriptionMap`, `SubscriptionRuns` |
| authorization | `FilterAlgebra`, `Authorization`, `LostEntries`, `NameOrder`, `Security`, `SecurityRuns` |
| retained topics | `RetainedModel`, `RetainedTable`, `RetainedOrder`, `RetainedMatch`, `RetainedTopicMap`, `RetainedRuns` |
| packet ids and topic aliases | `ValueAllocator`, `TopicAlias`, `AliasLink` |
| shared subscriptions, sessions, fan-out | `SharedTarget`, `FanOut`, `Sessions`, `SharedGroups`, `BrokerSteps`, `BrokerRuns`, `Delivery` |
| wire formats | `Utf8`, `VariableBytes` |
| runs on literal data | `MatchingRuns`, `DecisionRuns`, `DeliveryRuns` |

`dafny verify dfyconfig.toml` checks everything.

## How the model is laid out

Objects that the program updates in place are classes. A class that owns a hash map holds it in one record field
(`table`) next to a ghost field (`view`) that names what the table stands for; the walks over the table are methods
on values of it, with loops where the program has loops, and the class methods hand the table through them. For the
subscription map the view is the tree of paths, the path of every node id ever given out, and the plain table `store`
of (filter, key) entries; `Stands` ties all of them together and every operation keeps it.

A topic or filter is a non-empty sequence of levels, and a level is `Plus`, `Hash` or a name. `Tokenize` and `Join`
relate this to the text with '/' (`JoinTokenize`, `TokenizeJoin`). Clock readings, hash iteration order and the
callbacks of `find` and `modify` are parameters or arbitrary choices, so what is proved holds for all of them.

## Main results

* **Subscription map.** After any run of insertions, removals and modifications, by filter or through handles that were
  kept, `find` reports exactly the stored entries whose filter matches, each as often as a count says that depends on
  the filter and the topic alone, which is once unless the topic has a level "+" or ends in "#" (`SubscriptionRuns.Run`,
  `TrieMatch.SingleExact`). Which filters match is told on the text: level by level, with no wildcard over a leading '$'
  (`TopicFilter.MatchesSpelled`). Every node counts the keys at or below it and its flags tell the truth. A handle that
  a run hands out means its filter for ever, and resolves exactly while something is stored at or below that filter and
  the parent level has not been empty since (`SubscriptionRuns.LiveExact`).
* **Authorization.** The indexed publish check equals a scan of the rule list; filter intersection and covering are
  exact against the set of matching topics, so a subscription is authorized exactly when some applicable rule allows
  an overlapping filter and no later applicable rule denies all of it. From the sender's check to those of the
  recipients a publication reaches exactly who is addressed and allowed (`Delivery.PublishChecked`). Over any history
  of added and removed rules it is known which entries the indexes lack (`SecurityRuns.Run`).
* **Retained topics.** The node set refines a map from topics to values, and a search finds exactly the matching
  topics that neither of its two early exits cuts off; which these are follows from the history of calls alone
  (`RetainedRuns.Run`).
* **Allocator and aliases.** The interval list is the unique canonical form of a set of free values; through any
  interleaving of publications, refusals and deliveries the two ends are in step exactly as long as no refusal does
  harm, and then the receiver resolves the i-th packet to the i-th published topic (`AliasLink.Run`). While automatic
  mapping has as many aliases as there are topics, no binding is ever dropped and each topic is spelled out once
  (`AliasLink.SpelledOutOnce`).
* **Sessions.** In any run of the broker that starts from exact handle sets, the sets of all sessions stay exact
  exactly as long as no operation opens a session for a client id that has stored entries, or changes the filters
  stored for a client id that another open session has. Two users with one client id are all it takes; with one
  session at a time for each client id it never happens (`BrokerRuns.OneSessionEach`). As long as it does not, no
  erase meets an invalid handle, no subscription outlives its session, each publication picks one member for each
  matched share group and filter, and share groups and subscription map stay in step exactly as long as no operation
  of three kinds occurs (`BrokerRuns.Run`, `BrokerRuns.HandlesExact`, `BrokerRuns.GroupsExact`). In every run, from
  any point of it on, picks are made in turn and a member is passed over at most as often as there were members
  waiting longer (`BrokerRuns.WaitingBound`).
* **Wire formats.** The UTF-8 check accepts exactly the encodings of allowed code points; variable byte integers
  round-trip, are prefix-free and are of least length.

## Where the code and a plain reading part

Each of these is kept as the code has it. Where something fails, there is an input or a run on which it does, and the
exact condition under which it does not.

* In the subscription map '#' stands for one or more remaining levels, because the '#' child is only looked at while a
  level is consumed: "a/#" does not match "a" (`SubscriptionRuns.ParentNotMet`), unlike section 4.7.1.2 of MQTT Version
  5.0. In the retained map '#' does take the parent level, and that is all the two readings differ in
  (`RetainedTopicMap.ParentLevel`).
* Nothing refuses a published topic that has wildcard levels. The map then meets a filter once by its text and once
  more as a wildcard, so that a publication to "+" reaches a subscriber of "+" twice (`SubscriptionRuns.PlusMetTwice`).
  Every filter is met once at most exactly when the topic has no level "+" and no "#" at its end
  (`TrieMatch.SingleExact`).
* The header comment of the subscription map says that the root counts entries too; the code never changes the
  root's count, and no invariant mentions it.
* `handle_to_topic_filter` leaves out the separator while its text is still empty, so it spells the filter exactly when
  the last level is not empty or is the only one (`TopicFilter.RebuildExact`).
* `remove_auth` erases the rule's names from the indexes although another rule may have entered the same name under
  the same filter: exact indexes stay exact exactly when no other rule shares an entry (`Authorization.RemovalExact`,
  `Security.RemovalForgets`). Otherwise the shared entries are lost until a rule enters them again, and all decisions
  are those of the rule list without the lost names (`LostEntries`).
* Publishing asks the last rule that applies to any of the user's names; delivery asks one name alone, the user's own
  or else the first of its groups that has a verdict. The same rule decides in both exactly when the last rule mentions
  that name (`Security.DeliveryMeetsLastRule`, `Security.OwnNameFirst`).
* Nothing refuses a filter with '#' before its last level either. Whether it overlaps a rule's filter is decided by the
  parts up to '#', and whether a rule denies it by the text of all levels (`FilterAlgebra.AllowedExact`,
  `FilterAlgebra.CoversExact`). The retained search does not look past the first '#'.
* The retained search stops collecting for a leading '+' at the oldest first-level name that starts with '$', and '#'
  walks below the first frontier node only (`RetainedTopicMap.FoundExactly`). `RetainedRuns.SystemNameHidesYounger`
  and `RetainedRuns.SecondBranchMissed` are runs that miss a match.
* An insertion of a retained topic with a wildcard level throws after it has created or counted up the levels before
  it, and nothing takes that back. The nodes left behind are counted ever after, and can hide matches from a search
  (`RetainedRuns.FailedInsertionHides`). Everything proved of the retained map takes them into account.
* With a 32-bit value type the allocator computes the successor of the greatest value as 0. Taking a value goes wrong
  exactly when that value is the only free one: the whole range from 0 is free then (`OnlyGreatestFree`). Freeing a
  value goes wrong exactly when it is 0 and all values are free already: only 0 is free then (`GreatestBeforeZero`).
  With 16-bit values the sum is exact. `ValueAllocator.GreatestTaken` and `ValueAllocator.ZeroFreed` are runs that get
  there.
* The sender binds an alias before it checks the peer's receive maximum. When the packet is then refused, the ends
  stay in step exactly when the topic had another alias, so that the new one was dropped, or the receiver will hold
  the binding anyway (`AliasLink.RefusedRegistration`, `AliasLink.StepExact`). `AliasLink.RefusedRun` is a run in
  which it does not and the next publication of the topic cannot be resolved.
* Sessions are kept by user name and client id, but the subscription map and the share groups know a client by its
  client id alone. Users "u" and "v" both connect as "c", and both subscribe to "t": the second subscription replaces
  the first and is no insertion, so that only the session of "u" has a handle. When "v" unsubscribes, the node is
  dropped, and cleaning the session of "u" throws "invalid handle" (`BrokerSteps.SecondUser`), in its destructor too.
  When "v" ends its session instead, its subscription stays behind without a session (`BrokerSteps.LeftOver`). Nothing
  but the two kinds of operations named above gets there (`BrokerSteps.StepExact`, `BrokerRuns.HandlesExact`).
* Subscribing again under the same filter with another share name leaves the client in the old group, and with the
  same share name leaves the old options there; joining a group in which the client id is already for another user
  sends to that user (`SharedGroups.GoesToOther`); unsubscribing with another share name leaves the group as it was
  (`SharedGroups.SubscribeExact`, `SharedGroups.UnsubscribeExact`, `SharedGroups.LeftBehind`). While handle sets are
  exact, nothing else takes groups and map apart in a run (`BrokerRuns.GroupsExact`).
* A handle does not come back with its filter: "a/b" stored, erased and stored again leaves the first handle invalid,
  because the level "a" was dropped in between (`SubscriptionRuns.StaleHandle`).
* The handle overloads of the subscription map do not refuse the root's own key, which no operation hands out. An
  insertion there is counted, and the map then stands for no table of entries (`SubscriptionMap.RootKeyCounts`); a
  removal there finds nothing.
* The variable byte integer decoder accepts forms padded with zero groups (`VariableBytes.ReEncode`), and when four
  bytes do not end the number it consumes a fifth before it gives up.

## Model

| member | source | states |
|---|---|---|
| TopicFilter.JoinTokenize | tool/include/broker/topic_filter.hpp:23-55 | joining the levels the tokenizer hands out with '/' gives the text back, for every text |
| TopicFilter.TokenizeJoin | tool/include/broker/topic_filter.hpp:23-55 | levels without a separator are handed out again as they were |
| TopicFilter.RebuildExact | tool/include/broker/subscription_map.hpp:484-497 | the text built from the leaf upwards is the filter iff its last level is non-empty or the only one |
| TopicFilter.Texts | tool/include/broker/topic_filter.hpp:23-55 | levels end at '/', may be empty, and are wildcards only as "+" or "#" alone, on texts such as "a/+/#" and "/x" |
| TopicFilter.Spellings | tool/include/broker/subscription_map.hpp:484-497 | the spelling of some filters, and what is lost of an empty last level |
| TopicFilter.AcceptsMatches | tool/include/broker/subscription_map.hpp:352-382 | matching by position is matching level by level from the front, '#' taking one level or more |
| TopicFilter.AcceptsParentMatches | tool/include/broker/retained_topic_map.hpp:200-249 | the same for the reading in which '#' also takes no level |
| TopicFilter.MatchesSpelled | tool/include/broker/subscription_map.hpp:343-390 | a filter matches iff its levels take those of the topic and it does not begin with a wildcard where the topic's text begins with '$' |
| NodeTable.FindTopicFilter | tool/include/broker/subscription_map.hpp:246-267 | the keys along the filter, or nothing iff some level is missing from the tree |
| NodeTable.EnterLevel | tool/include/broker/subscription_map.hpp:276-300 | one level created with a new id and count 1, flag set in the parent, or counted up; the table still represents the tree |
| NodeTable.CreateTopicFilter | tool/include/broker/subscription_map.hpp:269-304 | every prefix of the filter is present and counted once more, nothing else changes |
| NodeTable.IncreaseSubscriptions | tool/include/broker/subscription_map.hpp:452-457 | exactly the counts of the filter's prefixes go up by one |
| NodeTable.RemoveTopicFilter | tool/include/broker/subscription_map.hpp:306-341 | prefixes are counted down and dropped at zero with the parent's flag; the table still represents the tree |
| TrieHandles.HandleToIterators | tool/include/broker/subscription_map.hpp:403-428 | the parent walk ends and yields the keys along the handle's filter, or fails iff the handle has no node |
| TrieHandles.HandleToTopicFilter | tool/include/broker/subscription_map.hpp:484-497 | the text of the handle's filter less trailing empty levels, absent iff the handle has no node |
| TrieHandles.IncreaseByHandle | tool/include/broker/subscription_map.hpp:431-436 | counts up the same nodes as the walk along the filter would |
| TrieMatch.MatchLevel | tool/include/broker/subscription_map.hpp:352-382 | consuming a level yields the next frontier and the '#' children it may report, each as often as it is reached |
| TrieMatch.FindMatch | tool/include/broker/subscription_map.hpp:343-390 | for any topic visits exactly the nodes whose path matches, each as often as its filter is met |
| TrieMatch.TimesMatches | tool/include/broker/subscription_map.hpp:352-388 | a filter is met at all iff it matches the topic |
| TrieMatch.TimesOnce | tool/include/broker/subscription_map.hpp:352-388 | and once, when the topic has no level '+' and no '#' at its end |
| TrieMatch.TimesDoubled | tool/include/broker/subscription_map.hpp:352-388 | for every other topic a valid filter that is met more than once |
| TrieMatch.SingleExact | tool/include/broker/subscription_map.hpp:352-388 | every filter is met once at most iff the topic has no level '+' and no '#' at its end |
| EntryTable.AssignAt | tool/include/broker/subscription_map.hpp:626-648 | the store gains or replaces one entry; counts rise iff the key is new at the node |
| EntryTable.EraseAt | tool/include/broker/subscription_map.hpp:683-717 | the store loses one entry; counts fall iff the key was there |
| EntryMatch.Report | tool/include/broker/subscription_map.hpp:719-730 | the entries stored at the visited nodes, each as often as its node is visited, in any hash order |
| EntryMatch.ReportedMeans | tool/include/broker/subscription_map.hpp:719-730 | the callbacks pass exactly the keys and values of the matching entries, and are as many where none is met twice |
| EntryMatch.Rewrite | tool/include/broker/subscription_map.hpp:732-743 | the values at the visited nodes go through the callback once for every visit |
| EntryMatch.AppliedOnce | tool/include/broker/subscription_map.hpp:732-743 | where no filter is met twice modification is one run of the callback for each matching entry |
| SubscriptionMap.InsertEntry | tool/include/broker/subscription_map.hpp:617-649 | store, size, flags, counts and ids after an insertion; tells whether the entry is new; the handle stands for the filter |
| SubscriptionMap.InsertEntryAt | tool/include/broker/subscription_map.hpp:653-681 | the same through a handle, error iff the handle has no node; what the root's own key does instead |
| SubscriptionMap.RootKeyCounts | tool/include/broker/subscription_map.hpp:653-681 | an insertion at the root's own key leaves a map that stands for no table of entries, its size one too many |
| SubscriptionMap.EraseEntry | tool/include/broker/subscription_map.hpp:702-717 | removes exactly that entry and returns how many were removed |
| SubscriptionMap.EraseEntryAt | tool/include/broker/subscription_map.hpp:683-699 | the same through a handle, error iff the handle has no node |
| SubscriptionMap.ModifyEntries | tool/include/broker/subscription_map.hpp:732-743 | the matching entries' values go through the callback as often as they are met, everything else is unchanged |
| SubscriptionMap.MultipleSubscriptionMap.constructor | tool/include/broker/subscription_map.hpp:459-465 | an empty map whose root node represents the empty tree |
| SubscriptionMap.MultipleSubscriptionMap.InsertOrAssign | tool/include/broker/subscription_map.hpp:617-649 | the plain table gains or replaces one entry, ids never change meaning |
| SubscriptionMap.MultipleSubscriptionMap.InsertOrAssignAt | tool/include/broker/subscription_map.hpp:653-681 | as above for the filter of a handle, or an error that changes nothing; the map stays valid iff the handle is not the root's own key |
| SubscriptionMap.MultipleSubscriptionMap.Erase | tool/include/broker/subscription_map.hpp:702-717 | the plain table loses one entry |
| SubscriptionMap.MultipleSubscriptionMap.EraseAtHandle | tool/include/broker/subscription_map.hpp:683-699 | as above for the filter of a handle, or an error that changes nothing |
| SubscriptionMap.MultipleSubscriptionMap.Lookup | tool/include/broker/subscription_map.hpp:475-481 | a handle for the filter, present iff something is stored at or below it |
| SubscriptionMap.MultipleSubscriptionMap.TopicFilterOf | tool/include/broker/subscription_map.hpp:484-497 | the text of the filter a handle stands for |
| SubscriptionMap.MultipleSubscriptionMap.Find | tool/include/broker/subscription_map.hpp:719-730 | for any topic calls back for exactly the stored entries whose levels take those of the topic, none with a wildcard first over a leading '$', each as often as its filter is met, once where none is met twice |
| SubscriptionMap.MultipleSubscriptionMap.Modify | tool/include/broker/subscription_map.hpp:732-743 | for any topic the callback changes exactly the matching entries, each time they are met |
| SubscriptionMap.MultipleSubscriptionMap.Size | tool/include/broker/subscription_map.hpp:472-472 | the number of (filter, key) pairs |
| SubscriptionMap.MultipleSubscriptionMap.InternalSize | tool/include/broker/subscription_map.hpp:469-469 | one plus the number of distinct non-empty prefixes of stored filters |
| SubscriptionMap.NodeCount | tool/include/broker/subscription_map.hpp:467-469 | any table that represents a counted tree has one node per prefix and the root |
| SubscriptionRuns.NodeInvariant | tool/include/broker/subscription_map.hpp:184-211 | count is the number of keys at or below and at least 1, flags hold iff that child exists, parent ids are smaller |
| SubscriptionRuns.OneNodePerFilter | tool/include/broker/subscription_map.hpp:213-228 | two nodes never stand for the same filter |
| SubscriptionRuns.NodeStays | tool/include/broker/subscription_map.hpp:269-341 | over the states of a run a node is the same node iff something was stored at or below it all along; a dropped one comes back under another id |
| SubscriptionRuns.HandleDenotesOne | tool/include/broker/subscription_map.hpp:177-181 | over the states of a run a handle never denotes two filters, whatever is erased and created again |
| SubscriptionRuns.HandleExact | tool/include/broker/subscription_map.hpp:403-428 | over the states of a run a handle resolves iff something is stored at or below its filter and the parent level was occupied all along |
| SubscriptionRuns.Perform | tool/include/broker/subscription_map.hpp:617-743 | each operation, by filter or through a handle looked up or kept, has its effect on the plain table, and gets a handle iff due one |
| SubscriptionRuns.Run | tool/include/broker/subscription_map.hpp:591-743 | after any run of operations `find` reports exactly the matching entries of the plain table; the states of the run; every handle means its filter ever after and resolves iff the history says so |
| SubscriptionRuns.LiveExact | tool/include/broker/subscription_map.hpp:403-428 | a handle of a run resolves later iff, in the plain history, something is stored at or below its filter and something has been at or below the parent level ever since |
| SubscriptionRuns.StaleHandle | tool/include/broker/subscription_map.hpp:403-428 | a run: a filter stored, erased and stored again, and the handle of the first time is invalid |
| SubscriptionRuns.PlusMetTwice | tool/include/broker/subscription_map.hpp:355-368 | a run: "+" stored, and a search for "+" calls back twice for the one entry |
| SubscriptionRuns.ParentNotMet | tool/include/broker/subscription_map.hpp:371-378 | a run: "a/#" stored, and a search for "a" calls back for nothing |
| MatchingRuns.Search | tool/include/broker/subscription_map.hpp:591-743 | a map of filters given as texts calls back for exactly those that match |
| MatchingRuns.LevelRules | tool/include/broker/subscription_map.hpp:352-388 | a run: which of eight filters a search for "a/b" calls back for |
| MatchingRuns.LeadingDollar | tool/include/broker/subscription_map.hpp:361-380 | a run: "#" and "+/x" are called back for "/x", and not for "$aws/x" |
| FilterAlgebra.IsSubscribeAllowed | tool/include/broker/security.hpp:604-688 | the level-by-level loop computes the recursive intersection, or nothing |
| FilterAlgebra.IntersectionExact | tool/include/broker/security.hpp:604-688 | a topic level-matches the result iff it matches both filters; no result means no topic matches both |
| FilterAlgebra.IntersectionNonEmpty | tool/include/broker/security.hpp:604-688 | the result is again a valid filter |
| FilterAlgebra.AllowedMeansOverlap | tool/include/broker/security.hpp:604-688 | a result exists iff some topic matches both filters |
| FilterAlgebra.IsSubscribeDenied | tool/include/broker/security.hpp:690-734 | the loop with its early exits and level count decides covering |
| FilterAlgebra.CoversSound | tool/include/broker/security.hpp:690-734 | every topic of a covered filter matches the covering one |
| FilterAlgebra.EscapeEscapes | tool/include/broker/security.hpp:690-734 | where covering fails, the constructed topic matches the subscription and not the denied filter |
| FilterAlgebra.DeniedMeansIncluded | tool/include/broker/security.hpp:690-734 | covering holds iff every topic of the subscription is denied |
| FilterAlgebra.CoversExact | tool/include/broker/security.hpp:690-734 | for any two filters, well formed or not, covering is level by level the same text, or '+' over anything but '#', up to a last '#' |
| FilterAlgebra.AllowedExact | tool/include/broker/security.hpp:604-688 | for any two filters a result exists iff the parts up to their first '#' have a topic in common |
| FilterAlgebra.FilterCases | tool/include/broker/security.hpp:604-734 | the intersection of some filters, and which of them cover which |
| Authorization.NextRuleNr | tool/include/broker/security.hpp:242-248 | greater than every number in use and the least such one, 1 where there is none |
| Authorization.LastVerdictMeans | tool/include/broker/security.hpp:513-548 | the scan returns the type of the last rule that applies, deny if there is none |
| Authorization.ReachesNames | tool/include/broker/security.hpp:516-529 | a set of names reaches a user iff it has its own name, an existing "@any", or a group that lists it |
| Authorization.PubVerdict | tool/include/broker/security.hpp:513-548 | told on groups and rules: the last rule for publishers that matches the topic and reaches the user decides, deny if there is none |
| Authorization.SubVerdict | tool/include/broker/security.hpp:550-576 | told on rules: the last rule for subscribers that matches the topic and has the name decides, deny if there is none |
| Authorization.WinnerIsLastVerdict | tool/include/broker/security.hpp:531-545 | the highest numbered applicable index entry carries the verdict of the scan |
| Authorization.NoCandidateMeansDeny | tool/include/broker/security.hpp:513-548 | no applicable entry means that no rule applies |
| Authorization.RemovalExact | tool/include/broker/security.hpp:322-337 | erasing a rule's entries leaves the index of the remaining rules iff no other rule shares one |
| Authorization.GetAuthSubTopics | tool/include/broker/security.hpp:736-761 | exactly the intersections with allow rules that no covering deny rule follows, told on the fields of the rules; any at all iff the request is granted |
| Authorization.DropDenied | tool/include/broker/security.hpp:748-757 | the erase loop removes all collected topics iff the deny rule covers the request |
| Authorization.AuthTopicsMeans | tool/include/broker/security.hpp:736-761 | for any filter something is left iff a rule grants it; for valid ones iff the rule admits one of its topics and no later applicable denial includes them all |
| Authorization.AuthTopicsAre | tool/include/broker/security.hpp:736-761 | a topic is collected iff some allow rule contributes it and no later deny rule covers the request |
| Authorization.GrantsSpelled | tool/include/broker/security.hpp:470-511 | told on groups and rules: a rule grants a request iff it allows, reaches the user as a subscriber, overlaps it, and no later deny rule that reaches the user suppresses it |
| Authorization.GrantsMeansTopics | tool/include/broker/security.hpp:736-761 | for valid filters granting by text and granting by topics are the same |
| Authorization.IsSubscribeAuthorized | tool/include/broker/security.hpp:769-771 | true iff some allow rule whose subscribers reach the user overlaps the request and no later deny rule whose subscribers reach the user suppresses it, for rule lists of any length and any requested filter |
| Security.IndexNames | tool/include/broker/security.hpp:303-316 | the index gains one verdict per name under the filter |
| Security.EraseNames | tool/include/broker/security.hpp:326-331 | the index loses the entries of the filter for the names |
| Security.Decide | tool/include/broker/security.hpp:531-547 | the callback loop over the index returns the verdict of the last applicable rule, in any visiting order |
| Security.BestIsLastVerdict | tool/include/broker/security.hpp:531-547 | the best entry after all callbacks is the last rule's verdict |
| Security.Security.constructor | tool/include/broker/security.hpp:787-797 | no rules and two empty indexes |
| Security.Security.IndexKnown | tool/include/broker/security.hpp:833-846 | every non-empty name of a rule is indexed up to the first unknown one |
| Security.Security.Validate | tool/include/broker/security.hpp:832-847 | succeeds iff every non-empty name is a known group where it begins with '@' and a known user elsewhere, and then both indexes are the verdicts of the rule list; else which rule stopped it and what the indexes hold of it and the rules before |
| Security.Security.AddAuth | tool/include/broker/security.hpp:270-320 | appends a rule numbered one above the greatest, 1 at first, or refuses iff a name is not a known group where it begins with '@' or a known user elsewhere, and changes nothing; exact indexes stay exact, lost entries of the rule's names come back |
| Security.Security.RemoveAuth | tool/include/broker/security.hpp:322-337 | removes the rule and says which entries are lost; exact indexes stay exact iff it shares no entry with another rule |
| Security.Security.AuthPub | tool/include/broker/security.hpp:513-548 | told on groups and rules: the type of the last rule for publishers that matches the topic and reaches the user, deny if none, also after entries were lost |
| Security.VerdictsByName | tool/include/broker/security.hpp:550-576 | each name gets the verdict of the last rule that applies to it, and is absent iff none does |
| Security.Security.AuthSub | tool/include/broker/security.hpp:550-576 | the same over the subscribe index, also after entries were lost |
| Security.Security.AuthSubUser | tool/include/broker/security.hpp:578-598 | told on groups and rules: the type of the last rule for the name asked, which is the user's own if it has a rule, else the first in name order of its groups that have one, else deny; it comes from the last applicable rule iff that mentions the name |
| Security.DeliveryMeetsLastRule | tool/include/broker/security.hpp:578-598 | the rule that decides for the name looked up is the last applicable one iff that mentions the name, and an earlier one otherwise |
| Security.DecidesForName | tool/include/broker/security.hpp:578-598 | the rule that decides for all names decides for one alone iff it mentions it |
| Security.VerdictForUser | tool/include/broker/security.hpp:578-598 | goes through the groups in name order and returns the verdict of the one name that counts |
| Security.AskedSpelled | tool/include/broker/security.hpp:578-598 | the name that is asked, told on groups and rules |
| NameOrder.UpToExact | tool/include/broker/security.hpp:578-598 | the order of the groups: a prefix first, else by the first two characters that differ |
| LostEntries.RemovalLost | tool/include/broker/security.hpp:322-337 | what erasing a rule's names leaves: the index of the remaining rules less exactly the lost entries |
| LostEntries.NothingLostExact | tool/include/broker/security.hpp:322-337 | from an exact index nothing is lost iff no other rule shares an entry |
| LostEntries.AdditionLost | tool/include/broker/security.hpp:303-316 | entering a rule's names brings back the lost entries among them and no others |
| LostEntries.IndexEffective | tool/include/broker/security.hpp:513-548 | an index with lost entries is the index of the rules without the lost names |
| LostEntries.SilencedApplies | tool/include/broker/security.hpp:513-548 | such a rule applies iff it applies through a name whose entry is not lost |
| SecurityRuns.Run | tool/include/broker/security.hpp:288-342 | over any run of added and removed rules: the rule list of the history, and an entry is lost iff some rule has it and it was erased with a removed rule after the last one with it was added |
| SecurityRuns.Perform | tool/include/broker/security.hpp:288-342 | one change is added iff all names are known, or removes the rule with the number iff there is one |
| SecurityRuns.LostSnoc | tool/include/broker/security.hpp:288-342 | one event keeps the lost entries those of the history |
| SecurityRuns.ErasedSnoc | tool/include/broker/security.hpp:322-337 | an entry is erased since iff the last event erased it, or it was before and the event did not add it |
| Security.OwnNameFirst | tool/include/broker/security.hpp:578-598 | a rule list on which delivery and the last applicable rule disagree |
| DecisionRuns.Publishers | tool/include/broker/security.hpp:513-548 | a run: a member of a group may publish and a stranger not, "@any" takes everybody, the last of two rules decides |
| DecisionRuns.Subscribers | tool/include/broker/security.hpp:578-598 | a run: of two groups the first in name order decides, the own name before any group, and nobody else may receive |
| DecisionRuns.Requests | tool/include/broker/security.hpp:736-771 | a run: a named user and a group member may subscribe, one who may only publish and one who is denied later may not |
| DecisionRuns.Accepted | tool/include/broker/security.hpp:270-320 | a run: a known user and a known group are accepted and numbered 1 and 2 |
| DecisionRuns.Refused | tool/include/broker/security.hpp:270-320 | a run: an unknown user, an unknown group, the empty name and a group without its '@' are refused |
| DecisionRuns.Forgotten | tool/include/broker/security.hpp:322-337 | a run: two rules allow a user to publish, and when one is removed it may not any more |
| Security.MayReceiveMeans | tool/include/broker/security.hpp:578-598 | the verdict is allow iff the last rule for the name that counts allows the topic |
| Security.Security.AuthorizeSubscribe | tool/include/broker/security.hpp:769-771 | the same of the current list of rules |
| Security.RemovalForgets | tool/include/broker/security.hpp:322-337 | a rule list on which a removal also forgets another rule's verdict |
| RetainedTable.FindTopic | tool/include/broker/retained_topic_map.hpp:141-163 | the nodes along the topic, or nothing iff some level is missing |
| RetainedTable.CreateTopic | tool/include/broker/retained_topic_map.hpp:108-139 | missing nodes created with ids above all earlier ones and count 1, present ones counted up and keeping their id; stops with an error at the first wildcard level |
| RetainedTable.KeepsFailed | tool/include/broker/retained_topic_map.hpp:108-139 | what a failed insertion has counted up stays counted, and nothing else changes |
| RetainedTable.IncreaseTopics | tool/include/broker/retained_topic_map.hpp:276-282 | exactly the counts along the topic go up |
| RetainedTable.ErasePath | tool/include/broker/retained_topic_map.hpp:260-267 | root-to-leaf erasure leaves a tree closed under prefixes |
| RetainedMatch.MatchHash | tool/include/broker/retained_topic_map.hpp:165-198 | the breadth-first walk ends and visits every node below the start once, skipping system names where asked |
| RetainedMatch.RootPlus | tool/include/broker/retained_topic_map.hpp:217-226 | the first-level names that no system name is older than, in order of age |
| RetainedMatch.FindMatch | tool/include/broker/retained_topic_map.hpp:200-249 | for any filter visits the frontier and, at the first '#', everything below its first node, each once |
| RetainedTopicMap.FoundExactly | tool/include/broker/retained_topic_map.hpp:214-242 | a topic is visited iff it matches and neither early exit cuts it off, stated by creation order alone |
| RetainedTopicMap.ParentLevel | tool/include/broker/retained_topic_map.hpp:244-248 | on topics without wildcards the two readings of '#' differ over the parent level and nothing else |
| RetainedTopicMap.RetainedSpelled | tool/include/broker/retained_topic_map.hpp:168-249 | matching told on the text: the level rules, '#' taking the parent level too, and no wildcard first over a leading '$' |
| RetainedTopicMap.CompleteWhen | tool/include/broker/retained_topic_map.hpp:200-249 | nothing is cut off without '+' before '#' and without a system name, stored or left behind, under a leading '+' |
| RetainedTopicMap.NodeInvariant | tool/include/broker/retained_topic_map.hpp:42-74 | each node but the root counts the topics stored and the insertions failed at or below it, at least one |
| RetainedTopicMap.Insert | tool/include/broker/retained_topic_map.hpp:312-335 | the map gains or replaces one value, 1 iff the topic is new; a topic with a wildcard level fails and leaves the levels before it behind; new nodes are younger than all |
| RetainedTopicMap.Remove | tool/include/broker/retained_topic_map.hpp:251-273 | the map loses one value; 1 iff there was one; the nodes that stay keep their ids |
| RetainedTopicMap.RetainedTopicMap.constructor | tool/include/broker/retained_topic_map.hpp:299-310 | an empty map |
| RetainedTopicMap.RetainedTopicMap.InsertOrAssign | tool/include/broker/retained_topic_map.hpp:312-335 | refines the update of a plain map, or fails iff some level is a wildcard and says what is left behind; ids go on telling creation order |
| RetainedTopicMap.RetainedTopicMap.Erase | tool/include/broker/retained_topic_map.hpp:343-348 | refines removal from a plain map; the nodes that stay keep their age |
| RetainedTopicMap.RetainedTopicMap.Find | tool/include/broker/retained_topic_map.hpp:337-341 | for any filter one callback for exactly the stored topics found; every one found matches as spelled out, and where nothing can be cut off every one that matches is found |
| RetainedTopicMap.RetainedTopicMap.Size | tool/include/broker/retained_topic_map.hpp:351-351 | the number of stored topics |
| RetainedTopicMap.RetainedTopicMap.InternalSize | tool/include/broker/retained_topic_map.hpp:354-354 | one plus the number of distinct non-empty prefixes of stored topics and of what failed insertions left behind |
| RetainedTopicMap.RetainedTopicMap.Clear | tool/include/broker/retained_topic_map.hpp:356-360 | an empty map again |
| RetainedRuns.Run | tool/include/broker/retained_topic_map.hpp:108-348 | after any run from empty, failed insertions included, a search for any filter reports, once each, exactly the topics that the history of calls says it reaches |
| RetainedRuns.SameFound | tool/include/broker/retained_topic_map.hpp:214-242 | what a search finds depends on node ids through their order only |
| RetainedRuns.PutMirrors | tool/include/broker/retained_topic_map.hpp:108-139 | an insertion appends its new prefixes to the creation order |
| RetainedRuns.DropMirrors | tool/include/broker/retained_topic_map.hpp:251-273 | a removal takes the paths that lead nowhere out of the creation order and moves no other |
| RetainedRuns.SystemNameHidesYounger | tool/include/broker/retained_topic_map.hpp:219-224 | a run: "$SYS" and then "a" stored, and "+" reports nothing |
| RetainedRuns.SystemNameAfter | tool/include/broker/retained_topic_map.hpp:219-224 | the same two topics the other way round, and "+" reports "a" |
| RetainedRuns.SecondBranchMissed | tool/include/broker/retained_topic_map.hpp:227-230 | a run: "a/x" and then "b/y" stored, and "+/#" reports the first alone |
| RetainedRuns.FailedInsertionHides | tool/include/broker/retained_topic_map.hpp:108-139 | a run: "a/+" refused and then "b/y" stored, and "+/#" reports nothing |
| MatchingRuns.SearchRetained | tool/include/broker/retained_topic_map.hpp:312-341 | a map of topics given as texts reports exactly those the filter takes, where nothing can be cut off |
| MatchingRuns.RetainedLevelRules | tool/include/broker/retained_topic_map.hpp:200-249 | a run: which of four topics "a/#" and "a/+" find |
| MatchingRuns.RetainedLeadingDollar | tool/include/broker/retained_topic_map.hpp:168-249 | a run: "#" finds "/x" and "a/b" and not "$aws/x", "+/x" finds "/x", "$aws/#" finds "$aws/x" |
| RetainedRuns.Perform | tool/include/broker/retained_topic_map.hpp:312-348 | one operation as a step of the history |
| ValueAllocator.PoolUnique | include/async_mqtt/util/value_allocator.hpp:22-74 | a set of free values has one canonical interval list |
| ValueAllocator.RunEndsAre | include/async_mqtt/util/value_allocator.hpp:267-269 | intervals correspond one to one to the ends of free runs |
| ValueAllocator.Splice | include/async_mqtt/util/value_allocator.hpp:135-247 | replacing a stretch of intervals keeps the list canonical and changes exactly that stretch's values |
| ValueAllocator.ValueAllocator.constructor | include/async_mqtt/util/value_allocator.hpp:76-93 | exactly lowest to highest are free |
| ValueAllocator.ValueAllocator.Allocate | include/async_mqtt/util/value_allocator.hpp:95-117 | removes and returns the least free value; the exact state in which the successor wraps |
| ValueAllocator.ValueAllocator.FirstVacant | include/async_mqtt/util/value_allocator.hpp:123-129 | the least free value, none iff nothing is free |
| ValueAllocator.ValueAllocator.Deallocate | include/async_mqtt/util/value_allocator.hpp:135-228 | adds exactly the value, nothing when it is free already, and stays canonical; the exact state in which the successor wraps |
| ValueAllocator.ValueAllocator.Use | include/async_mqtt/util/value_allocator.hpp:234-247 | removes exactly the value, false iff it is not free; the exact state in which the successor wraps |
| ValueAllocator.ValueAllocator.IsUsed | include/async_mqtt/util/value_allocator.hpp:254-257 | true iff the value is not free |
| ValueAllocator.ValueAllocator.Clear | include/async_mqtt/util/value_allocator.hpp:262-265 | everything is free again |
| ValueAllocator.ValueAllocator.IntervalCount | include/async_mqtt/util/value_allocator.hpp:267-269 | the number of free runs |
| ValueAllocator.GreatestTaken | include/async_mqtt/util/value_allocator.hpp:95-117 | a run: two 32-bit values to give out, and the third one given out is 0 |
| ValueAllocator.ZeroFreed | include/async_mqtt/util/value_allocator.hpp:135-162 | a run: all 32-bit values free, 0 freed once more, and 1 is in use |
| TopicAlias.TopicAliasSend.constructor | include/async_mqtt/util/topic_alias_send.hpp:31-34 | no binding, all aliases vacant |
| TopicAlias.TopicAliasSend.InsertOrUpdate | include/async_mqtt/util/topic_alias_send.hpp:36-59 | topic and alias stay one to one; used values go on being the bound aliases iff the topic was not bound elsewhere |
| TopicAlias.ReboundKeeps | include/async_mqtt/util/topic_alias_send.hpp:36-59 | binding keeps topics and aliases one to one, touches no other alias, and leaves the alias unbound iff the topic has another |
| TopicAlias.TopicAliasSend.Find | include/async_mqtt/util/topic_alias_send.hpp:61-82 | the bound topic, with its time renewed |
| TopicAlias.TopicAliasSend.FindTopic | include/async_mqtt/util/topic_alias_send.hpp:99-109 | the alias of a topic iff it has one |
| TopicAlias.TopicAliasSend.GetLruAlias | include/async_mqtt/util/topic_alias_send.hpp:119-126 | in range; the least vacant alias if any, else one touched no later than every other |
| TopicAlias.TopicAliasSend.Clear | include/async_mqtt/util/topic_alias_send.hpp:111-117 | no binding, all aliases vacant |
| TopicAlias.TopicAliasRecv.InsertOrUpdate | include/async_mqtt/util/topic_alias_recv.hpp:33-53 | ordered insertion or modification in place of the item list is an update of the bindings it stands for |
| TopicAlias.TopicAliasRecv.Find | include/async_mqtt/util/topic_alias_recv.hpp:55-70 | the lower bound search finds the binding of an alias; empty if out of range or unbound |
| TopicAlias.TopicAliasRecv.Clear | include/async_mqtt/util/topic_alias_recv.hpp:72-77 | no binding is left |
| TopicAlias.ListsInsert | include/async_mqtt/util/topic_alias_recv.hpp:33-46 | an item put at its lower bound keeps the order and binds exactly its alias |
| TopicAlias.ListsModify | include/async_mqtt/util/topic_alias_recv.hpp:33-53 | an item modified in place keeps the order and rebinds exactly its alias |
| AliasLink.LastBindingResolves | include/async_mqtt/util/topic_alias_recv.hpp:33-70 | of any packets received, the last that binds an alias decides what the alias resolves to |
| AliasLink.BindingLasts | include/async_mqtt/util/topic_alias_recv.hpp:33-70 | a binding resolves through everything that does not bind the alias again |
| AliasLink.SendKeepsStep | include/async_mqtt/protocol/impl/connection_send.ipp:437-505 | a packet that is sent resolves to the topic meant and keeps sender and settled receiver in step |
| AliasLink.InStepExact | include/async_mqtt/protocol/impl/connection_impl.ipp:968-1045 | in step iff every alias the sender could use resolves to the topic it stands for |
| AliasLink.StepExact | include/async_mqtt/protocol/impl/connection_send.ipp:437-530 | an event keeps the ends in step iff it is not a harmful refusal |
| AliasLink.TraceExact | include/async_mqtt/protocol/impl/connection_send.ipp:437-530 | over a whole run the ends are in step all along iff no refusal did harm |
| AliasLink.FaithfulTake | include/async_mqtt/protocol/impl/connection_impl.ipp:968-1045 | while packets resolve to what was published, the next one resolves to the next topic |
| AliasLink.RefusedRegistration | include/async_mqtt/protocol/impl/connection_send.ipp:457-525 | a binding made for a refused packet keeps the ends in step iff the topic had another alias or the receiver will hold the binding anyway |
| AliasLink.RefusedRun | include/async_mqtt/protocol/impl/connection_send.ipp:437-530 | a run: one publication refused, the next of the same topic sent by alias alone, and the receiver cannot resolve it |
| AliasLink.AutomaticStep | include/async_mqtt/protocol/impl/connection_send.ipp:437-505 | while there are aliases for all topics an automatic publication drops no binding |
| AliasLink.NoEviction | include/async_mqtt/protocol/impl/connection_send.ipp:437-505 | over any run of automatic publications with no more topics than aliases no binding is ever dropped |
| AliasLink.SpelledOutOnce | include/async_mqtt/protocol/impl/connection_send.ipp:437-505 | and a topic that is published again goes out as the alias of the first time alone |
| AliasLink.AutomaticRun | include/async_mqtt/protocol/impl/connection_send.ipp:437-505 | a run with two aliases: "a" and "b" take 1 and 2, the next "a" is sent as 1 alone, and "c" takes the alias of "a" |
| AliasLink.SenderCases | include/async_mqtt/protocol/impl/connection_send.ipp:437-505 | which publications are admitted, register an alias or use one alone, on one table |
| AliasLink.ReceiverCases | include/async_mqtt/protocol/impl/connection_impl.ipp:968-1045 | what the receiver makes of packets and remembers of them, on one table |
| AliasLink.Link.constructor | include/async_mqtt/protocol/connection.hpp:207-228 | both ends empty and in step |
| AliasLink.Link.Prepare | include/async_mqtt/protocol/impl/connection_send.ipp:437-505 | a packet exactly when the alias rules admit it; which packet, and the sender's table and vacant aliases after it, in every mode; an automatic one takes the least vacant alias, and the oldest bound one only when none is vacant |
| AliasLink.Link.Publish | include/async_mqtt/protocol/impl/connection_send.ipp:437-530 | sent exactly when admitted and within the quota; channel, published topics and both ends after it; a valid link stays valid iff the refusal did no harm |
| AliasLink.Link.Deliver | include/async_mqtt/protocol/impl/connection_impl.ipp:968-1045 | the packet resolves as the receiver's bindings say; in a valid link to the next published topic, never to an error |
| AliasLink.Run | include/async_mqtt/protocol/impl/connection_send.ipp:437-530 | over any interleaving: published is what the events mean, packets under way are counted, ends are in step iff no refusal did harm, and then resolved is published less what is under way |
| AliasLink.Perform | include/async_mqtt/protocol/impl/connection_send.ipp:437-530 | one event at the two ends: its step, what it publishes, what is under way after it |
| SharedTarget.SharedTarget.Insert | tool/include/broker/shared_target_impl.hpp:18-45 | the client serves the filter in the group; a subscription held before is kept, and so is the user who joined first |
| SharedTarget.SharedTarget.Erase | tool/include/broker/shared_target_impl.hpp:48-74 | the client no longer serves the filter, its entry goes with the last one |
| SharedTarget.GoneKeepsQueue | tool/include/broker/shared_target_impl.hpp:77-84 | a client that is erased serves nothing any more; nobody else serves less or loses a place |
| SharedTarget.SharedTarget.GetTarget | tool/include/broker/shared_target_impl.hpp:87-108 | a member that serves the filter and was picked no later than any other, with the session it stands for, none iff nobody serves it |
| SharedTarget.NobodyJumpsAhead | tool/include/broker/shared_target_impl.hpp:18-108 | no step enlarges the set of members picked longer ago than a waiting one |
| SharedTarget.PickAdvances | tool/include/broker/shared_target_impl.hpp:87-108 | a pick for the waiting member's filter takes it or shrinks that set |
| SharedTarget.BoundedWaiting | tool/include/broker/shared_target_impl.hpp:18-108 | over any run with increasing clock readings a member is passed over at most as often as there were members ahead of it |
| FanOut.DirectStep | tool/include/broker/broker.hpp:1185-1192 | a callback for a non-shared subscription addresses its session once more, no-local apart |
| FanOut.DirectSpelled | tool/include/broker/broker.hpp:1185-1206 | told on the fields: nothing addressed directly is shared, or no-local for the publishing client id; every other matching entry is, as often as it is met |
| FanOut.GroupsSpelled | tool/include/broker/broker.hpp:1185-1206 | told on the fields: each choice is for a matching share group and filter by a member that serves it, one each, and every one that somebody serves gets one |
| FanOut.ChosenAdd | tool/include/broker/broker.hpp:1193-1203 | a group and filter met for the first time gets one choice, or none where nobody serves it |
| FanOut.PickNext | tool/include/broker/broker.hpp:1193-1203 | one more pick is made in the state that the picks before left |
| Sessions.HandlesAfterInsert | tool/include/broker/session_state.hpp:389-407 | an insertion adds exactly the new handle to those the client is stored under and to no other client's |
| Sessions.HandlesAfterErase | tool/include/broker/session_state.hpp:427-437 | a removal takes exactly that handle away |
| Sessions.HandleResolves | tool/include/broker/session_state.hpp:439-447 | every handle a client is stored under resolves to a filter it is stored under |
| Sessions.Broker.OpenSession | tool/include/broker/broker.hpp:394-430 | a session without handles, whoever else has the client id |
| Sessions.Broker.Subscribe | tool/include/broker/session_state.hpp:374-425 | store, handles and share group after a subscription, in every state |
| Sessions.Broker.Unsubscribe | tool/include/broker/session_state.hpp:427-437 | store, handles and share group after an unsubscription, in every state |
| Sessions.Broker.UnsubscribeAll | tool/include/broker/session_state.hpp:439-447 | the entries at the handles reached are erased, all of them or up to an invalid one; never invalid while the client is stored under all of them, always once a node is gone |
| Sessions.Broker.Clean | tool/include/broker/session_state.hpp:349-373 | the same, and the client id leaves every share group unless a handle was invalid |
| Sessions.Broker.EndSession | tool/include/broker/session_state.hpp:120-126 | the same, and the session is gone unless a handle was invalid |
| Sessions.ErasedNext | tool/include/broker/session_state.hpp:439-447 | one more handle erased takes one more entry away and gives out no id |
| Sessions.Broker.Publish | tool/include/broker/broker.hpp:1180-1210 | for any topic every matching non-shared entry that is not no-local for the publisher's client id, as often as it is met, one pick per matched share group and filter that somebody serves, in turn; who may receive of them gets the message and nobody else; told on the fields too |
| Delivery.PublishChecked | tool/include/broker/broker.hpp:1071-1210 | refused unless the last rule for the sender's user allows it, else fanned out as the fields say and delivered to exactly those addressed whose user is allowed the topic; clock and groups after it |
| DeliveryRuns.AllDirect | tool/include/broker/broker.hpp:1180-1210 | without share groups and doubled matches: everybody with a stored subscription gets the message once, but for no-local and the recipients' check |
| DeliveryRuns.NoLocal | tool/include/broker/broker.hpp:1193-1194 | a run: a no-local subscriber gets what another client publishes and not what it publishes itself |
| DeliveryRuns.Turns | tool/include/broker/broker.hpp:1195-1206 | a run: two members of a group, and three publications go to the first, the second and the first |
| DeliveryRuns.Checked | tool/include/broker/broker.hpp:1071-1210 | a run: of two subscribers the allowed one gets the message, and a user without a rule may not publish |
| Delivery.Admitted | tool/include/broker/broker.hpp:1135-1152 | exactly the users whose verdict is allow |
| BrokerSteps.Perform | tool/include/broker/session_state.hpp:349-447 | one operation of the broker in any state, what it does to sessions, map and share groups, how far a cleaning got and to whom a publication went |
| BrokerSteps.StepExact | tool/include/broker/session_state.hpp:349-447 | from exact handle sets an operation follows the plain history and meets no invalid handle, and leaves them exact iff it does not clash |
| BrokerSteps.OpenExact | tool/include/broker/broker.hpp:394-430 | opening a session keeps the sets exact iff its client id has no stored entries |
| BrokerSteps.SubscribedExact | tool/include/broker/session_state.hpp:374-425 | a subscription keeps them exact iff its entry is stored already or no other session has the client id |
| BrokerSteps.UnsubscribedExact | tool/include/broker/session_state.hpp:427-437 | an unsubscription keeps them exact iff nothing is stored for it or no other session has the client id |
| BrokerSteps.CleanedExact | tool/include/broker/session_state.hpp:439-447 | cleaning takes out the client id and keeps them exact iff nothing is stored for it or no other session has it |
| BrokerSteps.OrderlyStays | tool/include/broker/session_state.hpp:349-447 | without a clash every subscription keeps an open session, a client id with entries has one session, and shared entries keep their place in the group |
| BrokerSteps.MannedIsStaffed | tool/include/broker/broker.hpp:1193-1203 | then every share group that a publication matches has a member to pick |
| BrokerSteps.GroupStepExact | tool/include/broker/session_state.hpp:349-447 | an operation keeps groups and map in step iff it does not break them apart |
| BrokerSteps.SecondUser | tool/include/broker/session_state.hpp:374-447 | a run: two users with one client id, and cleaning a session meets an invalid handle |
| BrokerSteps.LeftOver | tool/include/broker/session_state.hpp:374-447 | a run: two users with one client id, and a subscription outlives its session |
| BrokerRuns.Run | tool/include/broker/broker.hpp:1180-1210 | over any run from any state: the record of all states, cleanings and deliveries; waiting is bounded between any two operations; from exact handle sets all that follows from the plain history, operation by operation |
| BrokerRuns.HandlesExact | tool/include/broker/session_state.hpp:349-447 | handle sets are exact all along iff no operation of the plain history clashes, and then the broker follows that history and no erase meets an invalid handle |
| BrokerRuns.OneSessionEach | tool/include/broker/session_state.hpp:800-807 | with one session at a time for each client id no operation of a history clashes |
| BrokerRuns.OrderlyRun | tool/include/broker/session_state.hpp:349-447 | without a clash no subscription outlives its session in a run |
| BrokerRuns.GroupsExact | tool/include/broker/session_state.hpp:349-447 | without a clash groups and map are in step all along iff no operation replaces a shared subscription by a different one, joins another session's place or names the wrong group |
| BrokerRuns.StepTakes | tool/include/broker/shared_target_impl.hpp:18-108 | the steps of an operation on the share groups, with one request for each group that a publication reaches and somebody serves |
| BrokerRuns.OnePick | tool/include/broker/broker.hpp:1180-1210 | among the picks of a publication each group and filter occurs once or not at all |
| BrokerRuns.WaitingBound | tool/include/broker/broker.hpp:1180-1210 | between any two operations a member that serves its filter and is not picked is passed over at most as often as members were ahead of it |
| BrokerRuns.SegmentRequests | tool/include/broker/broker.hpp:1180-1210 | while somebody waits there is one request for the group for each publication that reaches it |
| BrokerRuns.StampedThrough | tool/include/broker/shared_target_impl.hpp:18-108 | increasing clock readings stay increasing through a run |
| BrokerRuns.NewBroker | tool/include/broker/shared_target_impl.hpp:18-45 | a new broker meets the conditions of all of these |
| SharedGroups.SubscribeExact | tool/include/broker/session_state.hpp:375-400 | groups and map stay in step iff no shared subscription of that client and filter is replaced by a different one and the group is not joined in another session's place |
| SharedGroups.UnsubscribeExact | tool/include/broker/session_state.hpp:427-437 | they stay in step iff the share name is that of the stored subscription |
| SharedGroups.CleanKeeps | tool/include/broker/session_state.hpp:364-365 | taking a client id out of both keeps them in step |
| SharedGroups.PickedIsSubscribed | tool/include/broker/broker.hpp:1195-1206 | while in step, whoever is picked holds the stored subscription of that group, and the message goes to its session |
| SharedGroups.SubscribedIsStaffed | tool/include/broker/broker.hpp:1195-1206 | while in step, every matched group has a member to pick |
| SharedGroups.LeftBehind | tool/include/broker/session_state.hpp:375-400 | a change of share name leaves the client in the old group |
| SharedGroups.GoesToOther | tool/include/broker/shared_target_impl.hpp:18-45 | two users with one client id in one group: a pick for the second's filter goes to the first |
| Utf8.Utf8StringCheck | include/async_mqtt/util/utf8validate.hpp:14-110 | accepts iff the bytes are the concatenated shortest encodings of allowed code points |
| Utf8.RoundExact | include/async_mqtt/util/utf8validate.hpp:20-108 | one round neither loses nor invents a decomposition |
| Utf8.AdvanceSound | include/async_mqtt/util/utf8validate.hpp:21-103 | what a round lets through is the encoding of an allowed code point |
| Utf8.AdvanceComplete | include/async_mqtt/util/utf8validate.hpp:21-103 | every allowed code point is let through, whatever follows it |
| Utf8.PrefixFree | include/async_mqtt/util/utf8validate.hpp:20-108 | no code point's encoding begins another's |
| Utf8.ShortestForm | include/async_mqtt/util/utf8validate.hpp:35-92 | bytes of the general form that carry a code point are never fewer than its encoding |
| Utf8.DecompositionUnique | include/async_mqtt/util/utf8validate.hpp:14-110 | the code points of a string are unique |
| Utf8.CheckCases | include/async_mqtt/util/utf8validate.hpp:14-110 | a text that is accepted; an overlong form, a surrogate, a control character and a cut-off sequence that are not |
| VariableBytes.ValToVariableBytes | include/async_mqtt/util/variable_bytes.hpp:18-28 | the loop yields the encoding, nothing above the maximum |
| VariableBytes.VariableBytesToVal | include/async_mqtt/util/variable_bytes.hpp:38-54 | value and consumed bytes: ends within four bytes, or fails after all of them or a fifth |
| VariableBytes.RoundTrip | include/async_mqtt/util/variable_bytes.hpp:18-54 | followed by any bytes, an encoding decodes to its value and exactly its 1 to 4 bytes are consumed |
| VariableBytes.CutOff | include/async_mqtt/util/variable_bytes.hpp:38-54 | every proper prefix of an encoding decodes to nothing |
| VariableBytes.EncodingPrefixFree | include/async_mqtt/util/variable_bytes.hpp:18-28 | no encoding begins another |
| VariableBytes.EncodingLength | include/async_mqtt/util/variable_bytes.hpp:18-28 | at most n bytes iff the value is below 128 to the power n |
| VariableBytes.Shortest | include/async_mqtt/util/variable_bytes.hpp:18-28 | no byte sequence denotes the value in fewer bytes |
| VariableBytes.ReEncode | include/async_mqtt/util/variable_bytes.hpp:38-54 | what was consumed is the encoding iff it is one byte or its last byte is not zero |
| VariableBytes.EncodingCases | include/async_mqtt/util/variable_bytes.hpp:18-28 | the encodings at which the number of bytes changes |
| VariableBytes.DecodingCases | include/async_mqtt/util/variable_bytes.hpp:38-54 | numbers that end, one of them padded |
| VariableBytes.FailingCases | include/async_mqtt/util/variable_bytes.hpp:38-54 | numbers that are cut off or go on too long |

## Left out

- Security.Security.Validate: the checks of group members and the warning about missing salts are not modelled; the rules are already built.
- ValueAllocator.GreatestTaken: models a build without debug assertions; with them the call that wraps aborts in `allocate`.
- BrokerSteps.Perform: when a cleaning meets an invalid handle, a run goes on from the state at that point; what the program does with the exception, which leaves a destructor on some ways, is not modelled.
- Sessions.Broker.EndSession: sending the will and closing the connection are left out; connecting again to a session that is there is no operation of its own, or one of cleaning.
- SubscriptionMap.MultipleSubscriptionMap.InsertOrAssignAt: says what an insertion at the root's own key leaves, but no operation is modelled on a map in that state.
- TopicAlias.TopicAliasSend.InsertOrUpdate: models a topic that is bound elsewhere as the container behaves without debug assertions; with them the call aborts.
- Sessions.Broker.Publish: what `deliver` does with options, QoS, expiry and queues is left out; only who gets the message is modelled.
- VariableBytes.ValToVariableBytes: bit masks and shifts are written as remainders and quotients by 128.
- Node ids, counts and sizes are unbounded; the overflow exceptions at their maxima are left out.
- References and iterators into the hash maps are keys, so iterator invalidation is not captured; locks are left out and each operation is one step.
- The table of a class is updated as a value that its methods hand on, so a table shared between two objects is not expressible; the code has none.
- `single_subscription_map`, whose insertion and erasure do not keep counts and values in step, is not used by the broker and is left out.
- `validate_topic_filter`, `validate_topic_name` and `compare_topic_filter` work on the text and are left out.
- Loading of the JSON configuration, comment stripping, login, password hashes and certificates.
- Retained message delivery on subscribe, will messages, session expiry, offline and inflight messages, QoS flows, packet stores and keep-alive.
- Sockets, TLS, WebSocket, executors, timers and the command line tools.
