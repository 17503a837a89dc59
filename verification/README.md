# Greyd in Dafny

A model of the greylisting daemon greyd and proofs about its algorithms. It has seven parts.

**Blacklists.** Black and white address ranges are collected and collapsed into CIDR blocks (section 3.1 of RFC 4632).
`Words` and `Cidr` define words, blocks and the canonical list of a set of addresses; `RangeToCidr` and `RangeShape` are
the greedy conversion of one range and the shape of its result; `Blacklist` is the sweep; `IpMatch` and `AddressList`
are masks, matching and the list that collapsed blocks are loaded into again.

**Tries.** `Trie` is the binary trie with nodes changed in place. Its branch bits are not ordered along a path: a leaf is
split wherever two keys differ. What holds instead is that every key lies on the side of each branch that its own bit
says. `TrieBlacklist` sets the trie against the linear scan, `TrieLoads` loads whole lists into it, and `TrieHosts` has
the lists of single addresses of both families.

**Greylisting.** `Grey` says what messages and scans do to the table, `Greylister` does it statement by statement,
`GreyScans` compares the cursor scan with the SQL scan, `GreyRows` has the rows they leave, `GreyRuns` the safety of whole
runs, and `GreyTerms` how long addresses stay white or trapped.

**Connections.** `Reply` is the multi-line reply (section 4.2.1 of RFC 5321) with its back-patched continuation mark, and
`Formats` what the messages in it mean;
`Con` and `NextState` are the dialogue; `Greyd` and `Connections` the slots and counters of the server under every event;
`GreydSafety` and `GreydRuns` what holds of them after any events; `GreydLists` for which blacklists it does; `Wire` what
the client receives, and `GreydReports` what the reports of a run hold. `Envelopes` and `Bodies` are the lines of a
client, `Sessions` what whole sessions tell the greylister, and `Tarpit` how slowly they go.

**Hash tables.** `Hash` is open addressing with growth, against a map.

**Texts between processes.** `Lexer`, `ConfigLexer` and `ConfigParser` are the configuration language and `Configs` its
files, `ConfigPipe` and `Messages` the messages printed in it and read back. `ConfigSites` and `FieldSites` find where in a text a value can come
from, `Reports` settles which reports of a client arrive, and `GreyReader` is the reader at the end of the pipe. `Sync` is
the binary protocol between servers, and `SyncTraps` follows a trap from one to the next.

**Feeds.** `SpamdLexer`, `SpamdParser` and `SpamdFeed` read blacklists from text, up to the collapsed blocks.

Code that changes things step by step is methods and classes here, each proved against a function on values; the
properties are lemmas about these functions. Where the code does not do what one would expect, the model does what the
code does, and a lemma says exactly when the two differ:

- A trie loaded with networks of several prefix lengths may refuse addresses that the list accepts: exactly when the way
  of some entry branches behind its prefix (`TrieBlacklist.AnswersAsScanIff`, `TrieBlacklist.StaysWithinIff`). The order
  of a collapsed list does that (`TrieLoads.LateWiderNetworkIsLost`); shortest prefixes first never does
  (`TrieLoads.ShortestFirstAnswers`).
- The cursor scan and the SQL scan disagree exactly on tables with an early white row, a stale trap row, or a tuple that
  lacks sender or recipient and is counted by one of them only (`GreyScans.ScansAgreeIff`). Runs reach all four
  (`GreyRuns.ReachesEarlyWhite`, `GreyRuns.ReachesStaleTrap`, `GreyRuns.ReachesHalfNamed`,
  `GreyRuns.ReachesBareListed`).
- A blacklist message that ends in a newline is not marked for writing (`Reply.SomethingPendingIff`,
  `Reply.WholeReplyPendingIff`). Where that holds of all messages of a client, the server closes the connection twice and
  counts one client too few (`GreydLists.ClosedTwice`, `GreydLists.InOrderIff`).
- What is printed into a pipe is not escaped: the reader undoes escapes that were already there, and a bare quote ends
  the string early (`ConfigPipe.QuotedTokenIff`). A HELO argument reaches the pipe as the client sent it. The reports that
  arrive are known exactly (`Reports.ReportHeardIff`, `Reports.ReportUnchangedIff`, `GreydReports.RunReportHeardIff`); of
  the others some are refused, which ends the reader and loses all messages behind them (`Reports.ReportRefused`,
  `GreyReader.QuoteLosesTheRest`), and some arrive as another message (`Reports.ReportRetyped`).
- In a trie of hosts an IPv4 address that is the first word of an IPv6 one in it may be lost (`TrieHosts.HostsAnswer`,
  `TrieHosts.FirstWordLost`).
- An IPv6 client is told to other servers as 255.255.255.255 (`Sync.AddressHeardIff`).
- A trapped client that tries again keeps the expiry of its row, but other servers are told a new one
  (`GreyTerms.ToldExpiryIff`).
- A sender or recipient shorter than the one before it is followed by the rest of that one, also after RSET
  (`Envelopes.FieldIff`, `Envelopes.SenderShows`, `Sessions.ResetSaid`).
- In a message with bare newlines no empty line is found, so its body is not counted (`Bodies.BareEmptyLine`,
  `Bodies.EmptyIff`).
- Without a stutter for greylisted clients blacklisted ones start without one too (`Tarpit.FirstPace`).
- A full hash table answers for absent keys (`Hash.LookupIsMap`), removal may lose other keys
  (`Hash.RemovedPlacedIff`), and long keys are lost (`Hash.LongKeyIsLost`).
- A range up to the last address wraps around and covers nothing (`SpamdFeed.RangeIsExactIff`).
- An address text that is not acceptable is stored with a zero mask and matches everything (`AddressList.EntryMatches`).
- A reply written in one piece keeps the line ends it has; only stuttering pairs them (`Wire.WholeIsPairedIff`,
  `Wire.WirePairedIff`).

Requirements on the environment are stated once each: `NextState.ValidEnv` (a non-empty error code, a proxy's address that
is one), `GreydRuns.Promised` (reads and writes move no more than was asked for), `GreydSafety.GoodLists` (of the messages
of a client's blacklists some does not end in a newline of its own), `TrieBlacklist.FamilyKnown` (a text added to a trie
can be scanned and has a prefix length from 1 to 128, so that its family is known; the code stores other texts too, and
an insertion after the second of them may compare a missing key), `GreydReports.AddressEvent` (the addresses that the
system reports hold no quote, backslash or line end and are not long), and `Sync.IsInetAddr`.

Verify with `dafny verify dfyconfig.toml` (Dafny 4.11).

## Model

| member | source | states |
|---|---|---|
| `Cidr.CanonicalUnique` | src/blacklist.c:196-245 | two ascending lists of maximal aligned blocks with the same covered set are the same list |
| `Cidr.CanonicalShortest` | src/blacklist.c:196-245 | no list of aligned blocks with the same union is shorter than the canonical one, and one of the same length has the same blocks |
| `RangeToCidr.ImaskClearsHostBits` | src/ip.c:239-246 | the 32-bit mask word, computed with a shift that drops high bits, clears exactly the host bits of an address |
| `RangeToCidr.MaxBlock` | src/ip.c:222-237 | the result is the shortest prefix length to which the address is aligned |
| `RangeToCidr.MaxDiff` | src/ip.c:203-220 | the result is the shortest prefix on which the first address and the one after the last differ |
| `RangeToCidr.MaxSize` | src/ip.c:66-68 | the larger of both lengths is the greedy choice: the largest aligned block that stays in the range |
| `RangeToCidr.PartialStep` | src/ip.c:65-76 | a greedy block is maximal in the whole range, and what is left of the range is again in a state in which that holds |
| `RangeToCidr.IpRangeToCidrList` | src/ip.c:58-79 | the loop ends, appends without touching what was in the list, tiles the range without a gap, and what it appends is the canonical list of the range |
| `RangeShape.SizesRiseThenFall` | src/ip.c:58-79 | the sizes of the blocks of one range strictly rise and then strictly fall; only the two in the middle may be equal |
| `RangeShape.EachLengthAtMostTwice` | src/ip.c:58-79 | no prefix length occurs three times among the blocks of one range |
| `RangeShape.AtMost62Blocks` | src/ip.c:58-79 | no range takes more than 62 blocks |
| `RangeShape.Exactly62Blocks` | src/ip.c:58-79 | the range of all addresses but the first and the last takes 62, so the bound is tight |
| `RangeShape.SingleBlockRoundTrip` | src/ip.c:51-79 | the range of one CIDR block converts back to that block alone |
| `IpMatch.MaskWords` | src/ip.c:101-113 | the two loops set exactly the given number of leading bits over four words |
| `IpMatch.IpStrToAddrMask` | src/ip.c:81-136 | which texts are refused, and the masked network and family of the others |
| `IpMatch.MatchIsPrefixAgreement` | src/ip.c:138-161 | the four-word comparison accepts an address exactly when its first bits agree with the network, for IPv4 lengths 1 to 32 and IPv6 lengths 1 to 128 |
| `Blacklist.DepthCounts` | src/blacklist.c:161-194 | over the boundaries of any ranges the weighted depth at an address is positive exactly when a range of that kind holds it |
| `Blacklist.SumsDecide` | src/blacklist.c:209-231 | between two boundaries the running sums of the sorted entries decide whether an address is black and not white, however equal addresses were ordered |
| `Blacklist.InsertionOrderIrrelevant` | src/blacklist.c:196-245 | the collapsed list depends on which ranges were added and not on their order |
| `Blacklist.Blacklist.AddRange` | src/blacklist.c:161-194 | two boundaries are appended, none for a range that ends before it starts |
| `Blacklist.Blacklist.SortEntries` | src/blacklist.c:206-207 | the entries are sorted by address and none is lost |
| `Blacklist.Blacklist.SumGroup` | src/blacklist.c:214-218 | the inner loop takes exactly the entries at one address into both sums |
| `Blacklist.Blacklist.Sweep` | src/blacklist.c:209-242 | the sweep over sorted entries emits the canonical list of the addresses that are black and not white |
| `Blacklist.Blacklist.Collapse` | src/blacklist.c:196-245 | after any ranges the result is the canonical list of the addresses in some black and no white range, or nothing when there are no entries |
| `AddressList.EntryMatches` | src/blacklist.c:108-131 | a stored network accepts an address exactly when text, family and prefix say so; a text that was not acceptable is kept with a zero mask and accepts every address |
| `AddressList.AddressList.Add` | src/blacklist.c:135-159 | the text becomes the next entry, and the result tells whether it was acceptable |
| `AddressList.AddressList.Match` | src/blacklist.c:108-131 | the scan answers whether some added text accepts the address |
| `AddressList.ReloadedMatchesExactly` | src/blacklist.c:108-159 | a list to which the collapsed blocks are added as texts accepts exactly the addresses that are black and not white |
| `Trie.WalkFindsKey` | src/trie.c:121-136 | a walk ends at the leaf of a stored key if and only if the query takes the turns of that key at every branch bit its way meets, though these are not ordered along the way |
| `Trie.GrowthKeeps` | src/trie.c:85-118 | giving a node its missing kid or splitting a leaf stores the key, loses none and keeps all turns right |
| `Trie.GrowthMet` | src/trie.c:85-115 | an insertion leaves the branch bits on the ways of stored keys as they were, but for the one it splits at, which only the split key and the new one meet |
| `Trie.SiteReplaced` | src/trie.c:85-118 | changing only the last node of a walk in place replaces exactly that node in the shape of the whole trie |
| `Trie.Trie.FindSite` | src/trie.c:85-98 | the walk stops at the node where the key belongs |
| `Trie.Trie.Split` | src/trie.c:105-115 | a leaf becomes an inner node over both keys, branching at the first bit where they differ |
| `Trie.Trie.Insert` | src/trie.c:73-119 | insertion leaves a valid trie that holds the key, or a matching one, and all it held before; its shape grows at the end of the way and nowhere else |
| `Trie.Trie.Contains` | src/trie.c:121-136 | the walk answers whether the leaf it ends at matches |
| `Trie.FindsExactlyStored` | src/trie.c:121-148 | with byte comparison a key is found exactly when it was stored |
| `Trie.Build` | src/trie.c:73-148 | after inserting any keys of one length, exactly these are found |
| `TrieBlacklist.EntryReadsBack` | src/blacklist.c:247-276 | family, address and mask are read back from the bytes of a key |
| `TrieBlacklist.StoredMatches` | src/blacklist.c:247-276 | the comparison of a stored entry with a query is the match of the linear scan |
| `TrieBlacklist.UniformMatchIsEqual` | src/blacklist.c:247-276 | entries of one family and prefix length match each other only when they are equal |
| `TrieBlacklist.HitIsScanHit` | src/blacklist.c:108-131 | a trie hit is a hit of the linear scan, for entries of any lengths and families |
| `TrieBlacklist.MatchingEntriesMeet` | src/blacklist.c:247-276 | a stored entry that matches another one on insertion has a common address with it |
| `TrieBlacklist.DisjointDifferWithin` | src/blacklist.c:247-276 | the keys of disjoint networks first differ within the shorter prefix of the two |
| `TrieBlacklist.HitIffReached` | src/blacklist.c:108-131 | over networks without overlap, of any lengths, an address of a network is found if and only if its key takes the turns of the key of the network |
| `TrieBlacklist.AloneHitIff` | src/blacklist.c:108-131 | also over entries of both families, when none is mistaken for another on insertion: an address that one network alone holds is found if and only if its key takes the turns of the key of that network |
| `TrieBlacklist.AnswersAsScanIff` | src/blacklist.c:108-131 | over networks of one family without overlap, of any lengths, the trie answers every query as the linear scan if and only if the way of every entry branches only on bit 0 and inside the prefix of that entry |
| `TrieBlacklist.LosesAnAddress` | src/blacklist.c:108-131 | an entry whose way meets a bit behind its prefix has an address that the scan accepts and the trie refuses |
| `TrieBlacklist.UniformAnswers` | src/blacklist.c:108-131 | over one family and prefix length the trie answers as the scan, whatever the order of the entries |
| `TrieBlacklist.InsertionExplained` | src/blacklist.c:135-159 | what ties the trie to the added texts is kept by an insertion, whether it stored a key or found one |
| `TrieBlacklist.TrieBlacklist.Match` | src/blacklist.c:108-131 | the answer is that of the walk through the trie: never yes where the scan says no; over networks without overlap yes exactly for the addresses whose keys take the turns of their network |
| `TrieBlacklist.TrieBlacklist.Add` | src/blacklist.c:135-159 | the text is added, in the trie and to what it answers for; the shape changes as one insertion says |
| `TrieBlacklist.StaysWithinIff` | src/blacklist.c:135-159 | an addition keeps the agreement with the scan if and only if, before it, the walk of the new key met no bit behind its prefix |
| `TrieBlacklist.ShortestFirstStaysWithin` | src/blacklist.c:135-159 | that is so for a network no shorter in prefix than those before it |
| `TrieLoads.Load` | src/greyd.c:108-113 | the loop adds every text; for a list without overlap the trie then answers every query as the scan of the list if and only if each network, when it was added, was walked past no bit behind its prefix, which is so when the shortest prefixes come first |
| `TrieLoads.LoadedAnswersIff` | src/greyd.c:108-113 | that condition, over all the shapes the trie went through |
| `TrieLoads.ShortestFirstAnswers` | src/greyd.c:108-113 | with the shortest prefixes first it holds, for any lengths |
| `TrieLoads.CollapsedApart` | src/blacklist.c:196-245 | the blocks of a collapsed blacklist have no overlap |
| `TrieLoads.WiderThirdLoses` | src/greyd.c:108-113 | whenever a network is added after two disjoint ones that agree on its prefix, the trie refuses some address of it |
| `TrieLoads.LateWiderNetworkIsLost` | src/greyd.c:108-113 | 10.0.0.1/32, 10.0.0.2/32 and 20.0.0.0/8, loaded in the order in which they are collapsed: the scan accepts 20.0.0.2, the trie refuses it |
| `TrieLoads.ThreeAreCollapsed` | src/blacklist.c:196-245 | these three, in this order, are what the ranges 10.0.0.1-10.0.0.2 and 20.0.0.0-20.255.255.255 collapse to |
| `TrieHosts.HostIsFound` | src/blacklist.c:108-159 | a trie of single hosts of both families, as trapped addresses are sent (src/greyd.c:133-147), finds every host that was added, in whatever order, unless an IPv4 address is the first word of an IPv6 one among them |
| `TrieHosts.HostsAnswer` | src/blacklist.c:108-159 | and answers as the scan, which is yes for exactly these hosts, for every address whose first word no host of the other family has |
| `TrieHosts.FirstWordLost` | src/blacklist.c:108-159 | with an IPv4 and then an IPv6 host stored, the IPv4 address that is the first word of the IPv6 one is accepted by the scan and refused by the trie |
| `Greylister.Greylister.CheckPartialDom` | drivers/bdb.c:763-785 | the cursor finds a stored domain that ends the address exactly when there is one |
| `Greylister.Greylister.TrapCheck` | src/grey.c:483-538 | an address is a trap exactly when it is a stored spamtrap or its domain is not permitted |
| `Greylister.Greylister.ProcessGrey` | src/grey.c:577-711 | what a grey tuple does to the table, a new entry, a retry that brings the pass time forward or a trap, and what other servers are told of it (GreyTerms has what the rows are good for) |
| `Greylister.Greylister.ProcessNonGrey` | src/grey.c:748-832 | what a trap or white message does to the table |
| `Greylister.Greylister.ProcessMessage` | src/grey.c:834-877 | messages are dispatched on their type, incomplete ones change nothing, unknown ones end the reader |
| `Greylister.Greylister.AddrState` | src/greydb.c:210-233 | unknown, trapped or white is read from the address row |
| `Greylister.Greylister.ScanWithCursor` | drivers/bdb.c:564-659 | the cursor loop computes the scan for the order in which the cursor goes (GreyRows and GreyScans have what it leaves and lists) |
| `Greylister.Greylister.ScanWithSql` | drivers/sqlite.c:733-823 | the three statements leave the table and the lists that their relational meaning gives |
| `GreyScans.ScanTracks` | drivers/bdb.c:564-659 | after any part of a scan an address is listed as white or trapped exactly when its rows seen so far say so |
| `GreyScans.WhiteAndTrappedDisjoint` | drivers/bdb.c:581-653 | no address is on both lists of one scan |
| `GreyScans.SqlLists` | drivers/sqlite.c:748-818 | which addresses the select returns as white and as trapped, in terms of the rows before the scan, tuples without sender or recipient among them |
| `GreyScans.ScansAgreeIff` | drivers/bdb.c:576-654 | both scans list the same addresses in every order if and only if no address has an early white row, a stale trap row, a tuple without sender and recipient that only SQL lists, or only passing tuples that lack one of the two |
| `GreyScans.NamedDisputes` | drivers/sqlite.c:756-770 | where every tuple names sender and recipient only the first two remain |
| `GreyRows.ScanRows` | drivers/bdb.c:576-654 | after a cursor scan in any order a row of an address is its unexpired row of before, or has first, pass and counts of a passing tuple and expires the white expiry after the scan, as it does whenever a passing tuple was met while the address did not count as trapped; the tuples left are exactly the unexpired ones not taken so |
| `GreyRows.ScanFamilies` | drivers/bdb.c:581-642 | of the white addresses those with a colon that resolve are on the list of IPv6 addresses, all others on the other |
| `GreyRows.SqlRows` | drivers/sqlite.c:733-772 | exactly which rows the delete and the update leave, and the same data and expiry in the new white ones |
| `GreyTerms.WhitenedIsListed` | drivers/bdb.c:608-642 | in every run a host whitened by a scan is listed by every scan before the white expiry has passed, as long as only scans, attempts that do not trap and white messages concern it |
| `GreyTerms.ReportedIsListed` | src/grey.c:748-832 | so is a host made white by a message, up to the expiry in the message |
| `GreyTerms.NewTrap` | src/grey.c:591-686 | a client trapped anew, by its recipient or by skipping the primary server, has a row that expires the trap expiry later, and that expiry is what other servers are told |
| `GreyTerms.ToldExpiryIff` | src/grey.c:688-739 | a client on record that is trapped keeps the expiry of its row, so other servers are told the same expiry if and only if the row expires the trap expiry from now |
| `GreyTerms.GreyAttempt` | src/grey.c:591-739 | an attempt that does not trap makes or keeps the row of its tuple, with the grey expiry when new, touches no other row and is told as the tuple |
| `GreyTerms.GreyElsewhere` | src/grey.c:591-739 | no grey message touches the rows of other addresses and tuples |
| `GreyTerms.TrappedIsListed` | src/grey.c:591-686 | in every run a client trapped at some time is listed as trapped by every scan before the trap expiry has passed, without white messages for it and its deletion |
| `GreyTerms.ReportedRow` | src/grey.c:748-832 | a deletion removes the row; a trap message leaves a trapped row and a white one a white row, with the old expiry or that of the message; other rows stay |
| `GreyTerms.ReportedIsTrapped` | src/grey.c:748-832 | a client that a trap message reports is listed as trapped up to the expiry in the message |
| `GreyTerms.TrapsIff` | src/grey.c:483-538 | a recipient traps if and only if it is a spamtrap or, where domains are permitted, has none of them |
| `GreyTerms.OwnDomain` | src/grey.c:496-506 | a recipient in a permitted domain, in any case, traps only as a spamtrap |
| `GreyTerms.AttemptsCounted` | src/grey.c:688-711 | in every run the row of a tuple counts its attempts since the one that made it |
| `GreyRuns.RunCounted` | src/grey.c:675-832 | the counters of all rows keep their meaning in every run |
| `GreyRuns.TuplesRecorded` | src/grey.c:675-711 | in every run the row of a tuple comes from an attempt, and from a later one in time when its pass time was brought forward |
| `GreyRuns.WhiteOnlyAfterRetry` | src/grey.c:675-711 | in every run a scan makes an address white only when it had a white row already or one of its tuples was attempted and attempted again in time |
| `GreyRuns.WhiteRowOnlyAfterRetry` | src/grey.c:675-711 | in every run without a white message for an address, it has a white row only after one of its tuples was attempted and attempted again in time |
| `GreyRuns.ListedOnlyAfterRetry` | drivers/bdb.c:581-642 | and a scan lists it as white only then |
| `GreyRuns.TurnedWasRetried` | drivers/bdb.c:608-642 | the very tuple that a scan turns into an address was attempted and attempted again in time |
| `GreyRuns.RetryMakesWhite` | drivers/bdb.c:581-642 | a retry in time makes the next scan list the address, unless it is trapped |
| `GreyRuns.TrapReleasedIff` | src/grey.c:591-828 | a step ends the trapped state if and only if it is one of the three kinds that release |
| `GreyRuns.TrapEndsByExpiredScan` | drivers/bdb.c:581-653 | in every run of grey messages, trap additions and scans a trapped address is released only by a scan that finds its expiry passed |
| `GreyRuns.ReachesEarlyWhite` | src/grey.c:748-832 | a trap message and then a white one leave an early white row |
| `GreyRuns.ReachesStaleTrap` | src/grey.c:577-832 | a trap message and then a tuple attempted and retried leave a stale trap when the trap expires |
| `GreyRuns.ReachesHalfNamed` | src/grey.c:577-711 | a tuple without sender, attempted and retried, is listed by the cursor scan alone |
| `GreyRuns.ReachesBareListed` | src/grey.c:577-711 | a tuple without sender and recipient, attempted once, is listed by the SQL scan alone |
| `Reply.DraftIsMultiLine` | src/con.c:656-748 | the buffer written character by character with a patched continuation mark is the multi-line reply of the text |
| `Reply.ReplyLines` | src/con.c:656-748 | read line by line the reply is the lines of its text, each behind its code and a hyphen, the last behind its code and a blank |
| `Reply.AppendErrorString` | src/con.c:656-748 | appending one message extends the reply by its expansion (Formats.ExpandMeans), whatever the back-patching did before |
| `Reply.AddMessage` | src/con.c:761-788 | a message is appended and given a newline of its own when it does not end in one |
| `Reply.BuildReply` | src/con.c:750-810 | for any messages the buffer is one reply over all their expansions; for none it is the temporary failure |
| `Reply.ReplyWellFormed` | src/con.c:750-810 | every line of that reply starts with the code, only the last with a blank behind it, and without the prefixes it is the expansions in order |
| `Reply.WholeReplyPendingIff` | src/con.c:778-787 | the whole reply is marked for writing exactly when the last message does not end in a newline of its own |
| `Reply.SomethingPendingIff` | src/con.c:778-787 | anything is marked for writing exactly when some message does not |
| `Reply.NothingPending` | src/con.c:778-787 | a message that ends in a newline leaves nothing marked: a concrete one |
| `Formats.ExpandMeans` | src/con.c:706-745 | the character loop expands every format to what it means read from the left: \\n is a newline, %A the address of the client, two escapes the first of them, an escape before anything else both characters, a last escape nothing |
| `Formats.PartsExpand` | src/con.c:706-745 | a concatenation of plain texts, addresses, newlines, percent signs, backslashes and kept pairs is expanded part by part, with no escape left waiting |
| `Formats.MixedEscapes` | src/con.c:708-717 | two different escapes side by side stand for the first |
| `Formats.AddressPut` | src/con.c:719-731 | the address stands in the place of %A and nothing else changes |
| `Con.CommandIsItsWord` | src/con.c:365-653 | the eight command words exclude each other, so the order of the tests does not matter |
| `NextState.ScanBody` | src/con.c:606-637 | the loop over a piece of the message finds the lone dot, the end of the header and the tenth line where the specification does |
| `NextState.StepHelo` | src/con.c:444-465 | HELO and EHLO, with or without an argument |
| `NextState.StepMail` | src/con.c:475-489 | MAIL, from its states |
| `NextState.StepRcpt` | src/con.c:499-541 | RCPT, and what the greylister is told (Sessions.EnvelopeReported has what that is) |
| `NextState.StepData` | src/con.c:551-596 | DATA, which ends the session of a greylisted client |
| `NextState.StepOther` | src/con.c:552-596 | NOOP and unrecognised commands, up to the limit |
| `NextState.StepCommand` | src/con.c:444-596 | falling through from one state into the next tries exactly the commands of the later states |
| `NextState.StepProxy` | src/con.c:396-415 | the line of an upstream proxy is accepted or ends the session |
| `NextState.StepMessage` | src/con.c:606-637 | a piece of the message is counted, or ends the session |
| `NextState.StepAnytime` | src/con.c:365-384 | QUIT and RSET before the states are looked at |
| `NextState.NextState` | src/con.c:353-654 | one step with all its gotos is the step function that the properties below are about |
| `GreydSafety.FinalReplyPendingIff` | src/con.c:638-645 | the final reply to a blacklisted client leaves something to write exactly when some message does not end in a newline |
| `GreydSafety.FollowedOk` | src/con.c:365-653 | for a client on no blacklist, or with some message that does not end in a newline, each command leads from every legal pair of states to a legal pair, with reading or writing wanted but not both and something to write whenever writing is wanted |
| `GreydSafety.NextOk` | src/con.c:365-653 | so does every step; the default for illegal states is never reached |
| `GreydSafety.BadCommand` | src/con.c:552-596 | an unrecognised command leads back to the state of the last answer, and the 21st ends the session |
| `GreydSafety.AfterDataStays` | src/con.c:551-653 | after DATA only its answer, the message, the reply and the close can follow |
| `Envelopes.HeloStep` | src/con.c:444-465 | HELO or EHLO in any case, with blanks before the name and anything behind it, sets just that name and is answered with 250 |
| `Envelopes.NamelessStep` | src/con.c:450-456 | without a name it is refused with 501 and may be said again |
| `Envelopes.MailStep` | src/con.c:475-489 | MAIL with a path sets the sender to the path in lower case, behind which the rest of a longer sender before shows |
| `Envelopes.RcptStep` | src/con.c:499-541 | RCPT with a path likewise sets the recipient, and makes a report exactly for a client to be greylisted that has a sender and a recipient |
| `Envelopes.DataStep` | src/con.c:551-573 | DATA is answered with 451 and the end for a greylisted client, with 354 for others |
| `Envelopes.OtherStep` | src/con.c:573-596 | NOOP and unrecognised commands lead back to the state of the last answer, the latter counted |
| `Envelopes.ProxyStep` | src/con.c:396-415 | a line that is not that of an accepted proxy ends the session |
| `Envelopes.FieldIff` | src/utils.c:77-93 | a path takes the place of the one before if and only if it is not shorter |
| `Envelopes.SenderShows` | src/utils.c:77-93 | a sender whose predecessor shows behind it: a concrete one |
| `Bodies.MessageEndsIff` | src/con.c:606-637 | a piece of the message ends it if and only if one of its lines is a lone dot or the tenth of the body; else it leaves whether the body has begun and how many of its lines there were |
| `Bodies.LinesFound` | src/con.c:608-631 | the lines of a piece are those that were sent, if none but the first is empty before its newline |
| `Bodies.DotEnds` | src/con.c:613-617 | a lone dot ends the message, whatever the lines around it |
| `Bodies.EmptyIff` | src/con.c:608-631 | behind the first line only a carriage return alone is an empty line |
| `Bodies.BareEmptyLine` | src/con.c:630 | after a bare newline an empty line is joined to the line behind it |
| `Sessions.LineAdvances` | src/con.c:245-283 | a line that comes in in any pieces advances the dialogue once, on the line without its ends |
| `Sessions.PiecesHeard` | src/con.c:245-283 | pieces of a line add up |
| `Sessions.QuietKeeps` | src/main_greyd.c:656-750 | over any events, of whatever clients, without the end of a line from it a client stays in its phase and what it said stays as it was |
| `Sessions.Accepted` | src/con.c:65-158 | a new client has said nothing and is to be sent its banner, or waited for as a proxy |
| `Sessions.Proxied` | src/con.c:396-415 | behind an accepted proxy line the client has the source and the destination of that line |
| `Sessions.ResetSaid` | src/con.c:375-384 | RSET leads back to the state after HELO and forgets nothing that was said |
| `Sessions.QuitSaid` | src/con.c:365-373 | QUIT is answered with 221 and the end |
| `Sessions.DataSaid` | src/con.c:551-596 | DATA is answered as above and reports nothing |
| `Sessions.EnvelopeReported` | src/con.c:499-541 | whatever else happens in between, a HELO, a MAIL and a RCPT line of a greylisted client that has said nothing before make exactly one report, with its address, its name, its sender and its recipient |
| `Sessions.SessionReported` | src/con.c:65-541 | the same from the moment the client is accepted, after any events |
| `Sessions.LowerCaseKept` | src/utils.c:77-93 | a path in lower case is reported as it was given |
| `Tarpit.PaceKept` | src/con.c:285-351 | between two writes to a connection its stutter passes, as long as it has one |
| `Tarpit.FewClientsOneByOne` | src/con.c:320-327 | while the server has few clients, each write to a stuttered one is of one character at most |
| `Tarpit.SlowlySent` | src/con.c:285-351 | so what is sent to it takes its stutter in seconds for every character but the first |
| `Tarpit.BlacklistedKeepsPace` | src/con.c:294-301 | a client on a blacklist keeps its stutter as long as it is connected |
| `Tarpit.LateWriteReleases` | src/con.c:294-301 | one that is not loses it at the first write after the initial delay |
| `Tarpit.FirstPace` | src/con.c:102-142 | the stutter that a client starts with: none for all, also for blacklisted ones, when greylisted clients are not to wait, and none for one blacklisted client too many |
| `Tarpit.LostFreesSlot` | src/con.c:245-283 | a hang-up, the end of input and failed reads and writes free the slot |
| `Tarpit.SweepCloses` | src/main_greyd.c:659-683 | the look at all slots closes exactly those that have waited for reading or writing too long |
| `GreydRuns.CloseTallied` | src/con.c:160-193 | closing takes one connection from the counters and gives it to the closed ones |
| `GreydRuns.AddTallied` | src/con.c:65-158 | a new connection is counted once, and as blacklisted only with a blacklist |
| `GreydRuns.WritingGood` | src/con.c:285-351 | writing keeps every connection in order whatever the outcome of each write |
| `GreydRuns.ReadingGood` | src/con.c:245-283 | so does reading |
| `GreydRuns.ClosedWhileWriting` | src/con.c:285-351 | a connection with something left to write that is closed in the middle of a write is not advanced, and so not closed twice |
| `GreydRuns.StepGood` | src/main_greyd.c:656-750 | every event of the main loop keeps all connections and counters in order |
| `GreydRuns.CountersAreRight` | src/con.c:65-193 | after any events the counters are the numbers of open slots and of open slots with a blacklist, within the configured maximum |
| `GreydRuns.ClosedExactlyOnce` | src/con.c:65-193 | after any events every accepted connection is held by one slot and was not closed, or by none and was closed exactly once |
| `GreydLists.ClosedTwice` | src/con.c:325-350 | with every message of the lists ending in a newline of its own, one refused line and a write of nothing close the connection twice and leave -1 clients |
| `GreydLists.InOrderIff` | src/con.c:285-351 | every run that accepts only clients on these lists keeps the counters right and closes each connection once if and only if some message of the lists does not end in a newline |
| `GreydLists.NewlineLosesOrder` | src/con.c:325-350 | one message that ends in a newline, alone, loses the order |
| `GreydLists.SecondNewlineKeepsOrder` | src/con.c:325-350 | behind a message that does not end so it keeps it |
| `GreydRuns.EveryConnectionIsLegal` | src/con.c:245-351 | after any events a pending write has something to write and every pair of states is legal |
| `GreydRuns.StepKeeps` | src/main_greyd.c:656-750 | an event leaves a slot its connection, frees it or gives it one just accepted, and leads no connection that has given DATA back to the envelope |
| `GreydRuns.AfterDataForever` | src/con.c:551-653 | over any further events a connection that has given DATA stays in the message, the reply or the close for as long as its slot holds it |
| `GreydRuns.AfterDataInRuns` | src/con.c:551-653 | so in every run: what has given DATA by some event stays behind it after any further ones |
| `GreydReports.RunClean` | src/con.c:475-541 | in every run the sender and recipient of every connection and of every report hold no quote, no backslash and no line end, HELO arguments no line end, and all of them have room in their fields |
| `GreydReports.RunReportHeardIff` | src/con.c:521-531 | a report of any run reaches the greylister, escapes undone once and what follows it untouched, if and only if the quotes in its HELO argument are escaped, no lone backslash ends it and it fits, and sender and recipient fit into 257 characters |
| `Connections.Connections.CloseSlot` | src/con.c:160-193 | closing in place |
| `Connections.Connections.Init` | src/con.c:65-158 | a slot is filled in place and takes its first step |
| `Connections.Connections.AcceptCon` | src/con.c:899-938 | the loop finds the first free slot, and without one refuses the client |
| `Connections.Connections.HandleRead` | src/con.c:245-283 | reading in place, up to the end of a line or of the buffer |
| `Connections.Connections.StripAndAdvance` | src/con.c:273-282 | the loop cuts all line ends off the input |
| `Connections.Connections.HandleWrite` | src/con.c:285-351 | writing in place |
| `Connections.Connections.Dispatch` | src/main_greyd.c:656-750 | every event in place is the step the runs are made of |
| `Connections.Connections.Handle` | src/main_greyd.c:656-750 | slots in order before an event are in order after it |
| `Wire.StutteredIsCrlf` | src/con.c:303-343 | written one character at a time, the buffer goes out with a carriage return put before every newline that has none |
| `Wire.WrittenIsAfter` | src/con.c:285-343 | what a successful write leaves behind is what the sequence of writes is made of |
| `Wire.CrlfPaired` | src/con.c:303-319 | then every newline follows a carriage return |
| `Wire.CrlfKeepsText` | src/con.c:303-319 | and nothing else of the text is changed |
| `Wire.WholeIsPairedIff` | src/con.c:319-343 | written in one piece, line ends are paired only if the buffer has them paired |
| `Wire.SentAllIsWire` | src/con.c:303-343 | whatever the sizes of the writes, a piece gets a carriage return exactly when it starts with a newline and the piece before did not start with a carriage return |
| `Wire.WirePairedIff` | src/con.c:303-343 | after any writes every newline on the wire follows a carriage return if and only if each piece has its own newlines paired, and a piece that starts with a carriage return before one that starts with a newline also ends with one |
| `Wire.WireAddsReturns` | src/con.c:303-343 | and nothing but carriage returns is added |
| `Wire.PiecesFlat` | src/con.c:319-343 | and the pieces are, one after the other, the part of the buffer from where writing stood |
| `Hash.FindIff` | src/hash.c:190-206 | the probing search ends exactly at the first slot around the table that stops it, or after a full round |
| `Hash.LookupIsMap` | src/hash.c:141-152 | a present key is found with its value; an absent one is found missing if and only if the table is not full |
| `Hash.PutIsUpdate` | src/hash.c:118-139 | storing changes the map at its key and nowhere else |
| `Hash.LongKeyIsLost` | src/hash.c:136-138 | a key that is cut off when stored is never found again |
| `Hash.RemovedPlacedIff` | src/hash.c:154-169 | removing a key keeps the others findable if and only if no search for one of them passes its slot |
| `Hash.RemovalLosesAKey` | src/hash.c:154-169 | two keys of which one is lost |
| `Hash.Hash.FindEntry` | src/hash.c:190-206 | the probing loop |
| `Hash.Hash.Insert` | src/hash.c:118-139 | insertion, with growth when the table is full |
| `Hash.Hash.Resize` | src/hash.c:208-247 | rehashing into a larger table keeps the map, and repairs it should keys have been misplaced |
| `Hash.Hash.Get` | src/hash.c:141-152 | looking up |
| `Hash.Hash.Reset` | src/hash.c:101-116 | forgetting all values leaves the empty map, though stale keys stay behind |
| `Hash.Hash.Delete` | src/hash.c:154-169 | what deletion does to the slots |
| `Hash.Hash.Keys` | src/hash.c:171-188 | every key of the map, once |
| `Hash.Replay` | src/hash.c:101-247 | after any run of insertions and resets, from any initial size, the table answers as the map does |
| `Lexer.Lexer.GetC` | src/lexer.c:83-101 | one character is taken |
| `Lexer.Lexer.Reuse` | src/lexer.c:72-81 | one character is given back; the end of the text is remembered instead |
| `ConfigLexer.NextTok` | src/config_lexer.c:43-183 | every token takes at least one character, so reading tokens ends |
| `ConfigLexer.NextToken` | src/config_lexer.c:43-183 | the character loop computes that token and the text behind it |
| `ConfigLexer.ReadStr` | src/config_lexer.c:128-156 | quoted strings with their escapes and their limit |
| `ConfigLexer.ReadWord` | src/config_lexer.c:73-103 | names and reserved words |
| `ConfigParser.ConfigParser.ParseStatements` | src/config_parser.c:161-171 | the recursive rule ends on every text and is its specification |
| `ConfigParser.ConfigParser.ParseAssignment` | src/config_parser.c:185-235 | assignments of numbers, strings and lists |
| `ConfigParser.ConfigParser.ParseList` | src/config_parser.c:237-257 | lists, with their second tries after a failed first one |
| `ConfigParser.ConfigParser.ParseListValues` | src/config_parser.c:296-308 | the rest of a list |
| `ConfigParser.ConfigParser.ParseSection` | src/config_parser.c:310-362 | sections, which are entered into the configuration before their contents are parsed (Configs.BlockReads has where they go) |
| `ConfigParser.ConfigParser.ParseSectionAssignments` | src/config_parser.c:392-406 | the rest of a section |
| `ConfigParser.ConfigParser.ParseStart` | src/config_parser.c:93-123 | a whole run, up to the next end |
| `Configs.FileReads` | src/config_parser.c:93-424 | a configuration file of any global assignments, includes and sections, with comments, blank lines, commas and lists over several lines, is accepted and adds to any configuration exactly what it says, in order, with no section left open |
| `Configs.BlockReads` | src/config_parser.c:310-362 | a printed section, blacklist or whitelist puts its name with exactly its values into the map of its kind and leaves everything else as it was |
| `Configs.LaidListReads` | src/config_parser.c:237-308 | a list is read item by item, whatever line ends, blank lines and comments stand in it |
| `ConfigPipe.StringTokenIff` | src/config_lexer.c:128-156 | a quoted string is read back as it is if and only if it fits and holds no quote and no backslash |
| `ConfigPipe.QuotedTokenIff` | src/config_lexer.c:128-156 | a quoted string is read back with its escapes undone, up to its closing quote, if and only if every quote in it is escaped, no lone backslash ends it and what is left fits |
| `ConfigPipe.IntToken` | src/config_lexer.c:58-71 | a printed number is read back |
| `ConfigPipe.ListReads` | src/greyd.c:133-147 | a printed list is read back, item by item |
| `ConfigPipe.LineReads` | src/greyd.c:130-147 | a printed assignment sets its variable to its value |
| `ConfigPipe.MessageReads` | src/config_parser.c:93-123 | one run on a printed message gives back its assignments and leaves the parser at the start of the next message |
| `ConfigPipe.MessagesRead` | src/grey.c:313-341 | as many runs as messages were printed give back exactly these in order and use up the text |
| `ConfigSites.StartLeads` | src/config_parser.c:93-424 | whatever a run of the parser sets to a string stands as that name, a sign and that string token in the text it read, on every text |
| `Messages.ReportArrives` | src/con.c:521-531 | a report whose fields survive quoting gives the message that was reported, its escapes undone once |
| `FieldSites.ChunkSource` | src/config_lexer.c:128-156 | in the text of a report, whatever its fields hold, such an assignment stands at the place of a field of that name, or inside a field that is not read whole and then gives less than that field leaves |
| `Reports.ReportHeardIff` | src/con.c:521-531 | for every report of single lines: the reader gets that message, escapes undone once, and goes on with just what follows it, if and only if every field survives quoting, or nothing follows and only the recipient is cut off just before a last backslash |
| `Reports.ReportUnchangedIff` | src/con.c:521-531 | for every report of single lines: the reader gets exactly what was reported if and only if no field holds a quote or a backslash and all fit |
| `Reports.ReportRefused` | src/con.c:521-531 | a HELO argument with a bare quote before a letter or digit makes the parser refuse the report, whatever else it holds |
| `Reports.ReportRetyped` | src/con.c:521-531 | a HELO argument that closes its quotes and assigns the type arrives as a white message: a concrete one |
| `GreyReader.ReadGrey` | src/grey.c:312-340 | the loop over the pipe processes the messages of its specification, up to the first that is refused or of no known kind, the empty one at the end included: table and what is told are those after these messages in order |
| `GreyReader.PrintedProcessed` | src/grey.c:312-340 | printed messages of known kinds are processed first, each once and in order, whatever follows them |
| `GreyReader.ExactlyPrinted` | src/grey.c:312-340 | at the end of the pipe exactly the printed messages were processed |
| `GreyReader.RefusedEnds` | src/grey.c:324-325 | behind a refused report nothing is processed |
| `GreyReader.QuoteLosesTheRest` | src/grey.c:324-325 | so one HELO argument with a bare quote before a letter loses every later message |
| `Messages.BlacklistArrives` | src/greyd.c:75-120 | the server gets the name, the message and the addresses that were sent, their escapes undone once |
| `Messages.LineEndArrives` | etc/greyd.conf.in:239-244 | the escaped line end of a multi-line message comes out of the pipe as the one that the server expands to a newline |
| `Messages.SendConfig` | src/greyd.c:123-153 | the printing loop with its first-item flag prints that message |
| `Messages.UpdateFirewall` | src/grey.c:540-574 | the printing loop of the whitelist |
| `Messages.WhitelistArrives` | src/grey.c:540-574 | a whitelist reaches the firewall complete and in order |
| `Sync.Engine.Send` | src/sync.c:572-625 | header, entry and end marker, with the digest over the packet in which its own place is zero |
| `Sync.Engine.Update` | src/sync.c:534-622 | the fields of a grey entry and its padding, with the address that inet_addr makes of the text |
| `Sync.Engine.Address` | src/sync.c:633-717 | the fields of an address entry, likewise |
| `Sync.Engine.Recv` | src/sync.c:391-403 | the checks before the entries |
| `Sync.Engine.ReadEntries` | src/sync.c:410-525 | the loop over the entries ends on every packet and tells what its specification tells |
| `Sync.GreyEntry` | src/sync.c:419-449 | a grey entry is taken apart into the fields it was put together from |
| `Sync.AddressEntry` | src/sync.c:451-513 | an address entry gives a message of its kind, with its expiry in 32 bits and its deletion flag |
| `Sync.PacketPasses` | src/sync.c:391-403 | a packet within the buffer passes the checks, whatever lies behind it |
| `Sync.HeardIfSigned` | src/sync.c:391-403 | of a packet received whole the entries are looked at if its digest is that of the key, and nothing else is heard |
| `Sync.OnlySignedHeard` | src/sync.c:391-403 | nothing is heard of a packet that is too short, cut off, of another version or family, or not signed |
| `Sync.DeletionSticks` | src/sync.c:451-513 | from a deletion on all addresses in a packet are deletions |
| `Sync.GreyPacketIsHeard` | src/sync.c:391-525 | what one server sends of a grey tuple the other hears unchanged |
| `Sync.AddressPacketIsHeard` | src/sync.c:391-525 | so it is with a white or trapped address |
| `Sync.LongPacketIsDropped` | src/sync.c:391-394 | a packet that does not fit the buffer is dropped |
| `Sync.TupleReachesGreylister` | src/sync.c:419-449 | over the wire, the pipe and the parser the tuple reaches the other greylister, its escapes undone once |
| `Sync.AddressHeardIff` | src/sync.c:573 | the address text of a client is heard as it was if and only if it is a dotted IPv4 address; that of an IPv6 client is heard as 255.255.255.255 |
| `Sync.TupleHeardIff` | src/sync.c:534-622 | so the other greylister gets the tuple of a client with its escapes undone once, and with its address exactly when that is dotted |
| `Sync.HeardTupleStays` | src/grey.c:730-739 | and is told to no further server |
| `Sync.AddressLinesArrive` | src/sync.c:466-511 | and so does an address with its kind, source, expiry and flag |
| `SyncTraps.TrapSpreads` | src/grey.c:730-739 | a client that one server traps anew is trapped at another that has no record of it, over packet, pipe and parser, with the same expiry, and that server tells nobody |
| `SpamdLexer.NextToken` | src/spamd_lexer.c:42-118 | the character loop computes the token of the specification; numbers above 255 are split |
| `SpamdParser.SpamdParser.ParseAddress` | src/spamd_parser.c:165-193 | the loop over four bytes |
| `SpamdParser.SpamdParser.ParseEntry` | src/spamd_parser.c:102-151 | an entry adds one range to the blacklist, or none when it is malformed |
| `SpamdParser.SpamdParser.ParseStart` | src/spamd_parser.c:78-100 | a whole feed, on every text |
| `SpamdFeed.EntryReads` | src/spamd_parser.c:102-151 | a written entry adds its range |
| `SpamdFeed.FeedReads` | src/spamd_parser.c:78-163 | a feed with any blanks, comments and blank lines, with or without a line end behind its last line, is accepted and adds exactly the ranges of its entries in order |
| `SpamdFeed.RangeIsExactIff` | src/spamd_parser.c:114-139 | the half-open range covers exactly the addresses an entry means if and only if the last address of all is not among them |
| `SpamdFeed.Load` | src/spamd_parser.c:78-151 | from the text of a black and a white feed to the canonical blocks of their difference |

## Left out

- SPF lookups (src/grey.c:905-977), an optional foreign library.
- The database libraries: the store is a map with a cursor over it, and the three SQL statements have their relational meaning; transactions and rollback after an error are left out.
- The MySQL and PostgreSQL drivers.
- Sockets, poll, processes, signals and logging. What they report (accepts, reads, writes, hang-ups, the time) are the events of a run. The descriptor table of poll, indexed by descriptor modulo its size, is not modelled: an event names its slot.
- Firewall drivers, the DNAT lookup and the verification of an upstream proxy: their answers are parameters. The text of a PROXY line is one of three outcomes.
- Memory allocation, its failures and the sizes of the output and entry buffers, which are sequences that grow.
- The parsing of address texts: where one is parsed, what the C library makes of it is a parameter. IPv4 addresses are printed dotted; Sync.IsInetAddr says of inet_addr that it undoes that and gives its error value for a text with a colon.
- Zero characters in strings, which end them in C.
- Signed overflow of integers read by the configuration lexer, which C leaves undefined.
- Globbing of include patterns: the patterns are recorded in order.
- Packets from the server's own address, which are ignored before they are looked at (src/sync.c:386-388).
- Locales: letters, digits and case are those of ASCII.
- HMAC: any function from key and bytes to twenty bytes.
- The one array of src/blacklist.c that holds either range boundaries or networks is two classes here, Blacklist and AddressList.
- A blacklist whose boundaries are all at address 0, and ranges that reach the last address: src/blacklist.c:218 would run past its entries and src/ip.c:65 would not end, so these are preconditions.
- TrieBlacklist.TrieBlacklist.Match: over networks that overlap, or of both families and shorter than hosts, only that a hit is always right is compared with the scan, because an insertion that meets a matching entry drops the new one.
- Prefix length 0 in a feed, a shift by 32 that C leaves undefined: Spamd computes it modulo 2^32 and RangeIsExactIff asks for at least 1.
- A section left open by one message and still filled by the next, a dangling pointer in C: ParseStart asks for none, and GreyReader.ReadGrey for a text that leaves none open, as printed messages do (GreyReader.ExactlyPrinted).
- ConfigPipe.LineReads: the strings survive quoting (ConfigPipe.QuotedTokenIff is the condition for one token); what other texts make of a whole message is proved for reports, the one message with strings that a remote client chooses.
- ConfigPipe.ListReads: likewise.
- ConfigPipe.MessageReads: likewise.
- ConfigPipe.MessagesRead: likewise; GreyReader.RefusedEnds says what one refused report does to the messages behind it.
- Messages.BlacklistArrives: for a name, a message and addresses that survive quoting, which come from the configuration file.
- Sync.TupleReachesGreylister: for strings that survive quoting; what others do to a message is proved for reports only (Reports.ReportHeardIff).
- Sync.TupleHeardIff: likewise.
- Sync.HeardTupleStays: likewise.
- Configs.FileReads: for strings that survive quoting; the parsing of other texts is specified by ConfigParser.Start and not described further.
- Envelopes.MailStep: for paths without the characters that are dropped from them and short enough for their field; others are cleaned and cut off as Con.Normalized and Con.Clipped say.
- GreyScans.SqlLists: a tuple without HELO argument, sender and recipient has the key columns of its address row in an SQL table and would share its row; here, as in a Berkeley database, they stay two rows.
- SpamdFeed.Load: for a black feed with some range that does not end at address 0, as the blacklist asks.
- The connection is a value that its slot of the array holds, as the C array holds structs; the steps of NextState take and return it.
- Queues, lists and the command-line programs.
- Hash.Hash.Insert: for a key of more than 255 characters only the slots are stated, because the map no longer describes them; see Hash.LongKeyIsLost.
- Reply.BuildReply: the capacity of the output buffer is not modelled.
