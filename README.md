# Limit order book: three matching engines

This project models the matching core of a small C++ limit-order-book
repository and proves properties of that model. The repository holds three
versions of the same engine. Each one reads text commands, one per line:

- `INSERT,id,symbol,side,price,volume` adds a limit order;
- `AMEND,id,price,volume` changes a resting order;
- `PULL,id` cancels a resting order.

The engine matches each incoming order against the opposite side of its
symbol, best price first and oldest first within a price. It reports every
trade as symbol, price, volume, aggressor id and passive id. When all
commands are read, it prints a snapshot per symbol: bid levels best first,
paired row by row with ask levels best first.

- `optimized.cpp` keeps global tables: orders by id, price levels
  (`Limit`, a doubly linked list of orders with a total volume and a
  size), a sorted price set per symbol and side, and the set of symbols.
  The model is a value `OptimizedBook.Book` with pure operations on it
  (`optimized_book.dfy`, `optimized_laws.dfy`). A class
  `OptimizedEngine.Engine` keeps the same tables in fields, and its
  methods are proved to follow the pure operations step by step
  (`optimized_engine.dfy`).
- `first_version.cpp` keeps one pair of sorted trees per symbol, with a
  buy tree keyed by (price, timestamp) and the `CompareBuyTree`
  ordering, plus an order map. Its `findMatch` is a loop over values. The
  model is `FirstVersion` (`first_version.dfy`).
- `basicversio.cpp` keeps one `std::set` per symbol+side, ordered by
  `customComparator`. Its `findMatch` detaches both fronts and stores
  them back on every round. The model is `BasicVersion`
  (`basic_version.dfy`).

Shared pieces:

- `Market` holds orders, sides, trades and the price/time order.
- `Sorted` holds sorted price sets, sorted order trees and the
  lexicographically sorted symbol set.
- `Text` holds the command splitter and the decimal check.
- `Snapshot` holds the per-price aggregation and the row pairing of the
  snapshot.

Prices are integer ticks. Volumes, ids and timestamps are integers. The
timestamp of a command is its index in the input. That is how all three
`run` functions stamp commands.

In `first_version.cpp` and `basicversio.cpp`, behaviour that the C++
leaves undefined is modelled as an explicit `Undefined` outcome
(`Market.Behaviour`), and lemmas show the inputs that reach it. Examples
are dereferencing `begin()` of an empty set and reading an order that does
not exist. Where the code of any of the three versions does something its
authors evidently did not intend, the model keeps the code as written,
shows the discrepancy with an input, and proves the intended property of a
corrected operation (see "## Findings"). The commands of the optimized
version follow `processAmendQuery` as written (`OptimizedBook.Step`); a
second command function with the corrected AMEND (`OptimizedBook.StepFixed`)
carries the intended invariant. Two memory defects of `optimized.cpp` are
replaced by their intended effect; "## Left out" names them.

## Model

| member | source | states |
|---|---|---|
| Market.CrossesIsNotWorse | optimized.cpp:211-228 | an incoming order crosses a resting price exactly when that price is not worse than its limit from the resting side's point of view |
| Market.TradedVolumeCons | optimized.cpp:212-224 | the volume traded by a list of trades is the first trade's volume plus the rest |
| Market.OutwardCons | optimized.cpp:203-210 | trades that walk the opposite book from its best price outward stay in that order when a trade at a price no worse than the next one is put in front |
| Sorted.InsertPrice | optimized.cpp:179-183 | inserting a price into a side's price set keeps it sorted best first, adds exactly that price and changes nothing when the price is already there |
| Sorted.ErasePrice | optimized.cpp:144-151 | erasing a price keeps the set sorted, removes exactly that price, and erasing the best price drops the head |
| Sorted.FrontIsBest | optimized.cpp:203-210 | the first price of a sorted set is the best: every other price comes after it |
| Sorted.Upsert | first_version.cpp:266-274 | storing an order under its (price, timestamp) key keeps the tree sorted and replaces whatever had the same key |
| Sorted.InsertIfAbsent | basicversio.cpp:145-155 | `std::set::insert` keeps the set sorted, adds the order when no order has its key and otherwise leaves the set unchanged |
| Sorted.EraseKey | basicversio.cpp:115-124 | `std::set::erase` keeps the set sorted, removes exactly the orders with that key and shrinks the set by one when one was there |
| Sorted.FindKey | first_version.cpp:323-331 | a lookup finds an index whose order has the key, and finds none exactly when no order has it |
| Sorted.EraseFront | basicversio.cpp:120-124 | erasing the front order of a sorted set leaves the rest of the set |
| Sorted.ReinsertFront | basicversio.cpp:145-148 | putting back an order with the front's key, after the front was erased, puts it at the front again |
| Sorted.LexTransitive | optimized.cpp:92 | the string order of `std::set<string>` is transitive |
| Sorted.LexTotal | optimized.cpp:92 | the string order of `std::set<string>` is total |
| Sorted.InsertSymbol | optimized.cpp:162 | inserting a symbol keeps the symbol set sorted and adds exactly that symbol |
| Text.CommasToSpaces | optimized.cpp:110-112 | every comma becomes a space and every other character is kept |
| Text.WordsFromSpec | optimized.cpp:113-116 | stream extraction yields non-empty words without blanks whose concatenation is the input without its blanks |
| Text.SplitString | optimized.cpp:109-118 | the loop returns the words of the line with commas read as spaces: non-empty, without separators, and together all non-blank characters in order |
| Text.FindDot | optimized.cpp:95 | `find('.')` returns the first dot, or none when there is no dot |
| Text.TooManyDecimalsMeaning | optimized.cpp:101-105 | the error message is printed exactly when the price has more than four digits after its first dot |
| Snapshot.AddVolume | first_version.cpp:403-416 | adding an order's volume at its price keeps the rows sorted best first, lists exactly the old prices plus this one and raises only that price's volume |
| Snapshot.AggregateSpec | first_version.cpp:403-416 | the aggregated rows give every price the total volume of the orders at that price and list exactly the prices of the orders |
| Snapshot.QuoteVolume | first_version.cpp:403-416 | each aggregated row holds the whole volume of its price: no price is listed twice |
| Snapshot.AggregateByPrice | basicversio.cpp:256-265 | the aggregation loop returns rows sorted best first, each row's volume is the total at its price, and every order's price has a row |
| Snapshot.PairRows | optimized.cpp:313-327 | the two-iterator loop pairs the i-th bid with the i-th ask, pads the shorter side with blanks and emits as many rows as the longer side |
| Snapshot.AppendInOrder | optimized.cpp:309 | walking the sorted symbol set and keeping some symbols yields the kept symbols in sorted order |
| OptimizedBook.WithPrices | optimized.cpp:179-183 | replacing one side's price set of one symbol changes nothing else |
| OptimizedBook.RemoveDistinct | optimized.cpp:126-143 | unlinking an order from a level's list keeps the ids distinct and shortens the list by one when the id was in it |
| OptimizedBook.SumRemove | optimized.cpp:127 | a level's total volume drops by exactly the removed order's volume |
| OptimizedBook.SumUpdate | optimized.cpp:285-286 | changing one order's volume changes its level's total by the difference |
| OptimizedBook.EmptyBookValid | optimized.cpp:85-92 | the empty tables satisfy every invariant: totals, sizes, lists, price sets and symbols agree, no order has zero volume and the book is not crossed |
| OptimizedBook.AddOrder | optimized.cpp:154-184 | addOrder stores the order under its id |
| OptimizedBook.AddOrderValid | optimized.cpp:154-184 | addOrder of a new id keeps the tables consistent: every order sits in its level's list, each level's size and total volume are its members' count and volume sum, every level's price is in its sorted price set, and the symbols stay sorted |
| OptimizedBook.AddOrderOwnLevel | optimized.cpp:165-176 | the order's level exists after addOrder and its size and total count the new order |
| OptimizedBook.RemoveOrder | optimized.cpp:120-152 | removeOrder drops exactly that id from the order table |
| OptimizedBook.RemoveOrderValid | optimized.cpp:120-152 | removeOrder keeps the tables consistent |
| OptimizedBook.RemoveOrderPrices | optimized.cpp:144-151 | the level and its price are erased exactly when the order was the level's last one, and no other price set changes |
| OptimizedBook.RemoveLastOfLevel | optimized.cpp:144-151 | removing the only order of a level erases the level and its price |
| OptimizedBook.RemoveOneOfLevel | optimized.cpp:127-143 | removing one of several orders keeps every level and every price |
| OptimizedBook.DecrementValid | optimized.cpp:212-222 | trading part of a resting order's volume keeps the tables consistent |
| OptimizedBook.Fill | optimized.cpp:212-232 | a fill keeps the book valid, and the passive order leaves the book exactly when its whole volume trades |
| OptimizedBook.BestOpposite | optimized.cpp:199-210 | there is no candidate exactly when the opposite price set is empty; otherwise the candidate is the oldest order of the best opposite level |
| OptimizedBook.Match | optimized.cpp:186-247 | matchOrder keeps the book valid |
| OptimizedBook.InsertOrder | optimized.cpp:250-265 | an INSERT keeps the book valid |
| OptimizedBook.AmendOrderAsWritten | optimized.cpp:267-295 | AMEND as written keeps the tables consistent |
| OptimizedBook.AmendOrder | optimized.cpp:267-295 | the corrected AMEND keeps the tables consistent |
| OptimizedBook.AmendInPlaceValid | optimized.cpp:284-288 | reducing volume in place keeps the tables consistent |
| OptimizedBook.PullOrder | optimized.cpp:297-305 | PULL keeps the book valid |
| OptimizedBook.QuotesFor | optimized.cpp:315-327 | each snapshot row shows a price of the set with its level's total volume |
| OptimizedBook.Step | optimized.cpp:331-343 | every command, with AMEND as written, keeps the book valid |
| OptimizedBook.StepFixed | optimized.cpp:331-343 | the corrected command keeps the book valid and differs from the written one only for AMEND |
| OptimizedBook.RunUpTo | optimized.cpp:331-343 | running any prefix of the commands keeps the book valid |
| OptimizedBook.RunFixedUpTo | optimized.cpp:331-343 | running any prefix of the corrected commands keeps the book valid |
| OptimizedLaws.FillOrders | optimized.cpp:212-232 | a partial fill lowers only the passive order's volume, and a complete fill removes it |
| OptimizedLaws.FillPrices | optimized.cpp:229-232 | a fill never adds a price |
| OptimizedLaws.AddOrderQueues | optimized.cpp:165-174 | addOrder appends the id at the newest end of its own level and changes no other level |
| OptimizedLaws.RemoveOrderQueues | optimized.cpp:126-143 | removeOrder unlinks the id from every level and changes nothing else in any list |
| OptimizedLaws.FillQueues | optimized.cpp:210-232 | filling a level's oldest order leaves every list as a suffix of itself |
| OptimizedLaws.MatchTrades | optimized.cpp:211-228 | every trade is in the order's symbol, names it as aggressor, and is at a resting price that crosses its limit |
| OptimizedLaws.MatchFills | optimized.cpp:212-242 | the traded volume never exceeds the order's volume, and any remainder rests under its id with the remaining volume |
| OptimizedLaws.MatchOnlyFillsResting | optimized.cpp:211-232 | matching changes no other order except to lower its volume, and adds no other order |
| OptimizedLaws.MatchPassives | optimized.cpp:203-232 | every trade names as passive an order that rested before the match |
| OptimizedLaws.MatchVolumeAccounts | optimized.cpp:211-232 | each resting order loses exactly the volume of the trades that name it as passive, and an order that leaves the book was traded in full |
| OptimizedLaws.MatchPositive | optimized.cpp:212-232 | with positive volumes in the book, matching leaves no zero-volume order, and a positive incoming order makes only positive trades |
| OptimizedLaws.MatchStopsWhenUncrossed | optimized.cpp:225-242 | when the order rests, the best opposite price no longer crosses it |
| OptimizedLaws.MatchConsumesOldestFirst | optimized.cpp:209-232 | every opposite level loses orders only from its oldest end (time priority) |
| OptimizedLaws.MatchNotCrossed | optimized.cpp:186-247 | matching keeps the book uncrossed: the best bid stays below the best ask for every symbol |
| OptimizedLaws.MatchFirstPrice | optimized.cpp:203-224 | the first trade is against the oldest order of the best opposite level, at its price, for the smaller of the two volumes |
| OptimizedLaws.MatchPricePriority | optimized.cpp:203-228 | the trades' prices go outward from the best opposite price (price priority) |
| OptimizedLaws.AmendReduceKeepsPriority | optimized.cpp:280-288 | as written, a reduction to a positive volume at the same price trades nothing, keeps every list unchanged and lowers the level total by the difference |
| OptimizedLaws.AmendRequeueLosesPriority | optimized.cpp:290-293 | as written, a price change or volume increase that does not cross moves the order to the newest end of its new level |
| OptimizedLaws.AmendToZeroAsWritten | optimized.cpp:284-288 | as written, amending an order to volume 0 at its price leaves a resting order with zero volume |
| OptimizedLaws.AmendKeepsPositive | optimized.cpp:284-293 | the corrected AMEND keeps every resting volume positive and removes an order amended to 0 |
| OptimizedLaws.AmendAgreesAboveZero | optimized.cpp:284-293 | the written and corrected AMEND agree for every positive volume |
| OptimizedLaws.PullRemoves | optimized.cpp:297-305 | PULL removes the id from the orders and from every level, and a second PULL changes nothing |
| OptimizedLaws.RemoveKeepsInvariants | optimized.cpp:120-152 | removeOrder keeps the book uncrossed, and keeps volumes positive when they were |
| OptimizedLaws.StepKeepsInvariants | optimized.cpp:331-343 | every command as written keeps the book uncrossed and every resting timestamp earlier than the next command, and keeps volumes positive unless it is an AMEND to volume 0; an inserted order rests with its command's timestamp |
| OptimizedLaws.RunKeepsInvariants | optimized.cpp:331-343 | a run of the written commands keeps the book uncrossed and the timestamps ordered, and keeps volumes positive when no command is an AMEND to volume 0 |
| OptimizedLaws.StepFixedKeepsInvariants | optimized.cpp:331-343 | every corrected command keeps volumes positive, the book uncrossed and the timestamps ordered |
| OptimizedLaws.RunFixedKeepsInvariants | optimized.cpp:331-343 | a run of corrected commands keeps volumes positive, the book uncrossed and the timestamps ordered |
| OptimizedLaws.MatchKeepsInvariants | optimized.cpp:186-247 | matching keeps the book uncrossed and the timestamps ordered, and keeps volumes positive when they were |
| OptimizedLaws.AmendKeepsInvariants | optimized.cpp:267-295 | AMEND as written keeps the book uncrossed and the timestamps ordered, and keeps volumes positive when the new volume is positive |
| OptimizedLaws.AmendFixedKeepsInvariants | optimized.cpp:267-295 | the corrected AMEND keeps volumes positive, the book uncrossed and the timestamps ordered |
| OptimizedEngine.Engine.constructor | optimized.cpp:85-92 | the global tables start empty, with no output |
| OptimizedEngine.Engine.RemoveOrder | optimized.cpp:120-152 | the method changes the tables exactly as removeOrder does and emits nothing |
| OptimizedEngine.Engine.AddOrder | optimized.cpp:154-184 | the method changes the tables exactly as addOrder does and emits nothing |
| OptimizedEngine.Engine.RecordPrice | optimized.cpp:179-183 | only the price set of the order's symbol and side changes, by inserting the price |
| OptimizedEngine.Engine.FillPassive | optimized.cpp:212-232 | the tables change exactly as in a fill of the passive order |
| OptimizedEngine.Engine.MatchOrder | optimized.cpp:186-247 | the loop leaves the tables as matchOrder does and appends exactly its trades to the output |
| OptimizedEngine.Engine.ProcessInsert | optimized.cpp:250-265 | an INSERT changes the tables and output as specified, and is accepted exactly when the id does not rest already |
| OptimizedEngine.Engine.ProcessAmend | optimized.cpp:267-295 | an AMEND changes the tables and output as processAmendQuery does as written, and reports whether the id was known |
| OptimizedEngine.Engine.ProcessPull | optimized.cpp:297-305 | a PULL removes the order as specified, emits nothing, and reports whether the id was known |
| OptimizedEngine.Engine.Dispatch | optimized.cpp:336-342 | each command is routed to its handler; any other command changes nothing |
| OptimizedEngine.Engine.SymbolBlock | optimized.cpp:310-327 | a block is printed for a symbol exactly when either of its price sets is not empty, and it shows that symbol's levels |
| OptimizedEngine.Engine.OutputPerSymbol | optimized.cpp:308-329 | every block is of a known symbol and shows its levels; every symbol with liquidity has a block; blocks follow the symbol order |
| OptimizedEngine.Engine.RunCommands | optimized.cpp:332-343 | the command loop reaches the state and output of running every command, keeps the book uncrossed, and keeps volumes positive when no command is an AMEND to volume 0 |
| OptimizedEngine.Engine.Run | optimized.cpp:331-346 | run returns all trades of the commands followed by a snapshot of the final book: a block for exactly the symbols with a price, in symbol order; the book stays uncrossed |
| FirstVersion.TreeOrders | first_version.cpp:90-100 | the buy tree's comparator orders by higher price then earlier time; the sell tree's pair order orders by lower price then earlier time |
| FirstVersion.CompareBuyTreeStrict | first_version.cpp:90-100 | CompareBuyTree is irreflexive and transitive, and two keys are equivalent only when equal: a strict weak order |
| FirstVersion.SetTree | first_version.cpp:102-111 | writing one tree of one symbol changes nothing else |
| FirstVersion.Rest | first_version.cpp:266-274 | storing the incoming order writes the order map and its key in its own tree, and nothing else |
| FirstVersion.WriteVolume | first_version.cpp:227 | writing a volume through the order map's `operator[]` changes a stored order's volume, or creates a blank entry for an id that is not there |
| FirstVersion.Traded | first_version.cpp:222-262 | a fill lowers the best opposite order's volume, or drops it when filled, and leaves the own tree alone; the passive's remaining volume is written into the incoming order's registry entry, and when the passive is used up the incoming id is erased instead of the passive's |
| FirstVersion.Filled | first_version.cpp:222-262 | the corrected fill changes the opposite tree the same way and no other symbol, and sets the passive order's own registry entry to its new volume, or erases it when the passive is used up |
| FirstVersion.SetVolumeAt | first_version.cpp:323-331 | rewriting one order's volume keeps the tree's order and every other order |
| FirstVersion.Match | first_version.cpp:176-287 | findMatch as written keeps the state valid and the symbols unchanged |
| FirstVersion.MatchFixed | first_version.cpp:176-287 | the corrected loop keeps the state valid and the symbols unchanged |
| FirstVersion.FindMatch | first_version.cpp:176-287 | the loop computes what findMatch specifies |
| FirstVersion.MatchTrades | first_version.cpp:222-241 | every trade is in the order's symbol, names it as aggressor, and is at a price that crosses its limit |
| FirstVersion.MatchFills | first_version.cpp:222-274 | the traded volume never exceeds the order's volume, and any remainder is stored under its id and in its tree |
| FirstVersion.MatchFirst | first_version.cpp:203-241 | the first trade is against the best opposite order, for the smaller of the two volumes |
| FirstVersion.MatchOutward | first_version.cpp:203-241 | the trades' prices go outward from the best opposite price |
| FirstVersion.MatchStops | first_version.cpp:243-252 | when volume remains, the best opposite order no longer crosses |
| FirstVersion.SameTrades | first_version.cpp:255-274 | the written and corrected loops make the same trades and leave the same opposite tree |
| FirstVersion.RestKeepsUncrossed | first_version.cpp:243-252 | storing an order that does not cross keeps the book uncrossed |
| FirstVersion.FilledKeepsUncrossed | first_version.cpp:222-241 | a corrected fill keeps the book uncrossed |
| FirstVersion.FixedNotCrossed | first_version.cpp:176-287 | the corrected matching keeps the book uncrossed |
| FirstVersion.FillMisfilesVolume | first_version.cpp:222-241 | as written, a bid of 5 and then an ask of 2 at 10 leave the bid resting with 3 but registered with 5, and the used-up ask registered as a default-constructed entry with volume 3, which PULL cannot use |
| FirstVersion.FillErasesIncomingId | first_version.cpp:255-262 | as written, a bid of 2 and then an ask of 2 at 10 empty both trees but leave the bid registered, and an AMEND of it is undefined |
| FirstVersion.RestRegistered | first_version.cpp:243-251 | storing an order under an id not registered and a key its tree does not hold keeps every registered id resting in its tree and every resting order registered as itself |
| FirstVersion.FilledRegistered | first_version.cpp:222-262 | a corrected fill keeps the registry in step with the trees and registers no new id |
| FirstVersion.MatchFixedRegistered | first_version.cpp:176-287 | for an incoming order whose id is not registered, the corrected loop keeps every registered id resting in its tree and every resting order registered as itself |
| FirstVersion.EraseRegistered | first_version.cpp:346-364 | erasing a registered order from its tree and from the registry keeps the two in step |
| FirstVersion.InPlaceRegistered | first_version.cpp:323-331 | an AMEND in place sets the volume in the tree and the registry alike, keeping them in step |
| FirstVersion.RequeueRegistered | first_version.cpp:333-342 | a re-queuing AMEND keeps the registry in step when every resting order is older than the command |
| FirstVersion.AmendFixedRegistered | first_version.cpp:304-343 | the corrected AMEND keeps the registry in step when every resting order is older than the command |
| FirstVersion.StepFixedRegistered | first_version.cpp:366-390 | every corrected command keeps the registry in step, when an INSERT names an id no live order has and every resting order is older than the command |
| FirstVersion.StaleCopyCrossesBook | first_version.cpp:266-279 | as written, the commands of the first finding leave a bid and an ask at the same price resting |
| FirstVersion.TwoBids | first_version.cpp:290-301 | the first two inserts of that input rest both bids |
| FirstVersion.SellSweepsBids | first_version.cpp:222-274 | the third insert trades with both bids and leaves the crossed book |
| FirstVersion.AmendOfAskUndefined | first_version.cpp:321 | as written, amending a resting ask is undefined |
| FirstVersion.AmendAgreesOnBids | first_version.cpp:304-343 | for a bid, the written and corrected AMEND agree |
| FirstVersion.AmendKeepsPriority | first_version.cpp:323-331 | a volume cut at the same price trades nothing and keeps the order's place in its tree |
| FirstVersion.AmendRequeues | first_version.cpp:333-342 | any other amend erases the order and re-matches it with the new price and volume and the command's timestamp |
| FirstVersion.AmendOrderRematches | first_version.cpp:333-342 | the re-match runs findMatch on the state after the erase |
| FirstVersion.PullRemoves | first_version.cpp:346-364 | PULL of an unknown id changes nothing; PULL of a stored order removes it from the map and its key from its tree; PULL of a blank entry is undefined |
| FirstVersion.RestStamped | first_version.cpp:266-274 | storing an order stamped before the next command keeps every stamp before it |
| FirstVersion.TradedStamped | first_version.cpp:222-241 | a fill keeps every stamp before the next command |
| FirstVersion.MatchStamped | first_version.cpp:176-287 | matching keeps every stamp before the next command |
| FirstVersion.StepStamped | first_version.cpp:366-390 | each defined command keeps every resting timestamp earlier than the next command's |
| FirstVersion.AmendStamped | first_version.cpp:304-343 | a defined AMEND keeps every resting timestamp earlier than the next command's |
| FirstVersion.ProcessAmend | first_version.cpp:304-343 | the procedure computes AMEND as written |
| FirstVersion.ProcessPull | first_version.cpp:346-364 | the procedure computes PULL as written |
| FirstVersion.Dispatch | first_version.cpp:378-389 | each command is routed to its handler |
| FirstVersion.RunCommands | first_version.cpp:366-391 | the command loop computes the run of every command, stopping at the first undefined one |
| FirstVersion.UndefinedStays | first_version.cpp:366-391 | once a command is undefined, the whole run is |
| FirstVersion.FindMatchFixed | first_version.cpp:176-287 | the corrected matching records the symbol and keeps the state valid |
| FirstVersion.AmendFixed | first_version.cpp:304-343 | the corrected AMEND keeps the state valid |
| FirstVersion.StepFixed | first_version.cpp:366-390 | every corrected command keeps the state valid |
| FirstVersion.WithinUncrossed | first_version.cpp:255-263 | a state whose prices all come from an uncrossed state's trees is uncrossed |
| FirstVersion.EraseWithin | first_version.cpp:333-336 | erasing an order introduces no price |
| FirstVersion.FindMatchFixedUncrossed | first_version.cpp:176-287 | the corrected matching keeps the book uncrossed |
| FirstVersion.AmendFixedUncrossed | first_version.cpp:304-343 | the corrected AMEND keeps the book uncrossed |
| FirstVersion.StepFixedUncrossed | first_version.cpp:366-390 | every corrected command keeps the book uncrossed |
| FirstVersion.SymbolBlock | first_version.cpp:399-437 | a block is printed for a symbol exactly when one of its trees is not empty, and it pairs the aggregated bid and ask rows |
| FirstVersion.Report | first_version.cpp:392-437 | every block is of a known symbol and shows its trees; every symbol with orders has a block; blocks follow the symbol order |
| FirstVersion.Run | first_version.cpp:366-440 | run is undefined exactly when a command is; otherwise it returns every trade followed by the snapshot, with a block for every symbol that has orders, in symbol order |
| BasicVersion.ComparatorIsPriceTime | basicversio.cpp:43-57 | customComparator orders a side's orders by price priority then time, is a strict weak order, and makes two orders equivalent exactly when price and timestamp agree |
| BasicVersion.Detach | basicversio.cpp:115-124 | detaching erases the whole set when it held one order, else erases the order's key, and changes no other set |
| BasicVersion.Store | basicversio.cpp:98-100 | storing writes the order map and inserts the key into its set, creating the set |
| BasicVersion.Taken | basicversio.cpp:113-124 | a round takes the front of the opposite set and detaches the incoming order from its own set |
| BasicVersion.AfterFill | basicversio.cpp:125-148 | after a fill the opposite set holds the rest of the passive order before the remaining orders, or just those when it is filled |
| BasicVersion.Loop | basicversio.cpp:109-156 | the loop keeps the state valid and the symbols unchanged when defined |
| BasicVersion.FindMatchSpec | basicversio.cpp:93-161 | findMatch keeps the state valid when defined |
| BasicVersion.LoopMore | basicversio.cpp:125-155 | when the passive order is filled first, the loop continues with the remainder |
| BasicVersion.FindMatch | basicversio.cpp:93-161 | the procedure computes what findMatch specifies |
| BasicVersion.Round | basicversio.cpp:109-156 | one round either ends the loop with its result or continues with less volume or a shorter opposite set |
| BasicVersion.LoopTrades | basicversio.cpp:125-136 | every trade is in the order's symbol, names it as aggressor, and is at a price that crosses its limit |
| BasicVersion.LoopFills | basicversio.cpp:125-155 | the traded volume never exceeds the order's volume, and any remainder rests in its set |
| BasicVersion.LoopFirst | basicversio.cpp:113-136 | the first trade is against the front of the opposite set, for the smaller volume |
| BasicVersion.LoopOutward | basicversio.cpp:113-136 | the trades' prices go outward from the best opposite price |
| BasicVersion.LoopStops | basicversio.cpp:137-143 | when volume remains, the front of the opposite set no longer crosses |
| BasicVersion.FindMatchTrades | basicversio.cpp:93-161 | the trades satisfy all of the above and the symbol is recorded |
| BasicVersion.AmendAsWritten | basicversio.cpp:176-214 | AMEND as written keeps the state valid when defined |
| BasicVersion.PullAsWritten | basicversio.cpp:216-226 | PULL as written keeps the state valid |
| BasicVersion.Step | basicversio.cpp:230-247 | each defined command keeps the state valid |
| BasicVersion.RunUpTo | basicversio.cpp:230-247 | a defined run keeps the state valid |
| BasicVersion.AmendRules | basicversio.cpp:176-214 | AMEND of an unknown id is undefined; no change of price or volume is a no-op; otherwise the order is detached and re-matched with the new price and volume, and a new timestamp unless the volume fell |
| BasicVersion.PullRemoves | basicversio.cpp:216-226 | PULL removes the order from the map and its key from its set, keeping the set even when it becomes empty |
| BasicVersion.ProcessAmend | basicversio.cpp:176-214 | the procedure computes AMEND as written |
| BasicVersion.ProcessPull | basicversio.cpp:216-226 | the procedure computes PULL as written |
| BasicVersion.Dispatch | basicversio.cpp:238-246 | each command is routed to its handler |
| BasicVersion.RunCommands | basicversio.cpp:230-247 | the command loop computes the run of every command, stopping at the first undefined one |
| BasicVersion.UndefinedStays | basicversio.cpp:230-247 | once a command is undefined, the whole run is |
| BasicVersion.SymbolBlock | basicversio.cpp:253-280 | a block is printed for a symbol exactly when one of its sets exists, and it pairs the aggregated rows |
| BasicVersion.Report | basicversio.cpp:248-281 | every block is of a known symbol and shows its sets; every symbol with a set has a block; blocks follow the symbol order |
| BasicVersion.Run | basicversio.cpp:230-284 | run is undefined exactly when a command is; otherwise it returns every trade followed by the snapshot, with a block for every symbol that has a set, in symbol order |
| BasicVersion.PullLeavesEmptySet | basicversio.cpp:216-226 | as written, the commands of that finding leave an empty set whose `begin()` the next insert dereferences |
| BasicVersion.AmendUnknownUndefined | basicversio.cpp:182-190 | as written, an AMEND of an unknown id is undefined; corrected, it is a no-op |
| BasicVersion.AmendOfFilledDropsOther | basicversio.cpp:196-201 | as written, amending an order that was already filled erases the other resting bid from its set |
| BasicVersion.PullFixedRemoves | basicversio.cpp:216-226 | the corrected PULL removes the order, erases a set that becomes empty and changes nothing else |
| BasicVersion.LoopDefined | basicversio.cpp:109-156 | with no empty set, the loop is defined and leaves no empty set |
| BasicVersion.FindMatchDefined | basicversio.cpp:93-161 | with no empty set, findMatch is defined and leaves no empty set |
| BasicVersion.FixedStepDefined | basicversio.cpp:230-247 | with no empty set, every corrected command is defined and leaves no empty set |
| BasicVersion.FixedRunDefined | basicversio.cpp:230-247 | every run of corrected commands from the empty book is defined |
| BasicVersion.AmendFixedKeepsOthers | basicversio.cpp:176-214 | the corrected AMEND ignores ids that no longer rest, agrees with the written one otherwise, and keeps every other order of the set |

## Left out

- Prices are integer ticks. `convertToFloat`'s `stof`, float rounding and `convertFloatToString` keys are not modelled. A level is keyed by (symbol, side, price), where the source uses a string of the three.
- Text.TooManyDecimalsMeaning: only the decimal check is modelled. The message is printed to the console and the price is still used, so the check changes nothing else.
- Reading the input, `stoi` parsing, `cout`, and rendering trades and snapshot rows as text are not modelled. Trades, `Block` and `Row` are values.
- Sides other than `BUY` and `SELL` are not modelled. `Market.Side` has exactly those two values.
- Command volumes are `nat`. A negative volume, which `stoi` would accept, is not modelled.
- 32-bit `int` overflow of volumes, ids and totals is not modelled. Integers are unbounded.
- OptimizedBook.InsertOrder: requires an id that does not rest already. The source relinks the same list nodes for a duplicate id and corrupts the list. OptimizedBook.Step therefore leaves the book unchanged for such an INSERT.
- OptimizedBook.AmendOrderAsWritten: an AMEND of an unknown id reads a default-constructed order with uninitialised fields. Step treats it as a no-op.
- OptimizedEngine.Engine.ProcessInsert: refuses an id that rests already and changes nothing, as OptimizedBook.Step does. The source relinks the same list nodes for such an INSERT.
- OptimizedBook.RemoveOrder: `removeOrder` erases the order from `orderLookUp` (optimized.cpp:122) and then reads the erased order's fields. When matchOrder removes a filled passive order (optimized.cpp:231), its argument points into that map, so these reads are of freed memory. The model uses the order's values from before the erase.
- OptimizedBook.AddOrder: `addOrder` copies the whole incoming order into `orderLookUp` (optimized.cpp:161), links included. An AMEND that re-queues matches a local copy of the removed order (optimized.cpp:290-293), whose `prevOrder`/`nextOrder` still point at its old neighbours; a new level then holds an order with those stale links. The model keeps each level's doubly linked list as a sequence of ids, oldest first, so stale links and aliasing between list nodes are not modelled.
- OptimizedEngine.Engine.RunCommands: promises positive resting volumes only when no command is an AMEND to volume 0. The written in-place branch rests such an order with volume 0 (first row of "## Findings"). OptimizedLaws.RunFixedKeepsInvariants proves positivity for the corrected run.
- OptimizedEngine.Engine.Run: promises positive resting volumes only when no command is an AMEND to volume 0, for the same reason.
- OptimizedLaws.StepKeepsInvariants: promises positive volumes only for a command that is not an AMEND to volume 0, for the same reason. OptimizedLaws.StepFixedKeepsInvariants promises them for every corrected command.
- OptimizedLaws.AmendKeepsInvariants: promises positive volumes only for a positive new volume, for the same reason. OptimizedLaws.AmendFixedKeepsInvariants promises them for the corrected AMEND.
- `Limit::side`, which is never set and never read, is not modelled.
- In first_version.cpp and basicversio.cpp, behaviour that C++ leaves undefined is an `Undefined` outcome. That covers reading a missing entry, dereferencing `begin()` of an empty container, and looking up an ask in the bid tree. The model does not say what the program then does.
- FirstVersion.StepFixed: a PULL of an entry that `operator[]` created as a blank is a no-op in the corrected model.
- FirstVersion.StepFixedRegistered: assumes what a well-formed input gives: an INSERT's id is not that of a live order, and every resting order is older than the command. The registry is proved in step command by command, not as an induction over a whole command list.
- FirstVersion.StepFixedUncrossed: uncrossedness of the corrected first version is proved command by command. It is not proved as an induction over a whole command list.
- The main functions, test.cpp and Untitled-2.cpp are not part of this model.

## Findings

| source | as written | input that shows it | evidently intended | confidence | as-written member | corrected member |
|---|---|---|---|---|---|---|
| optimized.cpp:284-288 | an AMEND to a lower volume at the same price writes the volume in place, even when the new volume is 0 | `INSERT,1,A,BUY,10,5` then `AMEND,1,10,0` | an order amended to zero volume leaves the book | not executed | OptimizedLaws.AmendToZeroAsWritten | OptimizedLaws.RunFixedKeepsInvariants |
| first_version.cpp:266-279 | after a partial fill, the remaining incoming order is stored in its tree. When a later round uses it up, the loop ends without removing that stored copy, so an order with no volume left rests at a crossing price. | `INSERT,1,A,BUY,10,2`, `INSERT,2,A,BUY,10,3`, `INSERT,3,A,SELL,10,4` | the remainder of the incoming order rests only when nothing crosses it, so the book stays uncrossed | not executed | FirstVersion.StaleCopyCrossesBook | FirstVersion.FixedNotCrossed |
| first_version.cpp:227-238 | after a fill (lines 227 and 238), the passive order's remaining volume is written into the registry entry of the INCOMING order; `operator[]` creates that entry when the incoming order was never stored | `INSERT,1,A,BUY,10,5` then `INSERT,2,A,SELL,10,2` | the passive order's own registry entry follows its tree copy | not executed | FirstVersion.FillMisfilesVolume | FirstVersion.MatchFixedRegistered |
| first_version.cpp:257 | when the passive order is used up, the id erased from the registry is the incoming order's, so the passive stays registered with nothing resting | `INSERT,1,A,BUY,10,2` then `INSERT,2,A,SELL,10,2` | the used-up passive order leaves the registry as well as its tree | not executed | FirstVersion.FillErasesIncomingId | FirstVersion.StepFixedRegistered |
| first_version.cpp:321 | AMEND looks up the order in the symbol's buy tree whatever its side | `INSERT,1,A,SELL,10,2` then `AMEND,1,10,1` | the order is looked up in its own side's tree | not executed | FirstVersion.AmendOfAskUndefined | FirstVersion.AmendKeepsPriority |
| basicversio.cpp:216-226 | PULL erases the order's key but keeps the set even when it becomes empty; the next insert on the other side dereferences `begin()` of that empty set (line 113) | `INSERT,1,A,BUY,10,1`, `PULL,1`, `INSERT,2,A,SELL,10,1` | an emptied set is erased, as `findMatch` does | not executed | BasicVersion.PullLeavesEmptySet | BasicVersion.FixedRunDefined |
| basicversio.cpp:182-190 | an AMEND of an unknown id prints a message and goes on with a default-constructed order | `AMEND,1,10,1` as the first command | an unknown id is ignored | not executed | BasicVersion.AmendUnknownUndefined | BasicVersion.FixedRunDefined |
| basicversio.cpp:196-201 | AMEND of an order that was already filled still finds it in the order map; the set's size is 1, so the whole set is erased with the other order in it | `INSERT,1,A,BUY,10,1`, `INSERT,2,A,SELL,10,1`, `INSERT,3,A,BUY,9,1`, `AMEND,1,11,1` | an order that no longer rests is not amended, and other orders are kept | not executed | BasicVersion.AmendOfFilledDropsOther | BasicVersion.AmendFixedKeepsOthers |
