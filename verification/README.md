# A verified model of the shop's back end

The shop sells products from a limited stock, takes payment through a gateway that may or may not
answer, signs users in with text messages, passwords and one-time codes, rewrites uploaded images,
and caches what it compresses. These files model that logic in Dafny and prove what it keeps.

| file | component |
|---|---|
| Transactions.dfy | the nested `transaction` wrapper over BEGIN, SAVEPOINT, RELEASE, ROLLBACK TO, COMMIT and ROLLBACK |
| Orders.dfy, Shop.dfy | orders and stock: the steps as values with their laws over whole runs, and the database operations as methods |
| Payments.dfy | gateway verdicts, the customer's callback and the reconciler, with every question split from its answer |
| EditDistance.dfy | the bounded edit distance of the catalogue search |
| ImageClean.dfy, ImageSize.dfy, ImageBytes.dfy | the JPEG, PNG and WebP metadata cleaners, and the independent dimension reader; and the formats by their bytes, against which both are checked |
| Base32.dfy, Mfa.dfy | key text and its 32-bit accumulators; time-based codes accepted once |
| TtlStore.dfy, LockedMutate.dfy, SharedLimit.dfy | the expiring key/value stores; their locked read-modify-write, and their capacity, in a cluster |
| LoginGuard.dfy, SignIn.dfy | account locking; sign-in with one or two factors in many browsers |
| OtpGuess.dfy, MfaTries.dfy | trying a text-message code, and a second factor, with several requests under way |
| Catalog.dfy, CompressionCache.dfy | the catalogue signature, and the caches of compressed responses |
| SmsSlots.dfy, Months.dfy | the daily message cap; month-by-month sales |
| Options.dfy | a value that may be missing |

A class whose methods update fields (`Connection`, `Shop`, `MapStore`, `LoginGuard`, `SecondFactor`,
`Auth`, `SmsCounter`, `StaticCompress`) is proved against functions on values; the lemmas about whole
runs and interleavings are about those functions.

Where the code does not do what its comments or its readers expect, the model follows the code and,
unless said otherwise, the exact condition is proved:

- Moving an order to `canceled` through the plain status form gives no stock back, although the
  comment at backend/lib/db.js:1729 says cancelling does. Stock is conserved over a run for a product
  exactly when no such move touches it (`ConservedIffNoLeak`), and what is lost otherwise is counted
  (`RunConserves`).
- The SQLite store's `mutate` never evicts. When operations follow one another, the live records stay
  within `maxKeys` over a run exactly when no `mutate` adds a live key to a full store
  (`SqliteStaysBoundedIff`); two operations suffice to break it (`TwoMutatesOverflow`).
- Its `set` counts, evicts and inserts in separate statements. With `c` workers and no such `mutate`
  the live records stay within maxKeys - 1 + c over every interleaving exactly when one eviction
  removes at least `c` (`LimitHoldsIff`); that many are reached for every c (`LimitAttained`), so
  `maxKeys` itself is kept exactly when there is one worker (`MaxKeysHoldsIff`). More workers than one
  eviction removes can pass it further (`LimitPassed`).
- Reading an expired record selects it and deletes it by key in separate statements, so the deletion can
  hit a record another worker has committed in between, and an increment is lost
  (`StrayDeleteLosesIncrement`). At every moment the record is what the committed changes make of it
  exactly when no such deletion finds a live record (`SerialIffNoStray`).
- A statement error on which SQLite rolls the whole transaction back leaves `transaction` all or nothing
  as long as no try/catch inside the transaction stands around that statement (`Run`). With one, later
  writes are made outside any transaction and stay although the call throws
  (`CaughtAbortKeepsLaterWrites`). This one condition is sufficient, not exact.
- A password attempt is a check, an asynchronous hash and a registration. With at most `c` attempts
  between check and registration an hour lets 19 + c through (`GuessesPerHour`), and this is attained
  for every c from one on (`LoginGuards.BoundAttained`): twenty an hour holds exactly when c is at most one
  (`TwentyAnHourIff`).
- Attempts at a text-message code are read, counted and compared by separate statements. With at most
  `c` under way, which is the number of workers, a code is compared at most 4 + c times and signs in at
  most `c` browsers (`ComparesPerCode`), and both are attained (`BothBoundsAttained`): five comparisons
  (`FivePerCodeIff`) and one sign-in (`OneSignInPerCodeIff`) hold exactly when c is at most one.
- Tries at a second factor are counted in the session, which each request loads whole and writes back.
  With at most `c` requests of one session under way, all trying a second factor or ending the session,
  fewer are checked than there are ways to place `c` requests on the counts 0 to 5 (`ChecksBound`), and
  one fewer is attained (`MfaTries.BoundAttained`); five hold exactly when c is at most one (`FiveChecksIff`). If
  another request writes the session meanwhile, as the cart does, there is no bound
  (`NoBoundWithCarry`).
- The image cleaners drop up to seven trailing bytes (or whatever follows a PNG's IEND) that are not
  metadata; they remove exactly the metadata if and only if nothing is left over
  (`RemovedExactlyMetadata`).
- A message that fails on a later day than it reserved its slot gives back a slot of that day. The
  counter equals the day's messages throughout a run exactly when this never happens while a slot is
  in use (`AlwaysBalancedIffNoSteal`); otherwise the cap is exceeded by at most the number of such
  failures on the day (`ExcessIsStolen`), and it can be exceeded (`MidnightExceedsCap`).
- A one-time code stays unusable after its record expires as long as the store's clock runs at most
  three and a half minutes after the clock the code is checked against (`AcceptedStepsIncrease`), and
  that margin is exact.

## Model

| member | source | states |
|---|---|---|
| Transactions.Connection.Transaction | backend/lib/db.js:115-155 | a wrapped call, whichever of its commands fail, is all or nothing, also when a statement error that escapes it makes SQLite roll back by itself; depth counter as before; the marks on the stack as before, except savepoints whose own release failed, which all belong to deeper levels |
| Transactions.Connection.Run | backend/lib/db.js:115-155 | any tree of writes, throws, branches, catches, nested transactions and statement errors that roll everything back, these caught only outside transactions, has exactly its atomic meaning, and leaves depth and savepoints as it found them |
| Transactions.Connection.Leave | backend/lib/db.js:130-152 | after the body: kept if it returned and closing succeeded, otherwise back to the data at entry, even if COMMIT or a statement already rolled back by itself |
| Transactions.CaughtAbortKeepsLaterWrites | backend/lib/db.js:115-155 | an abort caught inside a transaction: the call throws and the write made after it stays |
| Transactions.Connection.Undo | backend/lib/db.js:119-124 | an undo restores the data saved by the mark of its own level |
| Transactions.OwnSavepointIsLatest | backend/lib/db.js:118-127 | `sp_<level>` always resolves to the savepoint this very call set, whatever leftovers lie above it |
| Transactions.FlattenKeepsOutcome | backend/lib/db.js:115-155 | without catches, dropping the inner transactions changes neither the outcome nor, on success, the data |
| Transactions.NestingIsTransparent | backend/lib/db.js:2803-2808 | inside a transaction, calling another one (order creation calling the reservation) is as good as inlining it |
| Transactions.FlatteningNeedsTheOuterTransaction | backend/lib/db.js:115-155 | without the enclosing transaction that equality fails |
| EditDistance.Distance | backend/lib/db.js:833-862 | the exact least cost of an edit script when it is at most `max`, otherwise a number above `max` while every script costs more than `max` |
| EditDistance.FillRow | backend/lib/db.js:846-857 | one row of the table from the two before it, with the least value in it |
| EditDistance.CheapestScript | backend/lib/db.js:849-855 | some script of substitutions, insertions, deletions and transpositions reaches each cell's value |
| EditDistance.NoCheaperScript | backend/lib/db.js:849-855 | no script is cheaper than the cell |
| EditDistance.CornerIsLeastCost | backend/lib/db.js:861-861 | the corner of the table is the optimal-string-alignment distance, and nothing else is |
| EditDistance.LengthBound | backend/lib/db.js:838-838 | the length cut-off is sound: a length difference is a lower bound |
| EditDistance.NextRowAbove | backend/lib/db.js:852-858 | once a whole row exceeds `max` so does the next, although a transposition reads past the exceeding row |
| EditDistance.AllLaterRowsAbove | backend/lib/db.js:858-858 | the early exit is sound for all the remaining rows |
| EditDistance.ZeroIffEqual | backend/lib/db.js:834-834 | distance zero exactly for equal words |
| EditDistance.Symmetric | backend/lib/db.js:833-862 | the distance does not depend on which word is the query |
| Orders.StepConserves | backend/lib/db.js:1051-1082 | in every step, stock plus what live orders hold changes only by what a plain cancellation loses |
| Orders.OneOrderConserves | backend/lib/db.js:1742-1784 | the same for each operation on one order |
| Orders.RunConserves | backend/lib/db.js:2803-2895 | conservation over every run, with the exact account of what leaks |
| Orders.ConservedIffNoLeak | backend/lib/db.js:1732-1748 | a run conserves a product exactly when no accepted move to `canceled` by the status form touches an order for it |
| Orders.PlainCancelLosesStock | backend/lib/db.js:1732-1748 | a two-step run in which three units vanish |
| Orders.StepMoves | backend/lib/db.js:1732-1784 | every step moves an order along one permitted edge at most, never changes its lines, owner or key, and releases it exactly when it ends it |
| Orders.MovesExactlyWhen | backend/lib/db.js:1740-1784 | the complete list, for every status, of the steps that give it to an order and by whose hand, as an if-and-only-if over all steps, the sweep included |
| Orders.ColumnsChangeExactlyWhen | backend/lib/db.js:2767-2778 | who changes an order's authority, tries and expiry, and when; owner, lines, total and key never change |
| Orders.OnlyTheOwner | backend/lib/db.js:1771-1784 | a customer who names another's order changes nothing in the database, whether he cancels or asks for a return |
| Orders.UnpaidOrderExpires | backend/lib/db.js:2884-2895 | an order is stored as placed, and one that never reaches the gateway is failed by a sweep exactly when that comes more than thirty minutes later |
| Orders.ReleasedAtMostOnce | backend/lib/db.js:1751-1777 | over every run an order's releases plus its leaks number one if the run ends it, else none; nothing leaves an ended status |
| Orders.PendingOnlyOnce | backend/lib/db.js:2775-2778 | an order leaves `pending_payment` at most once |
| Orders.KeysStayUnique | backend/lib/db.js:347-347 | over every run no user has two orders under one idempotency key |
| Orders.RepeatedCreateChangesNothing | backend/lib/db.js:2803-2808 | a repeated create request, at any later time and after anything, leaves stock and orders unchanged |
| Orders.FailAllMoves | backend/lib/db.js:2891-2895 | a sweep fails exactly the listed pending orders and touches no other |
| Shops.Shop.CleanQtyItems | backend/lib/db.js:1029-1048 | accepts exactly non-empty lists of sound lines |
| Orders.WalkAccount | backend/lib/db.js:1054-1060 | part of the way through the lines, an unreported product has lost exactly its demand so far, and a reported one is asked for more than there was |
| Orders.ReportsExactly | backend/lib/db.js:1054-1066 | the shortages name exactly the products the lines together ask too much of, and there are none exactly when everything fits |
| Orders.ReportsAreReal | backend/lib/db.js:1057-1058 | a reported availability never exceeds the stock, and is zero for a missing product |
| Orders.FirstReportIsExact | backend/lib/db.js:1054-1060 | a product is first reported at the line with which the demand exceeds the stock, with exactly what the lines before it leave |
| Shops.Shop.ReserveStock | backend/lib/db.js:1051-1067 | succeeds exactly when each product covers the summed demand of all lines, duplicates included, and takes exactly that; otherwise nothing changes and the shortages name exactly the products asked too much of |
| Shops.Shop.ReleaseStock | backend/lib/db.js:1073-1082 | gives back exactly what the sound lines add up to, skips the others, never refuses |
| Shops.Shop.CreateOrderTx | backend/lib/db.js:2803-2808 | creates exactly when the lines are sound and fit, the total is positive and the key is free; stock and orders change together or not at all |
| Shops.Shop.CreateManualOrderTx | backend/lib/db.js:2815-2820 | the same for an order entered by hand, born paid |
| Shops.Shop.SetPaymentDetails | backend/lib/db.js:2769-2774 | stores the authority with that order, whose other columns and all other orders stay |
| Shops.Shop.MarkOrderPaid | backend/lib/db.js:2866-2868 | pays exactly a pending order, once |
| Shops.Shop.MarkOrderFailedTx | backend/lib/db.js:2871-2878 | fails exactly a pending order, giving its lines back |
| Shops.Shop.ExpireStaleOrders | backend/lib/db.js:2888-2895 | fails exactly the overdue pending orders without an authority, order by order |
| Shops.Shop.BumpReconcileTries | backend/lib/db.js:2908-2909 | counts a try and leaves everything else alone |
| Shops.Shop.AdminSetOrderStatus | backend/lib/db.js:1740-1748 | stores the new status exactly when the administrator's flow has the move and the order stands where it starts; stock untouched |
| Shops.Shop.AdminCancelOrderTx | backend/lib/db.js:1751-1760 | cancels exactly an order that is paid for and not ended, and returns its lines; otherwise nothing changes |
| Shops.Shop.AdminAcceptReturnTx | backend/lib/db.js:1763-1768 | accepts exactly a requested return and gives its lines back; otherwise nothing changes |
| Shops.Shop.UserCancelOrderTx | backend/lib/db.js:1771-1777 | cancels exactly a paid order of this very user and returns its lines; otherwise nothing changes |
| Shops.Shop.UserRequestReturn | backend/lib/db.js:1780-1784 | asks for a return exactly of a delivered order of this very user; stock untouched |
| Shops.Shop.Await | backend/lib/reconcile.js:77-77 | whatever other handlers do to orders and stock between a question and its answer |
| Shops.Shop.SettleRow | backend/lib/reconcile.js:72-111 | one reconciler row: the try is counted, others act while the answer is awaited, and the verdict is acted on and counted only if the order is still pending then |
| Shops.Shop.ReconcileStaleOrders | backend/lib/reconcile.js:66-117 | a run over the first twenty overdue orders, with any activity during each of its waits, and the tally of its outcomes |
| Shops.TallyIsTrue | backend/lib/reconcile.js:70-116 | over a run and whatever others do meanwhile, `checked` counts the rows, `paid` and `failed` exactly the orders the run itself moved from pending to that status, and `unknown` the questions a live gateway left unanswered |
| Payments.EventsRunActions | backend/lib/reconcile.js:66-117 | every interleaving of questions, answers, callbacks and shop steps is a run of order steps, so all laws of those runs hold of it |
| Payments.PaidMeansConfirmed | backend/lib/payment.js:78-114 | in live mode no order is ever paid or beyond unless entered by hand or confirmed with code 100 or 101, in every interleaving; that a confirmation does pay is `PaysExactlyWhen` and `EndsAsAnswered` |
| Payments.FailsExactlyWhen | backend/routes/orders.js:107-176 | the complete list of reasons a pending order can fail, as an if-and-only-if over all events; the checkout fails only an order without an authority |
| Payments.PaysExactlyWhen | backend/routes/orders.js:160-163 | a pending order is paid by an event exactly when that is an answer about it with code 100 or 101 in live mode, whoever asked, or in test mode a customer's return from a test payment |
| Payments.ConfirmedCallbackPays | backend/routes/orders.js:149-163 | a customer comes back with the order's authority, anything happens, the gateway confirms: the order, if still waiting, is paid |
| Payments.AsksStayMatched | backend/lib/reconcile.js:67-77 | over every run a question carries its own order's authority and, while the order is pending, its expiry |
| Payments.EndsAsAnswered | backend/lib/reconcile.js:72-110 | over every run in live mode, and from any moment at which an order is pending with an authority of the gateway's: it ends failed exactly when, while it waited, there came a refused callback, a refusing answer, or the reconciler's unanswered question more than 24 hours overdue; and it ends bought exactly when a confirming answer came while it waited |
| Payments.OverdueHasOneKeeper | backend/lib/db.js:2884-2906 | an overdue pending order is failed by the sweep exactly if it never reached the gateway, and queued for the reconciler exactly if it did |
| Payments.AsksFirstTwenty | backend/lib/db.js:2899-2906 | a reconciler run asks about exactly the first twenty of its queue, each with its own authority and expiry |
| Payments.RowFollowsAnswer | backend/lib/reconcile.js:77-110 | a row whose order still waits is paid, failed or left as the answer says, with the 24-hour limit; its try is counted |
| Payments.RunSettles | backend/lib/reconcile.js:72-111 | whatever the answers and whatever others do meanwhile, the overdue orders a run asks about stop being pending; with nothing else going on, no other order changes |
| Payments.RunShortensQueue | backend/lib/db.js:2899-2906 | with nothing new arriving, one run takes exactly the first twenty off a queue of long-overdue orders |
| Payments.RunsEmptyQueue | backend/lib/reconcile.js:64-110 | with nothing new arriving, after k runs exactly the first 20k are gone, so n queued orders need ceil(n/20) runs, whatever the gateway answers |
| ImageClean.ParseIsLossless | backend/lib/image-clean.js:80-154 | the parts cut from a file, then the leftover, are its bytes |
| ImageClean.ParsePrintKept | backend/lib/image-clean.js:80-154 | parsing what was printed of the kept parts gives the kept parts |
| ImageClean.Idempotent | backend/lib/image-clean.js:80-154 | cleaning twice is cleaning once, for every buffer and format |
| ImageClean.OnlyMetadataGoes | backend/lib/image-clean.js:80-154 | a changed file is its header (the same for JPEG and PNG, with the new size for WebP) and its non-metadata parts, byte for byte in order; no metadata part remains |
| ImageClean.RemovedExactlyMetadata | backend/lib/image-clean.js:80-154 | nothing but metadata is removed exactly when no bytes follow the last part |
| ImageClean.EndMarkerCanBeLost | backend/lib/image-clean.js:85-97 | a ten-byte JPEG whose end marker is dropped |
| ImageClean.KeepsOrientation | backend/lib/image-clean.js:81-81 | cleaning never changes the orientation the reader finds; what it finds is `ImageBytes.FirstBlockIsRead`, `ReadsWhatItSays` and `RotatedIsUntouched` |
| ImageClean.RiffSizeIsRight | backend/lib/image-clean.js:149-153 | the size field of a rewritten WebP counts everything after itself |
| ImageClean.ReadOrientation | backend/lib/image-clean.js:49-78 | finds the first EXIF block before the image data and reads its orientation, without leaving the buffer |
| ImageClean.ReadExif | backend/lib/image-clean.js:60-73 | the loop finds `ExifOrientation`, which is what the bytes say by `ImageBytes.ReadsWhatItSays` |
| ImageBytes.ReadsWhatItSays | backend/lib/image-clean.js:60-73 | for every block: after the letters II numbers are read low byte first, otherwise high byte first; the answer is the value of the first directory entry with tag 0x0112, 1 for value 0 and if there is no such entry |
| ImageBytes.WrittenIsRead | backend/lib/image-clean.js:60-73 | a block written with one orientation entry, in either byte order, reads as that orientation |
| ImageBytes.FirstBlockIsRead | backend/lib/image-clean.js:52-75 | the orientation of a JPEG is that of the first EXIF block, whatever other segments stand before it and whatever follows |
| ImageBytes.RotatedIsUntouched | backend/lib/image-clean.js:78-81 | a JPEG whose EXIF asks for any orientation but upright, in either byte order, is returned byte for byte |
| ImageBytes.ParsedIsCut | backend/lib/image-clean.js:78-154 | whatever the loops cut consists of well-formed parts, told by their bytes: lengths, names, which are metadata, where image data or the end chunk stops the cutting |
| ImageBytes.CutIsParsed | backend/lib/image-clean.js:78-154 | and everything put together from such parts is cut exactly so |
| ImageBytes.KeptJoin | backend/lib/image-clean.js:91-92 | the parts are kept one by one, in order |
| ImageBytes.CleansWhatIsWritten | backend/lib/image-clean.js:78-154 | the cleaned file of every header with well-formed parts, byte for byte |
| ImageBytes.UncutIsUntouched | backend/lib/image-clean.js:78-154 | a file that is not put together so is left alone |
| ImageClean.CleanJpeg | backend/lib/image-clean.js:80-101 | the loop is print after filter after parse, with all bounds kept |
| ImageClean.CleanPng | backend/lib/image-clean.js:112-126 | the same for PNG, stopping after IEND |
| ImageClean.CleanWebp | backend/lib/image-clean.js:134-154 | the same for WebP, with its size field rewritten |
| ImageClean.StripImageMetadata | backend/lib/image-clean.js:163-178 | the cleaned buffer, never longer than the original, and the number of bytes that went |
| ImageSize.ReadJpegSize | backend/lib/imagesize.js:25-43 | the marker scan, without leaving the buffer |
| ImageSize.ScanFindsFrame | backend/lib/imagesize.js:25-43 | the reader finds the first frame header among the parts the cleaner cuts |
| ImageSize.JpegSizeKept | backend/lib/imagesize.js:25-43 | cleaning keeps a JPEG's dimensions, for headers of ordinary segments with a whole frame header |
| ImageSize.PngSizeKept | backend/lib/imagesize.js:47-52 | cleaning keeps a PNG's dimensions |
| ImageSize.WebpSizeKept | backend/lib/imagesize.js:65-92 | cleaning keeps a WebP's dimensions, for all three kinds |
| ImageBytes.FrameIsRead | backend/lib/imagesize.js:25-43 | a JPEG's dimensions are those written in its first frame header, height before width, after any other segments |
| ImageBytes.StandaloneIsPassed | backend/lib/imagesize.js:28-33 | a marker that stands alone is passed over |
| ImageBytes.FillIsPassed | backend/lib/imagesize.js:29-32 | and so are stray and fill bytes before a marker |
| ImageBytes.PngSizeIsWritten | backend/lib/imagesize.js:47-52 | a PNG's dimensions are the two numbers its header chunk starts with, width first |
| ImageBytes.LossySizeIsRead | backend/lib/imagesize.js:68-74 | a lossy WebP written with a width and a height below 2^14, and any scales, reads as that size |
| ImageBytes.LosslessSizeIsRead | backend/lib/imagesize.js:75-82 | a lossless one packed as both less one in fourteen bits each, with any flags, reads as that size |
| ImageBytes.ExtendedSizeIsRead | backend/lib/imagesize.js:83-88 | an extended one with both less one in three bytes each reads as that size |
| Base32.ShiftLow | backend/lib/totp.js:62-84 | only the low bits of the unmasked accumulator matter, whatever the 32-bit shifts push out |
| Base32.EncodeSymbols | backend/lib/totp.js:72-86 | the symbols spell the number the bytes spell, filled with zero bits to a whole symbol |
| Base32.DecodeSymbols | backend/lib/totp.js:56-69 | the bytes are the symbols' bits in groups of eight, the rest discarded |
| Base32.RoundTrip | backend/lib/totp.js:50-86 | decoding any encoding of the bytes gives the bytes back |
| Base32.CanonicalText | backend/lib/totp.js:50-86 | a text survives decoding and encoding exactly when fewer than five bits are discarded and all are zero |
| Base32.Base32Decode | backend/lib/totp.js:50-70 | accepts exactly non-empty texts over the alphabet after normalising; names an offending character otherwise |
| Base32.Base32Encode | backend/lib/totp.js:72-86 | writes alphabet text that normalising leaves alone |
| Base32.BlanksIgnored | backend/lib/totp.js:50-55 | blanks, dashes and underscores anywhere in a key make no difference |
| Base32.CaseIgnored | backend/lib/totp.js:50-55 | nor do small letters |
| Base32.PaddingIgnored | backend/lib/totp.js:50-55 | nor padding at the end |
| Base32.EncodeThenDecode | backend/lib/totp.js:50-86 | the round trip on text, for every non-empty key |
| TtlStores.MapStore.SweepExpired | backend/lib/shared-state.js:51-54 | removes exactly the expired records, keeping insertion order |
| TtlStores.MapStore.EvictIfFull | backend/lib/shared-state.js:59-65 | a full store loses its expired records, and if still full the oldest tenth |
| TtlStores.MapStore.Get | backend/lib/shared-state.js:69-74 | the live value, deleting an expired record on sight |
| TtlStores.MapStore.Set | backend/lib/shared-state.js:75-78 | evicts if full, then stores |
| TtlStores.MapStore.Mutate | backend/lib/shared-state.js:81-90 | reads, changes and stores or deletes as one step |
| TtlStores.MapStore.SizeNow | backend/lib/shared-state.js:91-91 | counts the live records, dropping the expired ones |
| TtlStores.StoresAgree | backend/lib/shared-state.js:48-189 | with no capacity, under every sequence of operations over time both stores give the replies of one ideal expiring map and hold the same live records |
| TtlStores.MapStoreBounded | backend/lib/shared-state.js:59-90 | the Map store never holds more than `maxKeys` records |
| TtlStores.EvictsOldestTenth | backend/lib/shared-state.js:59-65 | an eviction does nothing while there is room; else the expired records go, and if that is not enough exactly the first ceil(maxKeys/10) of the live ones in insertion order |
| TtlStores.SetKeepsPlace | backend/lib/shared-state.js:75-78 | a record stored again keeps its place in that order |
| TtlStores.SqliteEvictsOldestTenth | backend/lib/shared-state.js:136-142 | of the SQLite store's live records the same number go, none of which would have outlived one that stays |
| TtlStores.LookedUpIsGone | backend/lib/shared-state.js:144-149 | an expired record is deleted by whoever looks it up, in either store |
| TtlStores.SqliteBoundedExactlyWhen | backend/lib/shared-state.js:136-184 | one operation of the SQLite store, while no other worker writes, keeps its live records within `maxKeys` exactly unless it is a `mutate` adding a live key to a full store |
| TtlStores.SqliteStaysBoundedIff | backend/lib/shared-state.js:136-184 | over every run of operations one after the other the live records stay within `maxKeys` throughout exactly when no operation of the run is such a `mutate` |
| TtlStores.TwoMutatesOverflow | backend/lib/shared-state.js:162-184 | two operations after which a store with room for one holds two |
| SharedLimits.StepAccounted | backend/lib/shared-state.js:136-157 | any worker's next statement keeps the account of records in excess and of what the sets under way may still add |
| SharedLimits.LimitWithWorkers | backend/lib/shared-state.js:136-184 | with c workers whose statements interleave, no overflowing `mutate`, and c at most what one eviction removes, the live records never exceed maxKeys - 1 + c |
| SharedLimits.LimitAttained | backend/lib/shared-state.js:136-157 | for every c from one on, sets that all count before any inserts leave maxKeys - 1 + c |
| SharedLimits.LimitPassed | backend/lib/shared-state.js:136-157 | with more workers than one eviction removes, a run ends beyond that by their difference |
| SharedLimits.LimitHoldsIff | backend/lib/shared-state.js:136-184 | all runs of c workers keep to maxKeys - 1 + c exactly when one eviction removes at least c |
| SharedLimits.MaxKeysHoldsIff | backend/routes/auth.js:129-140 | all runs of c workers keep to `maxKeys` itself exactly when c is one |
| LockedMutate.SerialIffNoStray | backend/lib/shared-state.js:144-184 | over every interleaving of transactions, single-statement writes, expiry and reads that select and delete separately, the record is at every moment what the committed changes make of it in commit order, exactly when no reader's deletion finds a live record |
| LockedMutate.Serializable | backend/lib/shared-state.js:151-184 | without such reads every interleaving equals what was committed, one after another in commit order |
| LockedMutate.NoLostIncrement | backend/lib/shared-state.js:144-184 | in every interleaving of workers that increment a counter, with such reads and expiry, and no deletion that finds a live record, it counts the increments since it last expired |
| LockedMutate.AloneItCommits | backend/lib/shared-state.js:162-184 | a worker that finds the lock free puts its change of the live value in the record, deletion included, and frees the lock |
| LockedMutate.StrayDeleteLosesIncrement | backend/lib/shared-state.js:144-149 | seven events in which a reader's deletion removes an increment committed since its selection |
| LoginGuards.LoginGuard.LockState | backend/lib/login-guard.js:57-63 | locked exactly until the recorded time, and the seconds left |
| LoginGuards.LoginGuard.RegisterFail | backend/lib/login-guard.js:70-91 | the account's record after one more failure, no other account touched |
| LoginGuards.LoginGuard.RegisterSuccess | backend/lib/login-guard.js:95-95 | forgets this account's failures only |
| LoginGuards.RowIsLookup | backend/lib/login-guard.js:57-58 | one account's row, read by itself, is what the guard reads from the shared store |
| LoginGuards.StreakCounts | backend/lib/login-guard.js:34-91 | from a fresh account, n failures each less than an hour after the last count n modulo five, and every fifth has started a lock of 1, 5, 15 and then 60 minutes |
| LoginGuards.LockedExactlyWhen | backend/lib/login-guard.js:57-63 | after such a streak the account is locked exactly until the lock of its last full five ends |
| LoginGuards.ForgetsAfterAnHour | backend/lib/login-guard.js:76-79 | more than an hour after the last event of any run the account is not locked and the next failure counts as the first |
| LoginGuards.SuccessClears | backend/lib/login-guard.js:95-95 | a success clears the account at once |
| LoginGuards.RowsStaySound | backend/lib/login-guard.js:54-54 | over every run a record outlives both its lock and the hour after the last failure |
| LoginGuards.GuessesPerHour | backend/routes/auth.js:510-545 | with at most c attempts in flight, any hour without a success lets at most 19 + c attempts pass the guard |
| LoginGuards.GuessesOverHours | backend/lib/login-guard.js:57-91 | and h hours at most h times that |
| LoginGuards.SimultaneousGuessesAllPass | backend/routes/auth.js:510-522 | without a bound on attempts in flight there is none on guesses |
| LoginGuards.BoundAttained | backend/routes/auth.js:510-545 | for every c from one on, a run with at most c attempts in flight lets 19 + c through within an hour |
| LoginGuards.TwentyAnHourIff | backend/lib/login-guard.js:34-91 | all runs with at most c attempts in flight keep to twenty an hour exactly when c is at most one |
| Mfa.FindStep | backend/lib/totp.js:147-157 | the largest step of the window whose code matches, if any |
| Mfa.SecondFactor.VerifyCode | backend/lib/mfa.js:346-363 | accepts exactly a matching step beyond the remembered one, and remembers it |
| Mfa.AcceptedStepsIncrease | backend/lib/mfa.js:331-363 | accepted steps strictly increase over the whole run, through every expiry of the record |
| Mfa.WindowHasMovedOn | backend/lib/mfa.js:331-331 | when the record has expired, the window is past the step it remembered |
| Mfa.LongerLagAllowsReplay | backend/lib/mfa.js:331-363 | the clock margin of that theorem is exact to the millisecond |
| SignIns.Auth.RequestCode | backend/lib/db.js:2913-2920 | a new code replaces the old one and its attempts |
| SignIns.Auth.EstablishSession | backend/routes/auth.js:458-492 | a right first factor signs in exactly a user without a second-factor key, and for one with a key opens a pending sign-in with no tries; the other browsers' sessions stay |
| SignIns.Auth.VerifyOtp | backend/routes/auth.js:232-288 | each reply exactly when it is due; signs in, with the session saying so, exactly on the stored code, alive and with attempts left |
| SignIns.Auth.PasswordLogin | backend/routes/auth.js:545-546 | the same step after a right password |
| SignIns.Auth.Consume | backend/routes/auth.js:310-323 | accepts a configured unused recovery code, or a step beyond the remembered one, and uses it up |
| SignIns.Auth.VerifySecond | backend/routes/auth.js:342-418 | checks a code exactly when one is pending, not too old and attempts are left; signs in as the pending user |
| SignIns.Auth.LogOut | backend/routes/auth.js:707-711 | ends that browser's session only |
| SignIns.KeptSession | backend/routes/auth.js:232-492 | what each event does to a browser's session: only a right first factor, a second factor tried while one is pending, or a logout in that browser changes it |
| SignIns.RowIsHistory | backend/lib/db.js:2913-2922 | the stored code, its expiry and its attempts, told from what was sent and typed alone |
| SignIns.CodeAcceptedExactlyWhen | backend/routes/auth.js:241-288 | over every run a typed code is accepted exactly when it is the last one sent, at most two minutes ago, with fewer than five typed since, all wrong and in time |
| SignIns.RightCodeSignsIn | backend/routes/auth.js:241-288 | and then that browser's session is signed in as the phone, or with a key waits for the second factor |
| SignIns.StillWaiting | backend/routes/auth.js:342-404 | after the first factor and up to five wrong second factors in time, the sign-in still waits, with those counted, whatever other browsers do |
| SignIns.RightSecondSignsIn | backend/routes/auth.js:371-418 | and with at most four, a good second factor within five minutes signs in as the user of the first |
| SignIns.PaperGoodExactlyWhen | backend/lib/db.js:1124-1128 | a recovery code is good exactly when it is one of the user's and was never accepted before |
| SignIns.AppGoodExactlyWhen | backend/lib/mfa.js:346-363 | an app code in its window is good exactly when its step is beyond all accepted from the user |
| SignIns.SignedInIsEarned | backend/routes/auth.js:342-492 | over every run, whoever a session is signed in as gave a first factor in that browser and, with a key, a second one within five minutes of it |
| SignIns.AtMostFiveChecks | backend/routes/auth.js:371-393 | each request being one step, at most five second factors are checked after one first factor |
| MfaTries.EndMovesOn | backend/routes/auth.js:371-393 | in the cluster, a second factor or the end of the session moves no worker to a lower count, and one to a higher count if it checks |
| MfaTries.ChecksBound | backend/lib/session-store.js:24-38 | with at most c requests of the session under way, all of them such, fewer second factors are checked than c like requests can be placed on six counts |
| MfaTries.BoundAttained | backend/lib/session-store.js:24-38 | for every c a run checks one fewer than that number |
| MfaTries.TwentyForTwo | backend/routes/auth.js:85-85 | that number is six for one request under way and twenty-one for two |
| MfaTries.FiveChecksIff | backend/routes/auth.js:371-393 | all runs with at most c requests of the session under way, whatever they do, check at most five exactly when c is at most one |
| MfaTries.NoBoundWithCarry | backend/routes/cart.js:133-133 | two requests at once, of which one writes the session for another reason, let any number of second factors be checked |
| MfaTries.OverForGood | backend/routes/auth.js:342-348 | once no request and no session holds a pending sign-in, no second factor is ever checked again |
| MfaTries.RightAnswerSignsIn | backend/routes/auth.js:415-418 | a right second factor with tries left leaves a signed-in session |
| SignIns.OtpIsBounded | backend/routes/auth.js:241-288 | each request being one step, a text-message code is compared at most five times in all browsers together and signs in at most one |
| OtpGuesses.StepAccounted | backend/routes/auth.js:241-284 | any worker's next statement keeps the account of each code: its comparisons made and to come, and its sign-ins |
| OtpGuesses.ReadInTime | backend/routes/auth.js:241-262 | a code is read for comparison exactly when its row is there, within two minutes of being sent, with fewer than five tries counted |
| OtpGuesses.SpentIsGone | backend/routes/auth.js:263-284 | a right comparison, or an attempt that finds five counted, removes the code |
| OtpGuesses.NoneUntilNextSent | backend/routes/auth.js:241-248 | and then none is read for comparison until the next is sent |
| OtpGuesses.ComparesPerCode | backend/routes/auth.js:241-284 | with the read, the count and the comparison of each attempt interleaved, and at most c attempts under way, a code is compared at most 4 + c times and signs in at most c browsers |
| OtpGuesses.BothBoundsAttained | backend/routes/auth.js:241-284 | for every c from one on, some such run compares a code 4 + c times, and some signs in c browsers with one code |
| OtpGuesses.FivePerCodeIff | backend/routes/auth.js:241-284 | all such runs compare each code at most five times exactly when c is at most one |
| OtpGuesses.OneSignInPerCodeIff | backend/routes/auth.js:241-288 | in all such runs each code signs in at most one browser exactly when c is at most one |
| SignIns.PaperGoodOnce | backend/lib/db.js:1124-1128 | a recovery code is accepted at most once, for ever, in whichever browser |
| SignIns.OneRowPerUser | backend/lib/mfa.js:353-361 | the shared record of a user is what his own attempts across all browsers make it |
| SignIns.AppCodesGoodOnce | backend/lib/mfa.js:346-363 | the steps accepted from a user across all browsers strictly increase |
| Catalog.LastDigits | backend/lib/db.js:787-792 | the revision can be read off the end of a signature, so signatures differ when revisions do |
| Catalog.FiresIffTouches | backend/lib/db.js:305-325 | the triggers fire exactly for such a statement, told by what is visible before and after |
| Catalog.DraftEditKeepsSignature | backend/lib/db.js:299-304 | editing a draft that stays one is stored and keeps the signature |
| Catalog.RevisionTells | backend/lib/db.js:305-325 | the revision advances over a run exactly when some statement inserts, updates or deletes a row that a customer sees before or after it |
| Catalog.SignatureUnchangedIff | backend/lib/db.js:779-792 | two moments of a run have one signature exactly when no statement between wrote a row visible before or after it and the reviews' revision is the same |
| Catalog.SameSignatureSameProducts | backend/lib/db.js:779-792 | equal signatures mean the same published products |
| CompressionCaches.TrimKeepsLongestFit | backend/lib/static-compress.js:336-340 | eviction keeps the longest newest part of the list within 4 MiB, or the newest entry alone |
| CompressionCaches.StaticCompress.EvictJson | backend/lib/static-compress.js:336-340 | the loop ends with that part, the byte counter still the sum of the stored lengths |
| CompressionCaches.StaticCompress.CachedCompress | backend/lib/static-compress.js:327-342 | the reply is the compression of this text, unless it is reused from another text with the same hash; counter, budget and key uniqueness are kept |
| CompressionCaches.StaticCompress.SendHtml | backend/lib/static-compress.js:217-240 | the same for pages, with at most 24 stored, the oldest leaving first |
| CompressionCaches.StaticCompress.ServeFile | backend/lib/static-compress.js:131-144 | the reply is the compression of the bytes read now, unless the stored copy came from different bytes with the same hash |
| SmsSlots.SmsCounter.ReserveSmsSlot | backend/lib/db.js:2386-2403 | takes a slot exactly when the day has one, and says which |
| SmsSlots.SmsCounter.ReleaseSmsSlot | backend/lib/db.js:2395-2406 | gives one back only on the counter's day and never below zero |
| SmsSlots.SmsCounter.SendOtpSms | backend/lib/sms.js:111-132 | within a day a failed message costs nothing and a sent one costs one slot |
| SmsSlots.SlotsAccounted | backend/lib/db.js:2386-2406 | over every interleaving the counter is within the cap, and today's messages, in flight and sent, are no fewer than it and exceed it by at most the failures that gave a slot of today back for another day |
| SmsSlots.ExcessIsStolen | backend/lib/db.js:2386-2406 | so the cap is exceeded by at most those failures |
| SmsSlots.AlwaysBalancedIffNoSteal | backend/lib/sms.js:111-132 | the counter equals in-flight plus sent messages at every moment of a run exactly when no failure of the run comes on another day than its reservation while a slot of that day is in use |
| SmsSlots.SameDayFailuresKeepCap | backend/lib/sms.js:111-132 | when every failure comes on the day of its reservation, the counter is exact and the cap holds |
| SmsSlots.RefusedExactlyAtCap | backend/lib/db.js:2386-2403 | and as long as no failure steals a slot, a message is refused exactly when the day's messages, sent and in flight, number the cap |
| SmsSlots.MidnightExceedsCap | backend/lib/sms.js:127-128 | four events with which a cap of one sends two |
| Months.MonthStarts | backend/lib/jalali.js:73-86 | over any calendar that counts its days, the first days of consecutive months, newest first, none left out up to today |
| Months.BucketIsMonth | backend/lib/db.js:1903-1916 | two days share a CASE bucket exactly when no month starts between them |
| Months.MonthlySales | backend/lib/db.js:1918-1946 | one row per month, oldest first, each its month's sales; the totals are everything sold since the oldest start |

## Left out

- Products other than their stock (deletion, administrators' stock edits, prices), addresses, notes, tracking codes, delivery dates, coupons and shipping quotes.
- The arithmetic of `quoteCoupon`, the tolerance table of the fuzzy search, Persian text folding, phone normalisation: single branches, or tables of characters.
- Transactions.Connection.Run: a statement error that rolls everything back is covered unless a try/catch inside a transaction stands around it. `CaughtAbortKeepsLaterWrites` shows why; the condition is sufficient, since a handler that throws again does no harm.
- Transactions.Connection.Transaction: the same condition.
- A ROLLBACK or ROLLBACK TO that fails although its transaction or savepoint is there.
- An order's id is its position in the table, its owner exists, and its stored lines are the lines given; `Number(String(x).trim())` is represented by its outcome (a whole number or not).
- `expireStaleOrders` catches an exception per order; in the model marking one order failed never throws.
- The gateway, message provider, clocks, HMAC (with the HOTP code it gives), SHA, scrypt, zlib, ICU and SQLite's statements enter as parameters, or as the behaviour of the statement used.
- Compression that throws, response headers, hit counters, and replies too small to compress.
- GIF dimensions and the dispatch on file type of the size reader.
- ImageSize.JpegSizeKept: not stated for a first frame header preceded by stand-alone markers or fill bytes; how the reader passes those is `ImageBytes.StandaloneIsPassed` and `ImageBytes.FillIsPassed`.
- ImageBytes.FirstBlockIsRead: the segments before the EXIF block of its kind are long enough to tell; in a shorter one the source reads on into the next segment, and so does the model.
- A WebP whose body does not fit the 32-bit size field: the failing header write is caught, so the model returns the file unchanged.
- Upper-casing and white space beyond ASCII in `base32Decode`.
- MapStore: `delete` and `clear` are steps of the value model only; the per-call default of the time to live is a parameter.
- The SQLite store is modelled on values, not as a class, and which of several equally old rows goes first is left open.
- TtlStores.SqliteBoundedExactlyWhen: one operation is one step; the statements of several workers are interleaved in SharedLimit.dfy.
- TtlStores.SqliteStaysBoundedIff: one operation is one step; with the statements interleaved the bounds are `SharedLimits.LimitHoldsIff` and `SharedLimits.MaxKeysHoldsIff`.
- SharedLimits: a record that expires between a set's sweep and its selection counts as gone and is not among the selected.
- LockedMutate: a transaction judges once, when it reads, whether the record has expired.
- LoginGuard: the guard and the second factor run over the ideal expiring store, so no capacity eviction; one clock reading per call.
- LoginGuard.RegisterFail: the seconds to wait after a lock are not returned, being the length of the lock step.
- SignIns: sessions are named by browser, so session identifiers and their renewal are not modelled; the configuration of second-factor keys does not change during a run; the cart, the roles (`/me`, administrators), rate limiters, cooldowns and daily caps of code requests, and the periodic clean-up of expired codes are left out.
- SignIns.AtMostFiveChecks: each request is one step; requests of one session served at once, which each count from the session they loaded, are `MfaTries.ChecksBound` and `MfaTries.FiveChecksIff`.
- MfaTries: a request that dies before it writes the session back, and the limiter of thirty tries in ten minutes.
- SignIns.OtpIsBounded: each request is one step; with the statements interleaved the bounds are `OtpGuesses.ComparesPerCode`, `OtpGuesses.FivePerCodeIff` and `OtpGuesses.OneSignInPerCodeIff`.
- OtpGuesses: reading a row and deleting it when it has expired is one step.
- SmsSlots: the test mode that sends nothing, and the order-status messages, which the cap does not cover.
- Months: distinct customers, averages and growth per month, the best month, and month names.
- The in-memory and SQLite rate limiters, the TTL cache class, CRM, backups, and the Express wiring.
