# OpenAccounting: a verified model

OpenAccounting is a double-entry ledger. This project models its stateful core in Dafny
4.11 and proves what that core promises, for every input and every run. Check it with
`dafny verify dfyconfig.toml`.

| Dafny files | Component |
|---|---|
| `AuditEncoding`, `AuditChain` | canonical row bytes, hash chain, backfill, verifier |
| `LedgerTables`, `CloseControls`, `PostingSpec`, `PostingLaws`, `PostingRuns` | tables and balances, close watermark, posting service as transitions, what each call promises, theorems over runs |
| `PostingService`, `PostingClients`, `PostingFx`, `Fx` | the service calls step by step, opening balances and reversal, foreign legs |
| `InvoiceSequence`, `InvoiceNumbers`, `InvoiceReport` | concurrent allocation, supplied numbers, the gap report |
| `InvestmentLots`, `LotRaces`, `InventoryValuation` | FIFO lot disposal, overlapping sales, stock valuation |
| `RegexSyntax`, `LikePattern` | LIKE patterns compiled to regular expressions |
| `SlidingWindow`, `TokenBucket`, `SessionTimeout` | rate limiters and session expiry |
| `Prelude`, `Numbers` | options and results, sums and minima |

Code that changes state is a class or a method with loops, proved equal to a
specification function; the theorems are lemmas about that function over whole runs.

## How the source is read

- Tables are sequences or maps. A table that is always read with one ORDER BY is kept in
  that order. Each call is one atomic step, with three exceptions that are split on purpose:
  a create that needs approval commits before it inserts its approval row, invoice
  numbering is modelled statement by statement under READ COMMITTED, and `LotRaces` lets
  the selects and inserts of overlapping sales interleave.
- Money is an integer in units of 1/10000 (the scale of `postings.amount`); lot and stock
  figures, FX rates and token counts are exact reals. Dates are `yyyymmdd` integers, clock
  readings are integers in nanoseconds (seconds as reals for the token bucket).
- Constraints that decide an outcome are part of the model: `postings.amount > 0`, the
  checks on lots and disposals, `UNIQUE (ledger_id, period_year)` on closed periods, the
  append-only triggers, and the cascade from a transaction to its approval row. The service
  disables the per-row balance trigger before it inserts, so that trigger decides nothing.
- Clock readings, new ids and the FX rate lookup are parameters.
- SHA-256 is an arbitrary function to 32 bytes. No injectivity is assumed, since no such
  function is injective; the tamper theorem yields an explicit collision instead.

## What the proofs found

- `sql_like_match` is SQL LIKE on every text only for patterns without `{`, `%` and `_`.
  An unescaped `{` is read as repetition, and wildcards do not cross a line feed: without
  `{`, the match is LIKE on exactly the texts with as many line feeds as the pattern.
- The audit verifier accepts a log exactly when no row up to the first hashed one has a link
  and the rest is chained to whatever that row stores. So any prefix of a clean log, even
  all of it, can be rewritten by clearing hashes, with the tail hash unchanged. The
  timestamp of an append is read before the lock, so two overlapping appends suffice to
  break a clean chain, and no later append repairs it.
- `approve_journal` does not read the watermark, so approving a journal after its date was
  closed changes closed balances.
- While a ledger is append-only the triggers refuse promotion, deletion, approval and
  rejection; a journal held for approval cannot be decided until the mode is turned off.
- A transaction can be reversed again and again, and each reversal takes its effect off
  once more; the books cancel only after exactly one.
- A `close_period` after another succeeds only for a later date in a calendar year that has
  no row yet. Reopening from a date also opens the dates before it, back to the last close
  that lies before it.
- The idle timeout may expire a session after little more than half the advertised window,
  because the activity stamp is refreshed lazily.
- Every time the limiter's table of 10 000 tokens is emptied, a token may make another
  `limit` calls in the same window, and never more than that. The clock is read before the
  lock, and readings that come out of order shorten the window by as much.
- A token with limit zero is told to retry and never accepted.
- Overlapping sales of one lot can dispose of more than it holds.
- A user-supplied invoice number that is the first use of its year's counter sets it
  without a look at the numbers in use; if it is below one of them, a later allocation
  fails on the unique index.
- Opening balances whose asset changes equal the liability and equity changes are refused
  as if nothing had changed. An opening journal at or over the approval threshold moves no
  reported balance, and until it is approved a second one can be sent.
- A void invoice number typed without padding is missing from the gap report's allocated
  list when a later row has the padded form.
- A draft or pending transaction can be reversed; the reversal then shows in reports alone.
- The comment on `post_draft` promises account validation; the code does none, and the
  model follows the code (the invariant shows none is needed).

## Model

| member | source | states |
|---|---|---|
| AuditEncoding.CanonicalBytes | src/audit/chain.rs:65-85 | the buffer built by the push helpers is the canonical form of the row |
| AuditEncoding.ByteBuffer.PushOptUuid | src/audit/chain.rs:87-95 | appends a flag byte and the id, or a zero flag, and touches nothing before it |
| AuditEncoding.ByteBuffer.PushStr | src/audit/chain.rs:97-100 | appends an 8-byte little-endian length and the bytes |
| AuditEncoding.ByteBuffer.PushOptJson | src/audit/chain.rs:102-115 | appends a flag byte and, when present, the length-prefixed value |
| AuditEncoding.DecodeCanonical | src/audit/chain.rs:65-115 | a decoder recovers all eight fields of every well-formed row, negative timestamps included |
| AuditEncoding.DecodeExact | src/audit/chain.rs:65-115 | only canonical forms decode: no row has a second spelling |
| AuditEncoding.CanonicalInjective | src/audit/chain.rs:65-115 | rows that differ in any field never share an encoding |
| AuditEncoding.CanonicalStart | src/audit/chain.rs:65-100 | where the ledger flag and id, the actor id, and the length and bytes of the action stand in the encoding |
| AuditEncoding.LeDigits | src/audit/chain.rs:97-100 | byte i of a length or timestamp is its i-th digit to base 256 |
| AuditChain.AuditTable.Tail | src/audit/chain.rs:153-160 | finds the hash of the last hashed row in (created_at, id) order |
| AuditChain.AuditTable.LogHashed | src/audit/chain.rs:134-198 | the new row carries the tail hash and its own hash and lands at its place in the order |
| AuditChain.AppendedExactly | src/audit/chain.rs:134-198 | an append puts in one row, with the given id and the logged content, linked to the last stored hash and storing its own digest, at its place in (created_at, id) order, and touches no other row |
| AuditChain.RunLogsExactly | src/audit/chain.rs:134-251 | over any run the ids and contents in the table are the initial ones and those appended, each as often as logged |
| AuditChain.HashUnhashed | src/audit/chain.rs:229-250 | the running `prev` loop fills exactly the unhashed rows, in order, and counts them |
| AuditChain.AuditTable.EnsureBackfilled | src/audit/chain.rs:202-251 | the table becomes its backfilled form and the number of filled rows is returned |
| AuditChain.AuditTable.CheckRow | src/audit/chain.rs:267-303 | findings about one row given the previous hash |
| AuditChain.AuditTable.Verify | src/audit/chain.rs:255-307 | the break list is that of the whole table walked in order |
| AuditChain.FindingsExactly | src/audit/chain.rs:267-304 | the findings are exactly the reasons that apply to some row, under that row's id |
| AuditChain.CleanExactly | src/audit/chain.rs:255-307 | no breaks if and only if no row up to the first hashed one has a link and every later row links to its predecessor and hashes its own content |
| AuditChain.ChainedExactly | src/audit/chain.rs:255-307 | the whole table is one chain if and only if there are no breaks and the first row stores its own digest |
| AuditChain.AppendKeepsChain | src/audit/chain.rs:134-198 | appending the newest row keeps a chained table chained |
| AuditChain.AppendCleanExactly | src/audit/chain.rs:134-198 | on a chained table with distinct hashes, verification after an append is clean if and only if the new row is the newest |
| AuditChain.BackfillChains | src/audit/chain.rs:200-251 | backfill makes one chain of any table whose unhashed rows come last |
| AuditChain.FillKeepsContent | src/audit/chain.rs:229-248 | backfill changes nothing but the two hash columns |
| AuditChain.FillExactly | src/audit/chain.rs:229-248 | hashed rows stay as they are and every other row gets the digest of its link and content |
| AuditChain.UnhashedCounts | src/audit/chain.rs:226-250 | the returned count is the number of rows without a hash |
| AuditChain.BackfillIdempotent | src/audit/chain.rs:200-213 | with nothing unhashed, backfill changes nothing and returns 0 |
| AuditChain.RunVerifies | src/audit/chain.rs:134-307 | startup backfill, then any run of increasing appends and further backfills, verifies without breaks, and a further backfill has nothing to do |
| AuditChain.RunCleanExactly | src/audit/chain.rs:134-307 | after startup backfill and any run of appends and backfills with distinct hashes, verification is clean if and only if every append was the newest row when it came |
| AuditChain.CleanLinks | src/audit/chain.rs:279-304 | in a clean log every row after the first hashed one stores its predecessor's hash and its own digest |
| AuditChain.TamperEvidence | src/audit/chain.rs:255-307 | two clean logs with the same tail hash agree row by row from the end back to the later of their first hashed rows (one row less unless those store 32 bytes), or exhibit an explicit digest collision |
| AuditChain.FirstRowUnchecked | src/audit/chain.rs:268-278 | any content in the first row gives the same findings |
| AuditChain.ForgedPrefixPasses | src/audit/chain.rs:267-304 | any prefix of any clean log can be given other contents, without links and with no hash but its last row's, and stays clean with the same tail hash |
| AuditChain.UnevenFirstHashes | src/audit/chain.rs:267-304 | with first stored hashes of two lengths, two clean logs with one tail hash and no collision differ in their second row |
| LedgerTables.ComputeBalances | src/handlers/accounts.rs:84-109 | one entry per account of the ledger: debits minus credits over all postings, negated for credit-normal accounts |
| LedgerTables.AccountingEquation | src/handlers/accounts.rs:84-109 | over balanced transactions, assets + expenses = liabilities + equity + income in every ledger |
| CloseControls.CloseRaisesWatermark | src/handlers/closing.rs:227-249 | a successful close moves the watermark strictly up to its date, over legacy rows too; a refused one and other ledgers are untouched |
| CloseControls.CloseExactly | src/handlers/closing.rs:227-249 | a close succeeds if and only if the date is open and the ledger has no row for its year; it adds that one row, and a refusal names the watermark |
| CloseControls.WatermarkExactly | src/domain/close_controls.rs:59-91 | a date is closed if and only if a dated close covers it or, when there is none, a legacy year does |
| CloseControls.CloseAgainExactly | src/handlers/closing.rs:227-249 | after a close, another succeeds if and only if it is later, in another calendar year, and no row has that year |
| CloseControls.ReopenExactly | src/handlers/closing.rs:295-317 | a date is closed after a reopening if and only if a close strictly before the reopening date covers it, a legacy year counting when there is no dated one |
| CloseControls.ReopenLowersWatermark | src/handlers/closing.rs:295-317 | reopening from a date leaves that date open, and leaves a watermark that was already earlier as it was |
| CloseControls.FullReopenClears | src/handlers/closing.rs:312-317 | reopening without a date removes the ledger's watermark |
| CloseControls.ReopenLeavesOthers | src/handlers/closing.rs:295-317 | reopening one ledger leaves the watermark of every other ledger |
| PostingService.DeriveLines | src/domain/posting_service.rs:426-443 | base amounts in line order, or the first missing rate |
| PostingService.SumDebitsCredits | src/domain/posting_service.rs:448-456 | totals of the non-negative and of the negated negative amounts |
| PostingService.FindAccountError | src/domain/posting_service.rs:501-520 | the first line whose account is unknown or belongs to another ledger |
| PostingService.FindDimensionError | src/domain/posting_service.rs:524-549 | the first cost centre or project that is not the ledger's |
| PostingService.InsertPostings | src/domain/posting_service.rs:650-681 | one posting per line with absolute amount and direction, refused when an amount is zero |
| PostingService.Books.Validate | src/domain/posting_service.rs:401-549 | all checks in the source's order, with the same error first |
| PostingService.Books.CreateWithKind | src/domain/posting_service.rs:396-719 | the new database and result of a create up to its commit; nothing changes on an error |
| PostingLaws.AcceptedExactly | src/domain/posting_service.rs:401-549 | a request is accepted if and only if it has two or more lines in known accounts and dimensions of the ledger, on an open date unless a draft, and its converted amounts are non-zero and sum to zero |
| PostingLaws.RefusalExplained | src/domain/posting_service.rs:401-549 | every refusal of a create is for the reason it gives, with its figures |
| PostingLaws.CreateStores | src/domain/posting_service.rs:596-719 | a create stores one row that carries the request line by line under its maker, with a due approval of that maker when held, and changes nothing else |
| PostingLaws.DraftStays | src/domain/posting_service.rs:130-142 | a saved draft is stored as a draft with no approval due |
| PostingService.Books.RecordApproval | src/domain/posting_service.rs:706-719 | the late approval insert, ignored when the row exists |
| PostingLaws.InsertApprovalExactly | src/domain/posting_service.rs:706-719 | the due approval is inserted once, as it was due, and no other row changes |
| PostingService.Books.PostDraft | src/domain/posting_service.rs:149-229 | promotion of a draft of this ledger on an open date, unless the ledger is append-only; else the error and no change |
| PostingService.Books.DeleteDraft | src/domain/posting_service.rs:235-280 | removal of a draft with its postings and approval row, unless the ledger is append-only; else the error and no change |
| PostingLaws.DraftCallsExactly | src/domain/posting_service.rs:149-280 | promotion succeeds if and only if the row is a draft of this known ledger on an open date, deletion if and only if it is a draft of this ledger, both unless the ledger is append-only |
| PostingService.Books.ApproveJournal | src/domain/posting_service.rs:285-340 | approval of an awaiting journal by someone other than its maker, refused in an append-only ledger |
| PostingService.Books.RejectJournal | src/domain/posting_service.rs:343-394 | rejection under the same rules; the journal becomes a draft |
| PostingLaws.DecisionExactly | src/domain/posting_service.rs:285-394 | a decision succeeds if and only if an approval of this ledger awaits one, from a user other than its maker, outside append-only mode; it records status and checker and nothing else |
| PostingService.Books.ClosePeriod | src/handlers/closing.rs:227-249 | the close row is added unless the date is closed or the year has a row |
| PostingService.Books.ReopenPeriod | src/handlers/closing.rs:295-317 | exactly the covered close rows are removed and nothing else changes |
| PostingService.Books.ToggleAppendOnly | src/handlers/ledgers.rs:363-391 | the flag takes the given value and nothing else changes |
| PostingService.KeepClosed | src/handlers/closing.rs:295-317 | the rows left by the deletes, in order |
| PostingRuns.StoredIsGood | src/domain/posting_service.rs:401-681 | whatever passes the checks is stored with two or more positive postings in its own ledger and equal debits and credits |
| PostingRuns.DebitsMinusCredits | src/domain/posting_service.rs:448-459 | the debit and credit totals differ by the sum of the amounts, so the check is for a zero sum |
| PostingRuns.RunKeepsInv | src/domain/posting_service.rs:149-719 | every run of every mix of calls keeps unique ids, balanced transactions, and approvals that agree with their journals |
| PostingRuns.BooksAlwaysBalance | src/domain/posting_service.rs:149-704 | after every run each transaction balances and the accounting equation holds |
| PostingRuns.CreateHoldsExactly | src/domain/posting_service.rs:600-624 | a created journal is held, with an approval row due, if and only if it is standard or adjusting and debits the threshold or more |
| PostingRuns.LargeJournalUnreported | src/domain/posting_service.rs:600-624 | a held journal is in no report at any point of any run without a decision about it |
| PostingRuns.HeldUntilDecided | src/domain/posting_service.rs:285-394 | without a decision a pending journal stays pending through any run |
| PostingRuns.LeavesPendingByDecision | src/domain/posting_service.rs:285-394 | a journal leaves `pending` only by a decision of a user other than its maker, which records that user |
| PostingLaws.RequesterNeverDecides | src/domain/posting_service.rs:285-394 | after a create, no event of any run by the user who made the request decides about its journal |
| PostingLaws.HeldDecidedByOthers | src/domain/posting_service.rs:285-394 | once its approval is inserted, a held journal can be decided by a user if and only if it is not the requester and the ledger is not append-only |
| PostingRuns.DecidedAtMostOnce | src/domain/posting_service.rs:285-394 | in any run, with approval inserts interleaved, a journal is decided at most once |
| PostingRuns.ApprovalIsFinal | src/domain/posting_service.rs:285-340 | an approved journal keeps its approval and stays `standard` for the rest of any run |
| PostingRuns.HistoryIsFrozen | src/domain/posting_service.rs:184-196 | under watermark w no run of harmless steps changes a reported balance of the ledger as of any date up to w, nor lowers the watermark below w |
| PostingRuns.FrozenStepExactly | src/domain/posting_service.rs:285-340 | a step keeps the ledger's history up to w and its close if and only if it is no approval there of a journal dated up to w that moves an account, and no reopening there that leaves w uncovered |
| PostingRuns.SealedRowsStay | migrations/0044_add_ledger_append_only.sql:24-73 | while a ledger is append-only no run of any calls changes or removes one of its stored transactions |
| PostingRuns.SealedJournalUndecided | migrations/0044_add_ledger_append_only.sql:24-73 | in an append-only ledger no run ever decides about a journal |
| PostingRuns.StepRow | src/domain/posting_service.rs:149-394 | what each call leaves of each stored transaction: promoted, deleted, decided, or unchanged |
| PostingRuns.ApprovalFrozenExactly | src/domain/posting_service.rs:285-340 | an approval keeps the history up to w if and only if the triggers refuse it, the journal is dated after w, or it moves no account |
| PostingRuns.LateApprovalRewritesHistory | src/domain/posting_service.rs:285-340 | closing over an awaiting journal and then approving it changes a closed balance, unless the ledger is append-only |
| PostingClients.OpeningReachesTargets | src/handlers/accounts.rs:666-770 | an accepted form is refused only on a closed date; else every account not named "Opening Balances" ends at its target if it is a targeted balance-sheet account and stays where it was if not |
| PostingClients.OpeningReported | src/handlers/accounts.rs:632-770 | a reported balance moves by its opening amount from the opening date on, and the entry counts as recorded, if and only if the journal is below the approval threshold |
| PostingClients.OpeningRequestSound | src/handlers/accounts.rs:666-751 | the built lines plus contra leg sum to zero, number two or more, and are non-zero in the ledger's accounts |
| PostingClients.ContraIsNamed | src/handlers/accounts.rs:707-731 | the contra leg goes to an account of the ledger named "Opening Balances", which is added, as an equity account, if and only if the ledger has none |
| PostingClients.NothingToRecordExactly | src/handlers/accounts.rs:699-705 | a form is turned away as nothing to record if and only if no opening entry exists and the asset deltas sum to the liability and equity deltas |
| PostingClients.AlreadyRecordedExactly | src/handlers/accounts.rs:655-659 | a form is turned away as already recorded if and only if a reported opening entry of the ledger is stored |
| PostingClients.NoLinesExactly | src/handlers/accounts.rs:673-697 | there are no lines if and only if every targeted account already has its target |
| PostingClients.BalancedTargetsRefused | src/handlers/accounts.rs:699-705 | two targets that balance each other are refused as nothing to record although both accounts would change |
| PostingService.LinesForTargets | src/handlers/accounts.rs:666-697 | one line per targeted account whose balance differs, in the account's direction |
| PostingService.Books.OpeningBalancesCreate | src/handlers/accounts.rs:655-770 | the whole handler: checks, contra account made when missing, posting |
| PostingClients.ReversalInverts | src/api/transactions.rs:361-431 | reversing a stored transaction succeeds if and only if today is open, adds one linked row that undoes it account by account, and changes no other row |
| PostingClients.ReverseExactly | src/api/transactions.rs:361-431 | a reversal succeeds if and only if the row is one of the ledger, no reversal itself, and today is open; the two early refusals mean what they say |
| PostingClients.ReversalsAddUp | src/api/transactions.rs:361-431 | reversal requests on any days take the transaction's effect off once for each open day and change no earlier row |
| PostingClients.UndoneExactly | src/api/transactions.rs:361-431 | they undo it in the books if and only if exactly one got through or it moves no account |
| PostingClients.ReportedPairCancelsExactly | src/api/transactions.rs:361-431 | in reports the pair cancels if and only if the original is reported or moves no account |
| PostingService.Books.Reverse | src/api/transactions.rs:361-431 | the lookup, the refusals and the posting of the negated lines |
| Fx.RoundingError | src/domain/fx.rs:111-114 | a derived amount is whole cents, within half a cent of the product, with its sign |
| Fx.RoundingIsOdd | src/domain/fx.rs:111-114 | negating the foreign amount negates the derived one |
| Fx.NetRoundingError | src/domain/fx.rs:111-114 | n legs that sum to zero derive a net of at most (n - 1)/2 cents at any rate |
| Fx.PairedLegsBalance | src/domain/fx.rs:111-114 | legs that pair up as (x, -x) in any order derive a net of zero |
| Fx.DriftReached | src/domain/fx.rs:111-114 | for every odd n there are legs that sum to zero and derive a net of exactly (n - 1)/2 cents |
| PostingFx.PairedForeignLegsPass | src/domain/posting_service.rs:415-459 | a request of paired foreign legs in one currency always passes the balance check |
| PostingFx.ForeignLegsNearlyBalance | src/domain/posting_service.rs:415-459 | foreign legs that sum to zero are off balance by at most (n - 1)/2 cents |
| InvoiceSequence.GaplessNumbering | src/domain/close_controls.rs:114-176 | under every interleaving of allocations, commits, rollbacks and first-use races, committed numbers are seed+1, seed+2, ... and the counter is the last |
| InvoiceSequence.CommittedExactly | src/domain/close_controls.rs:166-176 | the numbers that transactions hold when they commit are, in commit order, seed+1, seed+2, ... and the counter row is the last of them |
| InvoiceSequence.SoloAllocates | src/domain/close_controls.rs:114-176 | in any reachable state with the row free, a transaction that runs by itself gets and publishes exactly the next n numbers and frees the row |
| InvoiceSequence.RollbackPublishesNothing | src/domain/close_controls.rs:114-176 | a rollback leaves the counter and the committed numbers alone and drops only its own transaction |
| InvoiceSequence.HeldAreNew | src/domain/close_controls.rs:119-126 | numbers held by an open transaction are above every committed one and increase |
| InvoiceSequence.OneHolder | src/domain/close_controls.rs:119-126 | no two open transactions ever own the sequence row |
| InvoiceNumbers.Invoices.Create | src/handlers/invoices.rs:240-293 | the new texts and counter of a create with a supplied or an allocated number, or the refusal |
| InvoiceNumbers.CreatedExactly | src/handlers/invoices.rs:240-293 | a create is refused if and only if its text is in use or reads negative; else exactly that text is added and the counter moves to it or stays |
| InvoiceNumbers.AllocationSafeExactly | src/handlers/invoices.rs:261-270 | no later allocation ever collides if and only if no number above the counter is in use |
| InvoiceNumbers.SupplyClearExactly | src/handlers/invoices.rs:261-270 | a supplied text keeps that so if and only if, as the first use of the counter, it is at least every number in use, or, where it leaves the counter alone, it is no padded number above it |
| InvoiceNumbers.RunStaysClear | src/handlers/invoices.rs:237-293 | over any run of creates whose supplied texts meet that condition, no number above the counter is in use |
| InvoiceNumbers.SmallFirstNumberCollides | src/handlers/invoices.rs:264-270 | supplying a free number below one in use, before the first allocation, makes some allocation fail |
| InvoiceReport.NumberRoundTrip | src/domain/close_controls.rs:175-206 | the padded text of a number parses back to it |
| InvoiceReport.PaddedWidth | src/domain/close_controls.rs:175-213 | a padded number has four digits, more only when needed, and zeros only in front |
| InvoiceReport.ParsesDigits | src/domain/close_controls.rs:199 | digits with at most one sign parse to their value within the 32-bit range |
| InvoiceReport.GapReport | src/domain/close_controls.rs:183-217 | allocated texts in key order, voids in row order, and the uncovered numbers up to the maximum |
| InvoiceReport.ReportPartitions | src/domain/close_controls.rs:196-217 | for any row texts, every number up to the maximum is read from an allocated text if some row is read as it and has its padded text missing if none is |
| InvoiceReport.AllocatedExactly | src/domain/close_controls.rs:196-216 | allocated are exactly the last spellings of the numbers read from the rows |
| InvoiceReport.AllocatedAscends | src/domain/close_controls.rs:196-216 | allocated texts are listed in the order of their numbers |
| InvoiceReport.VoidsExactly | src/domain/close_controls.rs:198-207 | voids are exactly the texts of void rows that are read as a number |
| InvoiceReport.MissingExactly | src/domain/close_controls.rs:208-214 | missing are exactly the padded texts of the numbers in 1..max that no row is read as |
| InvoiceReport.VoidsAllocatedExactly | src/domain/close_controls.rs:198-207 | a void number is never missing, and its text is allocated if and only if no later row spells the number differently |
| InvoiceReport.PaddedReport | src/domain/close_controls.rs:196-217 | over zero-padded numbers allocated and missing texts partition 1..max and every void is allocated |
| InvoiceReport.UnpaddedVoidHidden | src/domain/close_controls.rs:198-207 | a void typed without padding is hidden by a later row with the padded text |
| InvoiceReport.GaplessRunReportsNoGap | src/domain/close_controls.rs:208-214 | when every number above the seed up to the maximum is used, only numbers up to the seed can be missing |
| InvoiceReport.CommittedRunHasNoGaps | src/domain/close_controls.rs:108-217 | for any interleaved run from any seed and any row order, exactly the unused numbers up to the seed are missing, so none from zero |
| InvestmentLots.LotBook.InsertLot | src/domain/investment_lot.rs:51-74 | the lot is added in query order, or refused by the table's checks |
| InvestmentLots.InsertedExactly | src/domain/investment_lot.rs:51-74 | a purchase adds its lot to the table and changes no other row |
| InvestmentLots.LotBook.OldestOpen | src/domain/investment_lot.rs:101-114 | the first lot of the account with an open quantity |
| InvestmentLots.LotBook.FifoMatch | src/domain/investment_lot.rs:87-156 | the loop ends and makes exactly the reference disposals; no lot is over-disposed and other accounts are untouched |
| InvestmentLots.LotBook.RemainingQty | src/domain/investment_lot.rs:160-174 | the sum of the account's open quantities |
| LotRaces.LandsSafelyExactly | src/domain/investment_lot.rs:98-155 | when every pending insert lands, no lot is over-disposed if and only if every lot has room for all that is about to be taken from it |
| LotRaces.SelectFitsExactly | src/domain/investment_lot.rs:98-124 | a select keeps that so if and only if nobody else is about to take from the lot it finds, or the rest of the sale fits beside them |
| LotRaces.RoomyRunIsSafe | src/domain/investment_lot.rs:98-155 | under any interleaving in which every select finds room, no lot is ever over-disposed |
| LotRaces.LoneSaleMatches | src/domain/investment_lot.rs:98-155 | a sale that nobody disturbs makes exactly the reference disposals, one per turn, and ends |
| LotRaces.OverlapOverDisposes | src/domain/investment_lot.rs:98-155 | two overlapping sales of one whole lot sell it twice |
| InvestmentLots.SaleConserves | src/domain/investment_lot.rs:98-155 | disposals sum to min(sold, open) and the holding shrinks by as much |
| InvestmentLots.PurchaseConserves | src/domain/investment_lot.rs:51-74 | a purchase adds its quantity to its own account only |
| InvestmentLots.LotShare | src/domain/investment_lot.rs:98-155 | a lot gives up what the lots before it cannot cover, clamped to what it has |
| InvestmentLots.OldestFirst | src/domain/investment_lot.rs:98-155 | a lot is touched only when every older one is used up |
| InvestmentLots.SoldInOrderOfPurchase | src/domain/investment_lot.rs:101-114 | a lot is touched only when every lot acquired before it, or the same day under a smaller id, is used up |
| InvestmentLots.RowRecords | src/domain/investment_lot.rs:116-153 | every disposal row records a lot drawn on, the quantity taken, the sale's price and date, and the gain over that lot's cost |
| InvestmentLots.DrawnIsRecorded | src/domain/investment_lot.rs:116-153 | every lot drawn on has such a row |
| InvestmentLots.SplitSale | src/domain/investment_lot.rs:87-156 | selling a then b leaves the lots and total gain of selling a + b |
| InvestmentLots.SaleInParts | src/domain/investment_lot.rs:87-156 | the same for a sale cut into any number of parts |
| InventoryValuation.Valuate | src/domain/inventory_valuation.rs:45-50 | the valuation of the chosen method, the unit queue or the running average |
| InventoryValuation.ValuateFifo | src/domain/inventory_valuation.rs:52-80 | quantity and value of a queue of single units, or the oversell with its figures |
| InventoryValuation.Consume | src/domain/inventory_valuation.rs:66-74 | a sale drops that many units off the front of the queue |
| InventoryValuation.ValuateAverage | src/domain/inventory_valuation.rs:82-111 | quantity and value under the running average |
| InventoryValuation.MethodsAgree | src/domain/inventory_valuation.rs:52-111 | both methods fail alike on every movement list, or agree that quantity = purchases - sales |
| InventoryValuation.FailsExactlyOnOversell | src/domain/inventory_valuation.rs:59-63 | valuation fails if and only if some prefix sells more than was bought |
| InventoryValuation.StockIsLatestPurchases | src/domain/inventory_valuation.rs:52-80 | FIFO stock is all purchased units after the oldest sold ones |
| InventoryValuation.FifoValueExactly | src/domain/inventory_valuation.rs:52-80 | the FIFO quantity and value are those of the latest purchases left after the units sold |
| InventoryValuation.OversellNamesSale | src/domain/inventory_valuation.rs:59-63 | under either method the failure reports the first sale that finds too little and what it finds |
| InventoryValuation.AverageExactly | src/domain/inventory_valuation.rs:82-111 | under the average a purchase adds its cost and an emptied stock is worth zero |
| InventoryValuation.SpendingIsConserved | src/domain/inventory_valuation.rs:52-80 | stock value plus cost of goods sold is the total spent |
| InventoryValuation.ValueWithinCosts | src/domain/inventory_valuation.rs:45-111 | each value lies between quantity x lowest and quantity x highest purchase cost |
| InventoryValuation.AverageSaleKeepsUnitCost | src/domain/inventory_valuation.rs:94-107 | a sale leaves the average cost per unit unchanged |
| LikePattern.Compile | src/domain/reconciliation_rules.rs:120-136 | the emitted text is `^`, the translation of each character in turn, `$` |
| LikePattern.FaithfulExactly | src/domain/reconciliation_rules.rs:118-140 | the matcher agrees with LIKE on every text if and only if the pattern has no `{`, `%` or `_` |
| LikePattern.MatchesExactly | src/domain/reconciliation_rules.rs:118-140 | without `{` the matcher accepts a text if and only if LIKE does and the text has exactly the pattern's number of line feeds |
| LikePattern.FeedMisread | src/domain/reconciliation_rules.rs:126-127 | for every pattern with a wildcard and no `{` there is a text that LIKE accepts and the matcher does not |
| LikePattern.LineFaithfulExactly | src/domain/reconciliation_rules.rs:118-140 | with wildcards read within a line, it is right on every text if and only if the pattern has no `{` |
| LikePattern.FaithfulOnLines | src/domain/reconciliation_rules.rs:118-140 | without `{`, and on text with no more line feeds than the pattern, the match is SQL LIKE |
| LikePattern.BraceFreeFaithful | src/domain/reconciliation_rules.rs:124-140 | a pattern without `{` compiles to an expression that matches what the pattern matches |
| LikePattern.BraceMisread | src/domain/reconciliation_rules.rs:128-133 | for every pattern with `{` there is a text on which the result is wrong, under LIKE and within lines |
| LikePattern.LineReading | src/domain/reconciliation_rules.rs:118-127 | keeping wildcards within a line accepts exactly what LIKE accepts among texts with the pattern's number of line feeds |
| RegexSyntax.AnyStar | src/domain/reconciliation_rules.rs:126 | `.*` matches exactly the stretches without a line feed |
| SlidingWindow.Limiter.Check | src/api/mod.rs:189-228 | the new table and verdict, with eviction from the front, the capacity clear and the retry seconds |
| SlidingWindow.WindowBound | src/api/mod.rs:201-227 | with clock readings that step back by at most d, at most `limit` calls of a token are accepted in any 60 seconds less d, plus `limit` for each clear within d of them; with d = 0 the plain window |
| SlidingWindow.RunRemembers | src/api/mod.rs:203-227 | stored hits are the newest calls accepted since the last clear, and every dropped one is a full window old |
| SlidingWindow.RetryHonoured | src/api/mod.rs:218-225 | after the returned seconds a refused token is accepted if and only if its limit is not zero, whatever others do, if readings step back by a second at most; without a clear, exactly when its oldest hit expires |
| SlidingWindow.RetryDelayExactly | src/api/mod.rs:218-225 | the returned delay ends within the second after the oldest stored hit expires, is between 1 and 61, and is 1 when the limit is zero |
| SlidingWindow.CheckTouches | src/api/mod.rs:203-227 | a call touches only its own token's hits, except that a new token that finds 10 000 others forgets them all |
| SlidingWindow.BoundReached | src/api/mod.rs:203-207 | for every limit and number of clears some run reaches that bound |
| SlidingWindow.DriftReached | src/api/mod.rs:201-227 | from limit 2 on, readings that step back by d let one call more into a stretch one nanosecond longer |
| SlidingWindow.ClearAdmitsAgain | src/api/mod.rs:203-207 | after any run, a newcomer that empties the table lets another token make `limit` more calls on top of those already in the window |
| TokenBucket.Limiter.Check | src/ratelimit.rs:105-116 | refill, cap, spend or refuse with a delay; tokens stay within [0, capacity] |
| TokenBucket.Limiter.constructor | src/ratelimit.rs:95-101 | a full bucket of at least one token |
| TokenBucket.IntervalBound | src/ratelimit.rs:85-116 | in any interval of T seconds of any run at most capacity + capacity x T/60 checks succeed |
| TokenBucket.SpentWithinRefill | src/ratelimit.rs:105-116 | tokens left plus checks allowed never exceed the start plus the refill |
| TokenBucket.SpentExactly | src/ratelimit.rs:105-111 | over a run too short to fill the bucket, tokens left plus checks allowed are exactly the start plus the refill |
| TokenBucket.BurstExactly | src/ratelimit.rs:105-111 | at one instant exactly as many checks are allowed as there are whole tokens |
| TokenBucket.FreshBurst | src/ratelimit.rs:95-111 | a new bucket allows exactly its budget, and at least one check, at once |
| TokenBucket.MinuteRefills | src/ratelimit.rs:85-107 | sixty seconds of refill are the whole capacity |
| TokenBucket.RetryExactly | src/ratelimit.rs:109-115 | after a refusal the next check succeeds if and only if the missing fraction has refilled |
| TokenBucket.RetryAfterSuffices | src/ratelimit.rs:112-115 | the returned delay suffices and overshoots by less than two seconds |
| SessionTimeout.Session.MarkAuthenticated | src/auth/session_timeout.rs:98-108 | login stamps both times |
| SessionTimeout.Session.EnforceTimeout | src/auth/session_timeout.rs:112-163 | expiry flushes the session, otherwise the stamp is refreshed once half the idle window has passed |
| SessionTimeout.RequestExactly | src/auth/session_timeout.rs:122-161 | a request passes if and only if both windows last, a refusal names each window that is over, and the stamp moves exactly when half the idle window is over |
| SessionTimeout.WholeMsExactly | src/auth/session_timeout.rs:126-131 | durations are compared in whole milliseconds cut off towards zero |
| SessionTimeout.StoredStampLag | src/auth/session_timeout.rs:151-161 | over any requests after login the stored stamp trails real activity by less than half the idle window |
| SessionTimeout.InactivityExpires | src/auth/session_timeout.rs:126-149 | inactivity beyond the idle window always expires the session |
| SessionTimeout.SafeGapExactly | src/auth/session_timeout.rs:126-161 | for every setting, a pause never trips the idle check if and only if it fits the idle window together with the largest lag of the stamp |
| SessionTimeout.HalfWindowGapsSafe | src/auth/session_timeout.rs:126-161 | pauses of at most half the window are safe for every setting |
| SessionTimeout.AbsoluteLimitHolds | src/auth/session_timeout.rs:129-149 | no request passes later than the absolute window after login |

## Left out

- AuditChain.AppendCleanExactly: assumes the stored hashes are pairwise distinct, which a caller can check; a repeated hash would be a digest collision or fixed point.
- AuditChain.TamperEvidence: row ids are not hashed and so not covered.
- SlidingWindow.WindowBound: takes the limit of a token as fixed over the run, although an override can change it.
- TokenBucket.IntervalBound: takes `f64` as exact reals.
- InventoryValuation.ValueWithinCosts: takes decimal division as exact; the 28-digit rounding of the average is not modelled.
- InvestmentLots.LotBook.FifoMatch: takes the whole call as one step (LotRaces has the interleavings), and quantities and prices of at most the columns' 8 decimals; the rounding of the stored gain to 8 decimals is not modelled.
- PostingRuns.HistoryIsFrozen: takes each call as atomic; `close_period` reads and inserts without a lock, and that race is not modelled.
- Amounts with more than four decimals: the column rounds each posting on its own, which the integer amounts exclude.
- PostingService.Books.Validate: leaves out the refusal of a duplicate transaction number, because numbers are not modelled.
- PostingService.Books.CreateWithKind: leaves out transaction numbers, tax links, memos, payees and the audit and event side effects.
- The 32-bit range of invoice counters and of the cast of a stored suffix.
- `close_year`, the direct insert of the API create endpoint and month-end revaluation: they write postings outside the posting service.
- Permission checks, reason texts, form and JSON parsing, HTTP responses and idempotency keys.
- The rest of the regular-expression language, its size and nesting limits.
- `evaluate_predicate` and `first_match`: the amount and currency tests of a rule, and the choice of the active rule with the lowest priority.
- FX rate lookup and feeds, bank feeds, exports, charts, templates and configuration.
