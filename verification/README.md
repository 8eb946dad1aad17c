# Case management and intake, verified

A Dafny 4.11 model of the state-heavy parts of two applications that share one
repository: `src/` (case management) and `career-gate/` (employment intake). The
model keeps the branches, constants and error cases of the code and proves what
its operations guarantee: of one call, of every run, and of every interleaving.

`dafny verify dfyconfig.toml` checks everything.

## How it is organised

| files | subject |
|---|---|
| `Access`, `AccessResolver`, `CaseFilter`, `AccessDecisions` | effective authorisation, its compilation into a listing query, and both said of the stored policies alone |
| `IntakeLink`, `IntakeProtocol` | one-time client intake links and the submission protocol over them |
| `DocumentExtraction`, `ExtractionProtocol` | claiming a document extraction for review |
| `Accounting`, `Settlement`, `AccountRules`, `LedgerView` | settlement of a client account, commissions, the rules of every operation in figures, and the ledger as staff see it |
| `Json`, `JsonStrings`, `JsonReader`, `KeyOrder`, `CanonicalJson`, `JsonText` | the canonical JSON printer, a reader of the JSON grammar to check it against, and the texts it writes sign by sign |
| `CaseReview`, `CaseFindings`, `ReviewProtocol` | the deterministic case review: identity of findings, reconciliation with the stored ones, and reviews that overlap |
| `FormSuggestions`, `FormSync`, `AnswerProtocol` | carrying verified facts into form answers, and several writers on one form |
| `ClientIdentity`, `BulkImport`, `ImportRetry` | who counts as one person in an import, processing a batch, and several runs of one batch |
| `Audit` | the audit agent's rule scan |
| `LoginThrottle` | the bounded per-process login throttle |
| `DocumentMerge` | merging what several documents say about an applicant |
| `Options` | a value that may be absent |

Code that updates a stored row, a map or counters step by step is a class whose
methods are proved against functions on values; loops are loops. The results
about many calls, runs and interleavings are lemmas about those functions. A
protocol is a step function over atomic database statements; a run is any
sequence of steps of any number of attempts, and no order of clock values is
assumed unless a lemma says so.

Identifiers are natural numbers. Text whose units matter is a sequence of UTF-16
code units. Money is in cents and rates are in hundredths of a percent; rounding
is done on exact rationals. SHA-256 and the evidence fingerprint are treated as
injective. Times are in milliseconds.

## What the code does that its documentation does not say

Each of these is a theorem with the exact condition, or a theorem with a concrete
run beside it.

- A listing omits accessible cases in exactly three situations: the case has no
  client and some client is restricted, it has no service code and some code is
  restricted, or it is reached by the free-text assignment label alone
  (`CaseFilter.CompiledExactly`). The comment at `src/access.js:378-384` says that
  restrictions are not part of the query; the code at lines 417-425 puts them there.
  Each situation is reached (`AccessResolver.GapClient`, `AccessResolver.GapService`,
  `AccessResolver.GapLabel`).
- What a person may do can depend on the order in which their teams are listed
  (`AccessResolver.TeamOrderMatters`, `AccessResolver.TeamOrderExample`).
- A link is called exclusively owned during a submission
  (`career-gate/lib/client-intake-link.ts:187-194`). It is, except that a claim
  which meets a holder older than fifteen minutes starts a second owner, and the
  first can then release the second's claim (`IntakeProtocol.ExclusiveStep`,
  `IntakeProtocol.OwnershipLost`). The staged case is one all the same
  (`IntakeProtocol.OneStagedCase`). Extraction claims behave alike
  (`ExtractionProtocol.ExclusiveStep`, `ExtractionProtocol.LeaseLost`,
  `ExtractionProtocol.CommittedOnce`).
- A persisted review of a case without form instances returns before it reconciles,
  so findings of forms that are gone stay open
  (`CaseFindings.FindingTable.PersistReview`, `CaseFindings.FormlessReview`).
- The blocker raised when canonical data changes after a form is final has a key no
  review computes; the next persisted review resolves it
  (`CaseFindings.ChangeAfterFinalResolved`).
- Overlapping reviews of the same data converge (`ReviewProtocol.ConcurrentReviews`);
  if the data change between them the outdated finding can win, because a duplicate
  insert is ignored whatever its content (`ReviewProtocol.OverlapLosesUpdate`). Which
  steps of one review undo another is exact (`ReviewProtocol.UndercutExactly`,
  `ReviewProtocol.ReconciledUnlessUndercut`, `ReviewProtocol.BreakingStep`).
- Canonical synchronisation of a form whose fields repeat a path can conflict, and
  never settles when the repeated fields have different facts
  (`FormSync.FormInstance.StoreAll`, `FormSync.PathConflict`,
  `FormSync.SettlesExactly`, `FormSync.NeverSettles`).
- Retrying an import can store a client twice: a row that fails after its client was
  created records nothing (`BulkImport.RetryDuplicate`,
  `ImportRetry.RetryDuplicatesExactly`). A batch that is being processed can be
  processed again at the same time, and then even one row that never fails stores two
  clients (`ImportRetry.OverlapDuplicatesExactly`, `ImportRetry.OverlapDuplicate`).
- Rows of different people count as one person when an identifying number of one
  equals a number of another kind of the other, or when a vertical bar moves text
  between columns (`ClientIdentity.SharedIdentity`,
  `ClientIdentity.CrossKindCollision`, `ClientIdentity.BarCollision`).
- A refund sent twice can be refused instead of being recognised
  (`LedgerView.ReplayAccepted`, `LedgerView.ReplayRefused`).
- An alert can show evidence that is past, if the current evidence was once ignored
  (`Audit.OutdatedExactly`, `Audit.OutdatedAlert`).
- The login throttle lets fifteen attempts through within one window length, not
  eight: seven of an open window and eight of the next, and never more
  (`LoginThrottle.AtMostFifteen`, `LoginThrottle.FifteenReached`).

## Model

| member | source | states |
|---|---|---|
| AccessResolver.AccessState.ApplyLayer | src/access.js:130-146 | one policy applied in place: its restrictions beat its grants, and the wider scope of each module stays |
| AccessResolver.ResolveAccess | src/access.js:162-254 | the three mutating layers and the loop over record grants compute the closed form `Resolution` |
| AccessResolver.ApplyTeams | src/access.js:180-192 | all teams: permissions follow the policies in listing order, and the widest team scope of each module replaces what the roles gave |
| AccessResolver.ApplyUser | src/access.js:194-200 | the personal policy comes last and its scopes replace all others |
| AccessResolver.RecordLevel | src/access.js:202-225 | what is granted, what is restricted, and the permissions each grant carries |
| AccessResolver.PermissionDecided | src/access.js:130-200 | every permission is decided by the last policy in role, team, user order that mentions it, by the role defaults if none does, and is never both held and restricted |
| AccessResolver.UserOverrides | src/access.js:194-200 | a personal decision overrides roles and teams in either direction |
| AccessResolver.TeamOrderMatters | src/access.js:180-192 | a permission is independent of the order the teams are listed in if and only if the personal policy mentions it or no two team policies that mention it disagree |
| AccessResolver.TeamOrderExample | src/access.js:180-192 | the order does matter: two listings of one membership, one allows and the other refuses |
| AccessResolver.ScopeDecided | src/access.js:174-200 | each module's scope is the person's, else the widest of the teams', else the widest of the roles', else none is recorded |
| AccessResolver.TeamOrderKeepsScopes | src/access.js:182-192 | scopes do not depend on the order or repetition of the teams |
| AccessResolver.LastGrantDecides | src/access.js:218-224 | of several grants on one target the last decides what it allows |
| AccessResolver.RestrictionAbsolute | src/access.js:288-296 | a record restriction shuts out everyone but the owner, whatever policies and grants say |
| AccessResolver.ResolvedListingExact | src/access.js:385-434 | for every stored policy set the query compiled from the resolved access returns a row if and only if the row predicate admits it and it is outside the gap |
| AccessResolver.GapClient | src/access.js:417-425 | someone kept from one client is shown a case without a client and has it in no listing |
| AccessResolver.GapService | src/access.js:417-425 | the same with a service and a case without a service code |
| AccessResolver.GapLabel | src/access.js:385-434 | and with a case assigned to them by the free-text label alone |
| CaseFilter.ExpandCodes | src/access.js:408-415 | practice areas expand to exactly the service codes the catalogue lists for them |
| CaseFilter.CaseListFilter | src/access.js:385-434 | the clause-pushing compiler produces the query `Compiled` |
| CaseFilter.CompiledExactly | src/access.js:281-434 | compiler correctness in three-valued logic: the query returns a row if and only if `CanAccessCase` admits it and it is not in the gap (client missing under a client restriction, service code missing under a code restriction, reached by the free-text label alone) |
| CaseFilter.CompiledSound | src/access.js:417-425 | no listing shows a row the row predicate refuses |
| CaseFilter.KleeneExactly | src/access.js:385-434 | the three-valued connectives of the database: least, greatest and mirror image of false, unknown, true |
| CaseFilter.PageNeverShortened | src/access.js:436-439 | filtering a limited page again removes nothing |
| CaseFilter.ListingComplete | src/access.js:385-439 | query and row filter give the same listing of a table if and only if no accessible row of the table is a gap row |
| AccessDecisions.ModuleNamed | src/access.js:31-84 | a permission belongs to the module it names before its first dot, if it is one of the fifteen, else to the dashboard |
| AccessDecisions.WiderExactly | src/access.js:51-70 | the ranks order the seven scopes as they are listed, widest first |
| AccessDecisions.DecidedBy | src/access.js:130-200 | the stored policy that speaks last (the person, else the team listed last, else the role listed last) decides a permission, its restriction beating its grant |
| AccessDecisions.DecidedByDefaults | src/access.js:168-171 | where no stored policy mentions a permission the role defaults decide it and nothing restricts it |
| AccessDecisions.ScopeRecorded | src/access.js:174-200 | the scope of a module is the one the person's stored policy gives, else the widest of the teams', else the widest of the roles', else none |
| AccessDecisions.AdmittedExactly | src/access.js:281-335 | the row predicate, said of stored policies, record grants and row: nothing bars the case, and the last grant on some target of it hands it over or the permission may be used and the recorded scope takes it in |
| AccessDecisions.ByDefault | src/access.js:72-77 | without a recorded scope clients reach their own clients' cases and staff every case, restrictions and the permission itself apart |
| AccessDecisions.ByOwnScope | src/access.js:194-200 | the scope the person's own policy gives is the one that counts, each scope with its own reach |
| AccessDecisions.OwnerSeesAll | src/access.js:18 | the owner role, the wildcard and the internal principal are outside the system: every case, on its page and in the listing |
| AccessDecisions.WildcardRestricted | src/access.js:263-267 | a permission the last word restricts is refused even to someone who holds the wildcard |
| AccessDecisions.ListedExactly | src/access.js:385-434 | the listing query, end to end and said of the request and the row: what the row predicate admits, but for a case without a client where a client is restricted, one without a code where a code is, and one assigned by the label alone |
| IntakeLink.Link.ReadIntakeLinkForClient | career-gate/lib/client-intake-link.ts:165-178 | the page opens if and only if the token is the one of this link and a claim would be accepted or is refused only because another is at work; a token of the wrong shape or digest is unknown |
| IntakeLink.Link.ClaimUpdate | career-gate/lib/client-intake-link.ts:204-215 | the claiming UPDATE changes the row if and only if the link is unexpired and active or stale |
| IntakeLink.Link.ClaimIntakeLink | career-gate/lib/client-intake-link.ts:195-265 | an undisturbed claim: the exact condition of each answer, unknown tokens included, and a failed check leaves the link released |
| IntakeLink.Link.FinalizeIntakeLink | career-gate/lib/client-intake-link.ts:268-278 | a processing link becomes used for this case at this time, any other stays; true if and only if the link ends up used for this very case |
| IntakeLink.Link.ReleaseIntakeLink | career-gate/lib/client-intake-link.ts:281-286 | only an unexpired processing link goes back to active |
| IntakeLink.Link.RevokeIntakeLink | career-gate/lib/client-intake-link.ts:117-133 | a used or revoked link stays as it is; any other becomes revoked, with the time, without a start time, and otherwise unchanged |
| IntakeLink.TokenShape | career-gate/lib/client-intake-link.ts:62-65 | a token is 32 to 128 letters, digits, hyphens and underscores |
| IntakeLink.StatementsConsistent | career-gate/lib/client-intake-link.ts:195-286 | every statement keeps: the start time is present exactly while processing, a used link has a case and a time |
| IntakeProtocol.RunInv | career-gate/lib/client-intake-link.ts:195-286 | the invariant of the interleaved protocol over every run of any number of attempts |
| IntakeProtocol.TerminalAbsorbing | career-gate/lib/client-intake-link.ts:117-133 | a used or revoked link never changes again |
| IntakeProtocol.RevokedForGood | career-gate/lib/client-intake-link.ts:117-133 | in every run: from a revocation on the row is the revoked one, or the closed one it was, and no later claim succeeds |
| IntakeProtocol.NothingUnchecked | career-gate/lib/client-intake-link.ts:195-265 | in every run nothing is staged, uploaded or finalised but by an attempt that claimed the link and then passed the check of issuer and target |
| IntakeProtocol.FinalizedAgree | career-gate/lib/client-intake-link.ts:268-278 | all finalisations that report success name the same case, the one the link is closed against |
| IntakeProtocol.OneStagedCase | career-gate/lib/smart-client-mobile.ts:379-533 | under the key of a link at most one case exists at a time, every case created was rolled back or exists, and the case of a used link is never rolled back |
| IntakeProtocol.ClaimsSeparated | career-gate/lib/client-intake-link.ts:204-215 | two successful claims are separated by a release or recorded times more than fifteen minutes apart, in every interleaving |
| IntakeProtocol.OneClaimEach | career-gate/lib/client-intake-link.ts:195-215 | in every run an attempt claims the link at most once: whoever released it, failed or stopped is done with it |
| IntakeProtocol.OverStays | career-gate/lib/client-intake-link.ts:268-286 | an attempt that ended or finished stays as it is |
| IntakeProtocol.ReleaseExactly | career-gate/lib/client-intake-link.ts:281-286 | a release takes effect if and only if it changes the link, and ends the attempt either way |
| IntakeProtocol.TargetStaged | career-gate/lib/smart-client-mobile.ts:379-533 | staging into an existing case succeeds if and only if the link is being processed or was used for that case, and leaves it used for it |
| IntakeProtocol.ClaimableExactly | career-gate/lib/client-intake-link.ts:204-215 | a link is claimable if and only if it is open, unexpired and not held within the last fifteen minutes |
| IntakeProtocol.RecoveryCompletes | career-gate/lib/client-intake-link.ts:67-76 | after any history a new attempt that claims and meets no failure closes the link against the case already staged, if there is one |
| IntakeProtocol.AfterExpiry | career-gate/lib/client-intake-link.ts:281-286 | after expiry any change enters a terminal state |
| IntakeProtocol.ExclusiveStep | career-gate/lib/client-intake-link.ts:187-194 | exclusive ownership is lost in a step if and only if the step claims a link whose live holder is older than fifteen minutes |
| IntakeProtocol.ExclusiveWhenPrompt | career-gate/lib/client-intake-link.ts:187-194 | so it holds throughout every run in which no claim meets such a holder |
| IntakeProtocol.OwnershipLost | career-gate/lib/client-intake-link.ts:281-286 | and it is really lost otherwise: a superseded attempt releases the link of its successor, and a third claims it two milliseconds after the second |
| DocumentExtraction.ExtractionRun.ClaimDocumentExtraction | src/server.js:167-171 | an undisturbed claim succeeds if and only if the run is found, unexpired, and pending or stale |
| DocumentExtraction.ExtractionRun.Swap | src/server.js:170 | the conditional update: it matches the status and update time that were read |
| DocumentExtraction.ExtractionRun.ReleaseDocumentExtraction | src/server.js:178 | only a run under review goes back to pending, with a new update time |
| DocumentExtraction.ReopensExactly | src/server.js:167-178 | a released run is open at once until it expires, an abandoned one exactly from five minutes on until it expires |
| ExtractionProtocol.GuardHoldsAtSwap | src/server.js:172-177 | the guard evaluated at the read still holds of the row at a successful swap, whatever happened between |
| ExtractionProtocol.ClaimsSeparated | src/server.js:167-178 | two successful claims are separated by a release or their times are at least five minutes apart |
| ExtractionProtocol.OneOfTheReaders | src/server.js:170 | of all who read one state at most one claims it, unless a release intervenes |
| ExtractionProtocol.CommittedOnce | src/server.js:167-178 | although leases can overlap the verified fields are committed at most once |
| ExtractionProtocol.CommitsExactly | src/server.js:167-178 | a commit takes effect if and only if a holder makes it on an unexpired run under review, which is then confirmed |
| ExtractionProtocol.Over | src/server.js:167-178 | a refused reader, and whoever committed or released, is done with the run |
| ExtractionProtocol.LeaseLost | src/server.js:178 | a superseded holder can release the run another one holds |
| ExtractionProtocol.ExclusiveStep | src/server.js:167-178 | exclusive holding, each live holder the one recorded, is lost in a step if and only if the step claims a run whose live holder is five minutes old or older |
| ExtractionProtocol.ExclusiveWhenPrompt | src/server.js:167-178 | so it holds throughout every run in which no claim meets such a holder |
| Accounting.Account.ReconcileAccount | career-gate/lib/accounting-ledger.ts:28-128 | the settlement of the account in place equals `Settle`, with the block reason reported exactly when the view says paid |
| Accounting.Account.DeriveCommission | career-gate/lib/accounting-ledger.ts:71-125 | a paid account with a completer and a rule in force gets its one commission, any other has its live commissions reversed |
| Accounting.Account.RecordTransaction | career-gate/app/api/staff/accounting/route.ts:84-160 | a ledger entry: refused with the right error (method, link, direction, receipt, payment, refund bound, a key of another account), recognised by its key, or appended, and then settled |
| Accounting.Account.RecordApplicationCompletion | career-gate/lib/accounting-ledger.ts:146-188 | completion with the guard of the database, then settlement |
| Accounting.Account.ApplyAccountDiscount | career-gate/lib/accounting-ledger.ts:210-252 | discount with its error cases in order, then settlement |
| Accounting.ReverseAll | career-gate/lib/accounting-ledger.ts:116-119 | commission by commission, none lost and none moved |
| Settlement.PaidMeansNothingOwed | career-gate/supabase/migrations/033_application_completion_commission_ownership.sql:126-163 | after settlement the stored status and the balance view both say paid if and only if nothing is owed |
| Settlement.RefundedStays | career-gate/lib/accounting-ledger.ts:43-51 | a settlement for another reason does not turn a refunded account with nothing to its credit into a pending one |
| Settlement.SettleTwice | career-gate/lib/accounting-ledger.ts:28-128 | settlement is a fixpoint: settling again on unchanged books changes nothing |
| Settlement.PercentageWithinFee | career-gate/lib/accounting-ledger.ts:226-236 | a percentage discount lies between zero and the fee and within half a cent of the exact amount |
| Settlement.PercentageNeverExceeds | career-gate/lib/accounting-ledger.ts:238 | the exceeds-fee error is unreachable for percentages |
| Settlement.DiscountExactly | career-gate/lib/accounting-ledger.ts:226-236 | the stored discount is the entered amount or the percentage of the fee, to the nearest cent, half a cent up |
| Settlement.CommissionExactly | career-gate/lib/accounting-commission.ts:42-46 | a percentage commission is that share of the net fee to the nearest cent, half a cent up, a fixed one its amount |
| Settlement.CommissionWithinFee | career-gate/lib/accounting-commission.ts:42-46 | a percentage of at most the whole never exceeds the net fee, rounding included |
| Settlement.EveryRun | career-gate/lib/accounting-ledger.ts:74-125 | in every run at most one commission exists, none is live on an unpaid account, a live one belongs to the completer on record, and the net fee is never negative |
| Settlement.CommissionFinal | career-gate/lib/accounting-ledger.ts:93-114 | in every run a commission keeps owner, amount, basis and rule version, and a dead one stays as it is |
| Settlement.CreatedForCompleter | career-gate/lib/accounting-commission.ts:31-36 | a commission appears only on a paid account, for the completer on record, on the net fee and of the amount the rule then in force gives, within half a cent |
| Settlement.ReversedStaysReversed | career-gate/lib/accounting-ledger.ts:93-119 | a reversed commission stays reversed even if the account is paid again |
| Settlement.CompletionCommutes | career-gate/lib/accounting-ledger.ts:140-188 | payment then completion and completion then payment give the same books and the same commission, but for the date it became eligible on |
| Settlement.EntryMovesBalance | career-gate/app/api/staff/accounting/route.ts:113-130 | a refund or debit adjustment raises the balance by its amount, any other new entry lowers it, a known key leaves it |
| Settlement.ReplayIdempotent | career-gate/app/api/staff/accounting/route.ts:117-138 | an entry sent again, where accepted, changes nothing |
| AccountRules.BalanceExactly | career-gate/supabase/migrations/033_application_completion_commission_ownership.sql:126-154 | the balance is the fee less the discount, less all confirmed credits, plus all confirmed debits |
| AccountRules.ViewExactly | career-gate/supabase/migrations/033_application_completion_commission_ownership.sql:155-162 | each status of the view, by what stands to the credit of the account |
| AccountRules.StatusExactly | career-gate/lib/accounting-ledger.ts:43-51 | the status a settlement stores: paid if nothing is owed, refunded if nothing stands to the credit and a refund is or was recorded, else pending |
| AccountRules.CommissionsExactly | career-gate/lib/accounting-ledger.ts:71-125 | what a settlement makes of the commissions: those that count reversed on an account that owes, the first one created on a paid account, with owner, basis, amount, rule version and date |
| AccountRules.RecordRefusedExactly | career-gate/app/api/staff/accounting/route.ts:84-141 | an entry is refused for a reason if and only if that reason speaks against it and none looked for earlier does |
| AccountRules.RecordAcceptedExactly | career-gate/app/api/staff/accounting/route.ts:84-141 | and accepted if and only if none does |
| AccountRules.RecordedExactly | career-gate/app/api/staff/accounting/route.ts:113-157 | what a recorded entry leaves: the ledger row with its direction, means and date of a payment, receipt, and the status |
| AccountRules.CompletionRefusedExactly | career-gate/supabase/migrations/033_application_completion_commission_ownership.sql:54-72 | a completion is refused if and only if the person is not active staff or another completer has a commission that counts |
| AccountRules.CompletedExactly | career-gate/lib/accounting-ledger.ts:146-188 | what a recorded completion leaves |
| AccountRules.DiscountRefusedExactly | career-gate/lib/accounting-ledger.ts:219-239 | each reason to refuse a discount, exactly, by the amount it comes to |
| AccountRules.DiscountedExactly | career-gate/lib/accounting-ledger.ts:226-252 | what an accepted discount leaves |
| AccountRules.MovedExactly | career-gate/app/api/staff/accounting/route.ts:191-200 | the five moves staff can make with a commission, and no other |
| AccountRules.AroundExactly | career-gate/app/api/staff/accounting/route.ts:122-141 | rules, staff, documents and the keys of other accounts change around an account without touching its ledger |
| LedgerView.ReplayAccepted | career-gate/app/api/staff/accounting/route.ts:105-111 | an entry sent again is accepted unless it is a refund, new the first time, that the payment could not bear twice: if and only if |
| LedgerView.ReplayRefused | career-gate/app/api/staff/accounting/route.ts:105-111 | and that is reached: paid in full, refunded in full, the refund sent again |
| LedgerView.LastIsNetCredits | career-gate/lib/accounting-ledger-read.ts:92-96 | the last running sum is the net credits the balance is computed from |
| LedgerView.BackdatedShift | career-gate/lib/accounting-ledger-read.ts:92-96 | a new entry, backdated or not, leaves the earlier rows alone and shifts every later row by exactly its signed amount, by nothing if unconfirmed |
| LedgerView.AppendCovered | career-gate/app/api/staff/accounting/route.ts:97-112 | a recorded entry keeps every payment refunded within its amount |
| LedgerView.RefundableNeverNegative | career-gate/lib/accounting-ledger-read.ts:82-91 | in every run no payment is refunded beyond its amount, so what remains refundable is never clamped |
| CanonicalJson.PrintDecides | src/server.js:545 | two JSON values print alike if and only if they are equal up to the order of object keys, at any depth |
| CanonicalJson.NormalPrints | src/server.js:545 | a value and its normal form print alike |
| CanonicalJson.RoundTrip | src/server.js:545 | the canonical text is a JSON text by the grammar of RFC 8259, and reading it gives the value back in normal form |
| CanonicalJson.SurroundedExactly | src/server.js:545 | white space about the canonical text makes no difference; with anything else behind it there is no JSON text |
| CanonicalJson.ReadPrinted | src/server.js:545 | a normal value reads back from its text whatever delimited text follows |
| JsonStrings.ReadEscaped | src/server.js:545 | a string reads back from its escaped units, surrogate pairs, lone surrogates and control characters included |
| KeyOrder.SortOrdered | src/server.js:545 | sorting by code units gives strictly increasing keys |
| KeyOrder.OrderedUnique | src/server.js:545 | members with distinct keys have one sorted order |
| KeyOrder.BeforeExactly | src/server.js:545 | one key comes before another where they part with the smaller code unit, or ends where the other goes on |
| Json.NumberExactly | src/server.js:545 | the numbers the printer is handed are those of section 6 of RFC 8259, part by part |
| JsonText.Signs | src/server.js:545 | the brackets, braces, quotation mark, comma, colon and the three words of JSON |
| JsonText.ShortWritten | src/server.js:545 | the seven units with an escape of two letters, and the letters |
| JsonText.LongWritten | src/server.js:545 | other controls and lone surrogates are written as four hexadecimal digits |
| JsonText.PairWritten | src/server.js:545 | a surrogate pair is written as it stands |
| JsonText.PlainWritten | src/server.js:545 | any other unit is written as it is |
| JsonText.TextWritten | src/server.js:545 | a text is written piece by piece |
| JsonText.WordsWritten | src/server.js:545 | null, undefined and what is not finite are written null, numbers as their digits |
| JsonText.ArrayWritten | src/server.js:545 | a list is its items in order, between brackets, with commas |
| JsonText.ObjectWritten | src/server.js:545 | an object begins with the member of the least key, wherever it was listed, and goes on with the others |
| CaseReview.KeyIsIdentity | src/server.js:333-338 | two findings share a deterministic key if and only if form, field and rule are each equal or blank on both sides, category and engine are equal (a blank engine being form readiness), and for a conflict between forms the same sources are listed, in any order |
| CaseReview.ConflictOrderIrrelevant | src/server.js:334 | the order in which a conflict lists its sources does not matter |
| CaseFindings.LastByKey | src/server.js:365 | the desired findings: one a key, the last computed |
| CaseFindings.DesiredExactly | src/server.js:365 | a key is desired if and only if some finding has it, with the fingerprint of the last that does |
| CaseFindings.FindingTable.ResolveStale | src/server.js:366-370 | the walk over the open findings keeps one wanted finding a key and resolves all others, duplicates included |
| CaseFindings.FindingTable.InsertOpen | src/server.js:372-374 | an insert is answered with a conflict if and only if the key is open |
| CaseFindings.FindingTable.InsertMissing | src/server.js:371-374 | inserting what is missing completes the reconciliation and meets no conflict |
| CaseFindings.FindingTable.PersistReview | src/server.js:339-378 | after a persisted review the open deterministic findings are exactly one a desired key with the desired fingerprint if and only if the case has forms or they already were; nothing else is touched, and a second review writes nothing |
| CaseFindings.FormlessReview | src/server.js:339-341 | a case that has lost its forms: the review leaves the finding of a form that is gone open |
| ReviewProtocol.RunInv | src/server.js:364-376 | the invariant of overlapping reviews of one case: at most one open finding a key, and what each review has still to do is enough |
| ReviewProtocol.StatementsExactly | src/server.js:366-374 | the two statements of a review: an open row is resolved and nothing else, a finding is stored open at the end unless its key is open already |
| ReviewProtocol.CanFinish | src/server.js:364-376 | from whatever state others leave, a review can finish on its own, with one statement for each thing it has still to do |
| ReviewProtocol.ConcurrentReviews | src/server.js:364-376 | any number of reviews of the same data may interleave: once one has finished the findings are reconciled and stay so, whatever the others still do |
| ReviewProtocol.OverlapLosesUpdate | src/server.js:374 | if the data change between two overlapping reviews the later one can finish and leave the outdated finding open, its own insert having met the conflict it ignores |
| ReviewProtocol.InsertHoldsExactly | src/server.js:372-374 | a review's insert leaves its finding wanted if and only if every open finding of the key has its fingerprint |
| ReviewProtocol.UndercutExactly | src/server.js:364-376 | whatever the data, a step of another review takes away what this one counts on if and only if it resolves a finding this one wants and does not mean to insert, or stores one on an uncovered key that this one does not want |
| ReviewProtocol.FinishedExactly | src/server.js:364-376 | a finished review is reconciled if and only if what it counts on is still there |
| ReviewProtocol.ReconciledUnlessUndercut | src/server.js:364-376 | in every run of reviews of any data a finished review is reconciled at the end unless some step undercut it |
| ReviewProtocol.BreakingStep | src/server.js:364-376 | a step takes the reconciliation of a finished review away if and only if it undercuts it |
| CaseFindings.ChangeAfterFinalResolved | src/server.js:524-525 | the finding about a change after finalisation is in no desired set, so the next persisted review resolves it |
| FormSuggestions.AcceptedExactly | src/forms-engine.js:18-28 | a value draws no complaint if and only if it is absent, or of the kind of its field and within the length bounds |
| FormSuggestions.BuildCanonicalSuggestions | src/forms-engine.js:30-35 | the loop over the fields computes `Suggestions` |
| FormSuggestions.HighestRevision | src/forms-engine.js:32-33 | a field is suggested the current fact for the text after the last dot of its canonical path with the highest revision, the first listed of several, and nothing if and only if there is none |
| FormSuggestions.LeafExactly | src/forms-engine.js:33 | the leaf is the dot-free text after the last dot, the whole path if it has none |
| FormSuggestions.ErrorsExactly | src/forms-engine.js:18-28 | an absent value draws no complaint; any other draws exactly those that apply, in order |
| FormSuggestions.DateExactly | src/forms-engine.js:21 | a text is a date if and only if it writes a day of the calendar, leap years included |
| FormSuggestions.AbsentExactly | src/forms-engine.js:7 | a value is absent if it is missing, null, an empty list, or a text of white space alone |
| FormSuggestions.SuggestedExactly | src/forms-engine.js:30-35 | the whole suggestion of a field: value, fact, revision, conflict mark and complaints |
| FormSync.FormInstance.StoreAnswer | src/server.js:522 | an answer is stored if and only if the revision read is still there, or the path is still free |
| FormSync.FormInstance.StoreAll | src/server.js:522 | the loop conflicts if and only if two suggestions change one path; it stores exactly the suggestions before the conflict, all of them if there is none |
| FormSync.FormInstance.Synchronize | src/server.js:517-530 | the whole synchronisation of a form: answers, draft status or open finding, and artifacts wanting review; after a conflict the answers stored before it and nothing else |
| FormSync.SynchronizeForms | src/server.js:517-530 | every form of a subject, up to the first that conflicts: what each form is left with, the conflicting one included, and exactly which are reported with which paths |
| FormSync.ChangeFollows | src/server.js:524-527 | a synchronisation that changes no path leaves the form as it is; otherwise no artifact but a final one counts as reviewed, a final form stays final with the finding raised, and any other is a draft again |
| FormSync.StoredAt | src/server.js:522 | the revision rises by exactly one on a changed answer, and an untouched answer stays |
| FormSync.SyncExactly | src/server.js:520-523 | every changing suggestion ends up stored with its provenance and next revision, every other answer as before |
| FormSync.SettlesExactly | src/server.js:520-523 | a synchronisation leaves nothing for the next if and only if the eligible suggestions for one path agree on fact and value; otherwise none ever does |
| FormSync.SyncIdempotent | src/server.js:517-530 | with unique field paths there is no conflict and running again changes nothing |
| FormSync.FieldHoldsItsFact | src/server.js:520-522 | with unique field paths each field whose chosen fact the form may hold ends with it, provenance, revision and author included, and every other path holds what it held |
| FormSync.ReportedExactly | src/server.js:522-528 | with unique field paths the paths reported are those of the fields whose chosen fact the form may hold and does not hold yet |
| FormSync.SuggestedInOrder | src/forms-engine.js:32-35 | the suggestions are those of the fields, one each, in the order of the fields |
| FormSync.PathConflict | src/server.js:522 | two fields of one path do conflict on an empty form |
| FormSync.NeverSettles | src/server.js:520-523 | and on a form that holds the fact of one, a synchronisation leaves the next one something to change |
| AnswerProtocol.NoLostUpdate | src/server.js:517-522 | however synchronisations and staff edits of one form interleave, every accepted write overwrites exactly the answer its writer had been shown, which is the write accepted before it; the revision counts the writes |
| AnswerProtocol.AcceptedIfUnchanged | src/server.js:1305-1307 | a write is accepted if and only if the whole answer is still the one shown, although only revisions are compared |
| AnswerProtocol.CheckedIfUnchanged | src/server.js:1305 | the request of a staff edit goes on if and only if the answer is the one on the screen, and changes nothing yet |
| AnswerProtocol.RefusedExactly | src/server.js:1305-1307 | a write is refused if and only if another write of the path was accepted after its writer had looked |
| AnswerProtocol.Undisturbed | src/server.js:522 | a synchronisation nobody interferes with leaves the answers of the sequential loop, up to its first conflict |
| BulkImport.Import.ImportRow | src/server.js:539 | one row against the database: client found or created, case matched, created or fetched, with every place it can fail |
| BulkImport.Import.ProcessImport | src/server.js:536-541 | the loop over the batch computes `Finished`, and the batch is complete if and only if no row failed |
| BulkImport.ClientsExactly | src/server.js:539 | one row: a client is stored, counted and cached if and only if the row gets as far as a client and refers to no stored one |
| BulkImport.CasesExactly | src/server.js:539 | one row: a case is stored if and only if the row gets as far as a client, asks for a case and has none, and the statement does not fail |
| BulkImport.RowExactly | src/server.js:538-539 | one row: what it ends as, with which client and case, and what is counted |
| BulkImport.SeededLast | src/server.js:537 | the client known for an identity at the start is that of the last row with one recorded |
| BulkImport.RunBooks | src/server.js:537-540 | processed and failed add up to the rows, each row ends completed, skipped or failed, closed rows stay, and every client and case stored is counted or left over by a failed row |
| BulkImport.OneClientAnIdentity | src/server.js:537-539 | in one run at most one client is created for an identity, and none for one that had a result |
| BulkImport.RetryDuplicates | src/server.js:537-539 | a retry creates a client for an identity only where the run before left every row of it failed or skipped with no client recorded |
| BulkImport.RetryDuplicate | src/server.js:539 | it does: the client is stored, the case fails, and the retry stores a second client |
| ImportRetry.MadeExactly | src/server.js:537-539 | a run creates a client for an identity if and only if no row of it has a client recorded and the first row of it to get as far as a client refers to none, whatever others store meanwhile |
| ImportRetry.ArrivalsStay | src/server.js:536-539 | what others store beside a run is there when the run goes on |
| ImportRetry.RunsMore | src/server.js:536-541 | every further run is the loop over the rows the runs before it left |
| ImportRetry.RetryDuplicatesExactly | src/server.js:537-539 | first run and retry both create a client for an identity if and only if that condition holds of the batch and of the rows the first run left |
| ImportRetry.OverlapDuplicatesExactly | src/server.js:536-539 | two overlapping runs of one batch, interleaved in any way, both create a client if and only if each would alone |
| ImportRetry.OverlapDuplicate | src/server.js:537 | one row, no failure, two runs: two clients |
| ImportRetry.OneClientForever | src/server.js:537-539 | if review chose no client for an identity all its results are one client after any number of runs, and it stays the one recorded first |
| BulkImport.ResultsRight | src/server.js:539 | every row the run completes has the client chosen for it in review and the case known, matched or newly created for it |
| BulkImport.IdentityKeepsItsClient | src/server.js:537-539 | one run: if review chose no client for an identity all its results are one client afterwards, the recorded one if there was one |
| ClientIdentity.SharedIdentity | src/server.js:535 | two rows count as one person if and only if their first numbers are equal, of whatever kind, or neither has one and name, birth date and contact agree, or a vertical bar moves text between columns |
| ClientIdentity.SharedExactly | src/server.js:535 | for all texts: the columns that identify the rows, cut at vertical bars and put in a row, are the same list |
| ClientIdentity.CrossKindCollision | src/server.js:535 | one person's alien number is another's passport number: one identity, nothing else shared |
| ClientIdentity.BarCollision | src/server.js:535 | a bar in a name: one identity, nothing shared |
| Audit.AlertTable.RaiseFindings | career-gate/lib/audit.ts:161-181 | the findings of one rule, in any order: which alerts are written, and the count of new ones |
| Audit.AlertTable.ClearStale | career-gate/lib/audit.ts:182-190 | exactly the open alerts in scope whose client was not hit are resolved, keeping their evidence |
| Audit.AlertTable.RunRule | career-gate/lib/audit.ts:159-190 | both together are the scan of one rule |
| Audit.AlertTable.RunAudit | career-gate/lib/audit.ts:155-193 | the whole scan equals `Scan`, and the counters and the resolved alerts are exactly the difference of the open alerts |
| Audit.AlertTable.IgnoreAlert | career-gate/lib/actions.ts:888-896 | an open alert becomes ignored with the evidence it shows |
| Audit.FullScan | career-gate/lib/audit.ts:155-193 | after a full scan an alert is open for exactly the clients flagged now, but for ignored evidence, and where it shows other evidence than the current one |
| Audit.SecondScanIdle | career-gate/lib/audit.ts:155-193 | a second scan changes nothing |
| Audit.ScannedTwice | career-gate/lib/audit.ts:159-190 | scanning some alerts and then others is scanning them together, counters and resolved alerts included |
| Audit.OneByOne | career-gate/lib/audit.ts:155-193 | scanning all clients one by one, in any order and repeatedly, gives the alerts and the counts of one full scan |
| Audit.DecisionsExactly | career-gate/lib/actions.ts:888-896 | what resolving and ignoring an alert leave: this alert closed, its evidence remembered if it was ignored, no other touched |
| Audit.IgnoredNeverReopens | career-gate/lib/audit.ts:166-168 | in every run of scans and staff decisions no open alert shows evidence that was ignored |
| Audit.OutdatedExactly | career-gate/lib/audit.ts:162-173 | an open alert shows outdated evidence after a full scan if and only if the current evidence was ignored |
| Audit.OutdatedAlert | career-gate/lib/audit.ts:162-173 | and that is reached: evidence is ignored, changes, and changes back |
| LoginThrottle.Throttle.ConsumeLoginAttempt | src/auth.js:131-142 | one attempt in place: the new map, and whether the attempt is accepted |
| LoginThrottle.Throttle.ClearLoginAttempts | src/auth.js:144-146 | exactly the entry of the key goes |
| LoginThrottle.Throttle.ResetLoginThrottle | src/auth.js:148-150 | nothing is left |
| LoginThrottle.StepValid | src/auth.js:131-146 | after every call the map holds at most ten thousand entries, in step with its insertion order |
| LoginThrottle.ConsumedExactly | src/auth.js:131-142 | what an attempt leaves: a new window or one more in the open one, and every other entry but the oldest of a full map |
| LoginThrottle.OrderIsEntryOrder | src/auth.js:134-136 | in every run the map lists its keys in the order they entered it |
| LoginThrottle.EvictedLate | src/auth.js:135-136 | a key is evicted only when ten thousand other keys have entered since and are all still there |
| LoginThrottle.AtMostFifteen | src/auth.js:131-141 | with a clock that does not go back, a key neither cleared nor evicted has at most fifteen attempts accepted in any closed interval of window length |
| LoginThrottle.FifteenReached | src/auth.js:131-141 | fifteen is reached |
| DocumentMerge.ReadDocument | career-gate/lib/client-intake-extraction.ts:59-91 | one document: fields seen, usable items, reasons and warnings |
| DocumentMerge.MergeIntakeDocumentSuggestions | career-gate/lib/client-intake-extraction.ts:51-124 | the nested loops compute `Merged` |
| DocumentMerge.ImportedExactly | career-gate/lib/client-intake-extraction.ts:99-114 | a field is filled in if and only if there are usable texts, all agree up to case and are confident, no document spoils it and the applicant is clear; filled-in and review fields partition the fields mentioned |
| DocumentMerge.ReasonsExactly | career-gate/lib/client-intake-extraction.ts:51-114 | the reason shown for every field, or that there is none: unclear applicant, disagreeing texts, what the last spoiling document did, low confidence, in that order |
| DocumentMerge.WarningsExactly | career-gate/lib/client-intake-extraction.ts:59-123 | one warning a document that is not about one applicant, in order, at the end the one about different applicants; both lists of fields in field order |
| DocumentMerge.FieldsNamed | career-gate/lib/client-intake-fields.ts:8-31 | the fields and their order, and which of them identify the applicant |
| DocumentMerge.SourcesExactly | career-gate/lib/client-intake-extraction.ts:102 | the sources of a field are the documents with a usable text for it, each once, in the order they are first named |
| DocumentMerge.NothingMixed | career-gate/lib/client-intake-extraction.ts:93-97 | nothing is filled in when the documents disagree about the applicant |
| DocumentMerge.OrderIrrelevant | career-gate/lib/client-intake-extraction.ts:51-124 | the order of the documents changes neither which fields are filled in or left to review nor, up to case, with what |

## Left out

- Access.CanAccessCase: ids are compared as equal or not; case-insensitive uuids, text trimming of stored policies and the text of the query string are not modelled.
- AccessResolver.ResolveAccess: the default permissions of each role are an arbitrary table.
- IntakeLink.Link.ClaimIntakeLink: the digest of a token is an arbitrary function, and one link stands for the table; that other links have other digests is not modelled.
- IntakeProtocol.RecoveryCompletes: what is staged (draft, evidence, files, duplicate detection) is not modelled; only that a case is found or created under the key of the link, rolled back after a failed upload, and referred to.
- DocumentExtraction.ExtractionRun.ClaimDocumentExtraction: the run's content, and the database function that commits the verified fields beyond its guard.
- Accounting.Account.RecordTransaction: references and activity log rows.
- AccountRules.MovedExactly: moving a commission by hand also asks for a reason or a payment reference and passes through a `pending` state; neither is modelled.
- Accounting.Account.ReconcileAccount: the lifecycle synchronisation after a payment and the projection's audit columns; fee changes outside settlement.
- CaseFindings.FindingTable.PersistReview: how the findings are computed from forms, rules and readiness; the desired findings are arbitrary.
- FormSync.FormInstance.Synchronize: answers are compared as JSON values with ordered members, as the serialiser compares them.
- AnswerProtocol.NoLostUpdate: one form; the fields a write sets besides its revision are arbitrary, and a request that fails before it stores is a writer that stops.
- ReviewProtocol.ConcurrentReviews: the stored findings change by reviews alone while they overlap; staff decisions on findings and the synchronisation's own finding are not interleaved.
- BulkImport.Import.ProcessImport: statements that record progress are taken to succeed, and the progress shown every 25 rows is omitted. Loading, normalising and analysing rows is not modelled.
- ImportRetry.OverlapDuplicatesExactly: of a run that overlaps only what it stores is seen by the other; the row results they both write are not merged.
- Audit.AlertTable.RunAudit: the queries of the rules are arbitrary verdicts, at most one a client and rule, unchanged during a scan; severity and texts of an alert are omitted.
- LoginThrottle.Throttle.ConsumeLoginAttempt: the counter shared by all replicas in the database is not part of this model.
- DocumentMerge.MergeIntakeDocumentSuggestions: normalising a field and lower-casing are parameters.
- HTTP routing, sessions, row-level security, triggers other than the completion guard, storage, PDF and OCR, e-mail and the user interface.
- The workflow graph, passport and asylum routing, catalogue validation, report aggregation and text cleaners: finite tables or single-branch decisions.
