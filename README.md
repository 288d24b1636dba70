# CampusCoin, Token and the mutation dashboard, in Dafny

This project models three parts of the hardhat-tutorial repository and proves
properties of them.

- **The CampusCoin ledger** (`campus_coin.dfy`). This is a permissioned token.
  One administrator registers students and service providers. Tokens move only
  to students: by transfer, by delegated transfer (`transferFrom`) or by mint.
  A student can also pay a service provider; 1% of the payment, rounded down,
  goes to the university treasury. The Solidity contract is not in the
  repository. Its behaviour is therefore taken from what the mutation-hardened
  suite `CampusCoin-ImprovedMS.js` asserts. `campus_coin_suite.dfy` replays
  that suite, step by step, against the model, with the suite's expectations
  as verified assertions.
- **The fixed-supply Token** (`token.dfy`). Deployment creates 1,000,000 units
  for the deployer, who is the owner. Any holder may transfer what they hold,
  and each transfer emits a `Transfer` event. `TransactionsScenario` replays
  `FullMutationSuite-Token.js`.
- **The dashboard helpers of `script.js`** (`markup.dfy`, `report.dfy`,
  `csv.dfy`, on top of `strings.dfy`):
  - `escapeHtml` and `highlightDiff`;
  - the per-contract status tallies and the "N/A" score rule;
  - the row filter `filterMutants`;
  - the summary accumulation of `loadSummary`;
  - the two CSV downloads with their `escapeCSV` helper.

  The loops of `loadSummary`, `downloadAllCSV` and `downloadContractCSV` are
  methods with loops. Each is proved equal to a function of its input, and the
  properties are proved about that function. The details CSV is proved to read
  back, line by line and field by field, through an RFC 4180 reader (section 2
  of RFC 4180: quoted fields, a doubled quote inside a quoted field).

Both ledgers share `accounts.dfy`, which has three parts:
- balances as maps with default 0;
- a ghost `Sum` over a balance map;
- `Credit` and `Debit`, whose contracts state their exact effect on `Sum`.

Each ledger class has a `Valid()` invariant that every method keeps: the
balances add up to the total supply. Each state-changing method states its
whole new state:
- on success, an explicit update of the old state;
- on revert, `unchanged(this)`, because a reverted transaction commits nothing.

## Model

| member | source | states |
|---|---|---|
| Accounts.Credit | CampusCoin/TestSuites/CampusCoin-ImprovedMS.js:67-74 | Crediting n raises that account by exactly n and leaves every other account alone. The sum of all balances rises by n. |
| Accounts.Debit | CampusCoin/TestSuites/CampusCoin-ImprovedMS.js:89-93 | Debiting n (at most the balance) lowers that account by exactly n and leaves every other account alone. The sum of all balances falls by n. |
| Accounts.SumRemove | Token/testSuites/FullMutationSuite-Token.js:52-58 | The sum of a balance map is one account's balance plus the sum of the others. |
| Accounts.EntryBelowSum | Token/testSuites/FullMutationSuite-Token.js:52-58 | No account holds more than the sum of all balances. |
| Accounts.WholeSupplyLeavesNothing | Token/testSuites/FullMutationSuite-Token.js:52-58 | An account that holds the whole sum of a balance map leaves zero on every other account, as the suite checks for the owner's full supply. |
| Accounts.SumUpdate | Token/testSuites/FullMutationSuite-Token.js:62-84 | Setting one account's balance changes the sum by exactly the difference. |
| Accounts.MoveConserves | Token/testSuites/FullMutationSuite-Token.js:68-83 | Moving n units between two accounts keeps the sum of all balances. A move to oneself changes nothing. |
| CampusCoin.TreasuryFee | CampusCoin/TestSuites/CampusCoin-ImprovedMS.js:207-222 | The fee is 1% of the amount rounded down: 100·fee ≤ amount < 100·(fee+1). |
| CampusCoin.ProviderShare | CampusCoin/TestSuites/CampusCoin-ImprovedMS.js:207-222 | The provider's share and the fee add up to the amount paid. The share is at least 99% of it. |
| CampusCoin.SmallPaymentHasNoFee | CampusCoin/TestSuites/CampusCoin-ImprovedMS.js:207-222 | Below 100 units (the suite pays 1) the fee is 0 and the provider receives the whole amount. |
| CampusCoin.RevertReason | CampusCoin/TestSuites/CampusCoin-ImprovedMS.js:53-57 | The revert string of each error the suite asserts, and none for the two paths no test reaches. CampusCoin.RevertReasonIdentifiesError states its property. |
| CampusCoin.RevertReasonIdentifiesError | CampusCoin/TestSuites/CampusCoin-ImprovedMS.js:36 | The revert strings the suite expects ("Only admin can call this", "Provider not found" and so on) each belong to exactly one error, so CampusCoin.RevertReason tells the errors apart as `revertedWith` does. |
| CampusCoin.Ledger.BalanceOf | CampusCoin/TestSuites/CampusCoin-ImprovedMS.js:72 | `balanceOf`: zero for an account never credited. Every method's contract states the new balances through it, and Valid() sums them to the supply. |
| CampusCoin.Ledger.Allowance | CampusCoin/TestSuites/CampusCoin-ImprovedMS.js:108-113 | `allowance`: zero unless approved. CampusCoin.Ledger.Approve sets it and CampusCoin.Ledger.TransferFrom spends it, each stating the new value through it. |
| CampusCoin.Ledger.IsStudent | CampusCoin/TestSuites/CampusCoin-ImprovedMS.js:44-47 | `isStudent`: membership in the student set that CampusCoin.Ledger.AddStudent and CampusCoin.Ledger.RemoveStudent update. |
| CampusCoin.Ledger.ServiceProviders | CampusCoin/TestSuites/CampusCoin-ImprovedMS.js:158-168 | `serviceProviders`: the stored profile, or an empty inactive one for an unknown account. The three provider methods state their effect through it. |
| CampusCoin.Ledger.TotalSpentOf | CampusCoin/TestSuites/CampusCoin-ImprovedMS.js:213-225 | `totalSpent`: zero until the account pays. CampusCoin.Ledger.PayService states that it rises by the gross amount. |
| CampusCoin.Ledger.constructor | CampusCoin/TestSuites/CampusCoin-ImprovedMS.js:8-30 | A deployment with a non-zero treasury sets the admin and the university. The deployer holds the whole supply. There are no students, providers, allowances, spending or events. |
| CampusCoin.Ledger.Deploy | CampusCoin/TestSuites/CampusCoin-ImprovedMS.js:22-37 | Deployment reverts with the zero-university error exactly when the treasury is the zero address. Otherwise it yields a valid ledger whose admin holds the total supply. |
| CampusCoin.Ledger.AddStudent | CampusCoin/TestSuites/CampusCoin-ImprovedMS.js:42-58 | Only the admin may add a student; anyone else reverts and changes nothing. A success adds the student, emits StudentAdded and changes nothing else. |
| CampusCoin.Ledger.RemoveStudent | CampusCoin/TestSuites/CampusCoin-ImprovedMS.js:42-58 | Only the admin may remove a student; anyone else reverts and changes nothing. A success removes the student, emits StudentRemoved and changes nothing else. |
| CampusCoin.Ledger.Mint | CampusCoin/TestSuites/CampusCoin-ImprovedMS.js:67-86 | A mint by anyone but the admin reverts first. A mint to a non-student reverts next. A success credits the student and raises the supply by the amount, emits TokensMinted, and keeps the balances summing to the supply. |
| CampusCoin.Ledger.Burn | CampusCoin/TestSuites/CampusCoin-ImprovedMS.js:89-93 | A burn within the caller's balance lowers that balance and the supply by the amount. A larger burn reverts and changes nothing. |
| CampusCoin.Ledger.Transfer | CampusCoin/TestSuites/CampusCoin-ImprovedMS.js:115-125 | A transfer to a non-student or above the balance reverts and changes nothing. Otherwise the amount moves from caller to recipient and the supply is kept. |
| CampusCoin.Ledger.Approve | CampusCoin/TestSuites/CampusCoin-ImprovedMS.js:108-113 | Sets the spender's allowance over the caller's account to the amount. Nothing else changes. |
| CampusCoin.Ledger.TransferFrom | CampusCoin/TestSuites/CampusCoin-ImprovedMS.js:127-148 | A transferFrom to a non-student, past the allowance or past the balance reverts, in that order, and changes nothing. Otherwise the amount moves from the owner to the recipient and the allowance drops by the amount. |
| CampusCoin.Ledger.AddServiceProvider | CampusCoin/TestSuites/CampusCoin-ImprovedMS.js:154-196 | Only the admin may add a provider. A success records the name and category as active and emits ServiceProviderAdded. |
| CampusCoin.Ledger.RemoveServiceProvider | CampusCoin/TestSuites/CampusCoin-ImprovedMS.js:154-196 | Only the admin may remove a provider. Removal marks the provider inactive, keeps its name and category, and emits ServiceProviderRemoved. |
| CampusCoin.Ledger.UpdateServiceProvider | CampusCoin/TestSuites/CampusCoin-ImprovedMS.js:170-196 | Only the admin may update a provider. An account never added as a provider reverts with "Provider not found". A success overwrites name, category and active flag and emits ServiceProviderUpdated. |
| CampusCoin.Ledger.PayService | CampusCoin/TestSuites/CampusCoin-ImprovedMS.js:200-240 | A payer who is not a student reverts first, then a provider that is not active, then a payment above the balance. A success debits the payer, credits the provider's share and the treasury's fee, raises the payer's total spent by the amount and keeps the supply. |
| Token.Token.BalanceOf | Token/testSuites/FullMutationSuite-Token.js:55 | `balanceOf`: zero for an account never credited. Token.Token.constructor and Token.Token.Transfer state the balances through it. |
| Token.Token.constructor | Token/testSuites/FullMutationSuite-Token.js:14-58 | The deployer is the owner. The supply is 1,000,000 and all of it is the owner's. |
| Token.Token.Transfer | Token/testSuites/FullMutationSuite-Token.js:62-119 | A transfer above the caller's balance reverts with not-enough-tokens and changes nothing. Otherwise exactly the amount moves from caller to recipient, a Transfer event is logged, other balances are untouched and the supply is kept. |
| Strings.IsWhitespace | CampusCoin/sumo-results-random-sampling/results/js/script.js:219 | The characters of the `\s` class. Strings.CollapseWhitespaceShape, Strings.Trim and the word lemmas are stated with it. |
| Strings.CollapseWhitespace | CampusCoin/sumo-results-random-sampling/results/js/script.js:219 | The result is empty exactly when the input is, and it does not grow. It starts with whitespace exactly when the input does. |
| Strings.CollapseWhitespaceShape | CampusCoin/sumo-results-random-sampling/results/js/script.js:219 | No two whitespace characters are adjacent in the result. All whitespace left is a space. Every visible character is kept, in order. |
| Strings.CollapseWhitespaceWords | CampusCoin/sumo-results-random-sampling/results/js/script.js:219 | The result has the same words as the input, in order. With the shape lemma, every whitespace run has become exactly one space. |
| Strings.CollapseWhitespaceEnd | CampusCoin/sumo-results-random-sampling/results/js/script.js:219 | The result ends in whitespace exactly when the input does. |
| Strings.Trim | CampusCoin/sumo-results-random-sampling/results/js/script.js:175 | The result is a slice of the input with no whitespace at either end, and it keeps every visible character in order. |
| Strings.WordsTrim | CampusCoin/sumo-results-random-sampling/results/js/script.js:175 | Trimming keeps the words, in order. |
| Strings.CanonicalText | CampusCoin/sumo-results-random-sampling/results/js/script.js:173-175 | A text without whitespace runs, with only spaces and no space at either end, is empty exactly when it has no word. Otherwise it is its words joined by single spaces. |
| Strings.TrimKeepsCollapsed | CampusCoin/sumo-results-random-sampling/results/js/script.js:173-175 | Trimming a collapsed text keeps it collapsed: still no whitespace run, still only spaces. |
| Strings.Lower | CampusCoin/sumo-results-random-sampling/results/js/script.js:104-113 | Same length, and every character lower-cased on its own (ASCII letters). |
| Strings.LowerIdempotent | CampusCoin/sumo-results-random-sampling/results/js/script.js:104-113 | Lower-casing twice is lower-casing once. |
| Strings.Split | CampusCoin/sumo-results-random-sampling/results/js/script.js:216 | `split('\n')`: one more piece than there are separators, and no piece holds the separator. |
| Strings.Join | CampusCoin/sumo-results-random-sampling/results/js/script.js:229 | `join('\n')`. Strings.JoinSplit and Strings.SplitJoin prove it inverse to Strings.Split. |
| Strings.JoinSplit | CampusCoin/sumo-results-random-sampling/results/js/script.js:215-229 | Joining the pieces of a split with the same separator gives the text back. |
| Strings.SplitJoin | CampusCoin/sumo-results-random-sampling/results/js/script.js:215-229 | Splitting a join of separator-free pieces gives the pieces back. |
| Strings.JoinCount | CampusCoin/sumo-results-random-sampling/results/js/script.js:229 | Joining n separator-free pieces puts exactly n - 1 separators in the text. |
| Strings.Contains | CampusCoin/sumo-results-random-sampling/results/js/script.js:221-223 | `includes`. Strings.ContainsAt proves it equal to an occurrence at some position. |
| Strings.ContainsAt | CampusCoin/sumo-results-random-sampling/results/js/script.js:114-115 | A text contains a pattern exactly when the pattern occurs in it at some position. |
| Strings.NatToString | CampusCoin/sumo-results-random-sampling/results/js/script.js:137 | A count printed in decimal: at least one digit and only digits. Strings.DigitsValueNatToString proves it reads back. |
| Strings.DigitsValueNatToString | CampusCoin/sumo-results-random-sampling/results/js/script.js:137 | A count printed in decimal reads back as the same number. |
| Markup.EscapeHtml | CampusCoin/sumo-results-random-sampling/results/js/script.js:232-237 | No `<` or `>` is left. The text grows by 4 per `&` and by 3 per `<` or `>`. |
| Markup.EscapeHtmlCount | CampusCoin/sumo-results-random-sampling/results/js/script.js:232-237 | A character that is neither escaped nor part of an entity occurs as often after escaping as before. |
| Markup.EscapeHtmlIsPerCharacter | CampusCoin/sumo-results-random-sampling/results/js/script.js:232-237 | The three chained passes equal a one-pass per-character escape, because `&` is replaced first. |
| Markup.UnescapeEscapeHtml | CampusCoin/sumo-results-random-sampling/results/js/script.js:232-237 | Decoding the three entities restores the original text. |
| Markup.EscapeHtmlChangesAmpersandText | CampusCoin/sumo-results-random-sampling/results/js/script.js:234 | Escaping changes every text that holds `&`. |
| Markup.EscapeHtmlIntroducesAmpersand | CampusCoin/sumo-results-random-sampling/results/js/script.js:232-237 | A text holding `&`, `<` or `>` escapes to a text holding `&`. |
| Markup.EscapeHtmlNotIdempotent | CampusCoin/sumo-results-random-sampling/results/js/script.js:232-237 | Escaping a text that held `&`, `<` or `>` and escaping the result again changes it: the first escape leaves an `&`. |
| Markup.Classify | CampusCoin/sumo-results-random-sampling/results/js/script.js:221-227 | The class of a diff line. Markup.HighlightDiffLineShape states its three cases, with `+++|` taking precedence over `---|`. |
| Markup.RenderLine | CampusCoin/sumo-results-random-sampling/results/js/script.js:217-228 | A rendered line is one span of the class chosen from the collapsed line. Its body has no angle brackets and no line feed, and decoding the body gives back the collapsed line. |
| Markup.HighlightDiff | CampusCoin/sumo-results-random-sampling/results/js/script.js:214-230 | The contract is in the lemmas: Markup.HighlightDiffLines for the line structure and Markup.HighlightDiffLineShape for each line. |
| Markup.HighlightDiffLines | CampusCoin/sumo-results-random-sampling/results/js/script.js:214-230 | The output has as many lines as the diff. Output line i is diff line i rendered. |
| Markup.HighlightDiffLineShape | CampusCoin/sumo-results-random-sampling/results/js/script.js:221-227 | An output line is an added span when its collapsed line holds `+++|`, even when it also holds `---|`. Otherwise it is a removed span when the line holds `---|`, and a plain span when it holds neither. The span's text decodes to the collapsed line. |
| Report.StatusLabel | CampusCoin/sumo-results-random-sampling/results/js/script.js:93 | The status cell is never empty. It reads "untested" for a missing, null or empty status, and otherwise it is exactly the status. |
| Report.CountStatus | CampusCoin/sumo-results-random-sampling/results/js/script.js:26-29 | The number of mutants with exactly the given status. Report.TallyBound bounds it by the mutant count. |
| Report.CountUntested | CampusCoin/sumo-results-random-sampling/results/js/script.js:30 | The number of mutants with a falsy status. Report.TallyBound bounds it by the mutant count. |
| Report.TallyOf | CampusCoin/sumo-results-random-sampling/results/js/script.js:26-30 | The five tallies. Report.TallyBound proves they never exceed the mutant count. |
| Report.TallyBound | CampusCoin/sumo-results-random-sampling/results/js/script.js:26-30 | The five tallies never exceed the number of mutants. They add up to it exactly when every status is one of the five. |
| Report.MutationScore | CampusCoin/sumo-results-random-sampling/results/js/script.js:35-36 | The score is "N/A" exactly when no mutant was killed or live. Otherwise it is the pair (killed, killed plus live), with a positive base and the numerator at most the base. |
| Report.SummaryRow | CampusCoin/sumo-results-random-sampling/results/js/script.js:24-36 | One summary row: the name, the mutant count, the tallies and the score of the contract. Report.Summarize proves the loop builds exactly these rows. |
| Report.TotalsBound | CampusCoin/sumo-results-random-sampling/results/js/script.js:17-33 | The overall killed plus live never exceeds the total number of mutants. |
| Report.OverallNotApplicable | CampusCoin/sumo-results-random-sampling/results/js/script.js:54-55 | The overall score is "N/A" exactly when every contract's score is. |
| Report.Summarize | CampusCoin/sumo-results-random-sampling/results/js/script.js:17-63 | The loop yields one row per contract, in order: total, the five tallies and the score. Its counters equal the number of contracts and the total, killed and live mutant counts. |
| Report.RowShown | CampusCoin/sumo-results-random-sampling/results/js/script.js:103-119 | Whether a table row is visible. Its properties are stated by the four filter lemmas that follow. |
| Report.EmptyFiltersShowEveryRow | CampusCoin/sumo-results-random-sampling/results/js/script.js:103-119 | With every filter empty, every row is shown. |
| Report.StatusFilterIsExact | CampusCoin/sumo-results-random-sampling/results/js/script.js:113-118 | A non-empty status filter shows exactly the rows whose status equals it, ignoring case, that also pass the function filter. |
| Report.FiltersIgnoreCase | CampusCoin/sumo-results-random-sampling/results/js/script.js:104-118 | Lower-casing the filters first changes no row's visibility. |
| Report.UntestedMutantMatchesUntested | CampusCoin/sumo-results-random-sampling/results/js/script.js:93 | A mutant with no status is shown under the status filter "untested". |
| Csv.ReplaceLineBreaks | CampusCoin/sumo-results-random-sampling/results/js/script.js:171 | No CR or LF is left. The text does not grow. Every visible character is kept, in order. It starts with whitespace exactly when the input does. |
| Csv.ReplaceLineBreaksWords | CampusCoin/sumo-results-random-sampling/results/js/script.js:171 | Replacing the line breaks keeps the words, in order. |
| Csv.LineBreakIsOneSpace | CampusCoin/sumo-results-random-sampling/results/js/script.js:171 | A CRLF pair, a lone LF that does not follow a CR, or a lone CR that does not precede an LF, anywhere in the text, becomes exactly one space. The text before and the text after are each replaced on their own. |
| Csv.CleanField | CampusCoin/sumo-results-random-sampling/results/js/script.js:169-175 | The text `escapeCSV` keeps. Its contract is in Csv.CleanFieldShape and Csv.CleanFieldWords. |
| Csv.CleanFieldShape | CampusCoin/sumo-results-random-sampling/results/js/script.js:169-175 | A cleaned field keeps every visible character in order. It has no whitespace run and no whitespace but the space. There is no space at either end and no line break. |
| Csv.CleanFieldWords | CampusCoin/sumo-results-random-sampling/results/js/script.js:169-175 | A cleaned field has the field's words, in order. It is empty when the field has no word, and otherwise it is the words joined by single spaces. |
| Csv.DoubleQuotes | CampusCoin/sumo-results-random-sampling/results/js/script.js:177 | `replace(/"/g, '""')`. Csv.ReadDoubled proves the reader undoes it. |
| Csv.Quote | CampusCoin/sumo-results-random-sampling/results/js/script.js:178 | Wraps the doubled text in quotes. Csv.QuoteShape proves it starts and ends with a quote and adds no line break. Csv.QuoteReadsBack proves it reads back. |
| Csv.EscapeCsv | CampusCoin/sumo-results-random-sampling/results/js/script.js:165-179 | Every field, present or missing, becomes one quoted field on one line. |
| Csv.EscapeCsvReadsBack | CampusCoin/sumo-results-random-sampling/results/js/script.js:177-178 | A CSV reader reads the escaped field back as the cleaned text and stops exactly at the closing quote. |
| Csv.RecordRoundTrip | CampusCoin/sumo-results-random-sampling/results/js/script.js:185-199 | Joining quoted fields with commas parses back to exactly those texts, whatever quotes or commas they hold. |
| Csv.DetailRow | CampusCoin/sumo-results-random-sampling/results/js/script.js:184-199 | One details line. Csv.DetailRowReadsBack states its properties. |
| Csv.DetailRowReadsBack | CampusCoin/sumo-results-random-sampling/results/js/script.js:184-199 | A mutant's details line has no line feed. It parses back to the twelve cleaned fields in header order, with the status shown as the table shows it. |
| Csv.AppendDetailRows | CampusCoin/sumo-results-random-sampling/results/js/script.js:184-200 | The `forEach` loop appends exactly one terminated details line per mutant, in order, to the text it starts from. |
| Csv.DetailsCsv | CampusCoin/sumo-results-random-sampling/results/js/script.js:182-200 | The loop builds the header line and one line per mutant, each ending in a line feed. The text splits into exactly those lines. |
| Csv.SummaryLine | CampusCoin/sumo-results-random-sampling/results/js/script.js:137 | One summary line. Csv.SummaryLineFields and Csv.SummaryLineIsOneLine state its properties. |
| Csv.SummaryLineFields | CampusCoin/sumo-results-random-sampling/results/js/script.js:127-137 | A summary line has eight cells: the quoted contract name, six counts that read back as the contract's total and tallies, and the score or "N/A". |
| Csv.AppendSummaryLines | CampusCoin/sumo-results-random-sampling/results/js/script.js:127-138 | The `forEach` loop appends exactly one terminated summary line per contract, in order, to the text it starts from. |
| Csv.SummaryCsv | CampusCoin/sumo-results-random-sampling/results/js/script.js:126-138 | The loop builds the header line and one summary line per contract. When no name holds a line feed, the text splits into exactly those lines. |

## Left out

- The Solidity contracts are not in the repository, so their exact code is not modelled. The ledgers do what the test suites assert. On the paths no test exercises, the model makes the usual ERC-20 choices, listed below.
- CampusCoin.Ledger.Burn, CampusCoin.Ledger.Transfer, CampusCoin.Ledger.TransferFrom, CampusCoin.Ledger.PayService: a debit above the balance reverts with InsufficientBalance. No test asserts this path, and no revert string is given for it.
- CampusCoin.Ledger.TransferFrom: it reverts above the allowance and, on success, lowers the allowance by the amount. The suite only shows a transfer within the allowance.
- CampusCoin.Ledger.Transfer: the sender need not be a student, since the suite checks only the recipient.
- CampusCoin.Ledger.RemoveServiceProvider: removing an account never added as a provider reverts with "Provider not found", as the update does. The suite does not exercise this path.
- The order of the checks is a choice where a test could not tell: admin before student for mint; recipient before balance for transfer; recipient, then allowance, then balance for transferFrom; payer, then provider, then balance for payService.
- The CampusCoin initial supply is a deployment parameter, because no suite states its value.
- Events the suites do not assert are not logged: the CampusCoin ERC-20 Transfer and Approval events, and any payment or burn event.
- uint256 arithmetic is unbounded: overflow and wrap-around are not modelled, because no suite comes near 2^256.
- The Token suite calls an undefined `deployToken()` at FullMutationSuite-Token.js:35-41 and 52-58. The model reads both tests as a fresh deployment, as the fixture defines it.
- Hardhat plumbing is left out: signers, fixtures and snapshots, waiting for deployment, BigInt conversions.
- The other suites in the repository are left out. The stub suites and the less complete suites repeat what the two modelled ones assert.
- Strings.Lower: `toLowerCase` is modelled on ASCII letters only. Unicode case mapping is left out.
- `String(field)` is taken as given. A mutant field is either absent or its string form, so numbers in the report arrive already printed.
- Floating point is left out:
  - `getScoreColor` is not modelled;
  - the percentage `((killed / base) * 100).toFixed(1)` is a caller-provided `format` function of killed and base in Csv.SummaryCsv;
  - Report.MutationScore yields the pair instead of the number.
- Csv.SummaryCsv: the contract name is wrapped in quotes but, as in the source, not escaped. Its read-back is proved only for names without commas or line feeds (Csv.SummaryLineFields).
- I/O is left out: `fetch`, the DOM tables, `innerHTML`, the Blob download link, the generation date, the URL parameter and the page dispatch at script.js:239-241. The filter works on the cell texts, taken as given strings.
- `loadContractData` is modelled only for its status label (Report.StatusLabel) and its use of `highlightDiff`. Its table rows are HTML under the rendering left out above.
- The `\s` class of JavaScript regular expressions is modelled as Strings.IsWhitespace: the ASCII and Unicode space characters it names.
- Characters are Unicode scalar values, while JavaScript strings are UTF-16 code units. A character outside the Basic Multilingual Plane is one character here and two units there, so the lengths that Markup.EscapeHtml states count such characters differently.
- The contracts of the report are a sequence in the order `Object.keys` yields them. The sequence may also hold two contracts with the same name, which a JSON object cannot.
