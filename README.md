# EPayments core logic in Dafny

This project models the decision and data-shaping logic of the EPayments
payment portal. The portal is an ASP.NET system. Citizens pay obligations to
public bodies through it, and the administration reconciles and distributes the
collected revenue. The model covers these parts:

- **SamlHelper** (module `SamlHelper`): the eAuth SAML 2.0 response validator.
  It covers the bypass setting, XML parsing, locating the assertion, the IdP
  metadata download, the signature checks, the status and the attributes. It
  also covers the signature gate with its thumbprint pin and validity window,
  and the status mapper. The status codes follow section 3.2.2.2 of OASIS SAML
  2.0 Core, which nests AuthnFailed inside the top-level code. Further parts are
  the extensions text of an AuthnRequest, the SOAP envelope of an
  ArtifactResolve, the parsing of the artifact response (section 3.5 of OASIS
  SAML 2.0 Core), and where a signature is placed in a signed document.
  - XML parsing, decryption, the metadata download and the cryptographic check
    are oracles of an `Environment`.
  - Every call to an oracle is recorded as a `Step`, so a lemma can say which
    steps a run performs.
  - The field-by-field method `ParseEAuthResponse` is proved equal to the
    functional description `ParseEAuthResponseSpec`. All other lemmas are about
    that description.
- **JsonHelper** (module `JsonHelper`): the pre-checks of `IsValidJson`, with
  `JToken.Parse` as an oracle. Also the character scanner that repairs the
  unescaped quotes in the `propertyAddress` value of a payment's additional
  information. Its two loops are methods proved against the functions
  `FindValueEnd` and `Escaped`. The repair is proved idempotent.
- **CurrencyHelper** (module `Currency`): BGN/EUR conversion around the euro
  acceptance date, parsing of the configured currency mode, the ISO 4217
  currency codes (EUR 978, BGN 975), and the display text in each mode.
- **EquationControlsRepository** and **DistributionRepository** (modules of the
  same names, over the LINQ operators of module `Linq`):
  - the filter predicates composed clause by clause;
  - the orderings, with an insertion sort proved sorted and a permutation;
  - `Skip`/`Take` paging;
  - re-fetching a page by its ids and re-ordering it by the position of each id;
  - the grouping of distribution errors by revenue;
  - the card-transaction totals.
- **DistributionController** (module `DistributionController`):
  - `Distribute`, a guarded one-way flag plus a bulk status update on entities
    that change in place;
  - the validation-error merge of `GetFile`.
- **UndistributedPaymentVM** and **OldObligationsVM**: the `TotalInEuro` getters.
  Each is an accumulating loop proved against the sum of the euro values.

Modelling conventions:
- `decimal` is `real`, with exact arithmetic.
- Dates are `int`.
- The clock is an explicit `now` parameter.
- The process-wide settings (the rate, the acceptance date and the currency-mode
  text) are a `Settings` value.
- A database table is a `seq` of rows, and a query is a function of the tables.
- `Enum.TryParse` on a number is modelled as .NET does it: a number that names
  no member becomes an undefined enum value, which displays as BGN.
- The amount filters of the payment predicate convert to lev only amounts
  created after the acceptance date (`>`), where `GetBgnValue` converts from it
  on (`>=`). The model keeps each as written, and `AmountNormalisation` states
  where they agree.
- GetFile's error merge is modelled as written (`MergeErrorsAsWritten`). The
  corrected duplicate check described under "## Findings" is `MergeErrors`, and
  the two agree when no reported error is longer than 500 characters.
- `SortPaymentRequests` treats its flag as "ascending", but its callers pass
  their `sortDescending` flag. This is modelled as written.

## Model

| member | source | states |
|---|---|---|
| Currency.GetBgnValue | EPayments.Common/Helpers/CurrencyHelper.cs:41-49 | Multiplies by the rate exactly when the date is on or after the acceptance date, and otherwise returns the value unchanged |
| Currency.GetEuroValue | EPayments.Common/Helpers/CurrencyHelper.cs:61-69 | Divides by the rate exactly when the date is before the acceptance date, and otherwise returns the value unchanged |
| Currency.BgnIsEuroTimesRate | EPayments.Common/Helpers/CurrencyHelper.cs:41-69 | For every date, the BGN value is the EUR value times the rate |
| Currency.FormattedValuesFormatConversions | EPayments.Common/Helpers/CurrencyHelper.cs:31-39 | Both formatted variants format the converted amount: the EUR text formats the amount divided by the rate before the acceptance date, and the BGN text formats the EUR amount times the rate |
| Currency.ModeOfValue | EPayments.Common/Helpers/CurrencyHelper.cs:6-11 | Only the underlying values 0, 1 and 2 name a member of the currency-mode enum |
| Currency.ParseCurrencyModeRecognisesNames | EPayments.Common/Helpers/CurrencyHelper.cs:102-111 | BGN, Dual and EUR are each recognised from their name in any letter case and with any surrounding whitespace |
| Currency.ParseCurrencyModeDefaultsToDual | EPayments.Common/Helpers/CurrencyHelper.cs:102-111 | Blank input gives Dual; BGN or EUR is chosen only when the trimmed text spells that name or that member's number |
| Currency.ParseCurrencyModeOfNumber | EPayments.Common/Helpers/CurrencyHelper.cs:102-111 | A trimmed Int32 text selects the enum value with that number, whether or not a member has it |
| Currency.LetterIsNotNumber | EPayments.Common/Helpers/CurrencyHelper.cs:107 | A text that starts with a letter never parses as a number |
| Currency.CurrencyCodesAgree | EPayments.Common/Helpers/CurrencyHelper.cs:21-79 | The alphabetic and numeric codes always name the same ISO 4217 currency, and that currency is EUR exactly when now is on or after the acceptance date |
| Currency.DualDisplayCombinesSingleDisplays | EPayments.Common/Helpers/CurrencyHelper.cs:81-100 | EUR mode shows "E €" and BGN mode shows "B лв."; Dual shows the current period's text followed by the other one in parentheses |
| Currency.ConfiguredModeSelectsDisplay | EPayments.Common/Helpers/CurrencyHelper.cs:81-111 | Configuring EUR or BGN, in any case and with any padding, selects that currency's display |
| Currency.SumOfEuroValuesStep | EPayments.Admin/Models/UndistributedPayments/UndistributedPaymentVM.cs:25-28 | One more row adds exactly its own euro value to the total |
| Currency.EuroTotalOfEuroRows | EPayments.Admin/Models/UndistributedPayments/UndistributedPaymentVM.cs:27 | When every row is dated on or after the acceptance date, the euro total is the plain sum of the amounts |
| Currency.EuroTotalContribution | EPayments.Admin/Models/OldObligations/OldObligationsVM.cs:27 | Each row contributes its euro value wherever it stands; a row dated before the acceptance date contributes its amount divided by the rate |
| UndistributedPaymentVM.UndistributedPaymentVM.TotalInEuro | EPayments.Admin/Models/UndistributedPayments/UndistributedPaymentVM.cs:16-32 | No requests gives 0; the total is the sum of the euro values and Requests is unchanged; all-euro rows give the plain sum; a pre-acceptance row adds its amount divided by the rate |
| OldObligationsVM.OldObligationsVM.TotalInEuro | EPayments.Admin/Models/OldObligations/OldObligationsVM.cs:16-32 | The same four facts for the old-obligations view model |
| JsonHelper.IsValidJson | EPayments.Common/Helpers/JsonHelper.cs:15-34 | False for blank input and for input that, once trimmed, is not wrapped in braces; otherwise it is the parser's verdict on the trimmed text |
| JsonHelper.FindValueEndIndex | EPayments.Common/Helpers/JsonHelper.cs:65-91 | The first loop returns -1 exactly when no bare quote followed by `,` or `}` exists, and otherwise returns the index of the first such quote |
| JsonHelper.EscapeValue | EPayments.Common/Helpers/JsonHelper.cs:94-116 | The second loop builds the text with the value escaped, and reports a repair exactly when a bare quote was escaped |
| JsonHelper.RepairBrokenAdditionalInformationJsonString | EPayments.Common/Helpers/JsonHelper.cs:43-126 | The method returns the repair function of its input |
| JsonHelper.EscapeLength | EPayments.Common/Helpers/JsonHelper.cs:99-114 | The escaped value is the original length plus one backslash per bare quote |
| JsonHelper.EscapeWithoutBareQuotes | EPayments.Common/Helpers/JsonHelper.cs:99-114 | A value without bare quotes is copied unchanged |
| JsonHelper.RepairShape | EPayments.Common/Helpers/JsonHelper.cs:45-125 | A changed result is the trimmed input with text before the value start and from the closing quote kept verbatim, and the value escaped, one character longer per escaped quote |
| JsonHelper.RepairUnneeded | EPayments.Common/Helpers/JsonHelper.cs:118-125 | When no quote needs escaping, the original untrimmed input is returned |
| JsonHelper.RepairOnlyBraced | EPayments.Common/Helpers/JsonHelper.cs:45-61 | The repair changes only non-blank inputs whose trimmed text is braced, and for those IsValidJson is the parser's verdict |
| JsonHelper.RepairIdempotent | EPayments.Common/Helpers/JsonHelper.cs:43-126 | Repairing a repaired text changes nothing |
| JsonHelper.RepairedIsFixed | EPayments.Common/Helpers/JsonHelper.cs:65-125 | The escaped text of a braced input is a fixed point of the repair |
| JsonHelper.ValueEndCloses | EPayments.Common/Helpers/JsonHelper.cs:68-88 | The quote the scan stops at is bare and is followed, after whitespace, by `,` or `}` |
| JsonHelper.RescanRepaired | EPayments.Common/Helpers/JsonHelper.cs:50-61 | The repaired text is still braced and the key is found at the same index |
| JsonHelper.RescanValue | EPayments.Common/Helpers/JsonHelper.cs:65-91 | Scanning the escaped value finds no bare quote and stops at the original closing quote |
| SamlHelper.StatusSuccessOnlyFromSuccessUrn | EPayments.Common/Saml/SamlHelper.cs:389-405 | Success comes exactly from the Success URN; any other code, or none, that is not AuthnFailed gives AuthenticationFailed |
| SamlHelper.StatusOfAuthnFailed | EPayments.Common/Saml/SamlHelper.cs:393-399 | Under AuthnFailed the trimmed, lower-cased message selects CanceledByUser, NotDetectedQES or AuthenticationFailed, each in both directions |
| SamlHelper.StatusPhraseInAnyCaseAndPadding | EPayments.Common/Saml/SamlHelper.cs:393-399 | Each phrase is recognised whatever the whitespace around it and whatever its letter case |
| SamlHelper.VerifySigningAccepts | EPayments.Common/Saml/SamlHelper.cs:175-217 | A document is accepted exactly when its signature element exists and checks, plus a certificate with the pinned thumbprint when certificates are verified, plus the validity window when that is also requested; it throws exactly when the text, the signature element or, under certificate verification, the certificate is missing or unreadable |
| SamlHelper.VerifySigningGate | EPayments.Common/Saml/SamlHelper.cs:202-216 | For a signature that carries a certificate: a thumbprint mismatch rejects; without the expiry check the verdict is CheckSignature(); outside the validity window the document is rejected |
| SamlHelper.VerifyWrappers | EPayments.Common/Saml/SamlHelper.cs:219-227 | VerifySignature is CheckSignature() alone, with or without a certificate; VerifySignatureAndCertificate accepts only a present certificate with a matching pin, and throws without a certificate; a missing signature element throws |
| SamlHelper.ParseEAuthResponse | EPayments.Common/Saml/SamlHelper.cs:229-387 | The early-returning method gives the result and the oracle steps of the functional pipeline |
| SamlHelper.SkipReturnsDemoIdentity | EPayments.Common/Saml/SamlHelper.cs:233-239 | With the skip setting on, the result is Success with Egn 9011118326 and Name Демо, and no step is taken |
| SamlHelper.InvalidXmlFetchesNothing | EPayments.Common/Saml/SamlHelper.cs:253-301 | Unparsable XML, or no assertion of either kind, gives InvalidResponseXML after parsing alone, with no metadata fetch |
| SamlHelper.MetadataFailureIsInvalidMetadata | EPayments.Common/Saml/SamlHelper.cs:307-311 | A failed metadata download gives InvalidMetadata as the last step, before any signature check |
| SamlHelper.UnsignedAssertionIsInvalidSignature | EPayments.Common/Saml/SamlHelper.cs:321-343 | An assertion without ds:Signature gives InvalidSignature on both the encrypted and the plain path |
| SamlHelper.SignatureCheckedOnlyWhenEncrypted | EPayments.Common/Saml/SamlHelper.cs:321-343 | CheckSignature() is consulted exactly on the encrypted path, a failing check there gives InvalidSignature, and on the plain path its verdict changes nothing |
| SamlHelper.StatusDecidesBeforeAttributes | EPayments.Common/Saml/SamlHelper.cs:351-362 | The nested status code overrides the outer one, and any status but Success returns before the attributes are read |
| SamlHelper.EgnIsSecondPart | EPayments.Common/Saml/SamlHelper.cs:372-383 | The EGN is the text between the first and second '-'; an empty second part or no '-' gives MissingEGN; an absent attribute keeps Success without an EGN |
| SamlHelper.SuccessRequiresChecks | EPayments.Common/Saml/SamlHelper.cs:229-387 | Outside the skip setting, Success needs a parsed, signed assertion, a metadata download, a passing CheckSignature() on the encrypted path, and a Success status code |
| SamlHelper.TakeText | EPayments.Common/Saml/SamlHelper.cs:50-60 | Splits a text at its first '<' into a '<'-free part and the rest |
| SamlHelper.ExtensionsRoundTrip | EPayments.Common/Saml/SamlHelper.cs:50-60 | The service and provider ids are read back unchanged from the extensions text when they contain no '<' |
| SamlHelper.ExtensionsReadBack | EPayments.Common/Saml/SamlHelper.cs:50-60 | Every text that reads back is the extensions text of what it reads back to |
| SamlHelper.WrapInSoapMessage | EPayments.Common/Saml/SamlHelper.cs:431-440 | The five appended lines are the envelope prefix, the body and the envelope suffix, and the body can be unwrapped from them |
| SamlHelper.SoapRoundTrip | EPayments.Common/Saml/SamlHelper.cs:431-440 | Every body is recovered from its envelope |
| SamlHelper.SoapUnwrapInverse | EPayments.Common/Saml/SamlHelper.cs:431-440 | A text that unwraps is exactly the envelope of its body |
| SamlHelper.GenerateSaml2ArtifactResolve | EPayments.Common/Saml/SamlHelper.cs:407-419 | The result is a SOAP envelope whose body is the serialised ArtifactResolve element |
| SamlHelper.ParseSaml2ResultIdentity | EPayments.Common/Saml/SamlHelper.cs:453-510 | Identity data is returned exactly for Success with a complete person element, and it is valid and carries that person's values |
| SamlHelper.ParseSaml2ResultStatus | EPayments.Common/Saml/SamlHelper.cs:453-510 | A missing status code or message throws; any other status than Success is returned with no identity data |
| SamlHelper.SignedDocument.InsertSignature | EPayments.Common/Saml/SamlHelper.cs:145-155 | The Signature goes right after the first Issuer and every other child is kept in order; without an Issuer nothing changes |
| EquationControlsRepository.AmountNormalisation | EPayments.Data/Repositories/Implementations/EquationControlsRepository.cs:134-148 | The compared amount is the euro value in the euro period, and the lev value before it except on the acceptance date itself |
| EquationControlsRepository.PaymentPredicateMeaning | EPayments.Data/Repositories/Implementations/EquationControlsRepository.cs:108-166 | The composed predicate accepts a request exactly when it passes each filter that is on: exact identifier, inclusive dates, inclusive normalised amounts, contained texts, equal status |
| EquationControlsRepository.NoPaymentFilterKeepsAll | EPayments.Data/Repositories/Implementations/EquationControlsRepository.cs:117-122 | With no filter on, every row passes |
| EquationControlsRepository.SortPaymentRequests | EPayments.Data/Repositories/Implementations/EquationControlsRepository.cs:168-207 | The result is a permutation of the rows |
| EquationControlsRepository.SortPaymentRequestsOrder | EPayments.Data/Repositories/Implementations/EquationControlsRepository.cs:168-207 | An unknown column keeps the order; a known one sorts, ascending when the flag is set; PaymentAmount orders by the euro value |
| EquationControlsRepository.UndistributedPaymentsPage | EPayments.Data/Repositories/Implementations/EquationControlsRepository.cs:26-106 | A page holds at most resultsPerPage rows that all pass the filters, and is the same page of the full sorted list, whose length is the count |
| EquationControlsRepository.OldPaymentPredicateMeaning | EPayments.Data/Repositories/Implementations/EquationControlsRepository.cs:402-424 | The old-payments predicate is the inclusive status-change-time range plus the status, the same as the payment predicate with only those filters |
| EquationControlsRepository.OldPaymentsAreThePage | EPayments.Data/Repositories/Implementations/EquationControlsRepository.cs:224-296 | In an id-keyed table, re-fetching the paged ids and ordering them by position gives the sorted page itself, cut to takeCount; an empty page gives none |
| EquationControlsRepository.OldPaymentsPageOfAll | EPayments.Data/Repositories/Implementations/EquationControlsRepository.cs:211-315 | A page of old payments is at most resultsPerPage long and is the same page of the full list, whose length is the count |
| EquationControlsRepository.BoricaPredicateMeaning | EPayments.Data/Repositories/Implementations/EquationControlsRepository.cs:426-454 | A transaction passes a date bound only if both its transaction date and its effective date are inside it |
| EquationControlsRepository.SortBoricaTransactionRequests | EPayments.Data/Repositories/Implementations/EquationControlsRepository.cs:456-491 | The result is a permutation of the rows |
| EquationControlsRepository.SortBoricaTransactionRequestsOrder | EPayments.Data/Repositories/Implementations/EquationControlsRepository.cs:456-491 | An unknown column keeps the order; a known one sorts, descending when the flag is set |
| EquationControlsRepository.BoricaTransactionsPage | EPayments.Data/Repositories/Implementations/EquationControlsRepository.cs:317-377 | A page is at most resultsPerPage long, is the same page of the full list, and holds only transactions within the date bounds |
| EquationControlsRepository.BoricaTotalsAreSums | EPayments.Data/Repositories/Implementations/EquationControlsRepository.cs:338-358 | The totals, including the zeroed object for no rows, are the count and the sums with null as 0, and they add up over two tables |
| EquationControlsRepository.NullFeesAddNothing | EPayments.Data/Repositories/Implementations/EquationControlsRepository.cs:344-355 | Transactions without a fee add nothing to the fee total |
| Linq.PageWindow | EPayments.Data/Repositories/Implementations/EquationControlsRepository.cs:74-75 | Page p of size n holds at most n rows, and its i-th row is the row at sorted position (p-1)*n + i |
| Linq.OrderByPosition | EPayments.Data/Repositories/Implementations/EquationControlsRepository.cs:278-279 | The rows, permuted so that their ids come in the order of the id list |
| DistributionRepository.WhereClauseMeaning | EPayments.Data/Repositories/Implementations/DistributionRepository.cs:177-209 | The chained clauses keep exactly the rows with CreatedAt within the inclusive bounds and with the type and id when given, in table order |
| DistributionRepository.SortClause | EPayments.Data/Repositories/Implementations/DistributionRepository.cs:211-250 | A permutation sorted by the named column, in the requested direction |
| DistributionRepository.SortClauseDefaultsToEuroTotal | EPayments.Data/Repositories/Implementations/DistributionRepository.cs:244-248 | An unknown name orders by the euro value of TotalSum, decreasing when descending |
| DistributionRepository.UndistributedFirst | EPayments.Data/Repositories/Implementations/DistributionRepository.cs:211-250 | Ascending by IsDistributed puts the revenues not yet distributed first |
| DistributionRepository.GroupErrors | EPayments.Data/Repositories/Implementations/DistributionRepository.cs:124-126 | The dictionary has a key exactly for each revenue id that has an error |
| DistributionRepository.GroupedErrorsAreErrorTexts | EPayments.Data/Repositories/Implementations/DistributionRepository.cs:124-140 | The lookup gives exactly the texts of that revenue's errors in table order, or an empty list when there are none |
| DistributionRepository.ToVO | EPayments.Data/Repositories/Implementations/DistributionRepository.cs:128-141 | The view object keeps the revenue's id and carries the given errors |
| DistributionRepository.RevenuesAreThePage | EPayments.Data/Repositories/Implementations/DistributionRepository.cs:92-146 | In an id-keyed table, the result is at most pageLength revenues: the sorted page in order, each with exactly its own error texts |
| DistributionRepository.AssembledPage | EPayments.Data/Repositories/Implementations/DistributionRepository.cs:114-142 | Assembling the ids of table rows gives those rows in id-list order, each with its error texts |
| DistributionRepository.SortPaymentsClause | EPayments.Data/Repositories/Implementations/DistributionRepository.cs:252-302 | The result is a permutation of the payments |
| DistributionRepository.SortPaymentsClauseOrder | EPayments.Data/Repositories/Implementations/DistributionRepository.cs:252-302 | An unknown name keeps the order; a known one sorts by its column, decreasing when descending; PaymentAmount orders by amount |
| DistributionRepository.DistributionPaymentsListing | EPayments.Data/Repositories/Implementations/DistributionRepository.cs:45-78 | The listing holds exactly the distribution's payments, as many as the count and each as often as in the table; takeCount cuts it to its first rows |
| DistributionController.FindRevenue | EPayments.Data/Repositories/Implementations/DistributionRepository.cs:80-85 | Returns a stored distribution with the id, or null only when none has it |
| DistributionController.DistributionStore.GetDistribution | EPayments.Data/Repositories/Implementations/DistributionRepository.cs:80-85 | The scan returns the first distribution with the id, or null |
| DistributionController.DistributionStore.GetDistributionPaymentRequests | EPayments.Data/Repositories/Implementations/DistributionRepository.cs:148-153 | Returns exactly the stored requests that belong to the distribution |
| DistributionController.DistributionStore.Save | EPayments.Data/Repositories/Implementations/DistributionRepository.cs:172-175 | Records one save and changes no entity |
| DistributionController.Distribute | EPayments.Admin/Controllers/DistributionController.cs:476-505 | A missing or already distributed distribution is refused with its message and nothing changes; otherwise it becomes distributed, its linked requests become CheckedAccount, nothing else changes and Save runs once |
| DistributionController.GetFile | EPayments.Admin/Controllers/DistributionController.cs:507-566 | A missing distribution is refused with nothing changed; otherwise its errors become the merge, as written, of the reported ones, Save runs once exactly when errors were reported, and the file is returned |
| DistributionController.Truncate | EPayments.Admin/Controllers/DistributionController.cs:551 | The stored text is a prefix of the error: exactly its first 500 characters when it is longer, and the whole error otherwise |
| DistributionController.MergeKeepsAndTruncates | EPayments.Admin/Controllers/DistributionController.cs:542-557 | In GetFile's merge as written, stored errors are never removed or changed; each added one is dated now and is a non-blank reported error cut to 500 characters |
| DistributionController.NothingNewAddsNothing | EPayments.Admin/Controllers/DistributionController.cs:546 | In GetFile's merge as written, errors that are blank, or that a stored error equals uncut and ignoring case, add nothing |
| DistributionController.MergeCoversReported | EPayments.Admin/Controllers/DistributionController.cs:544-554 | After GetFile's merge as written, every non-blank reported error is stored ignoring case, either uncut (it was already there) or cut to 500 characters (it was added) |
| DistributionController.CorrectedNothingNewAddsNothing | EPayments.Admin/Controllers/DistributionController.cs:546-551 | With the corrected check of "## Findings", errors that are blank, or whose text cut to 500 characters is already stored ignoring case, add nothing |
| DistributionController.CorrectedMergeCoversReported | EPayments.Admin/Controllers/DistributionController.cs:544-554 | After the corrected merge of "## Findings", every non-blank reported error is stored cut to 500 characters, ignoring case |
| DistributionController.MergeIdempotent | EPayments.Admin/Controllers/DistributionController.cs:542-557 | With the corrected check of "## Findings", reporting the same errors again, at any later time, adds nothing |
| DistributionController.LongErrorStoredTwice | EPayments.Admin/Controllers/DistributionController.cs:546-551 | As written, a 501-character error reported on two calls is stored twice |
| DistributionController.AsWrittenAgreesOnShortErrors | EPayments.Admin/Controllers/DistributionController.cs:546-551 | The merge as written equals the corrected one whenever no reported error exceeds 500 characters |
| DistributionController.ShortReportRecordedOnce | EPayments.Admin/Controllers/DistributionController.cs:542-557 | As written, a report whose errors are all at most 500 characters long adds nothing when it is recorded again, at any later time |

## Left out

- XML parsing, XML decryption, the IdP metadata download, `CheckSignature()`, RSA-SHA256 signing and canonicalisation are oracles. They are external libraries or network calls.
- The metadata download and `SendWebRequest` block on `.Result`; the model has no asynchrony.
- Certificate file loading and `MapPath` are file I/O and are left out. `SignXmlDocument` and `GetIdpMetadata` are left out for the same reason.
- `SignedDocument.InsertSignature` models the children of one element. `GetElementsByTagName` searches every descendant, and the signature goes under the Issuer's own parent, whichever element that is. The null reference thrown when there is no Issuer is modelled as `false` with the document unchanged.
- `GenerateKEPAuthnRequest` and `GetXmlDocumentFromSaml` build XML through library serialisation and are not modelled. `GetExtensions` is modelled as the text it formats before loading it as XML.
- ParseEAuthResponse: the thumbprint and expiry parameters are never read by the source, so the model has none.
- `EAuthResponseStatus`'s default member is not part of this model. It is the `initialStatus` of the environment.
- `JToken.Parse` is the `parses` oracle of `IsValidJson`. The model does not define what valid JSON is.
- `AndStringContains` is the `contains` oracle of the payment predicate. Its SQL translation and collation are outside the model.
- Entity Framework, `async`/`await`, `AsNoTracking`, `Include` and SQL collation are outside the model. Text columns order by code point. OrderBy inserts each row after the rows with an equal key, so rows with equal keys come out in reverse input order. SQL gives no order among equal keys, so this is one of the orders it allows, and no lemma depends on it.
- The mapping of rows to view objects in EquationControlsRepository is left out. A query there returns the rows themselves.
- The DistributionRepository view objects carry the id and the errors, plus the revenue fields that are sorted or filtered on.
- `GetDistributionById`, `GetAllObligationTypes`, `GetDistributionTypes` and `GetDistributionRevenuePayments` are single lookups or plain listings with no logic.
- The `latestTransactions` query in `GetOldPayments` and the dictionary built from it are never used. Only the result of the query they feed is modelled.
- `SingleOrDefault` throws when two rows share an id. The listing lemmas require distinct ids (`KeysDistinct`), as the primary keys guarantee.
- `decimal` rounding and overflow are not modelled: amounts are exact reals.
- `Formatter.DecimalToTwoDecimalPlacesFormat` is not part of this model. It is the `fmt` parameter.
- `Enum.TryParse` also accepts comma-separated lists of names. The model accepts a single name or number.
- ObligationStatusEnum's numeric values are not part of this model. A status is `CheckedAccount` or another id.
- GetFile does not model building the BNB XML document, its schema validation, reloading `DistributionRevenuePayments`, or the file name and stream. The validation errors are a parameter, and the result is the id of the file.
- IsValidJson: the brace test is ordinal (`t[0] == '{'`, last character `'}'`). The source's `StartsWith("{")`/`EndsWith("}")` with no comparison argument are culture-sensitive and skip ignorable characters, such as U+00AD or U+0000, that `Trim` keeps. For example, `"\u00AD{...}"` reaches the parser in the source but is false in the model.
- RepairBrokenAdditionalInformationJsonString: the same ordinal brace test decides whether a repair is attempted. A text whose brace is preceded or followed by an ignorable character is repaired by the source and returned unchanged by the model.
- RepairOnlyBraced: "only braced inputs change" is stated for the ordinal brace test above, so it does not cover inputs whose brace sits behind an ignorable character.
- EqualsIgnoreCase: case is folded only for A-Z and Cyrillic, whereas `OrdinalIgnoreCase` folds every cased letter. So `AlreadyStored` treats "Élément" and "élément" as two errors where GetFile's duplicate check treats them as one. The currency-mode names are ASCII and are not affected.
- Truncate: lengths count Unicode scalar values, whereas `e.Length` and `Substring(0, 500)` count UTF-16 code units. The two differ for text with characters outside the Basic Multilingual Plane.
- GetEuroValue: the `Rate` type excludes a zero rate. With a zero rate the source throws `DivideByZeroException` on every conversion of a pre-acceptance amount, and that failure is not modelled.
- GetUndistributetPayments, GetOldPayments and GetBoricaTransactionsPage: for a `sortBy` that names no column, the sort returns the query unordered, and the source then calls `Skip`. Entity Framework rejects `Skip` on unordered input with `NotSupportedException`. The model instead returns the page in table order.
- GetFile reads the clock once per call (`now`), whereas the source reads it once per added error.
- Messages stored in `TempData` are modelled as part of the action's result value.
- The Excel and PDF exports of the controllers and PdfConvertManager.cs are library formatting, with no logic to state.
- SystemStatsVO.cs, TransactionVM.cs, TransactionPdfVM.cs, TaxAgreementEpayVM.cs and TaxAgreementBoricaVM.cs are data-only classes.

## Findings

| source | as written | input that shows it | evidently intended | confidence | as-written member | corrected member |
|---|---|---|---|---|---|---|
| EPayments.Admin/Controllers/DistributionController.cs:546-551 | An error counts as already stored when a stored text equals it ignoring case, but the stored text was cut to 500 characters and is compared with the uncut error | the same 501-character validation error reported by two calls of GetFile: the stored 500-character text never equals it, so a second copy is added, and one more on every later call | compare the stored texts with the truncated error, so that a repeated report adds nothing | not executed | DistributionController.LongErrorStoredTwice | DistributionController.MergeIdempotent |
