# librecash core in Dafny

librecash is a Telegram bot through which people who want to swap cash for
crypto (or the other way round) find each other nearby. This project models its
core and proves properties of the model:

- **Records** (`objects.dfy`): the per-user session record with its numeric
  menu state, the exchange listing, the timeline record of one delivered
  notification, their constants and constructors, and the normalisation of a
  Telegram language code to one of the 27 translation catalogs.
- **Database** (`tables.dfy`, `repository.dfy`): the tables as values and the
  `Repository` as a class `Store` whose fields are the tables. Each method does
  to its fields what its SQL statement does, and each can fail as a whole: the
  statements that fail are a fixed set. This covers upserts, soft deletes,
  newest-first listings, the idempotent contact request, the location history
  and its fanout trigger, and the widening 3/7/14/30-day search.
- **Outgoing queue** (`broker.dfy`): every publish call in order, each with its
  priority (255 answers, 220 sends, 200 edits and admin notices, 100 fanout,
  80 historical fanout, 70 the continue prompt). Failed publish attempts are a
  fixed set of attempt numbers.
- **Delivery** (`sender.dfy`): the consumer of that queue. It routes on the
  `message_type` header, calls the Bot API (whose reply is a parameter), counts
  the outcome in a metric and writes a timeline row for a fanout notification.
  The HTTP error code is extracted by a scanner equivalent to the regular
  expression.
- **Text** (`text.dfy`, `locale.dfy`, `pofile.dfy`): the Go string helpers the
  bot relies on, catalog lookup with Go's `fmt.Sprintf` for the verbs used, and
  the gettext PO-file parser.
- **Screens** (`screens.dfy`, `language.dfy`, `contact.dfy`, `fanout.dfy`):
  - every menu state's `Handle` and button callback;
  - the language picker;
  - the "show contact" and "delete" buttons under a listing;
  - the fanout of a new listing to nearby users and of old listings to a user
    who moved.
- **Session** (`session.dfy`): the message loop `HandleMessage`, which
  bootstraps, merges the sender's profile, applies `/start`, `/location`,
  `/language` and `/exchange`, runs the handler of the current state and goes
  round again while the stored state changed. Also the callback router, and
  the compliance and wait-screen callbacks that re-enter the loop.

Displayed text is kept as a sequence of pieces: literals, catalog keys and
formatted templates. A contract can therefore say which catalog keys a message
carries, and `Locale.Render` gives the exact string the Go code would build.
A nil `*User` dereferenced after a failed lookup is a panic that ends the
process. The handlers that can reach one return `crashed`, and the model states
when it happens.

The two radius queries of the fanout replace the user's radius with 90000 km,
as the code does (`Fanout.OverrideRadiusKm`): fanout/fanout.go:42-50 and
221-230 pass a fixed 90000 km under a TODO, with the `*initiator.SearchRadiusKm`
and `*user.SearchRadiusKm` arguments commented out.

## Model

| member | source | states |
|---|---|---|
| Objects.MenuIdsIncrease | objects/user.go:13-25 | the eleven menu states, in declaration order, are strictly increasing (50 < 60 < … < 999999) |
| Objects.SupportedLanguageCode | objects/user.go:43-125 | the catalog chosen for any Telegram code is always one of the 27 supported codes |
| Objects.SupportedLanguageCodeKeepsSupported | objects/user.go:91-102 | a supported code, including the upper-case Chinese regions, is served unchanged |
| Objects.SupportedLanguageCodeIdempotent | objects/user.go:43-125 | normalising a normalised code changes nothing |
| Objects.ChineseRegionsKept | objects/user.go:68-93 | zh-CN, zh-TW and zh-HK survive the lower-casing lookup unchanged |
| Objects.ChineseVariants | objects/user.go:75-115 | a code whose lower case starts with zh- maps through the Chinese table when listed there and to zh otherwise |
| Objects.PortugueseVariants | objects/user.go:84-120 | every code whose lower case starts with pt- is served in Portuguese |
| Objects.PortugueseFallback | objects/user.go:104-120 | an unlisted pt-* code falls through to the pt family or the pt- wildcard, both giving pt |
| Objects.UnsupportedIsEnglish | objects/user.go:99-124 | with no mapping, no exact match, no supported two-letter family and no zh-/pt- prefix, the result is en |
| Objects.RegionalVariantUsesFamily | objects/user.go:104-110 | ru-RU is served from the ru family |
| Objects.UpperCaseIsNotSupported | objects/user.go:99-110 | the exact and the family match are case-sensitive: RU is served in English |
| Objects.LanguageName | objects/user.go:128-164 | the language name is never empty |
| Objects.LanguageNameTotal | objects/user.go:128-164 | every supported code has a name, so the English fallback is reached only through en |
| Objects.NewExchange | objects/exchange.go:36-47 | a fresh listing is initiated, not deleted, has no amount and no deletion time, and carries the user, direction and coordinates given |
| Objects.ExchangeConstantsDistinct | objects/exchange.go:22-33 | the two directions differ and the three statuses are pairwise distinct |
| Objects.NewTimelineRecord | objects/timeline_record.go:29-38 | a fresh record is pending, not deleted, has no Telegram message id, and names the exchange and recipient given |
| Objects.TimelineStatusesDistinct | objects/timeline_record.go:20-26 | the four timeline statuses are pairwise distinct |
| Broker.Context.Publish | context/context.go:21-69 | each publish appends exactly one envelope, unchanged, to the attempt log; it reaches the outbox iff the attempt does not fail |
| Broker.Context.Send | context/context.go:21-28 | one message envelope at priority 220, payload unchanged |
| Broker.Context.SendWithPriority | context/context.go:31-38 | one message envelope at the caller's priority |
| Broker.Context.AnswerCallbackQuery | context/context.go:41-48 | one callback answer at priority 255; the returned result is whether the publish succeeded |
| Broker.Context.EditMessage | context/context.go:62-69 | one edit at priority 200; the returned result is whether the publish succeeded |
| Broker.Delivered | context/context.go:44-47 | the outbox is a subsequence of the attempts: never longer, and nothing in it that was not attempted |
| Broker.DeliveredConcat | context/context.go:21-69 | the outbox of two runs of attempts is the outboxes of each, in order |
| Broker.DeliveredAll | context/context.go:21-69 | with no failing attempt every envelope reaches the queue, in order |
| Locale.Get | objects/user.go:167-181 | a lookup yields the stored non-empty translation or else the key itself, and the key whenever the language has no catalog |
| Locale.SprintfLiteral | fanout/fanout.go:175 | a template without verbs and without arguments is printed as is |
| Locale.SprintfOneVerb | menu/select_radius_menu.go:85 | one verb between literal text is replaced by its formatted argument |
| Locale.SprintfUnusedArgument | menu/language_selection.go:126 | a translation without a verb keeps Go's %!(EXTRA …) trace of the unused argument |
| Locale.ExpandLiteralPrefix | fanout/fanout.go:310 | text without '%' passes through the formatter unchanged and uses no argument |
| Locale.RenderConcat | fanout/fanout.go:170-180 | rendering distributes over concatenation, as the Go code builds messages with + |
| Locale.RenderKeyWithoutCatalog | objects/user.go:174-176 | with no catalog loaded a key renders as itself |
| Text.NatToString | menu/contact_request.go:342 | the decimal rendering is non-empty and made of digits only |
| Text.ParseInt | menu/contact_request.go:33 | strconv.ParseInt accepts only an optionally signed digit string and only values within 64 bits; a success is the value of the digits after an optional sign, negated for "-", and every such string whose value fits in 64 bits succeeds |
| Text.ParseIntRejects | menu/contact_request.go:33 | the empty string, a bare sign, a trailing or leading non-digit parse to nothing; "-7" and "+7" parse to -7 and 7 |
| Text.ParseIntOfDigits | menu/amount_menu.go:141 | an unsigned digit string within 64 bits parses to the number it denotes |
| Text.ParseIntOfIntToString | menu/contact_request.go:33 | rendering a 64-bit integer with Itoa and parsing it back gives the integer |
| Text.DigitsValueBound | sender/sender.go:242 | at most three digits denote less than 1000 |
| Text.Split | menu/contact_request.go:23 | strings.Split yields at least one part and no part contains the separator |
| Text.JoinSplit | menu/contact_request.go:23 | splitting loses nothing: joining the parts back restores the input |
| Text.SplitWithoutSeparator | menu/amount_menu.go:99 | a string without the separator is a single part |
| Text.SplitAtFirst | menu/main_menu.go:55 | the first separator ends the first part |
| Text.SplitPair | menu/contact_request.go:277 | tag:rest with no separator in either splits into exactly [tag, rest] |
| Text.TrimPrefix | menu/language_selection.go:96 | with the prefix present the result is what follows it; otherwise the input is returned unchanged |
| Text.ToLower | menu/menu.go:120 | lower-casing keeps the length |
| Text.ToLowerAt | objects/user.go:75 | lower-casing works code point by code point |
| Text.ToLowerIdempotent | menu/menu.go:120 | lower-casing twice is lower-casing once |
| Text.TrimLeft | locales_test.go:36 | only leading white space is removed, and the result does not start with white space |
| Text.TrimRight | locales_test.go:85 | only trailing white space is removed, and the result does not end with white space |
| Text.TrimSpaceOfTrimmed | locales_test.go:85 | a string whose ends are not white space is its own TrimSpace |
| Text.ReplaceCharConcat | menu/contact_request.go:264-268 | replacing a character distributes over concatenation |
| Text.ReplaceCharAbsent | menu/contact_request.go:264-268 | a string without the character is returned unchanged |
| Tables.ToUser | repository/repository.go:20-64 | A user row read back as a User: NULL coordinates come back as 0, every other column as stored |
| Tables.StoredCoords | repository/repository.go:66-129 | SaveUser writes NULL latitude, longitude and geog exactly when both coordinates are 0 |
| Tables.SavedUserReadsBack | repository/repository.go:20-129 | Saving a user and finding it again gives back every field, the (0, 0) location included |
| Tables.SavedGeogIsNullAtOrigin | repository/repository.go:66-129 | A saved row has a geog exactly when the user's location is not (0, 0), so rows at the origin are invisible to proximity queries |
| Tables.UpsertKeepsWellFormed | repository/repository.go:66-129 | The ON CONFLICT upsert keeps the users table keyed by user id, each id once in insertion order |
| Tables.Relocated | repository/repository.go:172-214 | UpdateUserLocation changes latitude, longitude and geog of an existing row only; an unknown user leaves the table as it was |
| Tables.WithRadius | repository/repository.go:216-234 | UpdateUserSearchRadius changes only the radius of an existing row |
| Tables.RelocateThenSameLocation | repository/repository.go:172-214 | After a location update, sending the same non-zero location again reports no change |
| Tables.FirstLocationTriggers | repository/repository.go:172-214 | A user with no stored location who has a radius reports a change on the first location |
| Tables.NearbyRowsMembers | repository/repository.go:708-766 | Every row the radius filter keeps is a stored row of the users table within the radius |
| Tables.NearbyRowsDistinct | repository/repository.go:708-766 | The radius filter yields each user at most once |
| Tables.SortByDistance | repository/repository.go:708-766 | ORDER BY distance, as an insertion sort that keeps the multiset of rows; rows at equal distance come in an order the query leaves open |
| Tables.SortByDistanceCorrect | repository/repository.go:708-766 | The sorted rows are in non-decreasing distance order, are a permutation of the input and keep each user once |
| Tables.RadiusRowsCorrect | repository/repository.go:708-766 | FindUsersInRadius returns exactly the users whose geog is within the radius, each once, nearest first, with their stored fields |
| Tables.NewestFirst | repository/repository.go:307-354 | The rows a listing query keeps, in reverse insertion order (ORDER BY created_at DESC) |
| Tables.NewestFirstConcat | repository/repository.go:307-354 | Newest-first listing of a concatenation lists the later rows first |
| Tables.NewestFirstDescending | repository/repository.go:307-354 | Rows stored with increasing ids are listed with strictly decreasing ids |
| Tables.NewestFirstByCreatedAt | repository/repository.go:307-354 | Where created_at does not decrease along the table, the newest-first listing has non-increasing created_at, as ORDER BY created_at DESC requires |
| Tables.LastOwnActiveCorrect | repository/repository.go:376-417 | GetLastUserExchange finds nothing exactly when the user has no live exchange; otherwise it finds the user's live exchange with the largest id |
| Tables.LiveExchange | repository/repository.go:266-305 | GetExchangeByID yields the row with that id unless it is missing or soft-deleted |
| Tables.InsertedExchange | repository/repository.go:236-264 | CreateExchange stores the next id, created_at defaulted to now, deleted_at NULL and the caller's other columns (is_deleted included) |
| Tables.InsertedKeepsClockOrder | repository/repository.go:236-264 | An insert keeps created_at in insertion order exactly when its created_at (the caller's, or now) is no earlier than every stored row's |
| Tables.CreatedExchangeReadsBack | repository/repository.go:236-305 | A created exchange can be read back by its new id with the fields it was created with |
| Tables.WithStatus | repository/repository.go:356-374 | UpdateExchangeStatus changes the status of the row with that id, deleted or not, and nothing else |
| Tables.WithExchange | repository/repository.go:419-451 | UpdateExchange copies direction, status, amount, coordinates and the deletion columns from the given exchange; owner and creation time stay; no deleted filter |
| Tables.SoftDeletedHides | repository/repository.go:453-471 | After a soft delete the exchange is gone for GetExchangeByID, every other exchange reads as before and no other row changed |
| Tables.SoftDeletedIdempotent | repository/repository.go:453-471 | A second soft delete at any later time changes nothing, deleted_at included |
| Tables.SoftDeletedNoOp | repository/repository.go:453-471 | Soft-deleting an unknown or already deleted id changes nothing and is not an error |
| Tables.FilterIdsIncrease | repository/repository.go:473-521 | Filtering rows stored in id order keeps them in id order |
| Tables.LatestPerAuthorNonEmpty | repository/repository.go:884-899 | The per-author window keeps each author's newest row, so a non-empty candidate set gives a non-empty result |
| Tables.LatestPerAuthorIdsIncrease | repository/repository.go:884-899 | The per-author window keeps insertion order |
| Tables.LatestPerAuthorDistinct | repository/repository.go:884-899 | The per-author window keeps at most one row per author |
| Tables.LatestPerAuthorIsLatest | repository/repository.go:884-899 | The row kept for an author is that author's newest candidate |
| Tables.TakePrefix | repository/repository.go:866-951 | LIMIT keeps a prefix: order, distinctness and membership carry over |
| Tables.HistoricalWindowShape | repository/repository.go:866-951 | One window's answer holds at most 10 rows, in id order, one per author |
| Tables.HistoricalWindowRows | repository/repository.go:866-951 | One window's rows are its candidates, each the newest candidate of its author; the window is empty exactly when it has no candidate |
| Tables.FirstHistoricalIsAWindow | repository/repository.go:866-951 | The progressive search answers with the first non-empty window, or nothing when every window is empty |
| Tables.CandidateWidens | repository/repository.go:866-951 | A candidate of a shorter window is a candidate of the 30-day window |
| Tables.HistoricalShape | repository/repository.go:866-951 | FindHistoricalExchangesInRadius returns at most 10 rows, oldest first, one per author |
| Tables.HistoricalRows | repository/repository.go:866-951 | Every row it returns is a live posted listing within the radius, created within the last 30 days, not by the excluded user |
| Tables.HistoricalEmpty | repository/repository.go:866-951 | It returns nothing exactly when the last 30 days hold no matching listing |
| Tables.WithDelivery | repository/repository.go:592-611 | UpdateTimelineRecord sets message id and status of the record with that id and changes nothing else |
| Tables.WithTimelineStatus | repository/repository.go:613-631 | UpdateTimelineRecordStatus sets the status of the record with that id and changes nothing else |
| Tables.MarkDeleted | repository/repository.go:633-657 | MarkTimelineRecordsAsDeleted marks every live record of the exchange deleted at now and leaves other records alone |
| Tables.MarkDeletedIdempotent | repository/repository.go:633-657 | A second cascade changes nothing, deleted_at included |
| Tables.MarkDeletedUnknownExchange | repository/repository.go:633-657 | Cascading an exchange without records is a no-op |
| Tables.MarkDeletedHidesRecords | repository/repository.go:545-706 | After the cascade the exchange has no active records, while its full history still lists as many records, all deleted |
| Tables.WithRequestCorrect | repository/repository.go:768-841 | After CreateContactRequest the pair exists, other pairs are unchanged and there is still at most one row per pair |
| Tables.WithRequestIdempotent | repository/repository.go:789-841 | Repeating the same request leaves the table the first call produced |
| Tables.UpdatedLatest | repository/repository.go:972-1005 | UpdateLocationHistory gives only the latest history entry the new coordinates |
| Tables.ShouldTrigger | repository/repository.go:1007-1039 | No history entry: no fanout; one entry: fanout; otherwise fanout iff the last two entries differ in radius or coordinates |
| Tables.TriggerAfterOnboarding | repository/repository.go:953-1039 | After a radius is chosen and a location sent, the fanout fires iff this is the first entry or the new (radius, location) differs from the previous entry |
| Repository.ScanNewestFirst | repository/repository.go:324-349 | The row-scanning loop of a newest-first query collects exactly the kept rows in reverse insertion order |
| Repository.Store.constructor | repository/repository.go:15-18 | A repository over an empty database: every table empty |
| Repository.Store.FindUser | repository/repository.go:20-64 | Returns a user exactly when the query works and the row exists, and then the row as a User (NULL coordinates as 0) |
| Repository.Store.SaveUser | repository/repository.go:66-129 | Succeeds iff both statements do; a failed upsert changes nothing; a failed geog update leaves the upserted columns with the old geog; success stores the row with geog set from the coordinates |
| Repository.Store.ShowCallout | repository/repository.go:131-149 | Shows the callout unless the pair was dismissed; a failing query shows it |
| Repository.Store.DismissCallout | repository/repository.go:151-170 | Adds the (user, feature) pair on success, duplicates ignored; a failure changes nothing |
| Repository.Store.UpdateUserLocation | repository/repository.go:172-214 | On success relocates the user's row; reports a change iff the previously found user had a radius and other coordinates |
| Repository.Store.UpdateUserSearchRadius | repository/repository.go:216-234 | On success sets the radius of the user's row; a failure changes nothing |
| Repository.Store.CreateExchange | repository/repository.go:236-264 | On success appends the exchange with the next serial id and returns that id; on failure the table and the id stay |
| Repository.Store.GetExchangeByID | repository/repository.go:266-305 | The live exchange with that id, none if it is missing, soft-deleted or the query fails |
| Repository.Store.GetUserExchanges | repository/repository.go:307-354 | The user's live exchanges, newest first |
| Repository.Store.UpdateExchangeStatus | repository/repository.go:356-374 | On success sets the status of the exchange with that id; a failure changes nothing |
| Repository.Store.GetLastUserExchange | repository/repository.go:376-417 | The user's newest live exchange, none when there is none |
| Repository.Store.UpdateExchange | repository/repository.go:419-451 | On success copies the mutable columns of the exchange with that id |
| Repository.Store.SoftDeleteExchange | repository/repository.go:453-471 | On success marks the live exchange deleted at now; unknown or already deleted ids change nothing |
| Repository.Store.GetActiveExchanges | repository/repository.go:473-521 | Every live exchange, newest first |
| Repository.Store.CreateTimelineRecord | repository/repository.go:523-543 | On success appends the record with the next serial id and returns it |
| Repository.Store.GetTimelineRecordsByExchange | repository/repository.go:545-590 | Every record of the exchange, deleted ones included, newest first |
| Repository.Store.UpdateTimelineRecord | repository/repository.go:592-611 | On success sets message id and status of that record |
| Repository.Store.UpdateTimelineRecordStatus | repository/repository.go:613-631 | On success sets the status of that record |
| Repository.Store.MarkTimelineRecordsAsDeleted | repository/repository.go:633-652 | On success marks every live record of the exchange deleted |
| Repository.Store.SoftDeleteExchangeTimeline | repository/repository.go:654-657 | The same cascade as MarkTimelineRecordsAsDeleted |
| Repository.Store.GetActiveTimelineRecordsByExchange | repository/repository.go:659-706 | The exchange's live records, newest first |
| Repository.Store.FindUsersInRadius | repository/repository.go:708-766 | The users whose geog lies within the radius of the point, nearest first, read back as Users |
| Repository.Store.CheckContactRequestExists | repository/repository.go:768-787 | True exactly when the query works and the (exchange, requester) pair has a row |
| Repository.Store.CreateContactRequest | repository/repository.go:789-841 | On success inserts the request unless the pair already has a row; a duplicate is not an error |
| Repository.Store.CountUsersInRadius | repository/repository.go:843-864 | The number of users within the radius, 0 when the query fails |
| Repository.Store.FindHistoricalExchangesInRadius | repository/repository.go:866-951 | The first non-empty of the 3-, 7-, 14- and 30-day windows, nothing on failure |
| Repository.Store.CreateLocationHistory | repository/repository.go:953-970 | On success appends an entry with the radius and coordinates (0, 0) to the user's history |
| Repository.Store.UpdateLocationHistory | repository/repository.go:972-1005 | Gives the latest entry the coordinates; a user without entries is an error and nothing changes |
| Repository.Store.ShouldTriggerHistoricalFanout | repository/repository.go:1007-1039 | Whether the user's history asks for a historical fanout; false on failure |
| Screens.AfterSave | repository/repository.go:66-129 | The users table after SaveUser: unchanged when the upsert fails; otherwise the user reads back as saved, no other user changes and the key set grows by at most this user |
| Screens.Persist | repository/repository.go:66-129 | A menu handler's SaveUser call leaves the table AfterSave describes and succeeds iff both statements do |
| Screens.SaveKeepsUser | repository/repository.go:66-129 | A found user stays found after a save, with the new menu state, or the old one when the upsert fails |
| Screens.TaggedPartCorrect | menu/main_menu.go:55-62 | Splitting a payload on ':' accepts exactly "<tag>:<rest>" with no further ':' in rest |
| Screens.ComplianceNext | menu/us_compliance_menu.go:52-113 | The yes answer leads to Blocked, the no answer to Init, any other payload to nothing |
| Screens.ComplianceButtons | menu/us_compliance_menu.go:18-43 | The compliance question carries exactly the two payloads the callback understands |
| Screens.ComplianceHandle | menu/us_compliance_menu.go:18-43 | Handle sends the compliance question and nothing else |
| Screens.BlockedHandle | menu/blocked_menu.go:17-32 | Handle sends one message without buttons and changes no state |
| Screens.InitHandle | menu/init_menu.go:24-98 | The welcome, the admin notice when the callout is due (then dismissed), and the move to radius selection; once the callout statements work the notice is never due again for this user |
| Screens.RadiusOf | menu/select_radius_menu.go:60-70 | radius_5, radius_15 and radius_50 stand for 5, 15 and 50 km; any other payload for none |
| Screens.RadiusButtons | menu/select_radius_menu.go:20-54 | The prompt's buttons are exactly the payloads the callback maps, to 5, 15 and 50 km |
| Screens.SelectRadiusHandle | menu/select_radius_menu.go:20-54 | Handle sends the radius prompt and nothing else |
| Screens.SelectRadiusCallback | menu/select_radius_menu.go:56-119 | An unknown payload or a failed radius update does nothing more; otherwise the full confirmation sequence of ConfirmRadius |
| Screens.ConfirmRadius | menu/select_radius_menu.go:78-118 | Answer, confirm, save the radius, open a history entry, move to the location question and show it, stopping at the first failed save |
| Screens.AcknowledgeRadius | menu/select_radius_menu.go:78-88 | The press is answered and its message edited into the confirmation naming the radius |
| Screens.Located | menu/ask_location_menu.go:18-40 | The user with the shared coordinates |
| Screens.AskLocationHandle | menu/ask_location_menu.go:42-87 | A shared location is saved and the latest history entry takes it, then the user moves to the phone question whatever failed; without a location only the prompt |
| Screens.SaveLocation | menu/ask_location_menu.go:18-40 | The user row, its coordinates and the latest history entry, each step skipped on failure |
| Screens.SkipLabel | menu/ask_phone_menu.go:26-97 | The label of the "don't share" key in the user's language |
| Screens.EmptyTextIsNotSkip | menu/ask_phone_menu.go:26-97 | The empty follow-up message never equals the skip label, so it only re-sends the prompt |
| Screens.TransitionToHistoricalFanoutExecute | menu/historical_fanout_execute_menu.go:102-118 | The user is saved in state 290; a failed save stops there |
| Screens.AskPhoneHandle | menu/ask_phone_menu.go:17-97 | A shared contact wins and is saved as the phone; the skip text clears it; both move to the historical fanout; anything else re-sends the prompt and reads the user back, a crash when not found |
| Screens.ExecuteToMain | menu/historical_fanout_execute_menu.go:83-100 | The user is saved in the main state; the menu loop shows it |
| Screens.TransitionToHistoricalFanoutWait | menu/historical_fanout_wait_menu.go:107-132 | The user is saved in state 295; after a successful save the user is read back, a crash when not found |
| Screens.HistoricalFanoutExecuteHandle | menu/historical_fanout_execute_menu.go:19-81 | A failed or negative trigger, no radius, a failed or empty listings query or a failed broadcast lead to Main; a broadcast that went out leads to the wait screen; exactly one of the two is saved |
| Screens.ContinueButton | menu/historical_fanout_wait_menu.go:64-85 | The prompt has one button, the continue payload, queued behind the listings it follows |
| Screens.HistoricalFanoutWaitHandle | menu/historical_fanout_wait_menu.go:19-34 | The continue prompt at priority 70, then the user is read back, a crash when not found |
| Screens.MainDirectionCorrect | menu/main_menu.go:55-80 | A payload picks a direction iff it is "main:" followed by one of the two directions |
| Screens.MainButtons | menu/main_menu.go:25-49 | The menu's two buttons are exactly the two payloads the callback accepts, one per direction |
| Screens.MainPayloadsAccepted | menu/main_menu.go:25-80 | Both payloads of the menu pick their direction |
| Screens.MainHandle | menu/main_menu.go:25-49 | Handle sends the main menu and nothing else |
| Screens.TransitionToMainMenu | menu/main_menu.go:128-143 | The user is saved in the main state, a failed save only logged; no menu is shown |
| Screens.MainCallback | menu/main_menu.go:51-125 | A malformed payload or unknown direction is only answered; otherwise an initiated listing is created (failure ignored), the menu edited into the confirmation, the press answered, and the user moves to the amount screen, which is shown |
| Screens.AcknowledgeDirection | menu/main_menu.go:91-110 | The menu message is edited into the chosen direction, then the press is answered |
| Screens.Chosen | menu/amount_menu.go:125-177 | Cancel changes only the listing's status; an amount sets it and posts the listing, together |
| Screens.AmountPayloadParsed | menu/amount_menu.go:98-148 | "amount:s" asks to cancel when s is "cancel", otherwise for the amount Atoi reads from s |
| Screens.AmountPayloads | menu/amount_menu.go:28-93 | The screen offers eight payloads, four rows of amounts and a cancel row |
| Screens.AmountDigitsAccepted | menu/amount_menu.go:141-148 | A button whose part is a short run of digits asks for the amount the digits denote |
| Screens.AmountButtonsAccepted | menu/amount_menu.go:28-148 | Each amount button asks for the amount its label names; the last one cancels |
| Screens.ApplyAmountChoice | menu/amount_menu.go:125-208 | Update the listing, broadcast a posted one, confirm, answer and return the user to the main menu |
| Screens.StoreChoice | menu/amount_menu.go:125-177 | The update of the listing and, for a posted one, the broadcast |
| Screens.ConfirmAmountChoice | menu/amount_menu.go:179-208 | The confirmation edit, the answer, the save in the main state and the main menu |
| Screens.AmountCallback | menu/amount_menu.go:95-208 | A malformed payload, no last listing, a failed read or a non-numeric amount is only answered; otherwise the newest live listing is cancelled or given its amount and posted, a posted listing broadcast, the press confirmed and answered, and the user is back in the main menu |
| Screens.AmountHandle | menu/amount_menu.go:28-93 | Handle sends the amount screen and nothing else |
| Screens.Dispatch | menu/menu.go:193-228 | The switch on the menu state and the chosen handler's Handle; on the empty follow-up message a handler never moves a stored user back to an earlier state |
| Screens.DispatchEarly | menu/menu.go:194-199 | The compliance, blocked and init states of the switch |
| Screens.DispatchLocation | menu/menu.go:200-203 | The location and radius states of the switch |
| Screens.DispatchLate | menu/menu.go:204-222 | The phone, fanout, main and amount states of the switch |
| Contact.HtmlEscapeChar | menu/contact_request.go:262-271 | Each character goes through the five ReplaceAll passes to exactly its entity, or stays itself |
| Contact.HtmlEscapeIsPerChar | menu/contact_request.go:262-271 | The ReplaceAll chain escapes each character on its own: with '&' first, no entity is escaped twice |
| Contact.HtmlEscapeHasNoMarkup | menu/contact_request.go:262-271 | Escaped text contains none of < > " ' |
| Contact.HtmlEscapePlain | menu/contact_request.go:262-271 | Text without the five special characters is returned unchanged |
| Contact.HtmlEscapeRoundTrip | menu/contact_request.go:262-271 | Decoding the entities of escaped text gives the text back |
| Contact.DisplayNameParts | menu/contact_request.go:204-237 | The name is the non-empty name parts with a space between two, "Anonymous" when there are none |
| Contact.UserIdentifierShape | menu/contact_request.go:204-237 | The identifier is the @username form or the tg://user link form, and has the phone line exactly when asked for and known |
| Contact.PhoneLineShape | menu/contact_request.go:204-237 | When asked for and known, the phone line is a line break and then the localized "phone_label" template formatted with the raw phone number (not HTML-escaped); otherwise there is no phone line |
| Contact.UserLinkNameInert | menu/contact_request.go:204-237 | A user without a username is shown as a link whose visible name contains no < > " or ' between the opening tag and the closing anchor |
| Contact.ParsePayloadCorrect | menu/contact_request.go:22-40 | Exactly the payloads "<tag>:<n>" with a 64-bit decimal n are accepted, and they give n |
| Contact.PayloadRoundTrip | fanout/fanout.go:100-115 | The contact and delete payloads the fanout writes parse back to their exchange id |
| Contact.MalformedPayloads | menu/contact_request.go:276-294 | A third part, no number, a non-number or another tag is refused |
| Contact.ContactExchangeOfNames | menu/contact_request.go:127-202 | The requester's edit names the author and the author's notice names the requester |
| Contact.HandleContactRequest | menu/contact_request.go:19-124 | A malformed payload, a missing or deleted listing, a missing author or a failed lookup is only answered; otherwise the request row is created if absent (a failure ends there), the press answered, the requester's message shows the author and the author is told who asked, also when the row already existed |
| Contact.ShareContact | menu/contact_request.go:105-124 | A recorded request: the requester's message shows the author, then the author gets the requester's contact |
| Contact.FindContactParties | menu/contact_request.go:22-69 | The payload parses, the listing is live and its author is found, or the press is only answered |
| Contact.RecordContactRequest | menu/contact_request.go:71-98 | A row for the pair is created unless present; the answer says whether a row is there afterwards |
| Contact.FirstRecordFor | menu/contact_request.go:378-385 | The first record addressed to the user, if any |
| Contact.RecipientEditsSound | menu/contact_request.go:414-459 | The recipients' edits skip the author, records without a message id and users that are not found |
| Contact.RecipientEditsComplete | menu/contact_request.go:414-459 | Every editable record's message is edited, in the reader's language |
| Contact.FoundUserId | repository/repository.go:20-64 | A found user carries the id it was looked up by |
| Contact.AuthorEditCorrect | menu/contact_request.go:375-411 | The author is told at most once, in their own message, and only when that message is known |
| Contact.FindAuthorRecord | menu/contact_request.go:378-385 | The loop that searches the timeline finds the first record addressed to the author and stops there |
| Contact.EditAuthorMessage | menu/contact_request.go:375-411 | One edit of the author's message when it is known, nothing otherwise |
| Contact.EditRecipientMessages | menu/contact_request.go:414-459 | One edit attempt per editable record; a failed edit does not stop the rest |
| Contact.EditRecipientMessage | menu/contact_request.go:417-455 | One round of that loop: an edit for a reader other than the author, with a message, who is found |
| Contact.EditExchangeMessages | menu/contact_request.go:359-369 | The author's message, then every other reader's, each edited to its removal notice |
| Contact.DeleteCascade | menu/contact_request.go:333-369 | Soft delete the listing, read its timeline, soft delete the timeline, each failure ending it there; then the author's and the readers' messages |
| Contact.DeleteTimeline | menu/contact_request.go:346-369 | Once the listing is soft deleted: read its timeline, soft delete it, edit the messages |
| Contact.HandleDeleteExchange | menu/contact_request.go:273-372 | Anyone but the author, a malformed payload or a missing listing gets only the answer; the author's press is answered and then runs the cascade |
| Fanout.NotificationsCorrect | fanout/fanout.go:59-83 | One notification per notified user, in order, each about this listing at priority 100, and nobody else is written to |
| Fanout.NotificationsFollowFilter | fanout/fanout.go:59-83 | The notifications are those of the users the filter keeps, in the same order |
| Fanout.NotificationsOnlyNotified | fanout/fanout.go:59-140 | Every notification is about this listing, at priority 100, addressed to a notified user |
| Fanout.NotificationsOncePerUser | fanout/fanout.go:59-83 | Distinct users get one notification each |
| Fanout.NotificationButtonChoice | fanout/fanout.go:95-120 | The author's button deletes the listing; everyone else's asks for the contact |
| Fanout.NotificationKeys | fanout/fanout.go:142-185 | The catalog keys of a notification, in order |
| Fanout.NotificationContents | fanout/fanout.go:142-185 | The author's header and phrasing exactly for the author, the amount line exactly when an amount is set, the distance line exactly for other readers |
| Fanout.BroadcastExchange | fanout/fanout.go:29-83 | No initiator, no initiator radius or a failed query is an error with nothing published; otherwise every notified user gets one attempt, whatever happened to the earlier ones |
| Fanout.PublishNotifications | fanout/fanout.go:59-80 | The loop makes one publish attempt per notified user, in order |
| Fanout.TimeAgoUnits | fanout/fanout.go:366-405 | Minutes below an hour (singular below two minutes and for a future time), hours below a day, days below a week, weeks up to 30 days, then the singular week; the count is the number of whole units elapsed |
| Fanout.DaysToWeeks | fanout/fanout.go:366-405 | Whole weeks counted from whole days equal whole weeks counted from seconds |
| Fanout.ByKnownAuthorOne | fanout/fanout.go:240-252 | A single listing gives its message exactly when its author is found |
| Fanout.HistoricalNotificationsCorrect | fanout/fanout.go:240-303 | Every historical message goes to the one reader, at priority 80, about a listing with a known author |
| Fanout.HistoricalTextContents | fanout/fanout.go:305-340 | The historical text never uses the author's phrasing and always ends with the distance |
| Fanout.BroadcastHistoricalExchanges | fanout/fanout.go:207-254 | A missing reader is an error, a reader without a radius is left alone without error, a failed query is an error; otherwise one attempt per found listing whose author exists |
| Fanout.PublishHistorical | fanout/fanout.go:240-252 | The loop makes one attempt per listing whose author is found, in order |
| Fanout.PublishHistoricalOne | fanout/fanout.go:241-251 | One round of that loop |
| Language.ZipColumns | menu/language_selection.go:16-46 | Pairing codes with names keeps the length, distinct codes, non-empty names and the set of codes |
| Language.PickerTable | menu/language_selection.go:16-46 | The table lists 27 languages, each with a name, no code twice, and its codes are exactly those with a catalog |
| Language.PickerLayout | menu/language_selection.go:56-84 | ⌈n/2⌉ rows of one or two buttons, only the last row short; read row by row the buttons are the table's entries in order, each marked exactly when its code is the user's |
| Language.CheckmarkOnCurrent | menu/language_selection.go:60-82 | On a table without repeated codes the k-th button shows the k-th name, marked exactly when its code is the user's, and sends lang_ followed by the code |
| Language.BuildPickerRows | menu/language_selection.go:60-82 | The two-at-a-time loop builds exactly the layout PickerLayout describes |
| Language.ShowLanguageSelection | menu/language_selection.go:48-92 | The picker is sent in Markdown with the current language's English name; no state changes |
| Language.NativeName | menu/language_selection.go:114-119 | The first table entry with the code, in table order |
| Language.ChosenName | menu/language_selection.go:113-124 | The confirmation shows the table's name, or "English" for a code the table lacks |
| Language.FindNativeName | menu/language_selection.go:113-120 | The scan finds the first entry with the code and yields its name, or "" when none has it |
| Language.ChosenNameCases | menu/language_selection.go:113-124 | An unlisted code falls back to "English" and a listed one gets its name, on a table without repeats and with non-empty names |
| Language.RegenerateCurrentMenu | menu/language_selection.go:138-214 | Each state's handler runs again on an empty message, so its screen is shown again in the new language; Main and Amount redraw their menu; any other state does nothing |
| Language.RegenerateEarly | menu/language_selection.go:149-179 | The compliance, blocked, init, location and radius cases of that switch |
| Language.RegenerateLate | menu/language_selection.go:180-214 | The main, phone, amount and fanout cases of that switch |
| Language.ConfirmLanguage | menu/language_selection.go:106-130 | The press is answered, then the picker message is edited into the confirmation |
| Language.HandleLanguageSelection | menu/language_selection.go:94-136 | The code is the payload after "lang_"; a failed save stops before anything is sent; otherwise the stored row carries the new code, the press is answered, the picker becomes the confirmation in the new language, and the current screen is shown again exactly as RegenerateCurrentMenu shows it on the saved table (Language.Redrawn) |
| PoFile.ExtractQuoted | locales_test.go:84-90 | Trim, then strip one surrounding pair of quotes if there is one |
| PoFile.ExtractQuotedRoundTrip | locales_test.go:84-90 | Quoting a string and extracting it gives it back, whatever white space surrounds the quotes |
| PoFile.ExtractQuotedUnquoted | locales_test.go:84-90 | A string without surrounding quotes is only trimmed |
| PoFile.Flushed | locales_test.go:45-48 | The current entry is stored when its msgid is not empty; a repeated msgid overwrites |
| PoFile.ParsePOFile | locales_test.go:19-81 | The scanner loop and the final store compute the fold of the line handler over the lines |
| PoFile.BlankAndCommentLinesIgnored | locales_test.go:38-41 | A blank or comment line, wherever it stands, changes nothing |
| PoFile.NoEmptyMsgid | locales_test.go:46-48 | No entry is ever stored under the empty msgid |
| PoFile.ContinuationAppends | locales_test.go:60-68 | A quoted line after msgid or msgstr continues that string |
| PoFile.FoldBlock | locales_test.go:43-59 | One entry's two lines store the previous entry and hold the new one |
| PoFile.BlocksFold | locales_test.go:34-69 | After the lines of a non-empty list of entries the scanner holds the last one |
| PoFile.ParseBlocks | locales_test.go:19-81 | Entries written as msgid/msgstr pairs parse back to the entries as a map, a repeated msgid keeping its last value |
| Sender.CodeValue | sender/sender.go:242 | Atoi of the three captured digits is a number from 400 to 599 |
| Sender.ExtractErrorCodeCorrect | sender/sender.go:228-248 | The code is the capture of the leftmost match of the pattern, and 0 means the pattern matches nowhere |
| Sender.SmallestCode | sender/sender.go:228-248 | When the pattern matches somewhere it has a leftmost match |
| Sender.ExtractErrorCodeRange | sender/sender.go:231-248 | Every answer is 0, 200 or an HTTP error code from 400 to 599 |
| Sender.NoCodeExamples | sender/sender.go:228 | A phone number, a four-digit number and two-digit numbers carry no code |
| Sender.CodeExamples | sender/sender.go:228-248 | The first code wins; a code glued to other digits does not count |
| Sender.RouteOf | sender/sender.go:28-74 | Three message_type values pick their handler; anything else, or no header, is a regular message |
| Sender.MetricFor | sender/sender.go:90-100 | After a call the metric is "sent"/"none", or "failed" with the extracted code |
| Sender.PublishedRoundTrip | sender/sender.go:28-213 | Every envelope the bot publishes reaches the handler of its own kind and becomes its own Bot API call; a notification's ids survive the headers |
| Sender.DeliveryRecord | sender/sender.go:125-157 | The record is sent with the message id, or failed without one |
| Sender.HandleExchangeNotification | sender/sender.go:103-158 | Ids that are not int64 end it with no call and no record; otherwise the message is sent and exactly one record of the outcome is inserted |
| Sender.CallForCases | sender/sender.go:28-74 | A call is made exactly when the body unmarshals and a notification has both int64 ids; the call is of the route's kind, and a body of another bag kind gives that kind's zero-valued call, as json.Unmarshal ignores unknown keys |
| Sender.Handle | sender/sender.go:28-74 | The call made is the one for the envelope's kind, its outcome is counted, and only an exchange notification adds a timeline record |
| Sender.NotificationLeavesOneRecord | sender/sender.go:103-158 | A notification the bot published leaves exactly one timeline row for its exchange and recipient, sent or failed as the Bot API said |
| Session.MergeProfile | menu/menu.go:49-97 | The merged user and whether anything changed, one field at a time |
| Session.MergeOnlyChanged | menu/menu.go:88-93 | A save happens exactly when the merge changes something |
| Session.MergeIdempotent | menu/menu.go:49-97 | Merging the same profile twice changes nothing more and asks for no second save |
| Session.MergeFields | menu/menu.go:54-87 | An empty field never overwrites a stored one, a non-empty one always wins; only a new user takes the sender's language; state, location, radius and phone are not touched |
| Session.SavedAllEffect | menu/menu.go:89-125 | With the upsert failing the saves of a pass change nothing; otherwise the last user saved reads back |
| Session.StartCommandResets | menu/menu.go:99-117 | /start, matched exactly, clears the text and moves the user to the compliance check; a working save stores exactly that user |
| Session.LocationCommandMoves | menu/menu.go:119-134 | /location in any letter case clears the text and moves the user to radius selection |
| Session.PreparedQuiet | menu/menu.go:30-134 | Without a command and without a profile change a found user is used as stored and nothing is saved |
| Session.UnknownUserBootstrapped | menu/menu.go:32-47 | A user that is not found starts at the compliance check unless a command moves it, in English unless the sender reports a language, with no location, radius or phone |
| Session.Prepare | menu/menu.go:28-134 | Lookup, bootstrap, profile merge, /start and /location, with every save they make |
| Session.Shown | menu/menu.go:193-228 | The one message a waiting screen publishes on a bare message; none for the screens that move on by themselves or have no loop handler |
| Session.ExchangeCommand | menu/menu.go:151-186 | /exchange: the not-initialized message unless location and radius are set, else state Main, saved, and the main menu |
| Session.Finish | menu/menu.go:136-228 | A pass that returns: /language shows the picker, /exchange its answer, Main its menu, any other state without a loop handler nothing |
| Session.RunHandler | menu/menu.go:193-232 | The loop handler runs and the user is read back; not finding it is the nil dereference; on a bare message a waiting screen only shows its prompt and a stored user never moves back |
| Session.Proceed | menu/menu.go:136-232 | The commands that return and the handler switch, once the pass is prepared |
| Session.FoundUnderItsId | repository/repository.go:20-64 | A found user carries the id it was found under |
| Session.Round | menu/menu.go:25-237 | A pass returns exactly at /language, /exchange or a state without a loop handler, with the effect the preparation fixes; a handled pass leaves the user stored; on a follow-up message nothing is saved before the handler, a stored user never moves back and a waiting screen shows its prompt once |
| Session.IsStateChanged | menu/menu.go:246-261 | True when the user is not found, otherwise whether its state differs from the previous one |
| Session.FollowRounds | menu/menu.go:25-237 | The loop after its first pass ends within nine passes, because each pass after the first starts from a later loop-handler state; a stored user that had not moved back never ends earlier than it started |
| Session.HandleMessage | menu/menu.go:18-244 | The loop starts from the ban state; a first pass that returns has exactly the effect of its commands; with FindUser failing the single pass crashes unless it returns; on a follow-up message a waiting screen is shown once and the loop ends, and a stored user never moves back |
| Session.ContinueMenuProcessing | menu/menu.go:264-276 | The loop again, on a message whose sender carries only the user's id |
| Session.AnswerCompliance | menu/us_compliance_menu.go:53-80 | The answer's state is saved, a failed save only logged, and the question is edited |
| Session.ComplianceCallback | menu/us_compliance_menu.go:45-114 | The press is answered first; yes saves Blocked, no saves Init, the question loses its buttons and the loop shows the new state; with the save failing the question is shown again; any other payload is only answered |
| Session.WaitToMain | menu/historical_fanout_wait_menu.go:87-104 | State Main, saved; a failed save ends it; otherwise the loop shows the main menu |
| Session.WaitContact | menu/historical_fanout_wait_menu.go:50-59 | A contact button on the wait screen: Main first, then the contact request for the user at Main |
| Session.WaitCallback | menu/historical_fanout_wait_menu.go:36-62 | The continue button is answered and leads to Main; a contact button leads to Main and is then handled as a contact request; any other press is dropped without an answer |
| Session.LanguageButtonsRoute | menu/menu.go:288-293 | A language button is taken as a language choice in every state |
| Session.MainButtonsRoute | menu/menu.go:296-310 | Outside the three states with their own callbacks, the main menu's buttons reach the main-menu callback |
| Session.AmountButtonsRoute | menu/menu.go:296-336 | Outside those states the amount menu's buttons reach the amount callback |
| Session.NotificationButtonsRoute | menu/menu.go:296-342 | Outside those states a notification's buttons reach the contact and the delete callbacks |
| Session.ContinueButtonRoute | menu/menu.go:300-333 | The continue button goes to the wait screen while the user waits, and to the router's own continue branch outside the three states |
| Session.WaitDropsDelete | menu/historical_fanout_wait_menu.go:36-62 | While the user waits, a notification's delete button reaches the wait screen, which takes neither the continue nor a contact payload, so the press is dropped |
| Session.ComplianceIgnoresMenu | menu/us_compliance_menu.go:45-114 | At the compliance question a stale main-menu button is taken by the compliance callback and ignored |
| Session.AckAnswers | context/context.go:41-48 | An answer published after a point answers the press |
| Session.PrefixCallback | menu/menu.go:308-345 | The payload-prefix routes: the main, continue and amount branches answer the press; an unknown payload changes nothing |
| Session.AmountPressed | menu/amount_menu.go:95-208 | Every press of the amount menu is answered |
| Session.NotificationCallback | menu/contact_request.go:19-372 | The contact and delete buttons of a notification are answered; any other payload is left alone |
| Session.HandleCallback | menu/menu.go:279-346 | A press from an unknown user is dropped; otherwise it goes where RouteOf sends it; language choices and the payload routes answer it; the three states with their own callbacks decide for themselves |

## Left out

- Great-circle distance (haversine in fanout/fanout.go:187-204) is floating-point trigonometry. The whole-kilometre distance a reader sees is a parameter of the fanout.
- PostGIS (`ST_DWithin`, `ST_Distance`) is a pair of functions `Tables.Geo` supplied from outside. Coordinates are `real` and are only compared and tested for zero.
- SQL transactions and the `FOR UPDATE` lock are not modelled. Concurrent requests are out of scope: the contact-request insert is modelled by its sequential effect.
- The database, AMQP (rabbit/rabbit.go) and Telegram are not connected. Any statement kind can fail (a `failing` set on the store), any publish attempt can fail (a set of attempt numbers), and the Bot API reply is a parameter of the sender.
- Catalog loading from PO files at start-up is not modelled, and neither are gotext's plural forms. The catalogs are a parameter (`Locale.Catalogs`). `fmt.Sprintf` is modelled only for `%d`, `%s`, `%v` and `%%`.
- `time.Now()` is an integer number of seconds passed in. Go's float `Duration` conversions in `formatTimeAgo` become whole-unit integer division. `updated_at` columns are not modelled.
- The goroutine that broadcasts a posted listing (menu/amount_menu.go:168-176) runs as a plain call right after the update, so the order of its publishes against the confirmation is fixed here.
- Metrics (metrics/*), Sentry reporting (bugsink/*), configuration (config/config.go), logging, the process plumbing in librecash.go and the Telegram constructors in messaging/helpers.go are observability or I/O and are left out. Only the sender's metric call is modelled, because its error code comes from `extractErrorCode`.
- Inline and reply keyboards keep their buttons' labels and payloads. Telegram's display flags (resize, one-time) are not kept.
- Language.HandleLanguageSelection: uses the picker's language table as a parameter `langs`, with `Language.PickerTable` proving the facts about the table the code declares.
- Session.HandleMessage: the first pass of the `for isStateChanged` loop is written out before the loop. When the first pass runs a handler that moves the user on, the later passes are stated through FollowRounds (at most nine more, a stored user never moves back, the publish log only grows), not as an exact list of messages.
- Session.FollowRounds: bounds the number of passes and keeps the state from moving back. It does not give the exact messages of each later pass.
- Session.HandleCallback: for the main-menu, amount, contact and delete routes it states only that the press is answered. The exact effects are in Screens.MainCallback, Screens.AmountCallback, Contact.HandleContactRequest and Contact.HandleDeleteExchange. For the wait screen's continue and contact presses it states nothing; their effect is stated in Session.WaitCallback. For the language and compliance routes it states only the messages that come first.
- Session.WaitCallback: the contact-button branch is stated as the messages it starts with (the main menu, then the answer). The rest is Contact.HandleContactRequest, for the user at Main.
- Session.WaitContact: states its effect as a prefix of the publish log, as WaitCallback does.
- Session.ComplianceCallback: for "no" with a working save, it states only that the user is then at Init or later, not the messages of the onboarding screens the loop shows.
- Session.PrefixCallback: for the main, amount, contact and delete payloads it states only that the press is answered (see Session.HandleCallback).
- Sender: `Start` (the consumer registration) and the connection handling are left out. Only the handling of one delivery is modelled.
- The radius a user chooses is stored and shown, but both fanout queries use 90000 km, as the code does. A model with the per-user radius is not given.
- Tables.NewestFirst: "ORDER BY created_at" (the listings, GetLastUserExchange, the ROW_NUMBER window and the oldest-first historical query) is modelled as insertion order. The two agree only while created_at does not decrease along the table, which assumes sequential inserts, a clock that never runs back and callers that pass no earlier created_at; the store does not enforce it. Tables.NewestFirstByCreatedAt and Tables.InsertedKeepsClockOrder state the condition.
- Test harnesses and mocks are not modelled. Where a mock disagrees with the real code, the real code is modelled: the mock `BroadcastExchange` in fanout/fanout_test.go stops at the first publish error, and menu/menu_routing_test.go uses an `amount_` prefix.
