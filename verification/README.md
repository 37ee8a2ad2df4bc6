# ATC organisation terminal — a Dafny model

This project models the behaviour of a single-page web application for a gaming
organisation ("ATC"). Members sign in with a callsign and password. The
administrator approves, denies and removes applicants. Members enter a monthly
raffle, edit their own directory entry and hangar, manage the shared fleet
catalogue, and chat with generated members. The application shell holds every
collection and hands each screen the intents it may call. The screens hold only
form and view state. A generative content service supplies the fleet
catalogue, the member pool of the chat, ship descriptions, the live server
status and the chat replies.

Every intent becomes a pure Dafny function from the state before it to the
state after it. Its contract says what the intent does. A separate lemma
relates each intent to a partner: an inverse that undoes it, an invariant it
keeps, or a reference definition.

Modules, following the program's structure:

- `Common`: `Option` and `Outcome`. An `Outcome` is either a returned value or
  a thrown error.
- `Text`: the string built-ins the code relies on: `trim`, `toLowerCase`,
  `includes`, `join`, number rendering, `replace(/\s/g, …)`, and the order
  used for sorting.
- `Types`: the records of `types.ts`.
- `Raffles`, `Accounts`, `Session`: the application shell (`App.tsx`). These
  cover the raffle intents and views, the account roster and its intents,
  login and logout, the seed data, and the dashboard aggregates.
- `Fleet`, `Members`, `Dashboard`, `Chat`, `LoginScreen`: the logic of the
  five screens.
- `GeminiService`: what the service wrapper does with whatever the generator
  answered.

Inputs the code takes from the environment become parameters:

- `Date.now()` becomes the `id`, `shipId`, `newId`, `now` and `joinDate`
  parameters.
- `Math.random()` becomes a `pick` index below the list length.
- The generator's answers become `Outcome<string>` or `Option` inputs.
- The formatted clock time becomes a `timestamp` string.
- Dates are integers (milliseconds) or `CalendarDate` triples.

In these places the code's behaviour is easy to misread; the model follows the code:

- Editing and deleting a fleet ship go by name through `map` and `filter`. So
  every ship with that name is replaced or removed, not only the first one
  (`Fleet.UpdateShip`, `Fleet.DeleteShip`, `Fleet.DeleteRemovesEveryNamesake`).
- Login takes the first account whose callsign matches ignoring case and
  whose password matches. It then checks that this one account is approved.
  "Succeeds iff some approved account matches" holds only while callsigns
  are unique ignoring case. Registration keeps that invariant
  (`Accounts.AuthenticateIff`, `Accounts.RegisterKeepsCallsignsUnique`).
- Adding a fleet ship waits for the generated description and inserts the
  finished ship afterwards. The description is not written into an
  already-inserted record (`Fleet.AddShip`).

## Model

| member | source | states |
|---|---|---|
| Raffles.FirstActive | App.tsx:129 | The position found is either past the end or an active raffle, and every raffle before it is inactive. |
| Raffles.CurrentRaffle | App.tsx:129 | There is no current raffle exactly when no raffle is active. Otherwise the current raffle is the first active raffle of the list: every raffle before it is inactive. |
| Raffles.PastRaffles | App.tsx:130 | The history is ordered latest end date first. It holds exactly the inactive raffles, each as often as the list holds it, and no active raffle. |
| Raffles.EntriesFor | App.tsx:131 | An entry is kept exactly when it belongs to the given raffle id. |
| Raffles.EntriesForCounts | App.tsx:131 | Each entry of the raffle is kept exactly as often as the list holds it, and no other entry is kept. |
| Raffles.EntriesForAppend | App.tsx:131 | The entries of a joined list are those of the first part followed by those of the second, so the kept entries stay in list order, which decides the drawn entrant. |
| Raffles.HasEnteredIff | App.tsx:131-132 | A callsign has entered exactly when a raffle is active and the entry (current raffle id, callsign) is present. |
| Raffles.EnterRaffle | App.tsx:134-138 | With no active raffle the entries are unchanged. Otherwise the entry for (current raffle, caller) is appended exactly when it is not already present. |
| Raffles.EnterKeepsEntriesUnique | App.tsx:134-138 | Entering never creates a duplicate entry. |
| Raffles.EnterIdempotent | App.tsx:134-138 | Entering twice in a row leaves the same entries as entering once. |
| Raffles.EnterMarksEntered | App.tsx:132-138 | After entering an active raffle, the caller counts as entered. |
| Raffles.StartRaffle | App.tsx:140-150 | The old raffles keep every field but become inactive. The new raffle is appended active with no winner. Afterwards at most one raffle is active, and the new one is the current raffle. |
| Raffles.DrawnCallsign | App.tsx:153-160 | With entries, the drawn callsign is the picked entrant's. With none, it is the "No entries" sentinel. |
| Raffles.DrawWinner | App.tsx:152-162 | With no active raffle nothing changes. Otherwise every raffle with the current id becomes inactive with the drawn winner, and every other raffle is unchanged. |
| Raffles.DrawWinnerConcludes | App.tsx:152-162 | While at most one raffle is active, a draw leaves no raffle active. The winner holds an entry of the drawn raffle when it had entries, and is "No entries" when it had none. |
| Raffles.DrawWinnerOnce | App.tsx:152-162 | While at most one raffle is active, drawing again after a draw changes nothing. |
| Raffles.NoEntryAfterDraw | App.tsx:134-162 | While at most one raffle is active, entering after a draw is refused. |
| Accounts.FindCredentials | App.tsx:167 | The position found is the first account whose callsign matches ignoring case and whose password matches exactly, or the end of the list. |
| Accounts.Authenticate | App.tsx:166-168 | A success is always an approved account of the roster with matching credentials. With no matching account the login fails. |
| Accounts.AuthenticateIff | App.tsx:166-178 | While callsigns are unique ignoring case, a login succeeds exactly when some approved account matches, and it yields that account. |
| Accounts.Register | App.tsx:181-197 | A callsign taken ignoring case fails with "Gamer Tag already taken." and leaves the roster unchanged. Any other callsign appends exactly one pending "Recruit" account with the given id, credentials, join date and seed avatar, owning one "Aurora MR" under its own ship id. The earlier accounts stay as they were. |
| Accounts.RegisterKeepsCallsignsUnique | App.tsx:181-197 | Registration keeps callsigns unique ignoring case. |
| Accounts.RegisteredIsPending | App.tsx:166-197 | A fresh registration cannot log in before it is approved. |
| Accounts.Approve | App.tsx:199-201 | Every account with the id becomes approved. Every other account and every other field is unchanged. |
| Accounts.Deny | App.tsx:203-205 | Every account with the id becomes denied. Every other account and every other field is unchanged. |
| Accounts.SetAccessLastWins | App.tsx:199-205 | Two moderation decisions in a row leave only the second one's effect. |
| Accounts.Remove | App.tsx:207-209 | Exactly the accounts with a different id are kept. Removing an id nobody holds changes nothing. |
| Accounts.RemoveUndoesRegister | App.tsx:181-209 | Removing an account just registered under a fresh id restores the roster. |
| Accounts.RemoveKeepsCallsignsUnique | App.tsx:207-209 | Removal keeps callsigns unique ignoring case. |
| Accounts.UpdateAvatar | App.tsx:211-213 | Only accounts whose callsign matches exactly get the new avatar. Everything else is unchanged. |
| Accounts.UpdateAvatarLastWins | App.tsx:211-213 | Two avatar changes in a row leave the second picture. |
| Accounts.UpdateRole | App.tsx:215-217 | Only accounts whose callsign matches exactly get the new role. Everything else is unchanged. |
| Accounts.UpdateRoleLastWins | App.tsx:215-217 | Two role edits in a row leave the second role. |
| Accounts.AddShip | App.tsx:219-231 | Each account with that exact callsign gets the new ship appended to its hangar. Every other account is unchanged. |
| Accounts.WithoutShip | App.tsx:236 | Exactly the ships with a different id are kept. An absent id changes nothing. |
| Accounts.RemoveShip | App.tsx:233-240 | Each account with that exact callsign loses every ship with the id, and nothing else about any account changes. |
| Accounts.RemoveShipUndoesAddShip | App.tsx:219-240 | Removing a ship just added under a fresh id restores the roster. |
| Accounts.EditsKeepCallsignsUnique | App.tsx:199-240 | Edits that leave every callsign in place keep callsigns unique. |
| Accounts.ApprovedUsers | App.tsx:251 | A user is kept exactly when the roster holds it and it is approved. |
| Accounts.ApprovedUsersCounts | App.tsx:251 | Each approved account is kept exactly as often as the roster holds it, and no other account is kept. |
| Accounts.ApprovedUsersAppend | App.tsx:251 | The approved accounts of a joined roster are those of the first part followed by those of the second, in roster order. |
| Accounts.AggregatesAppend | App.tsx:251-252 | The member count and the ship total of a roster split over concatenation. |
| Accounts.ApproveRaisesAggregates | App.tsx:199-252 | Approving a pending account adds one member and that account's whole hangar to the totals. |
| Accounts.PendingShipsNotCounted | App.tsx:251-252 | An approved account with two ships plus a pending one with three give one member and two ships. |
| Session.Login | App.tsx:166-179 | A failure changes nothing. A success authenticates the stored callsign of a roster account, and grants administrator rights exactly when that callsign is "ADMIN". |
| Session.LoginIff | App.tsx:166-179 | While callsigns are unique ignoring case, a login succeeds exactly when an approved account matches. The session then carries that account's callsign, with administrator rights exactly for "ADMIN". |
| Session.Logout | App.tsx:242-248 | Logging out clears the identity, the administrator flag and the fleet catalogue, returns to the dashboard, and keeps the roster, the raffles and the entries. |
| Session.LogoutThenLoginReloadsFleet | App.tsx:104-125 | Logging out never triggers a fleet fetch. The next successful login always does. |
| Session.DashboardFor | App.tsx:250-261 | The member figure is the number of approved accounts, never more than the roster. The ship figure is the hangar sizes summed over the approved accounts. |
| Session.InitialUsersUnique | App.tsx:21-84 | The seed roster has callsigns unique ignoring case. |
| Session.InitialRafflesOneActive | App.tsx:86-89 | The seed raffles have one active raffle, the first, and it is the current one. |
| Session.InitialDashboard | App.tsx:21-84 | The seed shows three members and seven ships. The pending and the denied accounts do not count. |
| Session.RegisterApproveLogin | App.tsx:166-201 | Registering, then approval by the administrator, lets the new account log in with its callsign typed in any case. |
| Fleet.StatusColor | components/Fleet.tsx:10-17 | A label gets the grey badge exactly when it names no status. In service is green, on mission yellow, under repair red. |
| Fleet.StatusColorsDistinct | components/Fleet.tsx:10-17 | The three statuses get three different badges, none of them grey. |
| Fleet.ImageFor | components/Fleet.tsx:73 | A typed picture is kept. With none, the placeholder derived from the model is used. |
| Fleet.PlaceholderSeedHasNoWhitespace | components/Fleet.tsx:73 | The placeholder's seed segment keeps the model's length and holds no whitespace. |
| Fleet.AddShip | components/Fleet.tsx:61-86 | A blank name or model, or a submission in flight, changes nothing. Otherwise the new ship is put in front of the unchanged catalogue with the typed fields, the picture and the generated description, the form resets and the modal closes. |
| Fleet.UpdateShip | components/Fleet.tsx:88-99 | Without both the ship and the edited copy nothing changes. Otherwise every ship with the edited ship's name becomes the edited copy, and the others stay. |
| Fleet.UpdateIdempotent | components/Fleet.tsx:88-99 | Saving a name-keeping edit twice is saving it once. |
| Fleet.UpdateReplacesEveryNamesake | components/Fleet.tsx:88-99 | After an edit the catalogue holds the edited copy. When the edit renamed the ship, no ship of the old name is left. |
| Fleet.DeleteShip | components/Fleet.tsx:101-105 | Without a ship to delete nothing changes. Otherwise a ship is kept exactly when it does not carry the deleted ship's name. |
| Fleet.DeleteShipCounts | components/Fleet.tsx:101-105 | Each ship with another name is kept exactly as often as the catalogue holds it, and no namesake is kept. |
| Fleet.DeleteShipAppend | components/Fleet.tsx:101-105 | Deleting from a joined catalogue deletes from each part, so the surviving ships keep their order. |
| Fleet.SaveEdit | components/Fleet.tsx:42-99 | Without both the ship and the edited copy the screen is unchanged. Otherwise the catalogue gets the edit and the edit modal closes. The effect that follows the ship being edited then drops the edited copy. The add form, its modal and the delete dialog stay as they were. |
| Fleet.ConfirmDelete | components/Fleet.tsx:101-105 | Without a ship to delete the screen is unchanged. Otherwise the catalogue loses the ship's namesakes, the dialog closes, and the rest of the screen stays. |
| Fleet.ConfirmationsCloseModals | components/Fleet.tsx:88-105 | Confirming the edit or the deletion a second time changes nothing, because the first confirmation closed the modal. |
| Fleet.DeleteKeepsOthers | components/Fleet.tsx:101-105 | Deleting a name the catalogue does not hold changes nothing. |
| Fleet.DeleteUndoesAdd | components/Fleet.tsx:61-105 | Adding a ship under a new name and then deleting it restores the catalogue. |
| Fleet.DeleteRemovesEveryNamesake | components/Fleet.tsx:101-105 | After a deletion no ship of that name is left. |
| Fleet.DeleteIdempotent | components/Fleet.tsx:101-105 | Deleting twice is deleting once. |
| Members.Filter | components/Members.tsx:140-144 | The search keeps exactly the users that match the term, with their multiplicity. |
| Members.InsertByCallsign | components/Members.tsx:146 | Inserting into a sorted listing adds exactly that user and keeps it sorted. |
| Members.SortByCallsign | components/Members.tsx:146 | The listing is a permutation of its input in ascending callsign order. |
| Members.FilteredAndSorted | components/Members.tsx:139-149 | The directory listing is sorted by callsign. It holds exactly the matching users, each as often as the roster holds it. |
| Members.EmptySearchListsEveryone | components/Members.tsx:141-142 | An empty search lists the whole roster. |
| Members.SearchIgnoresTermCase | components/Members.tsx:140-144 | Two terms equal ignoring case list the same users. |
| Members.SortedListingUnique | components/Members.tsx:146 | Two sorted listings of the same users are identical when equal callsigns mean the same user. So the order is decided by the callsigns alone. |
| Members.MembershipSpan | components/Members.tsx:178-193 | The month count is in 0..11. Years and months together count the whole months between the dates. The days are the day difference, plus the previous month's length when negative. |
| Members.DurationParts | components/Members.tsx:195-201 | The parts are, in order, the years when positive and the months when positive; days appear, alone, only when years and months are both zero and days are positive. Nothing else appears, and every part starts with a digit. |
| Members.DurationText | components/Members.tsx:195-203 | The caption is "Joined today" exactly when there are no parts. Otherwise it is the parts joined by ", " and starts with a digit. |
| Members.SameDayIsJoinedToday | components/Members.tsx:178-203 | Joining on the same day reads "Joined today". |
| Members.SameMonthShowsDays | components/Members.tsx:178-203 | Joining earlier in the same month shows the day count alone. |
| Members.UnitPluralIff | components/Members.tsx:196-200 | A unit takes the plural "s" exactly when its count is above one. |
| Members.ToggleDetails | components/Members.tsx:151-159 | Clicking the expanded entry collapses it. Clicking any other entry expands that one. The role editor closes either way. |
| Members.ToggleTwiceRestores | components/Members.tsx:151-159 | Clicking the same entry twice restores what was expanded. |
| Members.SaveRole | components/Members.tsx:20-24 | A blank role is ignored. Otherwise the trimmed role goes to exactly the viewer's accounts and the editor closes. |
| Members.SaveRoleIgnoresPadding | components/Members.tsx:20-24 | Padding around a role makes no difference to saving it. |
| Members.SubmitShip | components/Members.tsx:62-69 | A blank model is ignored. Otherwise the trimmed model and the picture are appended to the viewer's hangars, the form clears and the modal closes. |
| Members.SubmitShipThenRemove | components/Members.tsx:62-69 | A submitted ship removed again by its fresh id restores the roster. |
| Dashboard.CalculateTimeLeft | components/Dashboard.tsx:47-60 | The countdown is zeros once the end is reached. Its fields are in range, and together they account for the difference to within one second, rounded down. |
| Dashboard.CountdownAddsUp | components/Dashboard.tsx:53-56 | Days, hours, minutes and seconds add up to the whole seconds of the difference. |
| Dashboard.HasTimeLeftIff | components/Dashboard.tsx:73 | The figures stay up exactly while at least one whole second remains. |
| Dashboard.GetStatusDetails | components/Dashboard.tsx:16-31 | The caption is "Unknown" exactly when no status was fetched. |
| Dashboard.Details | components/Dashboard.tsx:17-27 | No fetched status is captioned "Unknown". |
| Dashboard.StatusCaptionsDistinct | components/Dashboard.tsx:16-31 | Different statuses, and no status, always get different captions. |
| Dashboard.RaffleButton | components/Dashboard.tsx:149-155 | The button is disabled exactly when the user has entered or the end date has passed. It reads "Entry Confirmed" exactly when the user has entered. |
| Dashboard.EnteringDisablesButton | components/Dashboard.tsx:149-155 | After entering the current raffle the button is disabled and confirms the entry, whatever the time. |
| Chat.LastNamed | components/Chat.tsx:23 | The member found carries the callsign, and no later member does. A callsign map keeps the last duplicate. |
| Chat.AvatarOf | components/Chat.tsx:46-48 | A user line gets the user's seed picture. Any other line gets the picture of the last member with the sender's callsign when that picture is non-empty, and the default picture otherwise, including for an unknown sender. |
| Chat.CreateMessage | components/Chat.tsx:41-58 | A line carries its sender, content and time. Only user lines start out "sent". |
| Chat.CreatedLineInHistory | services/geminiService.ts:196-201 | A created text line reads in the reply prompt as "sender: text", and a created GIF line as "sender: [sent a GIF]". |
| Chat.MarkRead | components/Chat.tsx:71 | Every user line becomes read. Every other line is unchanged. |
| Chat.MarkReadSettles | components/Chat.tsx:70-77 | After marking, every user line is read, and marking again changes nothing. |
| Chat.ReceiveReply | components/Chat.tsx:60-80 | The transcript is marked read. A reply is appended as a fresh non-user line rebuilt from its callsign and text. The screen stops waiting. |
| Chat.SendMessage | components/Chat.tsx:82-92 | A blank draft or a pending reply changes nothing. Otherwise the trimmed text is appended as a sent user line, the draft clears and the screen waits. |
| Chat.SendGif | components/Chat.tsx:94-102 | The GIF is appended as a sent user line, the picker closes and forgets its search, and the screen waits. |
| Chat.SendGifThenReply | components/Chat.tsx:60-102 | After a GIF is sent, the prompt's history ends with the GIF marker under the user's callsign. Once the round ends, with or without a reply, the GIF line is read and carries the GIF and no text. |
| Chat.SendAndReplyRound | components/Chat.tsx:60-92 | A full round adds two lines. Every user line is then read. The last line is the answer, from someone other than the user. |
| Chat.ApologyShowsDefaultAvatar | components/Chat.tsx:64-69 | The apology's own picture never reaches the transcript, because the line is rebuilt from its callsign. |
| GeminiService.ContentWithSchema | services/geminiService.ts:6-22 | A thrown call gives nothing. An answer is trimmed and then parsed. |
| GeminiService.ContentWithSchemaIgnoresPadding | services/geminiService.ts:6-22 | Whitespace around the generator's answer never changes the structured result. |
| GeminiService.ShipDescription | services/geminiService.ts:125-137 | A thrown call gives the fixed fallback sentence, and an answer is trimmed. The result never has whitespace at either end. |
| GeminiService.ExactStatus | services/geminiService.ts:158-167 | A status is found exactly when the text is its keyword. |
| GeminiService.FirstContained | services/geminiService.ts:169-178 | Nothing is found exactly when no candidate keyword occurs in the text. Otherwise the result is the first candidate, in candidate order, whose keyword occurs: no earlier candidate's keyword occurs. |
| GeminiService.ParseServerStatus | services/geminiService.ts:156-181 | A result's keyword always occurs in the normalised text. An exact keyword reads as its status. Nothing is returned exactly when no keyword occurs. |
| GeminiService.KeywordsDoNotNest | services/geminiService.ts:158 | No status keyword occurs inside a different one. |
| GeminiService.ParseIsFirstContained | services/geminiService.ts:156-181 | The exact-match test never changes the answer: the parser equals the search for the first keyword, in the fixed order, that occurs in the normalised text. |
| GeminiService.ParseTakesEarliest | services/geminiService.ts:156-181 | When a keyword occurs in the normalised answer, the parser returns a status whose keyword occurs and that comes no later in the fixed order than any occurring keyword. So with several keywords present, the earliest in the order wins. |
| GeminiService.FirstContainedEarliest | services/geminiService.ts:158-178 | Over the fixed order, the search finds a status whenever a keyword occurs, and never one ranked after an occurring keyword. |
| GeminiService.KeywordRoundTrip | services/geminiService.ts:156-167 | Every keyword parses back to its own status. |
| GeminiService.FetchServerStatus | services/geminiService.ts:139-186 | A thrown call gives nothing. An answer is read by the status parser, so a result always comes from an answer that contains its keyword. |
| GeminiService.FetchReadsKeyword | services/geminiService.ts:154-181 | An answer that is exactly a status keyword is fetched as that status, and a thrown call fetches nothing. |
| GeminiService.OtherMembers | services/geminiService.ts:189 | The chat partners are exactly the members other than the user. |
| GeminiService.OtherMembersCounts | services/geminiService.ts:189 | Each other member is a candidate exactly as often as the pool holds it, and the user never is. |
| GeminiService.OtherMembersAppend | services/geminiService.ts:189-191 | The candidates of a joined pool are those of the first part followed by those of the second, so they keep the pool's order, which decides who the random index picks. |
| GeminiService.HistoryLine | services/geminiService.ts:196-201 | A GIF line reads "callsign: [sent a GIF]". Any other line reads "callsign: text", or "callsign: undefined" when it has no text. |
| GeminiService.HistoryLines | services/geminiService.ts:194-202 | The history quotes the last five messages, or all of them when fewer, oldest first, one line each. |
| GeminiService.HistoryText | services/geminiService.ts:194-202 | The history block is empty for an empty history, the single line for one message, and otherwise the oldest quoted line, a newline and the remaining lines joined by newlines. It opens with the oldest quoted sender's callsign. |
| GeminiService.HistoryForgetsOlder | services/geminiService.ts:194-195 | Messages before the last five never affect the prompt's history. |
| GeminiService.ChatResponse | services/geminiService.ts:188-245 | With no other member there is no reply. A thrown call gives the system apology. An empty answer gives no reply, and a non-empty one always gives a reply. That reply comes from the picked member, never the user, with the trimmed text, that member's avatar and the given time. |
| LoginScreen.SubmitSignIn | components/LoginScreen.tsx:23-32 | A blank field only clears the error. Otherwise the trimmed fields go to login, and the fixed error shows exactly when it fails. |
| LoginScreen.SignInIgnoresPadding | components/LoginScreen.tsx:23-32 | Padding around the callsign or password never changes the outcome of signing in. |
| LoginScreen.SignInOnlyAdmitsApproved | components/LoginScreen.tsx:23-32 | A sign-in that changes the session logged in an approved account. Its callsign matches the typed one ignoring case and its password matches exactly. |
| LoginScreen.SubmitJoin | components/LoginScreen.tsx:34-49 | A blank field shows the "required" error and registers nothing. Otherwise the registration's outcome is shown: success clears the fields, failure keeps them. |
| LoginScreen.JoinStoresTrimmedCredentials | components/LoginScreen.tsx:34-49 | An accepted application stores one pending account whose credentials carry no surrounding whitespace. |
| LoginScreen.SecondJoinIsRefused | components/LoginScreen.tsx:34-49 | Applying again with the same callsign is refused as taken and keeps the form for correction. |
| Text.Trim | components/Chat.tsx:84 | The trimmed text is the infix left once leading and trailing whitespace is removed. It is empty exactly when the text is all whitespace, and otherwise its ends are not whitespace. |
| Text.TrimIdempotent | components/LoginScreen.tsx:26-27 | Trimming twice is trimming once. |
| Text.ToLowerIdempotent | components/Members.tsx:141-143 | Lower-casing twice is lower-casing once. |
| Text.ContainsAt | components/Members.tsx:143 | A text occurring at some position counts as contained. |
| Text.NatToString | components/Members.tsx:196-200 | A count renders as a non-empty string of digits with no leading zero, whose decimal value is the count. |
| Text.StrLeTotal | components/Members.tsx:146 | Any two callsigns are comparable in the sort order. |
| Text.StrLeTransitive | components/Members.tsx:146 | The sort order is transitive. |
| Text.StrLeAntisymmetric | components/Members.tsx:146 | Callsigns ordered both ways are equal. |

## Left out

- Rendering: JSX, CSS classes other than the status badges and indicator colours, scrolling, modals' markup, and the navigation bar.
- The administrator panel and the operations screen: their logic is the shell intents modelled in `Raffles` and `Accounts`.
- The generator calls themselves: prompts, response schemas, the SDK, `fetchDashboardData`, `fetchMembers`, `fetchFleet`, `fetchOperations` and `searchGifs`. Their results appear only as inputs.
- GeminiService.ContentWithSchema: JSON parsing is the `parse` parameter, so a parse failure is modelled only as `parse` answering `None`.
- The loading effects and their error messages: the fleet load of the shell beyond its guard, the dashboard load, and the chat member load. They only copy a fetched value or an error text into screen state.
- File reading (`FileReader`) for avatars and ship pictures. The read picture is an input (`Accounts.UpdateAvatar`, `Members.ShipDraft`).
- Chat.ReceiveReply: the one-second delay before a missing reply marks the transcript read is collapsed. The read marking happens at once.
- Fleet.AddShip: the "submitting" flag that is set while the description is awaited is not modelled as a separate state. The call is one step.
- Members.MembershipSpan: the date is already split into calendar fields, and the length of the previous month is an input. Time zones and ISO parsing are not modelled.
- Members.SortByCallsign: `localeCompare` is replaced by code-point lexicographic order, a total order the model proves total, transitive and antisymmetric. Locale collation is not modelled.
- Text.ToLower: only ASCII and Latin-1 capitals are lowered. The full Unicode case mapping of `toLowerCase` is not modelled.
- Text.Trim: strings are sequences of code points rather than UTF-16 code units. The whitespace set is that of ECMAScript.
- Dashboard.CalculateTimeLeft: the difference is an integer number of milliseconds. For such a difference, flooring the floating-point quotients equals integer division, so nothing is lost.
- Dashboard.GetStatusDetails: a status string outside the five keywords cannot be represented, so the indicator's default branch is reached only through "no status".
- Raffles.PastRaffles: the relative order of raffles that end at the same time is not stated. The source's `sort` is stable, and the model's contract promises only the end-date order and the contents.
- Raffles.EntriesFor: its own contract states which entries are kept; how often and in which order is stated by `EntriesForCounts` and `EntriesForAppend`, kept apart so that proofs unfolding the filter stay small.
- Accounts.ApprovedUsers: its own contract states which accounts are kept; how often and in which order is stated by `ApprovedUsersCounts` and `ApprovedUsersAppend`, kept apart because the dashboard-total proofs unfold the filter many times.
- GeminiService.OtherMembers: its own contract states which members are candidates; how often and in which order is stated by `OtherMembersCounts` and `OtherMembersAppend`, kept apart for the same reason.
- Fleet.DeleteShip: its own contract states which ships survive; how often and in which order is stated by `DeleteShipCounts` and `DeleteShipAppend`, kept apart for the same reason.
- Raffle entry cascade on account removal: the code does none, and the model does none.
