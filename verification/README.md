# AidConnect Global: chatbot, session and message stores in Dafny

This project models the rule-bearing core of the AidConnect Global website:

- the chatbot widget's reply engine (`generateResponse`), an ordered,
  first-match-wins cascade of case-insensitive keyword tests gated by the
  caller's role, together with the widget's welcome seeding and `handleSend`;
- the mock session store (`login`, `register`, `logout`, `isAuthenticated`)
  over the current user, its persisted copy and the fixture list;
- the contact-message store (`saveMessage`, `updateMessageStatus`,
  `getMessagesForUser`, `getAllMessages`, the initial load);
- the contact form's submit rule (validation, trimming, sender tagging).

Everything is immutable data and pure functions. Each store is a record
holding the in-memory state and a `persisted` field for the browser-storage
copy; each operation maps one record to the next.

Modules: `Wrappers` (Option), `Text` (the string built-ins the code uses:
`includes`, `toLowerCase`, `trim`, `split('@')[0]`, decimal `toString`),
`Auth`, `Responses`, `Chat`, `Messages`, `Contact`.

The reply cascade `Responses.Respond` follows the if/else chain of the code.
`Responses.Table` restates the same rules as an ordered list of
(keywords, reply) pairs, and `Responses.RespondIsFirstMatch` proves the two
agree on every role and text. The priority and shadowing facts all follow
from `Responses.RespondPriority`.

Three facts about the code shape the model. The reply engine takes only
the message text and the signed-in user's role, with no language or
page-context input (src/components/chatbot/ChatbotWidget.tsx:87). The staff
rules test fund/financial/utilization, then compliance/audit, then request
(src/components/chatbot/ChatbotWidget.tsx:111-123). And the message store
lets any status replace any other, including a return from replied to new
(src/hooks/useMessages.ts:41-45).

## Model

| member | source | states |
|---|---|---|
| `Text.Contains` | src/components/chatbot/ChatbotWidget.tsx:93 | the executable `includes` test holds exactly when the key occurs at some position of the text |
| `Text.Lower` | src/components/chatbot/ChatbotWidget.tsx:88 | lower-casing keeps the length, maps every character through the letter map and leaves no upper-case letter |
| `Text.LowerIdempotent` | src/components/chatbot/ChatbotWidget.tsx:88 | lower-casing twice equals lower-casing once |
| `Text.IsBlank` | src/components/chatbot/ChatbotWidget.tsx:160 | `!s.trim()` holds exactly when every character of `s` is white space |
| `Text.Trim` | src/pages/ContactPage.tsx:43-46 | the trimmed text is a contiguous slice of the input with only white space outside it, and it neither starts nor ends with white space |
| `Text.LocalPart` | src/contexts/AuthContext.tsx:43 | the result is a prefix of the email with no '@', followed in the email by '@' unless it is the whole email |
| `Text.NatToString` | src/contexts/AuthContext.tsx:41 | the numeral of a timestamp, as `toString()` and the id template give it: non-empty, decimal digits only, no leading zero; `Text.DecimalRoundTrip` fixes its value |
| `Text.DecimalRoundTrip` | src/contexts/AuthContext.tsx:41 | reading back the decimal numeral of a timestamp gives the timestamp, so numeral ids are unambiguous |
| `Auth.Init` | src/contexts/AuthContext.tsx:29-32 | the provider starts with the stored user (if any), in step with storage, over the two fixtures |
| `Auth.IsAuthenticated` | src/contexts/AuthContext.tsx:74 | authenticated exactly when a user is present |
| `Auth.FindIndex` | src/contexts/AuthContext.tsx:38 | `find` returns the first entry with the given email and role, or nothing when no entry has both |
| `Auth.FreshUser` | src/contexts/AuthContext.tsx:40-45 | a fabricated user keeps the email and role, takes the timestamp as id and the text before the first '@' as name |
| `Auth.Login` | src/contexts/AuthContext.tsx:34-51 | succeeds exactly when the email has '@' or a fixture matches; failure changes nothing; success signs in the first matching fixture verbatim, otherwise a fabricated user, and persists it |
| `Auth.Logout` | src/contexts/AuthContext.tsx:53-56 | no user and no persisted record afterwards; fixtures kept |
| `Auth.Register` | src/contexts/AuthContext.tsx:58-71 | always succeeds, signs in and persists the new user, and appends exactly that user to the fixture list |
| `Auth.LoginAgainstFixturesIff` | src/contexts/AuthContext.tsx:23-39 | against the seeded fixtures, login succeeds exactly when the email contains '@' |
| `Auth.FixtureDonorLogin` | src/contexts/AuthContext.tsx:23-48 | the seeded donor signs in as the fixture record itself (id "2", name "John Donor") |
| `Auth.FreshNameIsLocalPart` | src/contexts/AuthContext.tsx:40-45 | a non-fixture login keeps email and role and its name is what precedes the first '@' |
| `Auth.PasswordIgnored` | src/contexts/AuthContext.tsx:34-71 | two passwords give identical outcomes for login and register |
| `Auth.OperationsKeepSynced` | src/contexts/AuthContext.tsx:46-69 | login, register and logout keep the persisted record equal to the in-memory user |
| `Auth.RegisterThenLogin` | src/contexts/AuthContext.tsx:34-71 | after register, login with the same email and role succeeds with the first matching entry: an older one if any, else the registered user |
| `Responses.ReplyText` | src/components/chatbot/ChatbotWidget.tsx:94-156 | every canned reply has a non-empty text |
| `Responses.ReplyTextInjective` | src/components/chatbot/ChatbotWidget.tsx:94-156 | different replies have different texts |
| `Responses.Mentions` | src/components/chatbot/ChatbotWidget.tsx:92 | the disjunction of `includes` tests of one branch holds exactly when one of its keywords occurs somewhere in the text |
| `Responses.DonorReply` | src/components/chatbot/ChatbotWidget.tsx:90-108 | the donor block answers only with donor replies, and falls through exactly when no denial, history, certificate or impact/help keyword occurs; `Responses.DonorCascadeIsTable` proves it is first-match over the donor rules |
| `Responses.StaffReply` | src/components/chatbot/ChatbotWidget.tsx:111-123 | the staff block answers only with staff replies, and falls through exactly when no fund/financial/utilization, compliance/audit or request keyword occurs; `Responses.StaffCascadeIsTable` proves it is first-match over the staff rules |
| `Responses.PublicReply` | src/components/chatbot/ChatbotWidget.tsx:126-156 | the public chain never gives a donor or staff reply, and gives the default exactly when no public keyword occurs; `Responses.PublicCascadeIsTable` proves it is first-match over the public rules |
| `Responses.Respond` | src/components/chatbot/ChatbotWidget.tsx:87-157 | total on every role and text; staff replies go only to staff and donor replies (refusal included) only to donors |
| `Responses.RespondText` | src/components/chatbot/ChatbotWidget.tsx:87-157 | every role and text get a non-empty reply |
| `Responses.FirstFiring` | src/components/chatbot/ChatbotWidget.tsx:126-156 | first-match-wins: the position found fires and no earlier rule does; nothing is found exactly when no rule fires |
| `Responses.SelectIff` | src/components/chatbot/ChatbotWidget.tsx:126-156 | in a table of distinct replies, a reply is chosen exactly when its rule fires first, the default exactly when none fires |
| `Responses.FirstFiringAppend` | src/components/chatbot/ChatbotWidget.tsx:109-127 | a role block followed by the public block: the role block decides when one of its rules fires, else the public block does |
| `Responses.PublicCascadeIsTable` | src/components/chatbot/ChatbotWidget.tsx:126-156 | the public chain equals first-match over mission/about, donate/contribution, program/initiative, contact/reach, impact/achievement, volunteer, tax/80g, then the default |
| `Responses.DonorCascadeIsTable` | src/components/chatbot/ChatbotWidget.tsx:91-109 | the donor block equals first-match over the denial gate, donation history, certificate, impact/help |
| `Responses.StaffCascadeIsTable` | src/components/chatbot/ChatbotWidget.tsx:111-124 | the staff block equals first-match over fund/financial/utilization, compliance/audit, request |
| `Responses.RespondIsFirstMatch` | src/components/chatbot/ChatbotWidget.tsx:87-157 | for every role and text the cascade equals first-match over the role's table on the lower-cased text |
| `Responses.RespondPriority` | src/components/chatbot/ChatbotWidget.tsx:87-157 | a table reply is given exactly when its rule is the first of the role's table to fire; the default exactly when none fires |
| `Responses.RespondIgnoresCase` | src/components/chatbot/ChatbotWidget.tsx:88 | the reply to a text equals the reply to its lower-cased form |
| `Responses.DonorGate` | src/components/chatbot/ChatbotWidget.tsx:91-95 | a donor is refused exactly when the text mentions total fund, all donation, staff or compliance, whatever else it mentions |
| `Responses.DonorOrder` | src/components/chatbot/ChatbotWidget.tsx:97-108 | after the gate a donor gets history, then certificate, then impact, each exactly when it is the first donor group mentioned |
| `Responses.StaffOrder` | src/components/chatbot/ChatbotWidget.tsx:111-123 | staff get the financial overview, then compliance, then aid requests, each exactly when it is the first staff group mentioned |
| `Responses.RoleFallThrough` | src/components/chatbot/ChatbotWidget.tsx:91-156 | a donor or staff text gets a role reply exactly when it mentions a role group, and otherwise the visitor's reply |
| `Responses.DonorComplianceCertificateRefused` | src/components/chatbot/ChatbotWidget.tsx:93-104 | a donor text with both "certificate" and "compliance" is refused |
| `Responses.StaffFundBeforeCompliance` | src/components/chatbot/ChatbotWidget.tsx:113-119 | a staff text with both "compliance" and "fund" gets the financial overview |
| `Responses.AllDonationHistoryRefused` | src/components/chatbot/ChatbotWidget.tsx:93-99 | "all donation history" is refused to a donor |
| `Responses.HelpMeDonate` | src/components/chatbot/ChatbotWidget.tsx:106-132 | "help me donate" gives a donor the impact summary and a visitor the donation instructions |
| `Chat.RoleOf` | src/components/chatbot/ChatbotWidget.tsx:91 | no user means no role; otherwise the user's role |
| `Chat.StaffWelcome` | src/components/chatbot/ChatbotWidget.tsx:80 | the staff welcome starts "Welcome back, " and contains the user's name |
| `Chat.DonorWelcome` | src/components/chatbot/ChatbotWidget.tsx:82 | the donor welcome starts "Hello " and contains the user's name |
| `Chat.WelcomeText` | src/components/chatbot/ChatbotWidget.tsx:78-85 | staff welcome for staff, donor welcome for donors, the generic welcome otherwise |
| `Chat.SeedWelcome` | src/components/chatbot/ChatbotWidget.tsx:61-72 | an open widget with an empty history gets exactly one assistant entry, the welcome, id "1"; otherwise nothing changes |
| `Chat.Open` | src/components/chatbot/ChatbotWidget.tsx:207 | opening keeps an existing history, and seeds the welcome into an empty one |
| `Chat.Close` | src/components/chatbot/ChatbotWidget.tsx:251 | closing keeps the history |
| `Chat.ToggleMinimize` | src/components/chatbot/ChatbotWidget.tsx:245 | minimising flips the flag and keeps the history |
| `Chat.Type` | src/components/chatbot/ChatbotWidget.tsx:310 | typing replaces the input and keeps the history |
| `Chat.Send` | src/components/chatbot/ChatbotWidget.tsx:159-187 | blank input changes nothing; otherwise the history grows by exactly the untrimmed user message and then the reply to it for the user's role, earlier entries unchanged, input cleared |
| `Chat.SendKeepsPaired` | src/components/chatbot/ChatbotWidget.tsx:159-187 | after a send every user entry is still immediately followed by an assistant entry |
| `Chat.StepAppends` | src/components/chatbot/ChatbotWidget.tsx:159-187 | no widget action removes or rewrites an entry |
| `Chat.RunAppends` | src/components/chatbot/ChatbotWidget.tsx:159-187 | over any sequence of actions the old history stays a prefix and questions stay answered |
| `Chat.WelcomeStaysFirst` | src/components/chatbot/ChatbotWidget.tsx:61-72 | opening a fresh widget seeds exactly the user's welcome, which remains the first entry after any later actions |
| `Messages.Load` | src/hooks/useMessages.ts:18-25 | the initial list is the stored list if present, else empty |
| `Messages.MessageId` | src/hooks/useMessages.ts:30 | a message id is "MSG-" followed by the decimal numeral of the save time |
| `Messages.MessageIdInjective` | src/hooks/useMessages.ts:30 | messages saved at different times get different ids |
| `Messages.SaveMessage` | src/hooks/useMessages.ts:27-39 | exactly one record is appended at the end, with the caller's fields, the time's id and status new; earlier records unchanged; storage updated; the appended record is returned |
| `Messages.SetStatus` | src/hooks/useMessages.ts:42 | length and order kept; records with the id get the status, all others are kept as they were |
| `Messages.UpdateMessageStatus` | src/hooks/useMessages.ts:41-45 | records with the id change only their status; others untouched; storage updated |
| `Messages.GetAllMessages` | src/hooks/useMessages.ts:51 | returns the hook's in-memory list; once the list has been written, storage holds the same list |
| `Messages.FilterBySender` | src/hooks/useMessages.ts:48 | keeps exactly the records sent by the user |
| `Messages.GetMessagesForUser` | src/hooks/useMessages.ts:47-49 | a record is returned exactly when it is held and sent by the user |
| `Messages.MutationsKeepSynced` | src/hooks/useMessages.ts:35-44 | after save or update, storage equals the in-memory list |
| `Messages.SaveThenGetAll` | src/hooks/useMessages.ts:35-38 | after a save the whole list is the old list plus the returned record |
| `Messages.UpdateAbsentIsNoop` | src/hooks/useMessages.ts:42 | updating an id that is absent leaves the list unchanged |
| `Messages.RepliedCanReturnToNew` | src/hooks/useMessages.ts:41-42 | no lifecycle check: a replied message can be set back to new |
| `Messages.FilterAppend` | src/hooks/useMessages.ts:48 | filtering a concatenation is concatenating the filtered parts |
| `Messages.SenderPositions` | src/hooks/useMessages.ts:48 | the ascending positions of exactly the user's records |
| `Messages.FilterIsSubsequence` | src/hooks/useMessages.ts:47-49 | the user's list is the order-preserving subsequence at those positions |
| `Messages.SaveThenForUser` | src/hooks/useMessages.ts:35-49 | a save extends the sender's list by the new record, and no other user's |
| `Contact.SenderRoleOf` | src/pages/ContactPage.tsx:47 | 'donor' exactly for a signed-in donor, else 'visitor' |
| `Contact.SenderIdOf` | src/pages/ContactPage.tsx:48 | the signed-in user's id, absent when nobody is signed in |
| `Contact.HandleSubmit` | src/pages/ContactPage.tsx:25-61 | a blank field changes nothing; otherwise the trimmed, tagged draft is saved and the form is reset with the submitting flag cleared |
| `Contact.FilledIffNoBlankField` | src/pages/ContactPage.tsx:28 | a form has a character other than white space in every field exactly when no field is blank once trimmed |
| `Contact.BlankFieldSavesNothing` | src/pages/ContactPage.tsx:28-35 | an empty or all-white-space field, whichever of the four, leaves the store and the form unchanged and reports missing fields |
| `Contact.SavesIffFilled` | src/pages/ContactPage.tsx:28-53 | a message is saved, and the store changes, exactly when every field has a character other than white space |
| `Contact.SubmittedFields` | src/pages/ContactPage.tsx:42-46 | the saved record carries the four trimmed fields, all non-empty, status new, appended at the end |
| `Contact.SubmittedSender` | src/pages/ContactPage.tsx:47-48 | the saved record is tagged donor exactly for a donor and carries the user's id exactly when signed in |
| `Contact.StaffSendsAsVisitor` | src/pages/ContactPage.tsx:47 | staff and anonymous senders are both tagged visitor |

## Left out

- Simulated delays (`setTimeout` in the widget, login, register and the contact form) are not modelled; each operation happens at once, in order. The widget's "typing" flag is therefore not modelled either, and neither are closing during a pending reply or overlapping sends. Each send is atomic here, so the pairing that `Chat.SendKeepsPaired`, `Chat.RunAppends` and `Chat.WelcomeStaysFirst` prove (every question immediately followed by its answer) holds only under that assumption: in the widget, Enter still sends while a reply is pending (src/components/chatbot/ChatbotWidget.tsx:189-194, 308-314; only the button is disabled, line 317), so a history such as welcome, q1, q2, a1, a2 can arise.
- `Date.now()` and `toISOString()` are caller-supplied numbers; a timestamp is a `nat` and an id is its decimal numeral. The source reads the clock separately for the id and for `createdAt` (src/hooks/useMessages.ts:30-31) and for the message id and its `timestamp` (src/components/chatbot/ChatbotWidget.tsx:163-166); the model takes one `now` for each pair, so the two always agree.
- Browser storage and JSON (de)serialisation are not modelled: storage is the `persisted` field of each state, holding the value itself.
- `Text.Lower`: lower-cases only ASCII `A`-`Z`. JavaScript's `toLowerCase` maps every Unicode letter, and a few of those map onto ASCII (the Kelvin sign becomes `k`; `İ` becomes `i` plus a combining dot). None of the keywords depends on such characters, but a text like "İmpact" is not modelled faithfully.
- The generic welcome `t('chat.welcome')` is an opaque constant; the translation function and language context are not part of this model, nor are localised replies.
- Reply texts are the heading or opening words of each canned reply, abridged, not the byte-exact markdown shown in the widget. The staff and donor welcomes (src/components/chatbot/ChatbotWidget.tsx:80, 82) are abridged the same way: each keeps its opening words and the user's name, but the bulleted list of topics that follows is shortened to one sentence.
- React rendering and state-update mechanics (updater callbacks, stale closures, scrolling), the send button's disable rule, toasts and navigation are not modelled.
- The user role is modelled as staff, donor or none; the widget and the contact page read it through `user?.role`.
- The presentation-only pages and sections, the scroll-driven image rotation and the dashboards' one-line role redirects are outside the model.
