# AlumniConnect page logic in Dafny

AlumniConnect is a web application that connects students with alumni
mentors. Its screens are bound to a hosted document database. The pages
still hold a thin layer of pure logic: editing the skills list, deriving a
conversation id, guarding the send and reply forms, building display names
and initials, and filtering the directory and the guidance board. This
project models that logic as pure Dafny functions and proves what it
promises.

Each event handler becomes a function from the page state (the signed-in
user, the loaded documents, the text in an input box) to the value it
would write to the database. The result is none when the handler returns
early. Handlers that clear an input box also return the box's new text.
Ids and timestamps that the runtime generates are parameters.

Modules:

- `Options`: `Option`, for JavaScript's `undefined`/`null`.
- `Text`: the runtime's string helpers. `trim` strips the exact ECMAScript
  whitespace and line-terminator set. `toLowerCase`/`toUpperCase` map ASCII
  letters only. `includes` is substring search, `sort` uses the default
  code-unit order, and `x || fallback` is applied to strings.
- `Seqs`: `filter`, `find`, subsequences, and lists without duplicates.
- `Records`: the user, opportunity, message, guidance-request and reply
  documents, plus the session (database handle present, signed-in uid).
- `Profile`, `Messages`, `Directory`, `Guidance`: one module per page.

A few behaviours of the code are kept as written. In each case the code and
a plain reading of the page differ:

- The directory builds the full name with a template literal. A missing
  first or last name is therefore searched as the text "undefined"
  (`Directory.MissingFirstNameReadsUndefined`).
- The directory's skill badges fall back to "Mentorship" only when the
  skills field is missing. An empty list is truthy in JavaScript, so a
  person whose list is empty gets no badge.
- The "No other members found." notice on the messages page tests the
  length of the fetched list, not of the list the sidebar shows (see
  Findings).
- The conversation id is symmetric for any two uids. It is injective only
  for uids that contain no "_".

## Model

| member | source | states |
|---|---|---|
| `Profile.AddSkill` | src/app/profile/page.tsx:85-94 | Nothing is written, and the input box keeps its text, exactly when the input is blank, there is no user document or loaded profile, or the trimmed skill is already listed. Otherwise the old list (missing reads as empty) is written with one new last element: the non-empty trimmed input. The box is then cleared. |
| `Profile.AddSkillKeepsDistinct` | src/app/profile/page.tsx:86-92 | When the skills list has no duplicates before an add, it has none after, whether or not the add writes. |
| `Profile.AddSkillTwice` | src/app/profile/page.tsx:88 | Adding the same text again right after it was added writes nothing. |
| `Profile.RemoveSkill` | src/app/profile/page.tsx:96-102 | A list is written exactly when there is a user document and a loaded profile. The written list is a subsequence of the old one. It does not contain the removed skill. Every other value keeps its number of occurrences. |
| `Profile.RemoveUndoesAdd` | src/app/profile/page.tsx:85-102 | Removing a skill that was just added writes back the list it was added to. |
| `Profile.RemoveSkillIdempotent` | src/app/profile/page.tsx:98-100 | Removing the same skill from the written list writes that list again. |
| `Profile.RemoveAbsentSkill` | src/app/profile/page.tsx:98-100 | Removing a skill that is not listed writes the list unchanged. |
| `Profile.RemoveSkillKeepsDistinct` | src/app/profile/page.tsx:98-100 | Removing preserves the absence of duplicates. |
| `Profile.SavedOpportunities` | src/app/profile/page.tsx:121-122 | The saved tab is a subsequence of the opportunity list. It holds exactly the opportunities whose id is bookmarked, each as many times as it occurs in the list. It is empty when the list or the profile has not loaded. |
| `Profile.RemoveBookmark` | src/app/profile/page.tsx:304-307 | Bookmark ids are written exactly when there is a user document. The written ids are a subsequence of the old ones without the removed id. Every other id keeps its number of occurrences. |
| `Profile.SavedAfterRemoval` | src/app/profile/page.tsx:306-307 | After a bookmark is removed, the saved tab shows what it showed before, minus that opportunity, in the same order. |
| `Profile.Role` | src/app/profile/page.tsx:118 | The role shown is the profile's role when it is present and non-empty, and "student" otherwise. It is never empty. |
| `Profile.SecondaryBadge` | src/app/profile/page.tsx:136-139 | The badge takes the secondary style exactly when the profile's role is "mentor" or "alumni". |
| `Messages.SortPair` | src/app/messages/page.tsx:33 | Sorting two ids yields the same two ids, in non-decreasing code-unit order. |
| `Messages.PairIdOrdered` | src/app/messages/page.tsx:33 | The conversation id of two uids is lo + "_" + hi, where {lo, hi} are the two uids and lo is lexicographically at most hi. |
| `Messages.PairIdSymmetric` | src/app/messages/page.tsx:31-33 | The id of (a, b) equals the id of (b, a). |
| `Messages.PairIdInjective` | src/app/messages/page.tsx:31-34 | For uids without "_", equal ids come from the same pair of users. |
| `Messages.ConversationId` | src/app/messages/page.tsx:32-34 | The id is defined exactly when a user is signed in and a non-empty recipient id is chosen. It is then the pair id of the two. |
| `Messages.ConversationIdSymmetric` | src/app/messages/page.tsx:32-34 | Two signed-in users looking at each other derive the same conversation id. |
| `Messages.SendMessage` | src/app/messages/page.tsx:55-73 | Nothing is sent, and the text stays, exactly when the text is blank, nobody is signed in, no recipient is chosen, or there is no database handle. The separate conversation-id check never decides the outcome. A sent message goes from the user to the recipient, in their pair's conversation. Its body is the non-empty trimmed text, and the box is cleared. |
| `Messages.AnswerSharesConversation` | src/app/messages/page.tsx:59-70 | When b answers a message from a, the answer lands in the same conversation. |
| `Messages.RecipientName` | src/app/messages/page.tsx:75-77 | "Select a Contact" without recipient data. Otherwise: "User" when "first last" (missing names read as "") is blank, else that text trimmed. The result is never empty and never padded. |
| `Messages.Initials` | src/app/messages/page.tsx:79-83 | "?" when both names are missing or empty. Otherwise one upper-cased letter per present name, first name first, so at most two. No lower-case ASCII letter remains. |
| `Messages.Contacts` | src/app/messages/page.tsx:98-101 | The sidebar lists nobody while loading. It lists a subsequence of the fetched people that never includes the signed-in user and includes everyone else, each as many times as they occur in the fetched list. |
| `Messages.NoOtherMembersNotice` | src/app/messages/page.tsx:125 | As written: the notice shows exactly when loading is over and the fetched list is missing or has at most one entry. |
| `Messages.NoticeBesideContact` | src/app/messages/page.tsx:101-127 | A signed-in student with one mentor in the list sees that mentor listed and the "no other members" notice at the same time. |
| `Messages.NoContactsNotice` | src/app/messages/page.tsx:125-129 | Corrected notice: it shows exactly when loading is over and the sidebar lists nobody. |
| `Messages.NoticeAgreesForListedUser` | src/app/messages/page.tsx:101-125 | When the signed-in user is in the fetched list and ids are distinct, the notice as written equals the corrected one. |
| `Directory.FilterAlumni` | src/app/directory/page.tsx:26-39 | The result is a subsequence of the fetched people and is undefined while they are. A person is kept exactly when the lower-cased term occurs in the lower-cased full name, email, bio or some skill. A kept person appears as many times as in the fetched list. |
| `Directory.EmptySearchKeepsAll` | src/app/directory/page.tsx:31-38 | An empty search term keeps every person. |
| `Directory.SearchIgnoresCase` | src/app/directory/page.tsx:27-31 | Terms that differ only in ASCII letter case give the same result. |
| `Directory.MatchesShorter` | src/app/directory/page.tsx:33-38 | A person matching a term also matches every substring of it. |
| `Directory.SearchNarrows` | src/app/directory/page.tsx:33-38 | When term q1 is a substring of q2, the people found for q2 are a subsequence of those found for q1. |
| `Directory.MissingFieldsReadEmpty` | src/app/directory/page.tsx:28-30 | A missing email, bio or skills list searches exactly like "" or an empty list. |
| `Directory.MissingFirstNameReadsUndefined` | src/app/directory/page.tsx:27 | A person with no first name is found by the term "undefined". |
| `Directory.SkillBadges` | src/app/directory/page.tsx:97 | A card shows ["Mentorship"] when the skills field is missing, and the skills otherwise. |
| `Guidance.FilterRequests` | src/app/guidance/page.tsx:178-181 | The result is a subsequence of the requests. A request is kept exactly when the lower-cased term occurs in its lower-cased title or description. A kept request appears as many times as in the list. |
| `Guidance.EmptySearchKeepsAllRequests` | src/app/guidance/page.tsx:178-181 | An empty search keeps every request. |
| `Guidance.Like` | src/app/guidance/page.tsx:172-176 | A like writes exactly when there is a database handle. It raises the count (missing reads as 0) by one and changes no other field. |
| `Guidance.LikesAccumulate` | src/app/guidance/page.tsx:175 | n likes in a row raise the count by n and change no other field. |
| `Guidance.SignedNameStart` | src/app/guidance/page.tsx:47 | A signature starts with the first name when present and non-empty, and with the fallback otherwise. |
| `Guidance.PostQuestion` | src/app/guidance/page.tsx:144-161 | A question is posted exactly when a user is signed in and there is a database handle. It carries the user's uid, the form's title and description, category "General Advice", likes 0, and the first name (default "Anonymous") and last name as the signature. |
| `Guidance.AnonymousQuestion` | src/app/guidance/page.tsx:155 | Without a loaded profile the question is signed "Anonymous ". |
| `Guidance.NewQuestionLifecycle` | src/app/guidance/page.tsx:158-175 | A new question shows 0 likes, shows 1 after one like, and is listed by the empty search. |
| `Guidance.PostReply` | src/app/guidance/page.tsx:39-55 | Nothing is posted, and the text stays, exactly when nobody is signed in, there is no database handle, or the text is blank. A reply carries the request id, the author's uid, the non-empty trimmed text, the signature (default "User") and the role (default "member"). The box is then cleared. |
| `Guidance.ReplyDefaults` | src/app/guidance/page.tsx:47-48 | Without a loaded profile a reply is signed "User " with role "member". |
| `Guidance.SelectRequest` | src/app/guidance/page.tsx:183 | The selected request is the first request whose id is the selected id. There is none without a selection, without the list, or when no id matches. |
| `Text.TrimEmptyIff` | src/app/messages/page.tsx:57 | A text trims to "" exactly when all its characters are whitespace, the test behind every `!text.trim()` guard. |
| `Text.TrimUnique` | src/app/profile/page.tsx:86-91 | The trimmed text is the one string that has no whitespace at either end and is surrounded only by whitespace in the input. |
| `Text.TrimIdempotent` | src/app/profile/page.tsx:86-91 | Trimming twice is trimming once. |

## Left out

- Database plumbing: document references, queries with `orderBy`/`limit`/`where`, real-time listeners and non-blocking writes belong to the managed backend. Each write is modelled as the value it stores.
- Lost updates: the like counter and the skill edits read, modify and write without a transaction. Concurrent clicks can lose an update. That is a property of the backend and is not modelled.
- Rendering, dialogs, toasts and routing (`router.push`) are UI only. So are the navigation bar and the root layout.
- The feed page renders hard-coded data. The registration page is an authentication call plus one document write. The matchmaking page and the two AI flows forward prompts to an external language model. None of them holds local logic worth a model.
- `handleSaveProfile` and `handleSignOut` on the profile page copy form fields into a write, or call the authentication service. The header's full name (src/app/profile/page.tsx:119) only formats text. None of them is modelled.
- The messages page's `isMe` test, the guidance card's `category || "GENERAL"` and its `studentName?.[0] || 'S'` only choose how to render. They are not modelled.
- `crypto.randomUUID` and `new Date().toISOString()` are parameters (`id`, `now`).
- Likes are JavaScript numbers (floating point, possibly `NaN`). The model uses unbounded integers, with a missing count read as 0.
- Text.Lower: maps ASCII letters only. The runtime's `toLowerCase` follows full Unicode case mapping, so searches involving non-ASCII letters are not modelled.
- Text.Upper: maps ASCII letters only. Unicode `toUpperCase` can lengthen a string (ß becomes SS), so the "at most two characters" bound of `Messages.Initials` holds only in this ASCII model.
- Text.LexLessEq: compares `char` values, standing for UTF-16 code units. Surrogate pairs are not modelled.
- Text.Interpolate: a field that is `null` rather than missing would print as "null" in a template literal. The model has one missing value and reads it as `undefined`; no write path of the pages stores a null name.
- A `char` is one code unit everywhere. `name?.[0]` takes the first code unit, which matches `Messages.Initial`.

## Findings

| source | as written | input that shows it | evidently intended | confidence | as-written member | corrected member |
|---|---|---|---|---|---|---|
| src/app/messages/page.tsx:125 | the notice tests `alumniList.length <= 1`, i.e. the fetched list, which contains the viewer only when the viewer is a mentor or alumnus | a signed-in student "s1" and a fetched list holding only mentor "m1": the sidebar lists m1 and also says "No other members found." | show the notice exactly when the sidebar lists nobody | medium, not executed | `Messages.NoticeBesideContact` | `Messages.NoContactsNotice` |
