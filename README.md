# StackIt core in Dafny

StackIt is a question-and-answer web application. This project models the
sequential logic inside its client and library code and proves properties
of it:

- **Mentions** (`Notifications`). Scanning text for `@name`. The scan is the `exec` loop of a global `/@(\w+)/g` regular expression, followed by removal of duplicates in first-occurrence order.
- **Notifications table** (`Notifications`). An in-memory table with the three statements of `lib/notifications.ts`: insert, mark one read and mark a user's rows read. Each of them swallows its error.
- **Home page pagination** (`HomePage`). It covers:
  - the row range of a page;
  - the page count, which is at least 1;
  - the Previous and Next clamps;
  - the sliding window of at most seven page buttons;
  - the 200-character description excerpt;
  - the page state the handlers update.
- **Ask page** (`AskPage`). The comma-separated tag field becomes a list of trimmed, non-empty tags. Also the guard that disables the submit button.
- **Rich text editor** (`RichTextEditor`). Splicing markers around the textarea selection. Covers the toolbar's marker pairs, emoji insertion at the caret and the guarded image insertion. The component's state is a class.
- **Notification bell** (`NotificationBell`). Its state is the fetched list, the unread counter and the popover flag. Covers the click and mark-all handlers, the `9+` badge, the icon per type and the relative-time text.
- **Credentials** (`Auth`). It covers:
  - the lower-case hex encoding of the salted SHA-256 digest;
  - a users table with sign-up, which checks the username and then inserts;
  - sign-in, which looks up username and hash together.
- **Session** (`AuthContext`). The signed-in user, the loading flag and the `"stackit-user"` storage slot, as driven by mount, sign-up, sign-in and sign-out.
- **Shared definitions.**
  - `JsString` holds the JavaScript string functions the core relies on: `trim`, `split` on one character, `join`, `Number.prototype.toString(radix)` and `padStart`.
  - `Common` holds `Option`, `Math.min` and `Math.max`.

The external parts are parameters:

- **The database.** Tables are sequences in a class. A statement's failure is a boolean parameter (`fails`, `insertFails`, `queryFails`). Ids come from a `nextId` counter that stands in for the database default.
- **SHA-256.** An uninterpreted function from the salted password to 32 bytes (`Auth.Hasher`). UTF-8 encoding happens inside it.
- **JSON and `localStorage`.**
  - JSON is a `stringify`/`parse` pair that round-trips users. `parse` may fail on other text.
  - Storage is a map from keys to strings.
- **The clock.** A `now` parameter in milliseconds.
- **The textarea.** Two fields: `mounted` (whether the ref is set) and the selection offsets.

A few points follow the code rather than the help text or a first reading:

- **The tag list is not capped at five.** The "up to 5 tags" text at `app/ask/page.tsx:217` is a hint only. `AskPage.ParseTags` has no cap.
- **`insertEmoji` ignores the end of the selection.** It inserts at `selectionStart` and keeps any selected text after the emoji. When there is no textarea it returns early, so the picker stays open.
- **`insertImage` inserts the untrimmed URL.** It clears the field and closes the panel whenever the trimmed URL is non-empty, even when there is no textarea.
- **A click does not mark the local row read.** Clicking an unread notification lowers the counter by one (never below 0), but the row in the local list stays unread. Clicking it again lowers the counter again. `NotificationBell.Bell.Click` states exactly this, and `Bell.Valid` still holds: the counter never exceeds the unread rows in the list.
- **`currentPage` may be stale.** It may exceed `totalPages`, because nothing resets it when the search changes. The window properties hold for every `currentPage`, and the containment property is stated under `1 <= currentPage <= totalPages`.
- **Sign-in reports every failure the same way.** A failed query as well as no row or several rows matching gives "Invalid username or password".
- **Sign-up errors pass through unchanged.** An insert failure comes back as the database's own error.

## Model

| member | source | states |
|---|---|---|
| Common.Min | app/page.tsx:371 | `Math.min`: at most both arguments and equal to one of them |
| Common.Max | components/notification-bell.tsx:83 | `Math.max`: at least both arguments and equal to one of them |
| JsString.Trim | app/ask/page.tsx:59 | the result has no leading or trailing whitespace, and is the input with a whitespace prefix and a whitespace suffix removed |
| JsString.TrimEmpty | app/ask/page.tsx:234 | `s.trim()` is empty exactly when every character of `s` is whitespace |
| JsString.TrimOfTrimmed | app/ask/page.tsx:59 | trimming a string with no surrounding whitespace returns it unchanged |
| JsString.TrimChars | app/ask/page.tsx:59 | every character of a trimmed string occurs in the original |
| JsString.Split | app/ask/page.tsx:58 | `split(",")` gives one more piece than there are separators, and no piece holds the separator |
| JsString.Join | lib/auth.ts:9 | `join(sep)` of the pieces; it has no contract of its own, and `JsString.JoinSplit` and `JsString.SplitJoin` state that it inverts `split` |
| JsString.JoinSplit | app/ask/page.tsx:58 | joining the pieces of a split with the separator gives back the string |
| JsString.SplitPrefix | app/ask/page.tsx:58 | a separator-free prefix is glued onto the first piece of the rest |
| JsString.SplitAppend | app/ask/page.tsx:58 | splitting `a + "," + b` gives the pieces of `a` followed by the pieces of `b` |
| JsString.SplitCons | app/ask/page.tsx:58 | a leading separator starts a new empty piece; any other leading character joins the first piece |
| JsString.SplitJoin | app/ask/page.tsx:58 | splitting the join of separator-free pieces gives back the pieces |
| JsString.Digit | lib/auth.ts:9 | the digit character written for a value below 36 is a digit or lower-case letter and reads back as that value |
| JsString.ToRadixString | lib/auth.ts:9 | `n.toString(radix)` is non-empty, uses digits below the radix, and starts with `0` only for zero |
| JsString.RadixValueSnoc | lib/auth.ts:9 | appending a digit multiplies the value by the radix and adds the digit |
| JsString.RadixStep | lib/auth.ts:9 | if the digits of `n / radix` read back correctly, so do those of `n` |
| JsString.RadixRoundTrip | lib/auth.ts:9 | reading back the digits of `n.toString(radix)` gives `n` |
| JsString.PadStart | lib/auth.ts:9 | `padStart(width, pad)` has length `max(width, len)`, ends with the input and is pad characters before it |
| JsString.Decimal | components/notification-bell.tsx:120-122 | the decimal text interpolated into a template literal is non-empty, made of decimal digits only and reads back as the number |
| Notifications.RunEnd | lib/notifications.ts:60 | `\w+` is greedy: the run from `i` holds only word characters and the next character is not one |
| Notifications.NameAt | lib/notifications.ts:60-65 | capture group 1 of a match is a non-empty run of `[A-Za-z0-9_]` |
| Notifications.NextMatch | lib/notifications.ts:60-64 | `exec` from `lastIndex` finds the leftmost `@` plus word character at or after it and advances past the run; `null` exactly when there is none |
| Notifications.MentionsFrom | lib/notifications.ts:61-66 | every capture the `exec` loop collects from a start offset is a non-empty run of word characters |
| Notifications.MatchesAt | lib/notifications.ts:64-66 | the scan collects one capture per match offset, each offset at or after the start, and the capture is the run after that `@` |
| Notifications.MatchesIncreasing | lib/notifications.ts:64-66 | the match offsets strictly increase: `lastIndex` only moves forward |
| Notifications.MatchesSound | lib/notifications.ts:64-66 | each collected name is the capture at a match offset at or after the start, and the offsets strictly increase |
| Notifications.MatchesComplete | lib/notifications.ts:64-66 | every `@` followed by a word character at or after the start is a match offset of the scan |
| Notifications.Distinct | lib/notifications.ts:68 | `[...new Set(xs)]` has no duplicates and exactly the elements of `xs` |
| Notifications.IndexOf | lib/notifications.ts:68 | the first position at which an element occurs |
| Notifications.IndexOfSnoc | lib/notifications.ts:68 | appending an element leaves first positions of earlier elements unchanged |
| Notifications.DistinctFirstOccurrenceOrder | lib/notifications.ts:68 | the deduplicated list is in order of first occurrence |
| Notifications.DistinctOfDistinct | lib/notifications.ts:68 | deduplicating a duplicate-free list returns it unchanged |
| Notifications.Mentions | lib/notifications.ts:59-68 | the mentions are duplicate-free valid names; each is the maximal run after some `@`; every `@name` in the text is included; text without `@` has none |
| Notifications.MentionsInTextOrder | lib/notifications.ts:64-68 | an earlier name in the result first appears in the text before every occurrence of a later name |
| Notifications.ExtractMentions | lib/notifications.ts:59-68 | the method returns the first-occurrence deduplication of the names the scan collects |
| Notifications.ScanMentions | lib/notifications.ts:61-66 | the `exec` loop collects exactly the captures of all matches, in order |
| Notifications.DistinctBySet | lib/notifications.ts:68 | the loop with a seen-set yields the first-occurrence deduplication |
| Notifications.CountUnread | components/notification-bell.tsx:74 | the number of unread rows is at most the number of rows |
| Notifications.MarkReadWhereEffect | lib/notifications.ts:41-51 | the update sets `is_read` on exactly the selected rows and changes no other field, row, length or order |
| Notifications.MarkReadWhere | lib/notifications.ts:41-51 | `update({ is_read: true })` keeps the number of rows; a row is read afterwards exactly when it was read before or the filter selects it, and no other field changes |
| Notifications.MarkReadWhereIdempotent | lib/notifications.ts:41-51 | applying either update twice is the same as applying it once |
| Notifications.MarkReadWhereUnread | lib/notifications.ts:41-51 | the unread count afterwards is the old count minus the selected unread rows |
| Notifications.CountUnreadSelectedBound | lib/notifications.ts:41-51 | the selected unread rows are at most all the unread rows |
| Notifications.MarkOneClearsAtMostOne | lib/notifications.ts:41 | with distinct ids, marking one id clears at most one unread row, and exactly one if that row exists unread |
| Notifications.NoneSelected | lib/notifications.ts:41 | marking an id no row has selects nothing |
| Notifications.MarkAllLeavesNoneUnread | lib/notifications.ts:51 | after marking a user's rows read, none of that user's rows is unread |
| Notifications.RowsOf | components/notification-bell.tsx:67 | the rows filtered by `user_id` are exactly that user's rows: every kept row is in the table and belongs to the user, and every row of the user is kept |
| Notifications.MarkAllKeepsOthers | lib/notifications.ts:51 | marking one user's rows read leaves every other user's rows as they were |
| Notifications.NotificationStore.constructor | lib/notifications.ts:21-31 | the table starts empty with the first id free |
| Notifications.NotificationStore.Create | lib/notifications.ts:20-36 | on success exactly one unread row is appended with the fresh id and the given recipient, type, title, message, related ids and time; on failure nothing changes and no error escapes |
| Notifications.NotificationStore.UpdateWhere | lib/notifications.ts:41-51 | the row loop leaves the table equal to the update applied to the old table, ids unchanged |
| Notifications.NotificationStore.MarkAsRead | lib/notifications.ts:39-47 | the table becomes the update by id, or stays as it was when the statement fails; nothing is raised |
| Notifications.NotificationStore.MarkAllAsRead | lib/notifications.ts:49-57 | the table becomes the update by user, or stays as it was when the statement fails; nothing is raised |
| HomePage.PageRange | app/page.tsx:82-84 | page `p` requests rows `(p-1)*10` to `(p-1)*10+9`, exactly ten positions, none negative for `p >= 1` |
| HomePage.RowOnPage | app/page.tsx:82-84 | row `k` lies in the range of page `p` exactly when `p == k / 10 + 1` |
| HomePage.PageRows | app/page.tsx:82-90 | the fetched rows are at most ten consecutive rows starting at the page offset, as many as remain |
| HomePage.TotalPages | app/page.tsx:91 | the page count is at least 1 |
| HomePage.TotalPagesTight | app/page.tsx:91 | for a positive count the last page holds between 1 and 10 rows; zero rows give one page |
| HomePage.TotalPagesMissingCount | app/page.tsx:91 | a missing count is treated as zero and gives one page |
| HomePage.CeilDiv | app/page.tsx:90 | `Math.ceil(n / d)` is the least multiple count covering `n`: `n <= q*d < n+d` |
| HomePage.EveryRowOnAPage | app/page.tsx:82-91 | every row appears on a page in `1..totalPages`, at position `k % 10` |
| HomePage.PagesPastCountEmpty | app/page.tsx:82-91 | pages past the page count fetch nothing |
| HomePage.PreviousPage | app/page.tsx:364 | Previous goes one page back and never below 1 |
| HomePage.NextPage | app/page.tsx:401 | Next goes one page forward and never above `totalPages` |
| HomePage.PreviousDisabled | app/page.tsx:365 | `currentPage === 1`; it has no contract of its own, and `HomePage.ButtonsDisabledAtEnds` relates it to the Previous button |
| HomePage.NextDisabled | app/page.tsx:402 | `currentPage === totalPages`; it has no contract of its own, and `HomePage.ButtonsDisabledAtEnds` relates it to the Next button |
| HomePage.PreviousNextInverse | app/page.tsx:364-401 | inside the page range, Previous undoes Next and Next undoes Previous |
| HomePage.ButtonsDisabledAtEnds | app/page.tsx:364-402 | for any page number from 1 up, a stale one past the last page included, a button is disabled exactly when pressing it would not move the page |
| HomePage.ShowPagination | app/page.tsx:360 | `totalPages > 1`; it has no contract of its own, and `HomePage.ShowPaginationIff` states when it holds |
| HomePage.ShowPaginationIff | app/page.tsx:90-360 | the pagination bar is rendered exactly when the count is present and above ten questions |
| HomePage.PageNumber | app/page.tsx:372-381 | each of the `min(7, totalPages)` buttons gets a page number between 1 and `totalPages`, in every one of the four branches |
| HomePage.PageWindow | app/page.tsx:371-381 | the window has `min(7, totalPages)` consecutive page numbers, all in `1..totalPages`, for any `currentPage` |
| HomePage.WindowContainsCurrent | app/page.tsx:371-386 | with `1 <= currentPage <= totalPages` the window contains the current page |
| HomePage.WindowActiveUnique | app/page.tsx:384-386 | window entries strictly increase, so button keys are distinct and at most one is active |
| HomePage.WindowCentred | app/page.tsx:379-380 | away from both ends the current page is the middle button |
| HomePage.Excerpt | app/page.tsx:321 | the excerpt is the first `min(200, len)` characters followed by `...` |
| HomePage.ExcerptOfShort | app/page.tsx:321 | a description of at most 200 characters is shown whole, then `...` |
| HomePage.Pager.constructor | app/page.tsx:30-37 | page 1 of 1, no questions, loading |
| HomePage.Pager.Fetch | app/page.tsx:81-96 | on success the list is the page's rows and the page count is derived from the row count; on failure both stay; loading ends either way |
| HomePage.Pager.Previous | app/page.tsx:364 | the page becomes the clamped previous page and nothing else changes |
| HomePage.Pager.Next | app/page.tsx:401 | the page becomes the clamped next page and nothing else changes |
| HomePage.Pager.SelectButton | app/page.tsx:387 | the page becomes the chosen window entry, which lies in `1..totalPages` |
| AskPage.TrimEach | app/ask/page.tsx:59 | each piece is replaced by its trim, same count and order |
| AskPage.NonEmpty | app/ask/page.tsx:60 | keeps exactly the non-empty pieces, no more pieces than before |
| AskPage.ParseTagsWellFormed | app/ask/page.tsx:57-60 | every tag is non-empty, trimmed and free of commas; there are at most one more tags than commas |
| AskPage.ParseTags | app/ask/page.tsx:57-60 | the tags are exactly the non-blank trimmed comma-separated pieces, and there are no more tags than pieces |
| AskPage.TrimEachAppend | app/ask/page.tsx:59 | trimming distributes over concatenation |
| AskPage.NonEmptyAppend | app/ask/page.tsx:60 | filtering distributes over concatenation |
| AskPage.ParseTagsAppend | app/ask/page.tsx:57-60 | the tags of `a + "," + b` are the tags of `a` followed by the tags of `b`: left-to-right order is kept |
| AskPage.NonEmptyOfNonEmpty | app/ask/page.tsx:60 | filtering pieces that are all non-empty keeps them all |
| AskPage.ParseTagsJoin | app/ask/page.tsx:57-60 | any list of well-formed tags, of any length, is parsed back from its comma join |
| AskPage.SubmitDisabledIff | app/ask/page.tsx:234 | submit is disabled exactly while submitting or when the title or description is all whitespace |
| AskPage.SubmitDisabled | app/ask/page.tsx:234 | the `disabled` expression of the submit button; it has no contract of its own, and `AskPage.SubmitDisabledIff` says what it means |
| RichTextEditor.Splice | components/rich-text-editor.tsx:40-43 | the new text has length `len + len(before) + len(after)` and is the prefix, `before`, the selection, `after` and the suffix, each in place |
| RichTextEditor.Unsplice | components/rich-text-editor.tsx:43 | the inverse of the insertion at line 43, used only to state `UnspliceSplice`: removing the two markers shortens the text by their lengths |
| RichTextEditor.UnspliceSplice | components/rich-text-editor.tsx:43 | removing the inserted markers gives back the original text |
| RichTextEditor.SpliceNothing | components/rich-text-editor.tsx:43 | empty markers leave the text unchanged |
| RichTextEditor.ToolbarMarkers | components/rich-text-editor.tsx:113-247 | list buttons insert a prefix only, on a new line; bold, italic and strikethrough use one marker on both sides; the alignment buttons open a `div` and close it |
| RichTextEditor.Before | components/rich-text-editor.tsx:113-247 | the `before` argument of each toolbar button; it has no contract of its own, and `RichTextEditor.ToolbarMarkers` states its shape |
| RichTextEditor.After | components/rich-text-editor.tsx:113-247 | the `after` argument of each toolbar button (`""` for the list buttons); it has no contract of its own, and `RichTextEditor.ToolbarMarkers` states its shape |
| RichTextEditor.EmojisDistinct | components/rich-text-editor.tsx:86-107 | the picker offers twenty distinct non-empty emoji |
| RichTextEditor.ImageMarkdown | components/rich-text-editor.tsx:71 | the image markdown is ten characters longer than the URL |
| RichTextEditor.ImageMarkdownUrl | components/rich-text-editor.tsx:71 | the markdown is `![Image](`, the URL, then `)` |
| RichTextEditor.Editor.constructor | components/rich-text-editor.tsx:29-32 | the given value, no textarea, caret at 0, both panels closed, empty URL |
| RichTextEditor.Editor.Mount | components/rich-text-editor.tsx:33 | the textarea is attached with the caret at 0; nothing else changes |
| RichTextEditor.Editor.UserEdit | components/rich-text-editor.tsx:253 | typing sets the value and a selection inside it; nothing else changes |
| RichTextEditor.Editor.InsertText | components/rich-text-editor.tsx:36-52 | with a textarea the value is the splice and the new selection covers exactly the originally selected text; without one nothing changes |
| RichTextEditor.Editor.Press | components/rich-text-editor.tsx:113-247 | a toolbar button splices its marker pair around the selection |
| RichTextEditor.Editor.InsertEmoji | components/rich-text-editor.tsx:54-67 | the emoji goes in at `selectionStart`, the caret lands after it and the picker closes; without a textarea nothing changes |
| RichTextEditor.Editor.PickEmoji | components/rich-text-editor.tsx:154 | picking the `i`-th emoji inserts that emoji at the caret |
| RichTextEditor.Editor.ToggleEmojiPicker | components/rich-text-editor.tsx:141 | flips the picker and nothing else |
| RichTextEditor.Editor.ToggleImageUpload | components/rich-text-editor.tsx:170 | flips the image panel and nothing else |
| RichTextEditor.Editor.SetImageUrl | components/rich-text-editor.tsx:185 | sets the URL field and nothing else |
| RichTextEditor.Editor.InsertImage | components/rich-text-editor.tsx:69-75 | when the Insert button would be disabled (a blank URL) nothing changes; otherwise `![Image](url)` is spliced at the selection (if mounted), the URL clears and the panel closes |
| RichTextEditor.Editor.InsertImageDisabled | components/rich-text-editor.tsx:188 | the Insert button is disabled while the URL is blank; it has no contract of its own, and `RichTextEditor.Editor.InsertImage` states that it is also the guard of `insertImage` |
| NotificationBell.Take | components/notification-bell.tsx:69 | `limit(20)` keeps the first `min(20, len)` rows |
| NotificationBell.MarkAllLocal | components/notification-bell.tsx:98 | every local row is marked read, keeping length, order and all other fields |
| NotificationBell.AllReadNoneUnread | components/notification-bell.tsx:97-98 | a list whose rows are all read has no unread row |
| NotificationBell.MarkAllLocalNoneUnread | components/notification-bell.tsx:97-98 | after the local mark-all no row is unread, so the counter of 0 matches the list |
| NotificationBell.MarkAllLocalMatchesStore | components/notification-bell.tsx:96-98 | on a list of the user's rows the local update equals the table update by user |
| NotificationBell.UnreadOfUser | components/notification-bell.tsx:67-74 | the unread rows of the user's filtered list are the table's unread rows of that user |
| NotificationBell.CountUnreadAppend | components/notification-bell.tsx:74 | unread counts add over concatenation |
| NotificationBell.CountUnreadTake | components/notification-bell.tsx:69-74 | the limit never increases the unread count |
| NotificationBell.FetchedUnreadBound | components/notification-bell.tsx:64-74 | the fetched unread count is at most the user's unread rows in the table, and equal when the user has at most 20 rows |
| NotificationBell.RefetchAfterMarkAll | components/notification-bell.tsx:93-99 | after the table update by user, a refetch finds no unread row |
| NotificationBell.BadgeLabel | components/notification-bell.tsx:132-137 | the badge is hidden exactly when the count is 0, and its label is one or two characters |
| NotificationBell.BadgeLabelMeaning | components/notification-bell.tsx:137 | above 9 the label is `9+`; otherwise it is the single digit that reads back as the count |
| NotificationBell.ShowMarkAll | components/notification-bell.tsx:147 | `unreadCount > 0`; it has no contract of its own, and `NotificationBell.MarkAllOfferedOnlyWhenUnread` states what it implies |
| NotificationBell.UnreadWitness | components/notification-bell.tsx:147 | a positive unread count means some row is unread |
| NotificationBell.MarkAllOfferedOnlyWhenUnread | components/notification-bell.tsx:147-152 | "Mark all read" is offered only while some listed notification is unread |
| NotificationBell.IconFor | components/notification-bell.tsx:101-112 | answer, vote and mention each have their own icon, one to one |
| NotificationBell.AgeOf | components/notification-bell.tsx:117-122 | the bucket is chosen by the thresholds of 1 minute, 60 minutes and 1440 minutes on the millisecond difference (future times read "Just now"), and its number is the floored quotient |
| NotificationBell.RenderAgo | components/notification-bell.tsx:119-122 | "Just now" exactly for that bucket; every other bucket is longer than five characters and ends in " ago" |
| NotificationBell.ParseAgo | components/notification-bell.tsx:114-123 | a reader for the displayed text, defined only to state `NotificationBell.ParseRenderAgo`; it reads "Just now" back as that bucket and nothing else |
| NotificationBell.FormatDate | components/notification-bell.tsx:114-123 | the displayed text is "Just now" exactly when the age is under a minute, including future times |
| NotificationBell.ParseRenderAgo | components/notification-bell.tsx:119-122 | each bucket's text reads back as that bucket and number |
| NotificationBell.ParseNumbered | components/notification-bell.tsx:120-122 | a rendered number followed by its unit splits back into the digits, which read back as the number, and the unit |
| NotificationBell.FormatDateReadsBack | components/notification-bell.tsx:114-123 | the text shown for a timestamp reads back as the bucket of its age |
| NotificationBell.Bell.constructor | components/notification-bell.tsx:28-30 | empty list, counter 0, popover closed |
| NotificationBell.Bell.Fetch | components/notification-bell.tsx:60-78 | run against the notifications table: with a user and no error the list is the first 20 of that user's rows and the counter their unread count, at most the user's unread rows in the table; without a user or on an error nothing changes |
| NotificationBell.Bell.SetOpen | components/notification-bell.tsx:128 | opens or closes the popover and nothing else |
| NotificationBell.Bell.Click | components/notification-bell.tsx:80-91 | an unread click marks that id read in the table (unless the statement fails) and lowers the counter with a floor of 0; a read click changes neither; the list is unchanged, the popover closes and the target is the related question |
| NotificationBell.Bell.MarkAll | components/notification-bell.tsx:93-99 | with a user the counter becomes 0, every local row read and the table updated by user (unless the statement fails); without one nothing changes |
| Auth.RadixOfByte | lib/auth.ts:9 | a byte's `toString(16)` is one digit below 16 and two digits otherwise |
| Auth.ByteHex | lib/auth.ts:9 | each byte is written as exactly two lower-case hex digits, high nibble first, zero-padded |
| Auth.Hex | lib/auth.ts:9 | the hex text is twice as long as the bytes |
| Auth.ByteHexIsLowerHex | lib/auth.ts:9 | a byte's two characters are lower-case hex digits |
| Auth.HexIsLowerHex | lib/auth.ts:9 | the whole hex text is lower-case hex digits |
| Auth.UnhexHex | lib/auth.ts:9 | decoding the hex text gives back the bytes |
| Auth.HexUnhex | lib/auth.ts:9 | every decodable text is the hex encoding of what it decodes to |
| Auth.HexInjective | lib/auth.ts:9 | two byte sequences have the same hex text exactly when they are equal |
| Auth.HashPassword | lib/auth.ts:4-10 | the stored hash is 64 lower-case hex digits |
| Auth.HashPasswordCompares | lib/auth.ts:6-9 | two passwords hash alike exactly when the digests of password plus `stackit_salt` agree |
| Auth.WithUsername | lib/auth.ts:15 | the rows selected by username are exactly the table's rows with that name |
| Auth.WithCredentials | lib/auth.ts:45-50 | the rows selected by username and hash are exactly the rows matching both |
| Auth.Single | lib/auth.ts:50 | `.single()` yields a row exactly when one row matches, and then that row |
| Auth.AtMostOneWithUsername | lib/auth.ts:15-17 | with unique names at most one row has a name, and one exactly when the name is taken |
| Auth.CredentialsWithinUsername | lib/auth.ts:45-50 | matching both fields selects no more rows than matching the name |
| Auth.SignIn | lib/auth.ts:41-60 | every failure is the `InvalidCredentials` error, whose message is "Invalid username or password", and is returned; a success is a row of the table with that username and the password's hash |
| Auth.Message | lib/auth.ts:18-53 | the message of each error; it has no contract of its own, and `Auth.SignIn` and `Auth.UserTable.SignUp` state the messages they return |
| Auth.SignInSucceedsIff | lib/auth.ts:45-54 | with unique names sign-in succeeds exactly when a row matches both the username and the hash |
| Auth.WithCredentialsAppend | lib/auth.ts:45-50 | selection by credentials distributes over rows appended to the table |
| Auth.NoCredentialsWithoutUsername | lib/auth.ts:45-50 | a name no row has matches no credentials |
| Auth.SignInAfterSignUp | lib/auth.ts:12-60 | after the row sign-up inserts, sign-in with the same name and password returns that row |
| Auth.AppendFresh | lib/auth.ts:23-32 | inserting a row with a fresh name and the next id keeps names and ids unique |
| Auth.UserTable.constructor | lib/auth.ts:23-32 | the users table starts empty with the first id free |
| Auth.UserTable.SignUp | lib/auth.ts:12-39 | a taken name returns `UsernameExists`, whose message is "Username already exists", and changes nothing; a failed insert returns its error and changes nothing; otherwise exactly one row with the name and the password's hash is inserted and returned |
| AuthContext.AuthProvider.constructor | contexts/auth-context.tsx:24-25 | nobody signed in, loading |
| AuthContext.AuthProvider.Mount | contexts/auth-context.tsx:27-38 | a non-empty stored value that parses becomes the user; one that does not parse is removed and the user kept; an absent or empty value changes nothing; a signed-in session survives it unchanged; loading ends in every case |
| AuthContext.AuthProvider.HandleSignUp | contexts/auth-context.tsx:40-53 | success signs the new row in and stores it; a taken name yields `UsernameExists`, a failed insert of a free name `StoreError`; on an error user, storage and table are unchanged; the session invariant is kept |
| AuthContext.AuthProvider.HandleSignIn | contexts/auth-context.tsx:55-68 | success signs the found row in and stores it; failure returns "Invalid username or password" with user and storage unchanged |
| AuthContext.AuthProvider.HandleSignOut | contexts/auth-context.tsx:70-73 | nobody is signed in and the slot is removed, so a second call changes nothing more |
| AuthContext.RestoreAfterReload | contexts/auth-context.tsx:29-49 | for every valid signed-in provider the storage slot is present, non-empty and parses back to the signed-in user, so mounting on that storage restores it |
| AuthContext.Reload | contexts/auth-context.tsx:27-38 | a new provider over the storage a signed-in provider left, once mounted, has the same user, the same storage, and has finished loading |

## Left out

- String lengths count Unicode scalar values, while JavaScript counts UTF-16 code units. The selection offsets after an emoji outside the Basic Multilingual Plane therefore differ from the browser's. The model is self-consistent in scalars.
- SHA-256 and `TextEncoder` are a function parameter. A digest is any 32-byte value. The `crypto.subtle` call throwing is not modelled.
- JSON is abstract. Only users are stringified, and a parse yields `null`, a user or a failure. A stored value that parses to some other JSON value is not modelled.
- The Supabase client is left out: query construction, the `ilike` search, ordering and the count query. Ordering is the order of the input sequence, and the count is the length of the rows passed to `HomePage.Pager.Fetch`.
- The users-table schema is not part of this model. A failed username lookup in `signUp` reads as "not found", and the insert's own failure is the `insertFails` parameter. `StoreError`'s message stands in for the database's error text.
- The check-then-insert race in `signUp` is concurrency and is not modelled; operations are sequential.
- The realtime subscription that refetches notifications is pub/sub I/O. The caller calls `NotificationBell.Bell.Fetch`.
- The refetch when `currentPage` changes is an effect. The caller calls `HomePage.Pager.Fetch`.
- `data` being `null` on a successful query is not modelled: a successful fetch always has a row list.
- The icon's default arm for an unknown type cannot be reached, because types are a datatype.
- The notification bell's `formatDate` is not modelled on date strings. It takes two integer millisecond timestamps, so invalid dates (which give `NaN`) are not modelled.
- The home page's `formatDate` (`toLocaleDateString` with the `en-US` locale) is locale formatting and is not modelled.
- The markdown preview's regular-expression chain, `dangerouslySetInnerHTML`, the file input and blob URLs are DOM behaviour and are not modelled.
- The `setTimeout` focus call is not modelled; only the selection offsets it sets are.
- Router navigation is a side effect. `NotificationBell.Bell.Click` returns the target question id instead.
- The sort options that never reach the query and the `filterBy` selector are not modelled.
- Vote scoring, answer ordering and the places that call `createNotification` are not in the modelled files, and neither is `app/questions/[id]/page.tsx`.
- Console logging of swallowed errors is I/O and is not modelled.
