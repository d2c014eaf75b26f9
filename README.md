# Note sharing and notification fan-out, modelled in Dafny

This project models the core of a small notes service written in TypeScript.

- **Sharing.** A user shares a note with other users. The request is validated by an ordered chain of three checks. Then one share row per recipient is stored and a notification broadcast is scheduled to run later.
- **Notifications.** The broadcast goes through a process-wide notification service. The service holds an append-only list of channels (sockets, email, webhook). Each channel guards on its own key of the options. Only the email channel delivers anything.
- **Timeline delete.** A user removes received notes from their timeline. Either every listed share is soft-deleted or nothing changes.
- **Daily digest.** Once a day the digest job folds a list of (user, note type) rows into per-user counts, formats one text message per user and mails it.

The database tables (users, notes, user-note shares) are in-memory sequences in a `Tables.Database` object. The repository reads are functions over those sequences. The writes are methods that change only the table they name (`modifies db\`userNotes`). The mail transport is an `EmailService.EmailService` object whose `sent` log records every email handed to it.

Modules, one per source file:

- `Channels`: the three notification channels.
- `NotificationService`: the singleton broadcaster, the startup channel list and the startup registration.
- `Timers`: the `setTimeout` queue.
- `NoteService`: share validation and the share workflow.
- `UserNotesRepository`, `UserRepository`, `NoteRepository`: the three repositories.
- `TimelineNote`: the timeline delete handler.
- `DailyNotificationService`, `DailyNotificationConfig`: the daily digest.
- Supporting modules: `Seqs` (distinctness, counting and key ordering), `Text` (the JavaScript string operations used), `Tables`, `AppTypes`, `NotificationTypes`, `EmailService` and `Wrappers`.

Where the project's prose description of its design and its code disagree, the model follows the code:

- The notification body is `message.substring(0, max(20, length))`. That is always the whole message, not a 20-character preview (`NoteService.ShareNotificationContent`).
- The "Invalid recipient IDs" message names no ids.
- No read of the share table filters on `deletedAt`. A soft-deleted share therefore still blocks sharing the note again with that user, and still counts as found when the same notes are deleted again.
- `broadcastNotification` has no try/catch. The model does not claim that the broadcaster absorbs failures: no channel in it fails, and the mail transport catches its own errors.

## Model

| member | source | states |
|---|---|---|
| Channels.SendEmailNotification | src/notifications/channels/email.channel.ts:8-26 | the send log grows by exactly `EmailSends`: nothing without `emailOptions`, otherwise one email per address in list order, with title as subject and message as body |
| Channels.SendNotification | src/notifications/notifications.types.ts:13-19 | a channel's only effect is the emails it adds to the log, given by `ChannelSends` for its kind |
| Channels.EmailNeedsEmailOptions | src/notifications/channels/email.channel.ts:13-15 | absent options or no `emailOptions` key: no email, whatever the other keys hold |
| Channels.EmailOnePerAddress | src/notifications/channels/email.channel.ts:23-25 | exactly one send per listed address, in list order, duplicates included; an empty list sends nothing |
| Channels.EmailIgnoresOtherKeys | src/notifications/notifications.types.ts:1-11 | the keys are independent: changing `webhookOptions` or `socketsOptions` changes nothing the email channel sends |
| Channels.AbsentOptionsAsNoKeys | src/notifications/notifications.types.ts:17 | for every channel, absent options behave like options with no key |
| Channels.SocketsAndWebhookSendNothing | src/notifications/channels/sockets.channel.ts:7-30 | the socket and webhook channels never send an email, whatever the options |
| NotificationService.BroadcastSendsAppend | src/services/notification.service.ts:67-69 | broadcasting over two batches of channels sends the first batch's emails followed by the second's |
| NotificationService.GeneralChannelsOnceEach | src/config/notifications.config.ts:9-14 | the startup list has three channels, sockets then email then webhook, each kind exactly once |
| NotificationService.GeneralBroadcastIsEmailOnly | src/services/notification.service.ts:62-70 | over the startup channels a broadcast sends exactly what the email channel sends |
| NotificationService.NotificationService.RegisterChannel | src/services/notification.service.ts:40-42 | the list becomes the old list followed by the new channel |
| NotificationService.NotificationService.RegisterChannels | src/services/notification.service.ts:49-53 | the list becomes the old list followed by the given channels in order, with no deduplication |
| NotificationService.NotificationService.BroadcastNotification | src/services/notification.service.ts:62-70 | every registered channel runs once, in registration order, with the same arguments; the log grows by their sends in that order; the list is unchanged |
| NotificationService.NotificationServiceInstance.GetInstance | src/services/notification.service.ts:28-33 | the first call creates a service with no channels; later calls return that same object |
| NotificationService.SetupNotifications | src/server.ts:47-49 | after startup the singleton's channel list equals the startup list |
| Timers.TimerQueue.SetTimeout | src/modules/note/note.service.ts:81-89 | the callback is queued at the end and does not run now |
| Timers.RunNextTimer | src/modules/note/note.service.ts:81-89 | firing the oldest queued broadcast removes it and adds exactly that broadcast's sends; with none queued nothing changes |
| EmailService.EmailService.SendEmail | src/services/email.service.ts:38-52 | each call appends exactly one email (to, subject, body) and never fails |
| UserRepository.ValidateUserIds | src/repositories/user.repository.ts:55-61 | returns exactly the requested ids that are existing users, each once when user ids are unique |
| UserRepository.ValidateUserIdsLength | src/repositories/user.repository.ts:55-61 | the result has at most one id per distinct requested id, with equality iff all exist; it has the request's length iff the request repeats no id and all exist |
| UserRepository.UserExists | src/repositories/user.repository.ts:42-47 | true iff some user has the email |
| UserRepository.FindByEmail | src/repositories/user.repository.ts:15-21 | returns a user with that email, or none when no user has it |
| UserRepository.FindByEmailAgreesWithUserExists | src/repositories/user.repository.ts:15-47 | `findByEmail` finds a user iff `userExists` is true |
| UserRepository.CreateUser | src/repositories/user.repository.ts:29-34 | appends one user with the next id and the given fields, leaving the others unchanged; a taken email creates nothing; table invariants are kept |
| NoteRepository.CreateNote | src/repositories/note.repository.ts:17-32 | appends and returns a note with the next id, the caller as sender and the given fields; table invariants are kept |
| NoteRepository.GetNotes | src/repositories/note.repository.ts:40-45 | exactly the notes with that sender, in store order |
| NoteRepository.GetNotesPage | src/repositories/note.repository.ts:55-67 | a contiguous slice of the sender's notes starting at `(page-1)*pageSize`, with at most `pageSize` notes and the exact length in each case |
| NoteRepository.PagesDisjoint | src/repositories/note.repository.ts:60-65 | two different page numbers share no note |
| NoteRepository.NoteOnItsPage | src/repositories/note.repository.ts:60-65 | the sender's i-th note is on page `i / pageSize + 1` at position `i % pageSize`, so paging loses no note |
| NoteRepository.GetNoteById | src/repositories/note.repository.ts:75-80 | returns a note with that id, or none when no note has it |
| UserNotesRepository.InsertManySkippingDuplicates | src/repositories/user-notes.repository.ts:16-23 | every requested pair ends up present; existing rows are untouched; new rows are live shares of requested pairs; (userId, noteId) keys stay unique |
| UserNotesRepository.CreateMany | src/repositories/user-notes.repository.ts:16-23 | the share table becomes the bulk insert that skips duplicates; the table invariants, unique share keys among them, are kept |
| UserNotesRepository.GetUserNotes | src/repositories/user-notes.repository.ts:33-39 | note ids of all the user's shares, soft-deleted ones included, each once under unique keys |
| UserNotesRepository.SoftDeleted | src/repositories/user-notes.repository.ts:51-54 | exactly the user's rows with a listed note id get `deletedAt = now`; every other row is unchanged and none is removed |
| UserNotesRepository.DeleteUserNotes | src/repositories/user-notes.repository.ts:47-55 | the share table becomes its soft delete at the clock value given; the table invariants are kept |
| UserNotesRepository.SoftDeleteTwice | src/repositories/user-notes.repository.ts:51-54 | repeating the delete marks the same rows; only the timestamp changes |
| UserNotesRepository.SoftDeleteKeepsKeys | src/repositories/user-notes.repository.ts:51-54 | a soft delete keeps every key, so lookups by key and key uniqueness are unchanged |
| UserNotesRepository.ExistingSharedNotes | src/repositories/user-notes.repository.ts:64-86 | one entry per share of the note whose user is listed, deleted or not: every such share appears with its user's name, every entry is such a share, and the length is the number of such rows; so it is empty iff no listed user has a share |
| UserNotesRepository.GetReceivedNotes | src/repositories/user-notes.repository.ts:97-108 | exactly the user's rows whose note id is listed, with no `deletedAt` filter |
| UserNotesRepository.ReceivedCount | src/repositories/user-notes.repository.ts:101-106 | the received rows are as many as the listed ids among the user's note ids |
| UserNotesRepository.ReceivedAllIff | src/repositories/user-notes.repository.ts:101-106 | under unique keys, as many rows as ids iff the list repeats no id and every id has a share of the user |
| UserNotesRepository.ReadsIgnoreSoftDelete | src/repositories/user-notes.repository.ts:68-80 | a soft delete changes neither `getUserNotes` nor `existingSharedNotes` |
| UserNotesRepository.ReceivedCountIgnoresSoftDelete | src/repositories/user-notes.repository.ts:101-106 | a soft delete does not change how many received rows a lookup finds |
| NoteService.ValidateAcceptsIff | src/modules/note/note.service.ts:16-58 | accepted iff the sharer is not a recipient, the recipients are existing users listed once, and none has a share of the note, even a deleted one; an empty list is accepted |
| NoteService.ValidateRecipientIds | src/modules/note/note.service.ts:16-58 | an accepted request does not list the sharer, and no listed existing user has a share of the note; the full acceptance iff is `NoteService.ValidateAcceptsIff` |
| NoteService.ValidateRejections | src/modules/note/note.service.ts:24-55 | the three checks run in order: self-share first, then unknown or repeated ids, then existing shares; the last message is non-empty, names only recipients that have the note and names every one of them |
| NoteService.AlreadySharedNamesThem | src/modules/note/note.service.ts:40-55 | the already-shared message names exactly the recipients that have a share of the note, at least one |
| NoteService.ExistingNamesExact | src/modules/note/note.service.ts:41-48 | the usernames of the existing shares are names of listed users with a share of the note, and include every such user's name |
| NoteService.SoftDeletedShareStillBlocks | src/modules/note/note.service.ts:40-45 | validation gives the same answer before and after any soft delete |
| NoteService.ShareRows | src/modules/note/note.service.ts:73-76 | one `{userId: r, noteId}` per recipient, in order |
| NoteService.ShareNotification | src/modules/note/note.service.ts:81-89 | the deferred broadcast of a share; its title, body and options are stated by `NoteService.ShareNotificationContent` |
| NoteService.ShareNotificationContent | src/modules/note/note.service.ts:81-89 | title `<username> sent you a new note`; body equal to the whole message; options holding only the unchanged recipient list |
| NoteService.ShareBroadcastSendsNothing | src/modules/note/note.service.ts:85-87 | a share's broadcast over the startup channels sends no email |
| NoteService.ShareNoteWithUsers | src/modules/note/note.service.ts:67-90 | stores the share rows through `createMany`, then queues the broadcast without running it; the table invariants are kept |
| NoteService.ShareGrantsAccessOnce | src/modules/note/note.service.ts:73-78 | after sharing, each recipient has exactly one share of the note, old rows are unchanged and keys stay unique |
| NoteService.ShareTwiceRejected | src/modules/note/note.service.ts:40-55 | once a share of a non-empty list is accepted and stored, the same request is rejected as already shared |
| TimelineNote.ValidNoteIds | src/modules/timeline-note/timeline-note.validation.ts:4-10 | the body schema: a present array of integers of at least 1, the empty array included; its use is stated by `TimelineNote.DeleteReceivedNote` |
| TimelineNote.DeleteReceivedNote | src/modules/timeline-note/timeline-note.controller.ts:45-69 | invalid ids give status 400 and no change; a count mismatch gives 422 with "Some notes not found" and no change; otherwise 200 with "Received notes deleted successfully" and the soft delete; status 200 iff no id repeats and the caller has a share for every id; the table invariants are kept |
| TimelineNote.DeleteAllOrNothing | src/modules/timeline-note/timeline-note.controller.ts:63-68 | after success every listed share of the caller is stamped and no other row changed |
| TimelineNote.DeleteAgainSucceeds | src/modules/timeline-note/timeline-note.controller.ts:58-67 | deleting the same ids again still finds every share |
| Text.Substring | src/modules/note/note.service.ts:84 | `substring` returns a slice of the string: `s[start..end]` for in-range indices, the rest of the string when the end is past it, and the swapped slice when the start is after the end |
| Text.SplitJoin | src/services/daily-notification.service.ts:60 | splitting a join on a character that no part contains gives back the parts |
| Text.NatToStringRoundTrip | src/services/daily-notification.service.ts:51-53 | reading the rendered count's digits back gives the count |
| DailyNotificationService.FormatStatsMessage | src/services/daily-notification.service.ts:42-61 | the message text; its lines are stated by `DailyNotificationService.FormatStatsLines` |
| DailyNotificationService.FormatStatsLines | src/services/daily-notification.service.ts:42-61 | the lines are the greeting, the fixed line and one line per stat in order, plus the call-to-action line last only for a non-empty URL: two lines more than there are stats when there is none |
| DailyNotificationService.DigestHasNoCallToAction | src/services/daily-notification.service.ts:24-33 | each digest email goes to its user's email with subject "Daily Notes Stats" and has exactly two lines more than its user has stats |
| DailyNotificationService.DailyNotificationService.SendDailyNoteStats | src/services/daily-notification.service.ts:24-33 | the log grows by exactly one digest email per user stat, in input order |
| DailyNotificationService.DailyNotificationServiceInstance.GetInstance | src/services/daily-notification.service.ts:17-22 | the first call creates the service; later calls return that same object |
| DailyNotificationConfig.FindType | src/config/daily-notification.config.ts:45-47 | `find` returns the first entry with the type, or none when no entry has it |
| DailyNotificationConfig.SummarizeUserNotes | src/config/daily-notification.config.ts:32-56 | the loop yields the values of the fold over all rows, ordered by user id |
| DailyNotificationConfig.AddType | src/config/daily-notification.config.ts:45-52 | increment the entry `find` returns or push a new one with count 1; its meaning is stated by `DailyNotificationConfig.AddTypeCounts` |
| DailyNotificationConfig.Step | src/config/daily-notification.config.ts:36-53 | one loop iteration; what the whole loop computes is stated by `DailyNotificationConfig.FoldStep` and `DailyNotificationConfig.FoldComputesExpected` |
| DailyNotificationConfig.ObjectValues | src/config/daily-notification.config.ts:55 | as many values as the record has keys; contents and order are stated by `DailyNotificationConfig.ValuesOfEveryKey` and `DailyNotificationConfig.ValuesByUserId` |
| DailyNotificationConfig.ValuesOfEveryKey | src/config/daily-notification.config.ts:55 | every key's value is among the values, and every value is some key's value |
| DailyNotificationConfig.ValuesByUserId | src/config/daily-notification.config.ts:55 | for a record keyed by user id, the values come in strictly ascending user id order, one per key, each the value of its own key |
| DailyNotificationConfig.AddTypeCounts | src/config/daily-notification.config.ts:45-52 | counting one more row of a type gives the stats of the type list with that type appended |
| DailyNotificationConfig.FoldComputesExpected | src/config/daily-notification.config.ts:35-53 | the record has one entry per user in the rows, with email and username from the user's first row and stats from all of the user's rows |
| DailyNotificationConfig.StatsOfShape | src/config/daily-notification.config.ts:45-52 | one stat per distinct type, in order of first occurrence; each count is that type's number of rows and at least 1 |
| DailyNotificationConfig.StatsOfSum | src/config/daily-notification.config.ts:49-51 | a user's counts add up to the user's number of rows |
| DailyNotificationConfig.DedupInFirstOccurrenceOrder | src/config/daily-notification.config.ts:51 | types come in the order of their first occurrences |
| DailyNotificationConfig.SummaryPerUser | src/config/daily-notification.config.ts:55 | one entry per distinct user id, in ascending id order, each the user's expected entry; empty input gives empty output |
| Seqs.SortedKeys | src/config/daily-notification.config.ts:55 | the record's integer keys, each once, in ascending order |
| DailyNotificationConfig.DailyNotificationConfig.ScheduleDailyNotifications | src/config/daily-notification.config.ts:9-24 | the first call registers the midnight job and sets the flag; later calls change nothing, so at most one job exists |
| DailyNotificationConfig.RunDailyJob | src/config/daily-notification.config.ts:16-21 | the job mails exactly the digest emails of the summarised rows, in user id order |

## Left out

- HTTP plumbing is not modelled: Express wiring, routes, middleware, the error-class table, Joi schemas and authentication (bcrypt, JWT, passport). The timeline delete's id schema is the predicate `TimelineNote.ValidNoteIds`. The 400 response's message is the validator's own text and is not carried.
- `NoteController.shareNote` is routed but not defined in the source. The note-owner check is a precondition of `NoteService.ShareNoteWithUsers`, and the status mapping of a share request is not modelled.
- The timeline read handler calls `NoteRepository.getTimelineNotes`, and the digest job calls `UserNotesRepository.getUsersNotesSummary`. Neither is part of this model, because neither exists in the repository files. The digest job takes the summary rows as a parameter.
- Prisma is replaced by in-memory tables. The unique key of the share table is assumed to be (userId, noteId). Rows are returned in insertion order. The `createdAt` columns and the note type table are not modelled.
- `UserNotesRepository.ExistingSharedNotes`: the username join uses `""` for a user id missing from the user table. A foreign key prevents that in the source.
- `setTimeout` is modelled as a queue of pending broadcasts (`Timers.TimerQueue`), fired one at a time by `Timers.RunNextTimer`. `node-schedule` is modelled as a list of registered cron expressions. Timing, concurrency and interleaving between requests are not modelled.
- `UserRepository.CreateUser`: the source does not check the email itself. The unique-constraint error the database raises for a taken email is modelled as a `None` result that changes nothing.
- `new Date()` is replaced by a clock value passed as a parameter.
- `console.log` and `console.error` calls are dropped.
- The try/catch blocks of the socket and webhook channels guard only a log call, so they have no counterpart.
- `EmailService.EmailService.SendEmail`: the nodemailer transport is not modelled. Its failure path only logs, so a send is modelled as an append that always succeeds.
- Socket and webhook deliveries are not modelled: both channels only log, because their delivery loops are commented out in the source. A share recipient therefore gets nothing from the socket channel.
- `Seqs.SortedKeys`: `Object.values` enumerates integer-like keys in ascending order. Autoincrement user ids are positive, so only that case is modelled. Negative ids, which JavaScript would enumerate in insertion order, are not distinguished.
- `NoteRepository.GetNotesPage` requires `page >= 1` and `pageSize >= 1`, the bounds the request validation enforces before the call. The upper bound of 100 on `pageSize` plays no part in the arithmetic and is not required.
- `DailyNotificationService.FormatStatsLines` and `DailyNotificationService.DigestHasNoCallToAction` require that usernames and type names contain no line feed. With a line feed in a name, the line structure of the message is not what the source intends.
