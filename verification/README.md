# A verified model of OpenMail

OpenMail is a control plane for a mail server, written in Go. This project models the parts of it that keep state or
read and write text formats, and proves what they guarantee over all inputs, all steps and whole runs. All paths
below are relative to the root of the repository.

Objects whose methods change their fields are classes here (`DirectorySync.Service`, `RateLimiters.RequestLimiter`,
`Tokens.Manager`, `Maildir.Mailbox`, `Blobs.BlobStore`, `MailboxLifecycle.MailboxService`, `Queue.QueueSummary` and
others), and loops are loops. Each such method is proved to compute a function of its arguments and the old state; the
theorems are about those functions and about every run of them. Small conversions and formatting functions are functions.

What the outside world decides is a parameter: the clock, random tokens, the order in which directories are read,
hashes and key derivation, and whether a disk or database write goes through. Several theorems say exactly which of
these writes matter.

| file | models |
|---|---|
| `Sync.dfy`, `SyncTheorems.dfy` | directory synchronisation: order independence, convergence, accounting, frame |
| `MaildirNames.dfy`, `Maildir.dfy`, `MaildirTheorems.dfy`, `MaildirFolders.dfy`, `MaildirListing.dfy`, `MaildirSteps.dfy` | webmail on a Maildir: identity across renames, conservation, folder names, counts and pages, where messages land |
| `Windows.dfy`, `RateLimiters.dfy` | the two sliding-window limiters against a reference that decides from the log alone |
| `Tokens.dfy`, `TokenTheorems.dfy`, `TokenSteps.dfy` | tokens: single use, revocation for good, family revocation, lineage, exact answers |
| `Provisioning.dfy`, `MailboxLifecycle.dfy`, `LifecycleSteps.dfy` | mailbox rows and directories kept in step while provisioning fails |
| `Blobs.dfy`, `Messages.dfy`, `MessageTheorems.dfy` | content-addressed storage, messages and garbage collection |
| `Queue.dfy`, `QueueTheorems.dfy` | the parser of `postqueue -p` and its round trip |
| `Headers.dfy` | stamping and stripping of authentication headers |
| `LdapFilter.dfy` | LDAP escaping and filter templates |
| `Decimal.dfy`, `Base64.dfy`, `Passwords.dfy` | the Argon2id password string |
| `IpNetworks.dfy`, `Spf.dfy` | SPF evaluation, CIDR masks as division |
| `Wrappers.dfy`, `Folds.dfy`, `Text.dfy` | options, counting over sequences, the string operations used |

## What the proofs turned up

Where the code does not have a property without a condition, the condition is stated as an if-and-only-if.

- Deleting a message removes its blob without looking for other messages with the same bytes, and so does the clean-up
  after a refused insert: a step keeps all messages intact exactly when `Safe` holds (`StepKeepsIntact`, with the
  counterexample `SharedBytesAreLost`).
- A mailbox created by a sync for a disabled identity starts out active and is suspended by the next sync only:
  `ConvergesAfterOneRun` says that this is the one case in which a single run is not enough.
- `RefreshTokens` discards the error of the revocation. The same token can be exchanged again exactly when that write
  failed (`ExchangeRevokes`, `SecondExchange`), and exactly the runs with such a failure come to have two live refresh
  tokens in one chain (`LineageIsExact`).
- A mailbox marked ready is present on disk in every state, except after a deletion in which both the mark and the
  removal of the row fail (`StepKeepsPresence`). No status write of `Create` or `Provision` is needed.
- Two kinds of moves lose messages from the folders. The message ids `..`, `.` and `/` find directories: moving `..`
  moves the whole folder into the other folder's `cur`, out of reach (`FolderIsCarriedAway`). And a target such as
  "/x", with a slash in it, resolves to the directory `x`, which is no folder (`SlashFolder`); a message moved there is
  in no folder any more (`SlashFolderTakesMessage`). `FolderIsProperExactly` says which names resolve to such
  directories. From a folder these are all (`MoveFromFolder`); a move from a directory that is no folder may also
  overwrite a message, and `MoveKeepsAllExactly` has the condition for every move. The theorems about runs are about
  orderly moves: between folders, and of an entry or refused.
- Looking messages up by the prefix of their names works for a message exactly as long as no other entry's name starts
  with its key (`IdentityIsExact`).
- Ids are unescaped twice: a file name that was escaped once is found as long as it has no `%` and no `+` in it, or the
  second unescaping fails (`EscapedOnce`).
- A message in `new` is marked read only if the folder has a `cur`; the failed rename goes unnoticed (`MarkingLands`).
- In a group filter a {username} within the DN is replaced, too (`DnIsInserted`).
- Marking a message unread works exactly when the name before `:2,` contains no `S` (`MarkingSetsRead`).
- `DeleteMessage` and `getFolderDir` tell the trash folder by different tests. A name with white space around it or
  a slash in it, such as "/.Trash", is not recognised when deleting, though it resolves to the trash, and deleting under
  it never removes anything (`TrashIsRecognised`, `SlashTrash`); a name with a long s for its s is
  recognised, and messages are then deleted for good in another directory (`PermanentDeletionIsInTrash`,
  `LongSIsElsewhere`).
- The start of a page is computed in 64 bits: for large page numbers a wrong page is shown, or slicing panics
  (`CutIsPage`, `FirstPageAgain`).
- One queued message whose delay reason contains "Mail queue is empty" makes the whole listing read as empty
  (`ListingRoundTrip`). Of several recipients only the last is kept (`LastRecipientIsKept`), and since the dates carry
  no year, all dated messages show the same age (`DatedMessagesLookAlike`, `YearZeroShowsLongestAge`).
- Stripping undoes stamping exactly when the message does not begin with a folded line, or begins with one that itself
  starts a trusted header (`StampedHeadersAreStripped`).
- `CalculatePath`'s last check, against leaving the root, can never fail (`RootCheckIsRedundant`).
- The comment on `EvaluateSPF` names RFC 7208; section 4.5 there asks for a space or the end of the record after
  `v=spf1`. The code only asks for the prefix (`AnyVersionPasses`, `VersionSectionIsATerm`), and `mx` and `a` never
  match (`OnlyLocalMechanismsMatch`).

## Model

| member | source | states |
|---|---|---|
| DirectorySync.Service.Sync | internal/identity/service.go:162-288 | A run leaves the table `Synced` and returns the report `ReportOn`, both defined address by address from the table before the run; without a listing nothing changes |
| DirectorySync.Service.CountEmails | internal/identity/service.go:192-199 | The pre-scan counts, for every address, the valid entries that claim it |
| DirectorySync.Service.Check | internal/identity/service.go:202-244 | The checks before any mailbox is looked at, in order, with their error messages; `VerdictIsExact` and `OthersArePassedOver` say when each of them refuses |
| DirectorySync.Service.Reconcile | internal/identity/service.go:246-283 | Creation, takeover protection, suspension or update, with the new row and the counter |
| DirectorySync.Service.Handle | internal/identity/service.go:201-284 | One turn of the loop changes at most the row of its own address and bumps the report by its verdict |
| DirectorySync.ValidEmailSplit | internal/identity/service.go:223-224 | A valid address has exactly one `@`, so indexing the domain part is safe and the domain is all that follows |
| DirectorySync.SyncedAt | internal/identity/service.go:201-284 | The new row of an address is its old one unless exactly one valid entry claims it, and then what that entry's verdict makes of it |
| DirectorySync.TracksStep | internal/identity/service.go:192-284 | Because duplicates are counted beforehand, judging an entry against the table as it stands in mid-run is judging it against the table before the run |
| DirectorySyncTheorems.VerdictIsExact | internal/identity/service.go:220-283 | An entry that alone claims its address is taken on if and only if the domain behind the `@` is the one asked for, if any, and, given a table of domains, is in it and active; created, failed, taken over, suspended, updated and each refusal have their exact conditions |
| DirectorySyncTheorems.OthersArePassedOver | internal/identity/service.go:202-220 | Entries without an address are skipped silently, those with an invalid one and those that share one with another entry with the complaint that names it |
| DirectorySyncTheorems.ErrorsReported | internal/identity/service.go:209-269 | An error is in the report if and only if some entry gave rise to it |
| DirectorySyncTheorems.PassedRow | internal/identity/service.go:246-283 | The exact row a run leaves at the address of an entry that passes: suspended, created with its provider and status, or as it was |
| DirectorySyncTheorems.OtherRowsStay | internal/identity/service.go:201-284 | At every other address the run changes nothing |
| DirectorySyncTheorems.ValidEmailOf | internal/identity/service.go:15-15 | A local part, an at-sign, a domain, a dot and a top-level domain of the right characters make a valid address |
| DirectorySyncTheorems.ValidEmailParts | internal/identity/service.go:15-15 | Every valid address is made that way |
| DirectorySyncTheorems.OrderIndependence | internal/identity/service.go:192-284 | Any permutation of the listing gives the same table, the same counters and the same errors up to order |
| DirectorySyncTheorems.ConvergesAfterOneRun | internal/identity/service.go:246-283 | One run reaches a fixpoint if and only if it created no mailbox for a disabled identity that it could mark and suspend |
| DirectorySyncTheorems.ConvergesAfterTwoRuns | internal/identity/service.go:246-283 | Two runs always reach a fixpoint, in every configuration |
| DirectorySyncTheorems.SyncAchieves | internal/identity/service.go:246-283 | After two runs in which everything goes through, every address claimed by exactly one entry, in a domain that is the one asked for, registered and active, has a mailbox, new ones are LDAP-managed and active exactly for identities that are not disabled, and no LDAP-managed mailbox of a disabled identity is active |
| DirectorySyncTheorems.SyncAccounting | internal/identity/service.go:187-284 | Created + updated + suspended + skipped + failed creations add up to the entries listed |
| DirectorySyncTheorems.SyncFrame | internal/identity/service.go:215-283 | Local rows, rows not claimed by exactly one valid entry, and all rows in a dry run stay as they are; no row is removed; an existing row changes only to suspended |
| DirectorySyncTheorems.SyncStaysInDomains | internal/identity/service.go:208-244 | No row is created or changed for an invalid address, outside the domain asked for, or in a domain that is not registered or not active |
| DirectorySyncTheorems.SyncDryRun | internal/identity/service.go:250-279 | A dry run changes nothing, reports the suspensions and updates of the real run, and counts as skipped what that would create or fail to create |
| Maildir.Mailbox.FindMessageFile | internal/webmail/service.go:412-452 | Whatever order directories are read in and whatever the id: in `cur` before `new`, what the joined path names if it exists (the folder itself for `..`, the subdirectory for `.` and `/`), else any entry answering by base key; nothing only if there is none |
| Maildir.RenamedAt | internal/webmail/service.go:485-515 | After a rename that goes through, every place holds what was at its origin: the target and all below it what was at and below the source, the source nothing, and all other places what they held |
| Maildir.Mailbox.MarkMessageRead | internal/webmail/service.go:454-489 | One `Mark` step of the file state machine with its answer, for every id; the error of the rename is discarded |
| Maildir.Mailbox.MoveMessage | internal/webmail/service.go:491-516 | One `Move` step between the resolved folders with its answer, for every id, the target being made first |
| Maildir.Mailbox.DeleteMessage | internal/webmail/service.go:518-538 | A removal when the folder is recognised as the trash by its name, and a move to the trash otherwise, each with its answer |
| Maildir.DoneIsNext | internal/webmail/service.go:454-538 | Every such call is a step, and answers not found exactly when there is nothing to be found |
| MaildirSteps.MarkingLands | internal/webmail/service.go:464-489 | A marking puts the message it finds, with its contents, into the `cur` of the folder under its name with the new flags, wherever it was, and changes nothing else; it shows as read there if and only if it was marked read or its name before the flags contains an `S`. Nothing changes exactly if it is there already, there is no `cur`, a directory has that name or the system refuses |
| MaildirSteps.MoveLands | internal/webmail/service.go:501-515 | A move puts the message it finds, with its contents, into the `cur` of the target under the same name and changes nothing else but for the directories made; it answers success if and only if it did (or the message was there already), that is, unless a file or a directory is in the way or the system refuses |
| MaildirSteps.RemovalLands | internal/webmail/service.go:530-534 | A permanent deletion removes the message it finds and nothing else, and says so, unless the system refuses |
| MaildirSteps.DirectoryIds | internal/webmail/service.go:418-436 | The ids `.` and `/` find the folder's `cur`, and `..` the folder |
| MaildirSteps.StepStaysSound | internal/webmail/service.go:454-538 | After every step, with whatever id, everything still lies in a directory that is there, but for the removal of an empty Maildir itself |
| Maildir.TrashResolves | internal/webmail/service.go:76-82 | The folder id that deletion moves to always names the trash directory |
| MaildirNames.FlaggingKeepsKey | internal/webmail/service.go:470-483 | Rewriting the flags keeps the base key and the name before the flags, for every name |
| MaildirNames.PlainIdIsName | internal/webmail/service.go:413-420 | An id that is a file name without `%` and `+` survives both unescapings and is the name itself |
| MaildirNames.KeyMeans | internal/webmail/service.go:419-430 | The key of a name is what is before its first colon or its first `,U=` |
| MaildirNames.EscapedTwice | internal/webmail/service.go:413-418 | A file name escaped twice comes back from the two unescapings, whatever bytes it is made of |
| MaildirNames.EscapedOnce | internal/webmail/service.go:413-418 | Escaped once, it comes back if and only if the second unescaping refuses it, or it has no `%` and no `+` |
| MaildirTheorems.FoundWhere | internal/webmail/service.go:412-452 | A lookup finds an entry of the folder; for the ids `.`, `..` and `/` it may also find the folder, its `cur`, or its `new` if there is no `cur` |
| MaildirTheorems.MoveTakesAtMostOne | internal/webmail/service.go:506-515 | A move takes at most one message from its place if and only if the rename is refused or the path found has at most one message at or below it, which holds for every id that names an entry |
| MaildirTheorems.MoveKeepsAllExactly | internal/webmail/service.go:506-515 | With distinct keys, any move, whatever its source and target resolve to, keeps every message in some folder with contents and key if and only if the rename is refused, or it takes at most the message found, into a folder, and overwrites no other message |
| MaildirTheorems.MoveFromFolder | internal/webmail/service.go:491-516 | From a folder: if and only if the id names an entry and the target is a folder, or the rename is refused, or no message is at or below what the id finds |
| MaildirFolders.SlashFolderTakesMessage | internal/webmail/service.go:491-516 | A message that goes from a folder to a directory that is no folder is there with its contents, and in no folder any more |
| MaildirTheorems.FolderIsCarriedAway | internal/webmail/service.go:418-436 | The id `..` finds the folder itself; moving it leaves nothing of the folder in its place, and everything ends up in a directory inside the target's `cur`, in no folder |
| MaildirTheorems.StepKeepsMessage | internal/webmail/service.go:454-516 | An orderly step (a move is between folders, and its id names an entry or the rename is refused) carries a message along with contents and key, as long as no other entry's name starts with that key, and this stays so |
| MaildirTheorems.RunKeepsMessage | internal/webmail/service.go:454-516 | The same over every orderly run of markings and moves |
| MaildirTheorems.StableIdentity | internal/webmail/service.go:412-516 | As long as no other entry's name starts with a message's key, every id that unescapes to an entry name with its key (the name it was first listed under, if plain, by `PlainNameIsId`) finds, after any orderly run of markings and moves, that same message in its current folder, and nothing in any other folder |
| MaildirTheorems.ShadowBreaksIdentity | internal/webmail/service.go:443-447 | When another entry's name starts with the key of a message, at most one orderly move leads to a state in which any given id with that key finds two different entries |
| MaildirTheorems.IdentityIsExact | internal/webmail/service.go:412-516 | So an id stays unambiguous over all orderly runs if and only if no other entry's name starts with the key of the message it names |
| MaildirTheorems.RenameConservesExactly | internal/webmail/service.go:485-515 | Renaming an entry preserves the multiset of messages if and only if it overwrites none |
| MaildirTheorems.StepConserves | internal/webmail/service.go:454-538 | With distinct keys an orderly step preserves the multiset of messages, but for a removal, which takes exactly the message found; keys stay distinct |
| MaildirTheorems.RunConserves | internal/webmail/service.go:454-538 | Over every orderly run nothing appears that was not there, and without removals nothing is lost |
| MaildirFolders.MarkingSetsRead | internal/webmail/service.go:470-484 | A marked message shows as read if and only if it was marked read or its name before the flags contains an `S` |
| MaildirFolders.PermanentDeletionIsInTrash | internal/webmail/service.go:525-534 | A folder name recognised as the trash resolves to the trash directory if and only if it is in ASCII, or the first directory that agrees with it up to case is the trash directory |
| MaildirFolders.LongSIsElsewhere | internal/webmail/service.go:525-534 | A name with a long s in it is recognised as the trash, but resolves to a directory of its own when there is none yet; `LongSIsTrash` gives such a name |
| MaildirFolders.TrashIsRecognised | internal/webmail/service.go:525-525 | A folder name that resolves to the trash directory is recognised when deleting if and only if it has no white space around it and no slash in it |
| MaildirFolders.SlashTrash | internal/webmail/service.go:91-110 | "/.Trash" resolves to the trash directory and is not recognised |
| MaildirFolders.FolderStaysInside | internal/webmail/service.go:69-111 | Whatever folder is named, the directory is the Maildir or directly inside it |
| MaildirFolders.StandardFolders | internal/webmail/service.go:69-88 | The inbox and the five standard folders resolve to their directories under each of their ids, in whatever case and with white space around them |
| MaildirFolders.FolderIsProper | internal/webmail/service.go:69-111 | Without a slash in its name, a folder is the inbox or a directory whose name starts with a dot, as orderly moves need |
| MaildirFolders.FolderIsProperExactly | internal/webmail/service.go:69-111 | A name resolves to a directory that is no folder if and only if it has a slash in it and what is cleaned of it is accepted and has no dot in front |
| MaildirFolders.SlashFolder | internal/webmail/service.go:91-110 | Behind a slash, every plain name stands for the directory of that name |
| MaildirListing.CountMaildir | internal/webmail/service.go:163-183 | The totals are the numbers of visible and of unread files, in any reading order |
| MaildirListing.ListAll | internal/webmail/service.go:213-264 | Every visible, readable message that passes the filter is listed exactly once, newest first |
| MaildirListing.ListShows | internal/webmail/service.go:213-264 | A summary is in the list if and only if a file of `cur` or `new` is shown so: not hidden, readable, passing the filter, with its name and time, and read exactly in `cur` with flags and an `S` in its name |
| MaildirListing.CutPage | internal/webmail/service.go:206-276 | What is shown, or that slicing panics, from the start offset as 64 bits keep it |
| MaildirListing.CutIsPage | internal/webmail/service.go:267-276 | The page shown is the one asked for if and only if its start does not wrap around, or wraps around to no place before the end of the list; slicing panics if and only if it wraps around to a negative number |
| MaildirListing.FirstPageAgain | internal/webmail/service.go:267-267 | Page 2^62 + 1 with 100 messages a page shows the first page once more |
| MaildirListing.ListMessages | internal/webmail/service.go:193-277 | The page is cut from a list of every shown message exactly once, newest first, and the total is its length |
| MaildirListing.ListCounts | internal/webmail/service.go:163-264 | A list has as many entries, and as many unread ones, as the messages it lists |
| MaildirListing.IndexAgreesWithList | internal/webmail/service.go:163-264 | When all visible files can be read, the folder counts are the length and the unread number of the unfiltered list |
| MaildirListing.PagesConcatenate | internal/webmail/service.go:266-276 | Pages 1 to n are the first n times limit messages, without gap or repetition |
| MaildirListing.PagesAreFull | internal/webmail/service.go:206-212 | A limit from 1 to 100 is kept and any other is 25, a page below 1 is the first, and every page but the last has that many messages |
| MaildirListing.PagesCoverTheList | internal/webmail/service.go:266-276 | Enough pages are the whole list |
| MaildirListing.ListingIsUnique | internal/webmail/service.go:240-242 | With distinct modification times every call sees the same list |
| MaildirListing.SeparateCallsConcatenate | internal/webmail/service.go:266-276 | Then separate calls for the pages 1 to n of an unchanged folder show its first n times limit messages, without gap or repetition |
| RateLimiters.KeepRecent | internal/api/middleware/rate_limit.go:57-62 | Pruning keeps, in order, exactly the timestamps that still count |
| RateLimiters.RequestLimiter.constructor | internal/api/middleware/rate_limit.go:19-24 | A closed window and an empty table |
| RateLimiters.RequestLimiter.Serve | internal/api/middleware/rate_limit.go:49-75 | A request is let through exactly when fewer than `limit` stored timestamps count; the table changes only then |
| RateLimiters.RequestLimiter.Evict | internal/api/middleware/rate_limit.go:29-46 | A tick drops stale timestamps and emptied keys, in any order of the keys |
| RateLimiters.MemoryRateLimiter.constructor | internal/inbound/rate_limit.go:24-45 | Half-open windows, with the defaults for zero values |
| RateLimiters.MemoryRateLimiter.AllowConnection | internal/inbound/rate_limit.go:47-70 | As `Serve`, with the pruned list written back on refusal; the other table is untouched |
| RateLimiters.MemoryRateLimiter.AllowMessage | internal/inbound/rate_limit.go:72-94 | The same for messages |
| Windows.RunAgrees | internal/api/middleware/rate_limit.go:27-71 | In every run in time order, the table says about every key what the whole log of admissions says |
| Windows.LimiterIsExact | internal/api/middleware/rate_limit.go:27-71 | Over every interleaving of requests and evictions, a request is refused exactly when at least `limit` positions of the log before it are admissions of its key within the trailing window, counted in the log itself, and no interval of the window's length holds more |
| Windows.WindowBound | internal/inbound/rate_limit.go:47-94 | Any log decided that way obeys the bound, for closed and half-open windows |
| Windows.ExactIsUnique | internal/api/middleware/rate_limit.go:53-71 | Who asked when determines all decisions |
| Windows.EvictionChangesNothing | internal/api/middleware/rate_limit.go:26-47 | Runs with the same requests get the same answers, whenever the evictor runs and whether or not refusals write back |
| Tokens.Repository.Store | internal/api/token/repository.go:41-69 | A row is added under its hash unless that is taken or the insert fails |
| Tokens.Repository.RevokeByHash | internal/api/token/repository.go:96-100 | Sets the revocation time of the row with this hash, and touches no other |
| Tokens.Repository.RevokeAllForEmail | internal/api/token/repository.go:102-106 | Revokes the unrevoked rows of the account, and touches no other |
| Tokens.Repository.UpdateLastUsed | internal/api/token/repository.go:108-112 | Sets the last use of one row only |
| Tokens.Manager.IssueTokenPair | internal/api/token/manager.go:71-122 | Stores an access and a refresh token for the account, with every failure on the way |
| Tokens.Manager.ValidateAccessToken | internal/api/token/manager.go:124-155 | The `Validate` step: its refusals in order, else the claims stored with the token |
| Tokens.Manager.RefreshTokens | internal/api/token/manager.go:157-188 | The `Rotate` step: refusals in order, family revocation on replay, else revocation and a new pair |
| Tokens.Manager.RevokeToken | internal/api/token/manager.go:190-195 | The `Revoke` step; `TokenSteps.RevocationIsExact` says what it leaves |
| Tokens.Manager.RevokeAllForEmail | internal/api/token/manager.go:197-199 | The `RevokeAll` step; `TokenSteps.AccountRevocationIsExact` says what it leaves |
| TokenSteps.RevocationIsExact | internal/api/token/manager.go:190-195 | Revoking a token revokes its row, if there is one, and touches no other; an empty token is ignored, and a failed write is answered as such and changes nothing |
| TokenSteps.AccountRevocationIsExact | internal/api/token/manager.go:197-199 | Revoking an account revokes exactly its rows that are not revoked yet |
| TokenSteps.RevokedForGood | internal/api/token/manager.go:190-195 | Once its revocation is answered with success, a stored token never validates and is never exchanged again, in every run |
| TokenSteps.AccountRevokedForGood | internal/api/token/manager.go:197-199 | The same for every token stored for an account when its revocation was answered with success |
| TokenSteps.ValidationIsExact | internal/api/token/manager.go:124-155 | A token validates if and only if it is a stored access token, neither revoked nor expired; its claims are those of its row, its use is recorded, and nothing else changes |
| TokenSteps.ExchangeIsExact | internal/api/token/manager.go:157-188 | A token is exchanged if and only if it is a stored refresh token, neither revoked nor expired, and both new tokens can be stored |
| TokenSteps.LoginIsExact | internal/api/token/manager.go:71-122 | A login issues a pair if and only if both tokens can be stored |
| TokenSteps.ExchangeFrame | internal/api/token/manager.go:71-122 | Both add just the rows of the new pair, which expire after 15 minutes and 30 days, and touch no stored row but that of the exchanged token |
| TokenSteps.ReplayIsExact | internal/api/token/manager.go:172-176 | The answer that a token is revoked is given to revoked refresh tokens exactly, and takes exactly the account's unrevoked tokens along if that write goes through |
| TokenSteps.RefusalsAreExact | internal/api/token/manager.go:124-181 | Each other refusal has its exact condition and changes nothing |
| TokenTheorems.StepGrows | internal/api/token/manager.go:71-199 | No operation loses a row, changes whose it is, or makes a revoked one live again |
| TokenTheorems.RunGrows | internal/api/token/manager.go:71-199 | Nor does any run |
| TokenTheorems.ExchangeRevokes | internal/api/token/manager.go:183-187 | A successful exchange was of a live refresh token, and leaves it revoked exactly when the write went through |
| TokenTheorems.SingleUse | internal/api/token/manager.go:157-188 | In every run a refresh token once exchanged, its revocation written, is answered as revoked ever after |
| TokenTheorems.SecondExchange | internal/api/token/manager.go:172-187 | After any successful exchange the same token is exchanged once more, fresh new tokens and time before its expiry given, if and only if the discarded revocation was not written |
| TokenTheorems.FreshPairWorks | internal/api/token/manager.go:71-188 | Until they expire, a new access token validates with the claims it was issued for, and a new refresh token is exchanged exactly when fresh tokens can be stored; neither is accepted for the other |
| TokenTheorems.ReplayRevokesFamily | internal/api/token/manager.go:172-176 | After a replay whose revocation of the account goes through, every token stored so far for that account is revoked in all later states, and none validates or can be exchanged |
| TokenTheorems.StepKeepsOneLive | internal/api/token/manager.go:183-187 | From a history in which every chain has at most one live refresh token, a step keeps this if and only if it is no successful exchange whose revocation was not written |
| TokenTheorems.Lineage | internal/api/token/manager.go:71-188 | In every run each token carries the account and role of the login that started its chain, whatever writes go through |
| TokenTheorems.LineageIsExact | internal/api/token/manager.go:157-188 | No chain has two live refresh tokens in any state of a run if and only if every successful exchange in the run has its revocation written |
| TokenTheorems.ClaimsComeFromALogin | internal/api/token/manager.go:149-154 | The claims of a valid access token are those of a login earlier in the run |
| Provisioning.FilesystemProvisioner.Provision | internal/provisioning/filesystem.go:75-104 | Exactly which directories exist afterwards, whichever call fails at whichever depth |
| Provisioning.FilesystemProvisioner.Deprovision | internal/provisioning/filesystem.go:106-118 | The user's directory and all below it goes, except what cannot be removed; success exactly when nothing is left |
| Provisioning.PathStaysUnderRoot | internal/provisioning/filesystem.go:44-73 | The path is the root followed by exactly three plain elements |
| Provisioning.PathIsExact | internal/provisioning/filesystem.go:44-73 | An address of two parts has a path, and this one, if and only if they are a local part without `..` and a domain name; the two refusals have their exact conditions |
| Provisioning.NoPathWithoutParts | internal/provisioning/filesystem.go:44-50 | Any other address is refused as invalid |
| Provisioning.DomainNameMeans | internal/provisioning/filesystem.go:15-15 | A domain name is two labels or more with dots between them, each of 1 to 63 small letters, digits and hyphens with no hyphen at either end |
| Provisioning.RootCheckIsRedundant | internal/provisioning/filesystem.go:54-70 | What passes the earlier checks never fails the check against leaving the root |
| Provisioning.UserDirsAreApart | internal/provisioning/filesystem.go:44-73 | Paths agree exactly for the same address, and distinct addresses live in directories neither of which contains the other |
| Provisioning.PathTextIsInjective | internal/provisioning/filesystem.go:64-64 | Written with slashes, paths of plain elements determine their elements |
| Provisioning.ProvisionCompletes | internal/provisioning/filesystem.go:75-104 | Nothing is removed, and a success leaves the Maildir complete |
| Provisioning.ProvisionLeaves | internal/provisioning/filesystem.go:81-104 | After any failure there is exactly what was there, the directories made so far with all above them, and the part of the way to the one that failed |
| Provisioning.RetryCompletes | internal/provisioning/filesystem.go:81-104 | Provisioning again without a failure leaves what it would have left at once |
| Provisioning.OthersSurvive | internal/provisioning/filesystem.go:112-115 | Removing one user's directory leaves every other complete Maildir complete |
| MailboxLifecycle.MailboxService.CreateMailbox | internal/mailbox/service.go:66-156 | Refusals in order, then row, provisioning and status; `CreationIsExact` has the condition of each |
| MailboxLifecycle.MailboxService.ProvisionMailbox | internal/mailbox/service.go:158-190 | The `Provision` step |
| MailboxLifecycle.MailboxService.DeleteMailbox | internal/mailbox/service.go:257-284 | The `Delete` step, which goes on whatever fails before the row |
| MailboxLifecycle.MailboxService.ChangeStatus | internal/mailbox/service.go:311-317 | Suspending and resuming change the status only |
| LifecycleSteps.CreationIsExact | internal/mailbox/service.go:66-156 | With a valid address, a creation succeeds if and only if the password has at least 8 characters, the domain behind the `@` is registered, there is no such mailbox, the insert goes through and, given a provisioner, provisioning does; each refusal has its exact condition |
| LifecycleSteps.NoAddressNoMailbox | internal/mailbox/service.go:324-337 | Without one (two non-empty parts, at most 254 characters, parsing as an address) the answer is an invalid address, and nothing changes |
| LifecycleSteps.CreationLeaves | internal/mailbox/service.go:108-156 | A creation that gets as far as the insert leaves an active mailbox with the provisioning status last written and the directories made; any other changes nothing |
| LifecycleSteps.ProvisioningIsExact | internal/mailbox/service.go:158-190 | Provisioning succeeds if and only if the mailbox is ready already or it goes through; each refusal has its exact condition |
| LifecycleSteps.ProvisioningLeaves | internal/mailbox/service.go:158-190 | It changes the provisioning status of that mailbox and makes its directories, and nothing else |
| LifecycleSteps.DeletionIsExact | internal/mailbox/service.go:257-284 | A deletion succeeds if and only if there is such a mailbox and its row can be removed, whatever becomes of the files |
| LifecycleSteps.DeletionLeaves | internal/mailbox/service.go:257-284 | It removes the row or leaves it with the marks that were written, removes just what is in the user's directory and can be removed, and no other row |
| LifecycleSteps.StatusChangeIsExact | internal/mailbox/service.go:311-317 | Suspending and resuming change the status of that mailbox only, if there is one and the write goes through |
| Text.CanonicalIsCanonical | internal/mailbox/service.go:67-67 | Lower-casing and trimming an address twice is doing it once |
| Text.CanonicalOf | internal/identity/model.go:51-53 | White space around an address does not matter, and what is looked up is its text in lower case |
| MailboxLifecycle.StepKeepsPresence | internal/mailbox/service.go:129-284 | A step keeps "ready means present" if and only if it is not an unsafe deletion |
| MailboxLifecycle.PresentAfterDeletion | internal/mailbox/service.go:269-283 | A deletion keeps it if and only if the mailbox was not ready, or its mark or the removal of its row goes through, or its four directories are among those that cannot be removed |
| MailboxLifecycle.ReadyIsAlwaysPresent | internal/mailbox/service.go:129-284 | In every run each mailbox marked ready has its Maildir with `cur`, `new` and `tmp`, if every deletion's mark or row removal goes through |
| MailboxLifecycle.SuccessIsReady | internal/mailbox/service.go:134-190 | A successful creation or provisioning, with its last status write, leaves the mailbox ready and present |
| MailboxLifecycle.DeleteUndoesCreate | internal/mailbox/service.go:66-284 | Deleting a mailbox just created restores all rows, leaves nothing of its directories and removes nobody else's |
| Blobs.BlobStore.constructor | internal/storage/filesystem.go:26-45 | Opens a directory with whatever files there are; the blobs are the files named like one |
| Blobs.ShardsOfBlobs | internal/storage/filesystem.go:84-88 | Blobs share a directory exactly when their ids begin with the same two characters; that is never the one for temporary files |
| Blobs.BlobStore.Put | internal/storage/filesystem.go:48-109 | The bytes are stored under their hash, all other blobs stay; empty payloads and disk errors change nothing |
| Blobs.BlobStore.Get | internal/storage/filesystem.go:112-127 | The bytes of the blob, or why there are none |
| Blobs.BlobStore.Delete | internal/storage/filesystem.go:130-145 | Removes that blob only, and says why it could not |
| Blobs.BlobStore.ListIds | internal/storage/filesystem.go:166-193 | Lists every blob exactly once, going through the shards in any order, and passes over all other files |
| Blobs.KeepIds | internal/storage/filesystem.go:185-189 | Of the names in a directory exactly those that are blob ids are listed, each once |
| Blobs.GarbageCollect | internal/storage/gc.go:20-48 | The statistics are the sizes of the sets meant, and what is left is exactly the referenced blobs and those that could not be deleted |
| Blobs.CollectAll | internal/storage/gc.go:36-45 | The loop over the listing, id by id |
| Blobs.SweptBySet | internal/storage/gc.go:36-45 | Going through a listing without repetitions, in any order, leaves a result and a count that depend on the listed set only |
| Messages.MessageService.StoreMessage | internal/message/service.go:40-99 | The `Store` step, with the clean-up when the row is refused; it succeeds exactly when the mailbox exists, the payload is not empty and both writes go through, and then adds exactly this row |
| Messages.MessageService.GetContent | internal/message/service.go:105-117 | The bytes of the blob the message refers to |
| Messages.MessageService.DeleteMessage | internal/message/service.go:132-145 | The `Delete` step: the row, then the blob, whose failure is ignored |
| Messages.MessageService.CollectGarbage | internal/storage/gc.go:20-48 | Collection with the references taken from the message table is the `Collect` step |
| MessageTheorems.StepKeepsIntact | internal/message/service.go:68-145 | A step keeps every message's blob present with its bytes if and only if it is safe |
| MessageTheorems.ReferencesStayIntact | internal/message/service.go:68-145 | In every run with a collision-free hash and no two live messages holding the same bytes, every message's blob is present with exactly its bytes |
| MessageTheorems.SharedBytesAreLost | internal/message/service.go:142-143 | Of two messages with the same bytes, deleting one leaves the other without a blob |
| MessageTheorems.CollectionIsExact | internal/storage/gc.go:31-47 | After a completed collection exactly the listed and referenced blobs are left, total = orphans + survivors, and a second collection does nothing |
| MessageTheorems.DryCollection | internal/storage/gc.go:31-47 | A dry run changes nothing and counts the orphans that a real one deletes |
| MessageTheorems.StuckBlobsStay | internal/storage/gc.go:36-45 | Blobs that cannot be deleted stay and are not counted as deleted |
| MessageTheorems.RefusedStoreLeavesNothing | internal/message/service.go:68-99 | A store whose row is refused, cleaned up, leaves everything as it was if and only if there was no such blob before |
| MessageTheorems.DeletionUndoesStoring | internal/message/service.go:40-145 | Deleting a message just stored leaves everything as it was under the same condition |
| Queue.StartMessage | internal/queue/parser.go:51-83 | Id without marker, status, size, arrival and sender of an entry's first line |
| Queue.ParseLines | internal/queue/parser.go:28-98 | The line loop computes the messages of the lines |
| Queue.FindMessages | internal/queue/parser.go:14-98 | The empty listing, JSON when it yields something, else the text |
| Queue.ParseQueueOutput | internal/queue/parser.go:12-102 | The messages with their ages, and the summary of exactly these messages |
| Queue.QueueSummary.Populate | internal/queue/parser.go:164-193 | Every age is written in place, each counter counts its status, and the oldest is the first message with minimal arrival |
| Queue.TalliedCounts | internal/queue/parser.go:172-185 | Each of the six counters counts the messages with its own status |
| Queue.CountersSumToTotal | internal/queue/parser.go:165-185 | The six counters sum to the total if and only if no message has another status |
| Queue.TextStatuses | internal/queue/parser.go:52-59 | The text parser never yields another status |
| Text.FieldsAppend | internal/queue/parser.go:45-45 | White space separates fields wherever it stands |
| QueueTheorems.EntryParses | internal/queue/parser.go:44-94 | The lines of one entry parse to that entry, whatever came before and comes after |
| QueueTheorems.PhraseInListing | internal/queue/parser.go:15-17 | A listing contains the phrase for an empty queue if and only if some reason does |
| QueueTheorems.ListingRoundTrip | internal/queue/parser.go:12-102 | Parsing any printed listing gives back its entries in order, and an empty list exactly when some reason contains that phrase |
| QueueTheorems.SingleRecipientRecovered | internal/queue/parser.go:87-93 | With one recipient and at most one reason, id, size, sender, status, reason and recipient are all recovered, and the arrival is the date read, or now if there is none |
| QueueTheorems.LastRecipientIsKept | internal/queue/parser.go:90-92 | Of several recipients the last is kept |
| QueueTheorems.SaturatedAge | internal/queue/parser.go:195-208 | An age is shown as the longest one if and only if it is at least that long |
| QueueTheorems.AgeIsShown | internal/queue/parser.go:195-208 | An age is shown by its hours and minutes, below an hour by its minutes, below a minute by its seconds |
| QueueTheorems.FutureHasNoAge | internal/queue/parser.go:196-199 | A message from the future shows no age |
| QueueTheorems.DatedMessagesLookAlike | internal/queue/parser.go:64-74 | Exactly the listed messages whose date is that long ago show this one age |
| QueueTheorems.YearZeroShowsLongestAge | internal/queue/parser.go:64-74 | A date read as lying before year one, as dates without a year are, gives the longest age at any time after 1970 |
| QueueTheorems.SizeIsRead | internal/queue/parser.go:61-61 | A size with or without a sign is read as itself, or as the nearest number that 64 bits hold |
| QueueTheorems.MalformedSize | internal/queue/parser.go:61-61 | Text that is no number is read as zero, unless its digits overflow before that shows |
| QueueTheorems.JsonComesFirst | internal/queue/parser.go:19-28 | A listing that begins with a brace is what its JSON lines say if they say anything, and is read line by line if not |
| Headers.SanitizeUntrustedHeaders | internal/inbound/headers.go:85-108 | The loop with its skip flag computes `Stripped` |
| Headers.BelongsMeans | internal/inbound/headers.go:94-101 | A line is dropped if and only if a trusted header starts at or before it with only folded lines in between |
| Headers.KeepsExactly | internal/inbound/headers.go:90-105 | The kept lines are the message's lines at strictly increasing positions, which are just those of the lines that belong to no trusted header: order and repetitions included |
| Headers.StrippingIsIdempotent | internal/inbound/headers.go:85-108 | Stripping twice is stripping once, also when nothing is left |
| Headers.StrippingUndoesStamping | internal/inbound/headers.go:85-108 | For any stamp, stripping the stamped message is stripping the message, if and only if that does not begin with a folded line, other than one that itself starts a trusted header |
| Headers.AuthenticationResultsIsStamp | internal/inbound/headers.go:9-56 | The built header, newline-free values given, is a trusted line followed by folded ones |
| Headers.ReceivedSPFIsStamp | internal/inbound/headers.go:59-82 | The built header is one trusted line |
| Headers.StampedHeadersAreStripped | internal/inbound/headers.go:9-108 | Both headers together are stripped again, under the same exact condition on the first line of the message: not folded, or itself starting a trusted header |
| Headers.TrustedMeans | internal/inbound/headers.go:94-99 | A line is taken for a trusted header if and only if it begins, after white space and in whatever case, with one of the two names and a colon |
| Headers.FoldedHeaderGoes | internal/inbound/headers.go:85-108 | A trusted header goes as a whole when it goes on after a space or after a tab |
| Headers.ResultsSay | internal/inbound/headers.go:9-56 | Read line by line and word by word, the Authentication-Results header names the server and gives behind each key its own status or value |
| Headers.ReceivedSays | internal/inbound/headers.go:59-82 | The Received-SPF header gives the status first, and behind each key its own value |
| Headers.DomainsShown | internal/inbound/headers.go:20-26 | The domain shown for SPF is the one evaluated or else the sender's; for DMARC it is what follows the last `@` |
| LdapFilter.EscapeFilter | internal/identity/ldap/filter.go:12-32 | The byte loop computes `EscapedFilter` |
| LdapFilter.EscapeDN | internal/identity/ldap/filter.go:35-64 | The byte loop computes `EscapedDn` |
| LdapFilter.FilterRoundTrip | internal/identity/ldap/filter.go:12-32 | Decoding by section 3 of RFC 4515 accepts every escaped string and recovers it |
| LdapFilter.DnRoundTrip | internal/identity/ldap/filter.go:35-64 | Decoding by section 3 of RFC 4514 accepts every escaped string and recovers it |
| LdapFilter.UserFilterHasTemplateParens | internal/identity/ldap/filter.go:68-87 | The parentheses of the filter are the template's, so whether it is refused depends on the template alone |
| LdapFilter.GroupFilterHasTemplateParens | internal/identity/ldap/filter.go:90-102 | The same for group filters, where the second replacement also runs over the inserted name |
| LdapFilter.UserFilterIsFilled | internal/identity/ldap/filter.go:68-87 | In a user filter every {username} becomes the escaped name, and all else stays |
| LdapFilter.GroupFilterIsFilled | internal/identity/ldap/filter.go:90-102 | In a group filter every {username} becomes the escaped name, every {dn} the escaped DN in which each {username} has become the escaped name too, and all else stays |
| LdapFilter.DnIsInserted | internal/identity/ldap/filter.go:98-99 | That is the escaped DN itself, whatever the name, if and only if there is no {username} in it |
| Decimals.DecimalRoundTrip | internal/mailbox/service.go:350-351 | A printed natural number is digits only and reads back as itself |
| Base64.Base64RoundTrip | internal/mailbox/service.go:347-348 | Unpadded base64 of every byte string decodes to it and stays within the alphabet |
| Base64.GroupsAreNumbers | internal/mailbox/service.go:347-348 | Read as numbers, four sextets are three bytes, group by group, as in section 4 of RFC 4648 |
| Base64.AlphabetIsStandard | internal/mailbox/service.go:347-348 | The alphabet is capital letters, small letters, digits, plus and slash, each in its order |
| Passwords.PrintedRoundTrip | internal/mailbox/service.go:350-390 | Parsing the printed string recovers parameters, salt and hash exactly |
| Passwords.PrintedParts | internal/mailbox/service.go:350-351 | The printed string splits at its dollar signs into nothing, the algorithm, version 19, the parameters, salt and hash |
| Passwords.PrintedParams | internal/mailbox/service.go:350-351 | The parameters are memory, iterations and parallelism by their names, in this order |
| Passwords.OthersAreRefused | internal/mailbox/service.go:363-377 | Exactly the other algorithms are refused as such, and exactly the other versions |
| Passwords.VerifyAcceptsSameKey | internal/mailbox/service.go:339-399 | A password is accepted against another's stored form if and only if both derive the same key |
| IpNetworks.MaskIsDivision | internal/inbound/policy.go:36-39 | Agreeing under a mask of leading ones is having the same quotient by the power of two of the remaining bits, for addresses of any length |
| IpNetworks.NetworkIsQuotient | internal/inbound/policy.go:36-39 | A network of any length, unless it is itself mapped, contains exactly the addresses of its length (mapped ones counting as IPv4) with its quotient by the power of two of the host bits |
| IpNetworks.MappedNetwork | internal/inbound/policy.go:36-39 | A mapped network has a prefix of at least 96 bits and contains exactly what the IPv4 network of its last four octets contains |
| IpNetworks.ShorterPrefixContainsMore | internal/inbound/policy.go:36-39 | A shorter prefix of the same network contains every address a longer one does |
| Spf.EvaluateSPF | internal/inbound/policy.go:10-79 | The loop computes the verdict of the first matching term, with the results for no record and no version |
| Spf.VersionIsATerm | internal/inbound/policy.go:15-21 | A record that passes the version check has a first term, so skipping it is never out of range |
| Spf.VersionSectionIsATerm | internal/inbound/policy.go:16-21 | Of the records that pass the prefix test, exactly those have a proper version section whose first term is the version and nothing more |
| Spf.AnyVersionPasses | internal/inbound/policy.go:16-18 | The others are evaluated all the same: whatever text follows the version without a space, `-all` after it fails every client |
| Spf.OnlyLocalMechanismsMatch | internal/inbound/policy.go:31-62 | A matching term is `all`, `ip4:` or `ip6:`; `a` and `mx` never match |
| Spf.LeftmostMatchDecides | internal/inbound/policy.go:21-78 | The qualifier of the leftmost matching term decides (`-` fail, `~` softfail, `?` neutral, `+` or none pass), and with none the result is neutral |
| Spf.QualifiedAll | internal/inbound/policy.go:23-77 | A record of the version and `all` with any qualifier or none has that result for every client |
| Spf.NoResult | internal/inbound/policy.go:10-18 | There is no result exactly for the empty record, and an error exactly for one without the version in front |
| Spf.QuotesDoNotMatter | internal/inbound/policy.go:15-15 | Quotes around the record and white space within them do not matter |
| Spf.NothingAfterAllCounts | internal/inbound/policy.go:31-32 | Records with the same terms up to an `all` have the same result for every client |
| Spf.AllNeverFallsThrough | internal/inbound/policy.go:31-75 | With an `all` among the terms, some term at or before it decides |
| Spf.DottedRoundTrip | internal/inbound/policy.go:41-41 | A dotted address reads back as its octets |
| Spf.DottedIsExact | internal/inbound/policy.go:41-41 | It is the only text that does: a text is read as an address if and only if it is its dotted form |
| Spf.Ip4AddressTerm | internal/inbound/policy.go:40-45 | An `ip4:a.b.c.d` term matches exactly that address, mapped into IPv6 or not |
| Spf.CidrRoundTrip | internal/inbound/policy.go:36-36 | A network in CIDR notation reads back as its address and prefix length |
| Spf.CidrIsExact | internal/inbound/policy.go:36-36 | An address of either length with a slash and a number behind it is a network if and only if the number is at most that of its bits |
| Spf.Ip4TermIsQuotient | internal/inbound/policy.go:33-39 | An `ip4:a.b.c.d/n` term matches exactly the IPv4 clients with the same quotient by 2^(32-n) |
| Spf.ShorterPrefixMatchesMore | internal/inbound/policy.go:33-39 | As a term, too, a shorter prefix matches every client a longer one does |

## Left out

- Text: a character stands for a byte where the code works on bytes, and for a Unicode character elsewhere. Lower-casing is exact where its result is ASCII; other letters keep their case, which no result here depends on.
- MaildirTheorems.StableIdentity: ids that are joined to a path of several elements, or to a directory of the folder, are looked up as in the code, but the theorem is about ids that unescape to one entry name.
- MaildirTheorems.MoveKeepsAllExactly: where an id names a directory, what it finds is taken to be one, not a plain file named `cur`.
- Maildir.Mailbox.MoveMessage: making the target's `cur` fails only where a file stands in the way; permissions, links and which error a failing system call gives are not kept.
- Maildir.Mailbox.DeleteMessage: the directories of the Maildir, which folder names are held against, are a parameter, in whatever order they are read.
- MaildirListing.ListAll: the search filter is a parameter, and so is which files can be read; messages of equal time may come in any order in the original.
- Message bodies, MIME, attachments, sending mail, and marking as read when a message is opened (that is `MarkMessageRead`).
- Tokens.Manager.IssueTokenPair: times are whole seconds, all readings within one call are one instant, and the token hash is an arbitrary function.
- DirectorySync.Service.Sync: whether creating a mailbox and writing a row succeed is a function of the address; quotas, durations and the texts of errors are not kept.
- RateLimiters.RequestLimiter.Serve: the key is a parameter; how it is taken from the request, and the response, are left out. Durations do not saturate.
- The counter of authentication failures, which is one increment.
- Provisioning.FilesystemProvisioner.Provision: permissions and owners are not kept, only that setting them can fail.
- MailboxLifecycle.MailboxService.CreateMailbox: whether the address parses as a mail address is a parameter; passwords are lengths, quotas are left out, and lengths count characters.
- Blobs.BlobStore.Put: temporary files are not kept; the rename at the end replaces an equal blob or fails.
- Blobs.BlobStore.ListIds: a file named like a blob lies in the shard of its name, and directories can be read.
- Passwords.VerifyAcceptsSameKey: Argon2id is an arbitrary function of its inputs; that it tells passwords apart is not part of the model.
- Queue.ParseQueueOutput: JSON lines, date parsing and the clock are parameters, and one parse reads the clock once.
- QueueTheorems.SaturatedAge: ages are divided exactly; the code converts through floating point, which for ages this long rounds up within about a microsecond of a full minute, so that an age a nanosecond short of the longest one shown is already shown as it.
- QueueTheorems.AgeIsShown: the same; from ages of about a hundred days on, one a few nanoseconds short of a full minute may be shown as that minute.
- QueueTheorems.ListingRoundTrip: ids do not begin with `-` or `(` nor end with a marker, a date has at least two parts and none of them is the word "is"; alphanumeric ids and the dates Postfix prints are all of this kind.
- Spf.EvaluateSPF: the text form of IPv6 addresses is a parameter; DNS mechanisms never match, as in the code.
- Headers.StampedHeadersAreStripped: values with line breaks in them are excluded.
- DMARC, the final action on inbound mail, diagnostics, HTTP handlers, command line, SQL and network clients: wiring, or settled by reading one branch.
- Goroutines: each locked section and each service call is one step.
