# A verified model of Day0's stateful core

Day0 keeps credentials for its employees, pools their figures, holds a plan on a colleague's rejection, versions charters, asks for
access and grants scopes. Each of those is a set of Convex mutations over tables, with actions that read in one transaction and write in
another. This project models the mutations as steps over tables and proves what the repository promises of them, over every run and
every interleaving.

Each part has a specification, functions over values that say what every transaction does to the whole table, and theorems about it;
and, where the source patches rows in place or loops, a class or a method that does the same in place and is proved to be that
specification.

| files | part | source |
|---|---|---|
| `Sealing`, `CredentialRef`, `Credentials`, `CredentialInvariants` | sealing and opening, source refs, the credential table and what every transaction keeps | `src/lib/credential-crypto.ts`, `src/docs/credential-ref.ts`, `convex/credentials.ts` |
| `Reseal`, `ResealTheorems`, `KeyCounts` | key rotation page by page and the counts it drops a key by, against any other transactions and re-seals | `convex/credentialCryptoActions.ts`, `convex/credentials.ts`, `scripts/rotate-credential-key.ts` |
| `CredentialWrites`, `SyncGenerations`, `StoreAction`, `OwnerPurge` | single writes, the fence of a sync's writes, the store, the owner's purge | `convex/credentials.ts`, `src/docs/sync-generation.ts` |
| `HeldCredentials`, `VendorHolds` | the vendor hold, and its story told from what a run asks | `convex/credentials.ts`, `convex/sourceRevocation.ts` |
| `ValueRefs`, `RefRewrite`, `PageCounts`, `KeyedPages` | the ref rewrite, what a page counts, and where the next store looks | `convex/credentialCryptoActions.ts`, `convex/credentials.ts` |
| `CredentialTable` | the same table written in place, and the re-seal and rewrite actions with interference | `convex/credentials.ts`, `convex/credentialCryptoActions.ts`, `scripts/rotate-credential-key.ts` |
| `OrderStatistics`, `Latencies`, `CompanyFigures` | medians, percentiles and the company's pooled row | `convex/companyFigures.ts` |
| `Rejections`, `Retirements`, `WorkItems`, `Corrections`, `CorrectionTable` | the first rejection of a provider item, the writers of an item's names and times, and the corrections a prompt carries | `convex/corrections.ts`, `convex/retirements.ts`, `convex/reset.ts`, `convex/workSeeding.ts` |
| `Charters`, `CharterBodies`, `CharterBook` | charter versions, and what each approval puts in force | `convex/charters.ts` |
| `SlackMarkup`, `AccessRequests`, `RequestRuns`, `RequestCard` | the access request's direct message | `convex/accessRequests.ts`, `src/surfaces/slack-markup.ts` |
| `Grants`, `GrantRequests`, `GrantTable` | permission grants, their record, and what a run asked for | `convex/agents.ts` |
| `Prelude` | options, results, times, white space and a few sequence functions | |

`dafny verify dfyconfig.toml` checks the whole project.

## Assumptions

- AES-GCM at its contract: a ciphertext carries its key, binding, IV and plaintext, and opens with exactly those. A key is named by its id.
- A value's fingerprint is a parameter; where it must tell values apart, it is required to be injective on the values in play only.
- A mutation is one atomic step, and `Date.now()` is one reading within it. An action is several steps; any others may run between them,
  and a scheduled call may run at any later step or never.
- The caller is the owner, in real mode, and the credential key is configured.
- One keyring, with one current key, stands through a run. A key change and the re-seal after it are two runs, the second from whatever
  table the first left.
- The clock does not go back between steps of a run where a result says so, and a page of a re-seal takes at least a millisecond.
- No provider lists an item under a revocation trial's id. A Slack message's id is none (`WorkItems.MessageIsNoTrial`), and the one other
  path that takes such ids, `seedTasks` in `convex/evaluation.ts`, runs in mock mode only, where items are given no names.
- Every page ref written now is value-keyed (`convex/docSyncActions.ts:375`); `RefRewrite` calls such steps keyed.
- Numbers in the figures are exact: the 90th percentile's place is nine tenths of the count rounded up.

## Where the code and its words differ

- `convex/corrections.ts:117-121` says a rejection is missed only behind more than `TICKET_ROWS_READ` others. The read takes exactly that
  many, so exactly that many others can hide it (`Rejections.MissedAtTheBound`); `Rejections.FoundExactlyWhenShown` says when the answer is
  the whole table's, a row behind too many in one range but shown by another included.
- `convex/agents.ts:599-607` sorts a scope's rows by their grant time alone; for two grants of one time it reports the older row's
  revocation (`Grants.DashboardFollowsTheRecord`, `Grants.TiedGrantsMisreport`).
- `convex/accessRequests.ts:519-522` promises that a release scheduled at one claim never ends a later one, which holds; the release a
  failed send makes itself names no claim and can (`AccessRequests.ReleaseEndsExactly`, `AccessRequests.LateFailureEndsAnother`). The send's
  Slack call gives up after 30 seconds (`convex/managerChannelActions.ts:592,625`) and a claim stands ten minutes, so the mutations allow
  that late release and nothing here shows an action slow enough to make it.
- Rows of the credential table are deleted by a sync's finish (`convex/docSources.ts:1201-1239`), so the table is a map from ids with gaps.

## Model

| member | source | states |
|---|---|---|
| `Sealing.OpensExactly` | src/lib/credential-crypto.ts:294-328 | a stored value opens to its plaintext and to nothing else, and exactly when: its IV matches, its key is in the keyring (and is the row's own when the row names one), and it is bound to the row's owner, or unbound on an unkeyed non-organisation row while the policy allows that. The nested loop over keys and bindings is said without its order |
| `Sealing.SealOpensForItsOwnerOnly` | src/lib/credential-crypto.ts:251-260 | what is sealed for one owner opens on another row exactly when that row has the same owner key |
| `CredentialRef.SourceRefRoundTrip` | src/docs/credential-ref.ts:32-62 | a value-keyed ref is recognised as one and gives its page back, for every page ref, one that carries the separator itself included |
| `CredentialRef.SourceRefInjective` | src/docs/credential-ref.ts:32-37 | two value-keyed refs of one page are equal only for equal fingerprints |
| `CredentialRef.ValueKeyedExactly` | src/docs/credential-ref.ts:46-49 | a ref is value-keyed if and only if it is some page, the separator and 32 lower-case hexadecimal digits |
| `CredentialRef.PageOfARef` | src/docs/credential-ref.ts:59-62 | a ref with no separator is its own page; any other is its page, a separator and a suffix, with no later separator |
| `CredentialRef.PageReadIsThePage` | src/docs/credential-ref.ts:73-78 | the index range and its filter return exactly the refs of the page, when a ref's suffix sorts below the range's end |
| `CredentialInvariants.UniqueReadNeverFails` | convex/credentials.ts:188-265 | while the invariant stands, the unique read at an owner, source and ref never meets two rows, and finds the row that stands there exactly when one does |
| `CredentialInvariants.TxKeepsInv` | convex/credentials.ts:49-80 | every transaction on the table keeps: at most one row at each owner, source and ref; holder and reserved key agree; no organisation row and no issued row is page-derived; ciphertext and IV come and go together; a final revocation holds no value |
| `CredentialInvariants.RunKeepsInv` | convex/credentials.ts:779-827 | the same over every interleaving of persist, metadata update, move, ref rewrite, purge, hold, finish, revoke, supersede, prune and sync steps |
| `HeldCredentials.StepsKeepGood` | convex/credentials.ts:1302-1328 | the same with any number of re-seals between, a page read in one table and applied to another included |
| `CredentialInvariants.ValueRefsOnlyMove` | convex/credentials.ts:1422-1454 | a page of ref moves changes at most a row's ref on its own source: never its value, key id, owner or state |
| `CredentialInvariants.RevokeStands` | convex/credentials.ts:974-991 | a revoked row stays revoked and in the table through every run of the table's transactions, so `decrypt` never opens it again |
| `HeldCredentials.RevokeOutlastsReseals` | convex/credentials.ts:974-991 | the same through every interleaving with re-seals: a page of re-sealed values read before the revoke and applied after it included |
| `Reseal.ReadKeepsDriver` | convex/credentialCryptoActions.ts:260-301 | a page's read leaves the action holding items that are each written from the ciphertext read, under the current key, bound to the row's owner and opening to the same value, and that cover every row of the page not yet settled |
| `Reseal.ApplyIsInvisible` | convex/credentials.ts:1302-1328 | applying a page over whatever table stands by then changes no row's record and nothing any row opens to |
| `Reseal.ApplySettles` | convex/credentials.ts:1302-1328 | a row whose unsettled value the page read is settled by the apply, or a newer write stands there |
| `Reseal.NextKeepsSysOk` | convex/credentialCryptoActions.ts:260-301 | for every step of every action and transaction: each re-seal's rows before its cursor stay settled, its page in hand stays applicable, and once one that began at the first row has ended the whole table stays settled |
| `ResealTheorems.ResealIsComplete` | convex/credentialCryptoActions.ts:402-430 | once a re-seal begun at the first row reaches the end, under any interleaving, every row holding a value is under the current key and bound to its owner, or is one the keyring cannot open; and stays so through every later step |
| `ResealTheorems.ResealIsInvisible` | convex/credentials.ts:1302-1328 | a run with re-seals in it and the run of the other transactions alone leave tables no reader tells apart: no newer write overwritten, no purged value back, each re-sealed row opening to the value it had |
| `ResealTheorems.ResealLosesNothing` | convex/credentials.ts:1255-1328 | the same by row, under the opening policy of the moment, the end of the unbound open included |
| `ResealTheorems.EndingUnboundIsSafe` | convex/credentials.ts:155-172 | after a whole re-seal each row opens alike with the unbound open allowed and not, then and after every later step |
| `ResealTheorems.DroppingAKeyExactly` | convex/credentialCryptoActions.ts:48-54 | dropping the previous key changes what a row opens to if and only if the row opens now and only by that key |
| `ResealTheorems.SettledNeedsNoPreviousKey` | convex/credentialCryptoActions.ts:48-54 | no settled row needs the previous key |
| `ResealTheorems.DroppingAfterResealIsSafe` | scripts/rotate-credential-key.ts:172-211 | once a re-seal of the whole table has ended, dropping the previous key changes what no row opens to, at that or any later moment, under the policy of that moment |
| `KeyCounts.CountsMakeDroppingSafe` | convex/credentials.ts:1519-1542 | counts of no unkeyed row and none under the old key make dropping that key safe for every row, whatever a re-seal did |
| `KeyCounts.DroppingStaysSafe` | convex/credentials.ts:1519-1542 | and safe in every later table, whatever steps follow the counts: no step names an old key again |
| `KeyCounts.CountPage` | convex/credentials.ts:1519-1542 | one page counts, by key id, exactly the rows of its range that hold a ciphertext, and moves the cursor on unless the table ended |
| `KeyCounts.CountIsBetween` | scripts/rotate-credential-key.ts:151-161 | with any steps between its pages, a sum that reached the table's end is no less than the rows that name the old key at its end and no more than those that named it at its start |
| `KeyCounts.QuietCountIsExact` | scripts/rotate-credential-key.ts:151-161 | with nothing between its pages it is exactly their number, for any key and for none |
| `KeyCounts.CountOfNoneMakesDroppingSafe` | scripts/rotate-credential-key.ts:172-211 | so sums of none, for the old key and for none, make dropping it safe at their end and after every later step, whatever ran between the pages |
| `CredentialTable.Deployment.SealPageAgain` | convex/credentialCryptoActions.ts:260-301 | the page loop pushes exactly the rows that hold a value, are not under the current key and open, and counts exactly those of them that do not open |
| `CredentialTable.Deployment.ApplyResealPage` | convex/credentials.ts:1302-1328 | writes each item in turn only over the ciphertext it was opened from, and counts those written; the new table is the specification's |
| `PageCounts.ResealPageExactly` | convex/credentialCryptoActions.ts:260-301 | a page read in one table and applied to another: its changed count is the number of rows it opened that still hold what was read; each is then under the current key with the value read, and no other row is written |
| `PageCounts.ResealPageTwice` | convex/credentialCryptoActions.ts:241-259 | a page run twice with nothing beside it changes every row that opens and is not current, and the second time none, skipping what it skipped |
| `PageCounts.UnopenedExactly` | convex/credentialCryptoActions.ts:273-281 | the skipped count is the number of rows of the range that hold a value, do not name the current key and do not open |
| `CredentialTable.Deployment.ResealOnePage` | convex/credentialCryptoActions.ts:260-301 | with any steps between its read and its apply: the table after it and each of its counts exactly; settled up to the cursor it returns; and the table left is the one the other steps alone leave, as any reader sees it |
| `CredentialTable.Deployment.ResealAll` | convex/credentialCryptoActions.ts:402-430 | ends at the first page the table or the budget ends at, whatever runs beside it and however the table grows; by the budget only after it ran out and with a page of rows behind it for each page read; a re-seal of the whole table stands, at the cursor it returns, as if it had never been cut; and nothing but the seals differs from what the steps beside it did |
| `CredentialTable.Deployment.ResealEveryRow` | scripts/rotate-credential-key.ts:134-149 | the calls resumed from each returned cursor, with any steps between them: each but the last stopped by its budget alone; once one is done every row is settled; and so many calls as the table has pages of ids are enough |
| `CredentialTable.Deployment.RowsNamingKey` | scripts/rotate-credential-key.ts:151-161 | the loop over the pages, with any steps before each, answers the specification's sums and writes nothing; the sums lie between the counts at its end and at its start, and are those counts when nothing runs between; so many pages as the table has pages of ids are enough |
| `CredentialTable.Deployment.FinishRotation` | scripts/rotate-credential-key.ts:172-211 | re-seals, counts, and answers that the old key can go only when every row is settled and none names it: then no row needs it under any later steps; when rows still name it, the number answered is between those left at the end and those at the count's start |
| `HeldCredentials.HeldKeepsItsValue` | convex/credentials.ts:468-519 | from the hold until it is finished a row opens to the same value through every purge, revoke, sync step and re-seal, in any order |
| `HeldCredentials.FinalHoldsNothingAgain` | convex/credentials.ts:493-519 | once final, no step gives the row a ciphertext again, a page of re-sealed values read before the end and applied after it included, and neither decrypt opens it |
| `HeldCredentials.FinishEndsTheHold` | convex/credentials.ts:493-519 | finishing deletes the value, keeps the attempts, the end that asked and the time it was revoked |
| `HeldCredentials.HeldOpensForRevocationOnly` | convex/credentials.ts:1023-1039 | from the hold to its finish, through every step, the vendor call's decrypt answers the very value held and `decrypt` answers none |
| `VendorHolds.HoldIsItsStory` | convex/credentials.ts:468-519 | a hold and every run after it, re-seals included: the row stays revoked since the hold, over a person's earlier revoke; its record is exactly what the run asked of it, so many attempts, the words of the last refusal that answered the latest of them (`convex/sourceRevocation.ts:523-527,680-690`), pending until the first finish and that finish's state, time and words ever after; the vendor call opens the value the row had before the hold until then and nothing after, and `decrypt` opens none throughout |
| `VendorHolds.HoldTouchesItsRow` | convex/credentials.ts:468-482 | a hold changes something if and only if the row was issued and has no revocation recorded; then only its two stamps, and no other row |
| `HeldCredentials.NeverOpensForBoth` | convex/credentials.ts:1023-1039 | the vendor call's decrypt opens exactly an issued row whose revocation is pending; no row that keeps the invariant opens both there and to `decrypt` |
| `CredentialTable.Deployment.HoldForSourceRevocation` | convex/credentials.ts:468-482 | holds an issued row once: revoked at once over any earlier revoke, pending with no attempts at that time for that end, its value kept; refuses a row never issued and changes nothing of one held already. `VendorHolds.HoldIsItsStory` runs on from it |
| `CredentialTable.Deployment.FinishSourceRevocation` | convex/credentials.ts:493-519 | writes the final state whatever stood, deletes the value, and keeps the first revoke, the attempts, the end that asked and the last failure's words |
| `CredentialTable.Deployment.FinishJob` | convex/sourceRevocation.ts:629-637 | the loop over a revocation's rows is the run of their guarded finishes: only those still pending are written, a missing or settled one is left, and none is pending after it |
| `CredentialTable.Deployment.PurgeCredential` | convex/credentials.ts:407-426 | revokes and deletes the value, save one held for its vendor, and keeps the first time it was revoked |
| `CredentialTable.Deployment.RevokeRow` | convex/credentials.ts:1167-1177 | revokes once; a second revoke keeps the first time |
| `CredentialTable.Deployment.PersistEncrypted` | convex/credentials.ts:188-265 | upserts a page value on the one row at its ref, or inserts; refuses, changing nothing, on a holder, issue, fence or owner mismatch; a rotation restarts usage and keeps a person's revoke |
| `CredentialTable.Deployment.UpdateMetadataOf` | convex/credentials.ts:272-297 | refreshes metadata and status of a row whose value did not change, never its value or its revoke |
| `CredentialTable.Deployment.MoveRowToRef` | convex/credentials.ts:779-827 | moves a row only while it stands where it was read and the target is free; else writes nothing and says so |
| `CredentialWrites.PersistRefusedExactly` | convex/credentials.ts:188-219 | a persist is refused if and only if holder and key disagree, a page value is the organisation's or was issued, the sync run is not the source's current one, or the source is not linked to the owner |
| `CredentialWrites.PersistReadsBack` | convex/credentials.ts:220-265 | what is persisted opens again on the row it answers, which carries the metadata, source, holder and issuer given, and nothing else of the table changes; that row is the one that stood at the page ref, exactly when one did, with its history and a person's revoke kept, its usage restarted only by a rotation and the rotation of a revoked row told; else it is a fresh one; `decrypt` answers the value unless the row was revoked or the value is empty |
| `CredentialWrites.MetadataExactly` | convex/credentials.ts:272-297 | new metadata is refused if and only if the row is missing or its sync may not write it; it keeps value, history and usage, puts a superseded row back in use so that `decrypt` answers it, and keeps a person's reason |
| `CredentialWrites.FoundAgainIsLive` | convex/docSources.ts:1718-1733 | a page row a sync no longer finds opens to no one and keeps its value, its first such time standing; found again it is the row it was under its new metadata, and opens unless it was revoked |
| `CredentialWrites.MarksExactly` | convex/credentials.ts:663-681 | a use and a revoke write their one stamp, the first revoke standing; a prune deletes exactly a page row superseded and not revoked, which opened to no one |
| `SyncGenerations.SyncWritesWhileItRuns` | src/docs/sync-generation.ts:22-49 | over every run of transactions: a sync may write its source's rows, and no others, if and only if since it began it did not end, no newer sync of the source began and the source was not unlinked |
| `SyncGenerations.StaleSyncChangesNothing` | convex/credentials.ts:123-132 | so once one of those happened nothing it sends changes the table: no persist, no new metadata and no move |
| `SyncGenerations.OlderSyncIsOver` | convex/docSources.ts:824-829 | a sync that a newer one superseded never runs again, at any later point of any run |
| `SyncGenerations.RecordedRefsGrow` | convex/docSources.ts:1024-1046 | a running sync adds the refs it found behind those it had; one that does not run adds none |
| `CredentialWrites.MovesExactly` | convex/credentials.ts:779-827 | a row moves if and only if it stands where it was read and no row stands at the target; its value, history and usage go with it, under the metadata found and back in use, no other row changes, and otherwise nothing does |
| `CredentialWrites.PurgingTwiceIsOnce` | convex/credentials.ts:407-426 | a second purge changes nothing, the first revoke's time stands, and a hold keeps its value through both |
| `StoreAction.KnownValueMintsNoRow` | convex/credentials.ts:875-966 | run alone on a page with a non-empty value, `store` inserts if and only if no row stands at the ref and no readable row of the page holds the value; the value ends on one row at the ref, and no other row changes |
| `StoreAction.StoreReadsBack` | convex/credentials.ts:895-966 | every store that is not refused, of a page's value or any other: the row it answers holds the value, the label, the source, the holder and the issuer given, and opens to it for `decrypt` unless a person revoked that row; nothing else changes; a value of no page always gets a new row; a page's gets one if and only if no row stands at its ref and no readable row of its page holds it; usage restarts exactly when a standing row held another value |
| `StoreAction.StoreAcceptedExactly` | convex/credentials.ts:875-966 | a store is accepted if and only if holder and key agree, there is a value or only its place is kept, a page's value is its owner's and not one issued, its sync may write there, and a page searched for it has at most the rows one read takes |
| `StoreAction.StoreKeepsPageDistinct` | convex/credentials.ts:895-966 | when a page's rows are readable, their values distinct and each value-keyed ref keys its own value, a store keeps all three |
| `StoreAction.StoresKeepPageDistinct` | convex/credentials.ts:692-732 | so over every sequence of stores no two rows of the page ever hold the same value |
| `ValueRefs.CarriedExactly` | convex/credentials.ts:1390-1407 | carrying a ref into the open run replaces that ref and no other |
| `ValueRefs.RewriteKeepsGenerations` | convex/credentials.ts:1390-1454 | for a whole batch in sequence: a row whose ref was in its source's newest unfinished run before is in it afterwards, wherever the row now stands |
| `ValueRefs.OneMoveTouchesOneOpenRun` | convex/credentials.ts:1390-1407 | a move changes no completed run and invents no ref but the one it moves to |
| `ValueRefs.PageRewrites` | convex/credentialCryptoActions.ts:339-382 | a page read in one table and applied to any other leaves each row it could open, and that still stands where it was read, at its value-keyed ref, unless another row of its page already holds that ref |
| `KeyedPages.PageMovesByValue` | convex/credentialCryptoActions.ts:339-366 | a page read in one table and applied after any keyed steps leaves each row as it found it, or moves it from a legacy ref to its own page and the fingerprint, for its owner, of the value read, which is the one it still holds unless it was deleted |
| `KeyedPages.MovedExactlyWhenFree` | convex/credentials.ts:1422-1454 | a move is made if and only if its row stands where it was read and no row of its owner and source stands at the target, and skipped if and only if it does not stand there |
| `KeyedPages.RewriteKeysEveryValue` | convex/credentialCryptoActions.ts:330-392 | at the end of a whole rewrite, whatever ran beside it, every page row that opens stands at the ref of its page and its own value's fingerprint, or is named blocked |
| `KeyedPages.AtItsKeyIsFound` | convex/credentials.ts:915-936 | the next sync's store of such a row's value answers that very row, inserts none and keeps its usage and history |
| `KeyedPages.RewrittenValueMintsNoRow` | convex/credentials.ts:915-936 | so after a whole rewrite no value it could read, and did not find blocked, gets a second row when a sync stores it again |
| `KeyedPages.KeyedPageIsGood` | convex/credentials.ts:692-732 | and a page of that table whose rows all open is one on which stores keep values distinct |
| `PageCounts.RewritePageCounts` | convex/credentialCryptoActions.ts:362-382 | the changed count of a page, read in one table and applied to another, is the number of rows it moved |
| `RefRewrite.LeftIsBlocked` | convex/credentials.ts:1422-1454 | a row that still stands where its move found it, after the whole page, is one the page reports blocked |
| `RefRewrite.BlockedExactly` | convex/credentials.ts:1422-1454 | a page's blocked list names exactly the rows of moves that found another row at their target when they were applied |
| `RefRewrite.StepsLegacy` | convex/credentials.ts:1330-1380 | over every run of keyed steps and re-seals no row comes to hold a value on a legacy ref that did not before, and a row that does still stands where it stood and opens to what it opened to |
| `RefRewrite.PageOfRewrite` | convex/credentialCryptoActions.ts:339-382 | whatever runs between a page's read and its apply, every row up to its end still holding a value on a legacy ref was named, blocked if it opens and unreadable if not; after the last page, every such row of the table was |
| `RefRewrite.RewriteIsComplete` | convex/credentialCryptoActions.ts:330-392 | the same over every sequence of pages with any keyed steps before and within each, and the cursor moves a page of ids on for each page that is not the last |
| `RefRewrite.RewriteStaysComplete` | convex/credentialCryptoActions.ts:330-392 | and through every step after it has ended |
| `RefRewrite.NamedExactly` | convex/credentialCryptoActions.ts:339-382 | a row is named unreadable if and only if some page read it on a legacy ref it could not open, and blocked if and only if some page's apply found another row at its ref |
| `RefRewrite.RewriteIsARun` | convex/credentialCryptoActions.ts:330-392 | the table a rewrite leaves is that of one run of steps, the others' and its own moves where it applied them, so whatever holds over every run holds of it |
| `CredentialTable.Deployment.RewriteOnePage` | convex/credentialCryptoActions.ts:330-382 | one page with any steps between its read and its apply: the table after it, its count and both its lists exactly, and `RefRewrite.PageOfRewrite`'s promise |
| `CredentialTable.Deployment.RewriteEveryRef` | convex/credentialCryptoActions.ts:384-392 | the loop over the pages under any interleaving: its table, count and two lists are exactly those of the pages it ran, and it stops at the first that ends the table; each named row was found unreadable, or blocked, by some page, and each so found is named; at the end a row still on a legacy ref is named blocked if it opens and unreadable if not; and so many pages as the table has pages of ids are enough |
| `CredentialTable.Deployment.ApplyValueRefPage` | convex/credentials.ts:1422-1454 | moves each row in turn as the specification does; the count and the blocked list are exactly those moved and those another row blocked, and each blocked row still stands, page-derived |
| `CredentialTable.Deployment.CarryIntoOpenRun` | convex/credentials.ts:1390-1407 | rewrites the newest run of the source alone, and only while it can still finish |
| `OwnerPurge.KeptExactly` | convex/credentials.ts:595-618 | a row is kept if and only if some token read is bound for another owner and the row is that token, its pair or its app's secret |
| `OwnerPurge.BoundExactly` | convex/credentials.ts:634-655 | an issued row is bound for another owner if and only if a card of an employee some other owner has names it, as its credential, or as its app's secret on the connection it was issued through, behind fewer such cards than one read takes |
| `OwnerPurge.PurgeSparesAnothersIdentities` | convex/credentials.ts:570-655 | said of cards and owners alone: the purge is refused if and only if the owner has more rows than its limit; else it purges exactly the owner's rows that are no token such a card names, nor its refresh pair, nor its app's secret, keeping the value of one held for its vendor and the first revoke's time, counts them, and changes nothing else |
| `OwnerPurge.KeptGrows` | convex/credentials.ts:595-618 | the kept set grows with the rows it is computed from |
| `OwnerPurge.PurgeTakesExactly` | convex/credentials.ts:570-583 | within the limit the purge empties exactly the owner's values neither held for a vendor nor kept; every other value stays as it was |
| `OwnerPurge.CardHidesNoLoss` | convex/credentials.ts:545-583 | when the deletion card answers that nothing would be taken, the purge takes no stored value from anyone |
| `OwnerPurge.CardSaysExactly` | convex/credentials.ts:545-557 | within the limit the card answers yes if and only if some row of the owner holds a value, not for its vendor, that no such card keeps by a token of which the same is true |
| `CredentialTable.Deployment.PurgeOwnedCredentials` | convex/credentials.ts:570-583 | refuses an owner past the limit and changes nothing; else does what the specification's purge does and counts it, which `OwnerPurge.PurgeSparesAnothersIdentities` says row by row |
| `OrderStatistics.NthByCounting` | convex/companyFigures.ts:14-25 | the k-th of the sorted copy is at least x exactly when at most k values lie below x, and at most x exactly when more than k are at most x: an order statistic said by counting |
| `OrderStatistics.NthPermutes` | convex/companyFigures.ts:14-25 | the k-th smallest does not depend on the order of the list |
| `Latencies.SummaryPermutes` | convex/companyFigures.ts:14-25 | neither figure depends on the order of the values |
| `Latencies.MedianHalves` | convex/companyFigures.ts:14-25 | at least half of the values lie on each side of the median, its equals counted on both, for odd and even counts |
| `Latencies.P90IsLeast` | convex/companyFigures.ts:14-25 | the 90th percentile is one of the values, has nine tenths of the list at or below it, and is the least that does |
| `Latencies.PooledMedianAtLeast` | convex/companyFigures.ts:226-288 | a pooled median is no less than every lower bound of the lists' own medians, the midpoint rule of even counts included |
| `Latencies.PooledMedianAtMost` | convex/companyFigures.ts:226-288 | and no more than every upper bound of them |
| `Latencies.PooledP90Between` | convex/companyFigures.ts:226-288 | a pooled 90th percentile lies between the least and the greatest of the lists' own |
| `CompanyFigures.PooledMedianWithin` | convex/companyFigures.ts:226-272 | over any employees' waits: whatever bounds their own medians bounds the pooled median; employees without waits bound nothing |
| `CompanyFigures.PooledP90Within` | convex/companyFigures.ts:226-272 | whatever bounds their own 90th percentiles bounds the pooled one |
| `CompanyFigures.PooledWaitsNull` | convex/companyFigures.ts:14-25 | a pooled latency is null if and only if every employee's own is |
| `CompanyFigures.CompanyCountsDecisions` | convex/companyFigures.ts:39-55 | each of the company's decision counts is the sum of the employees' own |
| `CompanyFigures.CompanyCountsWays` | convex/companyFigures.ts:39-55 | the number decided each way is the number of the employees' waits |
| `CompanyFigures.CompanyCountsPilot` | convex/companyFigures.ts:109-135 | the pilot's runs, reuse and answers are the sums of the employees' own, and each rate times its whole is its part, told of nothing but null |
| `CompanyFigures.CompanyCountsEnds` | convex/companyFigures.ts:109-135 | what ended and what was completed are the numbers of the employees' waits |
| `CompanyFigures.CompanyCountsEstimates` | convex/companyFigures.ts:109-135 | its cards and estimates are sums; the hours times sixty are the employees' minutes, and null of no item |
| `CompanyFigures.CompanyCountsActions` | convex/companyFigures.ts:181-206 | each count of the company's actions is the sum of the employees' own |
| `CompanyFigures.CompanyCountsTheRest` | convex/companyFigures.ts:251-285 | so are its surfaces, skills, autonomy changes and audit counts, and the audit share times its total is what was complete |
| `CompanyFigures.CharterTimesAreTold` | convex/companyFigures.ts:253-273 | the charter times are listed employee by employee, with the number and the median of those there are |
| `CompanyFigures.TokensMultiplyBack` | convex/companyFigures.ts:92-106 | what is told per item, times the items, is what was counted of the very items it is told of; nothing is told of none, and no input tokens without a reported usage |
| `CompanyFigures.CompanyPoolsWaits` | convex/companyFigures.ts:226-288 | each latency of the company's row is such a pool: decisions, both ways of deciding, time to end and to completion |
| `CompanyFigures.PilotPoolsInParts` | convex/companyFigures.ts:145-169 | pooling is a homomorphism: the pool of a concatenation is the pool of the two pools, all nineteen figures |
| `CompanyFigures.ActionsPoolInParts` | convex/companyFigures.ts:181-206 | the same of the actions, the nullable sum and the nullable minimum included |
| `CompanyFigures.NullRules` | convex/companyFigures.ts:181-206 | the blocked count and the first block are null if and only if every employee's are; else the sum of those there are, and the least of those there are, which one of them is |
| `CompanyFigures.CompanyMetricsOf` | convex/companyFigures.ts:226-288 | the accumulating loop conserves every count and every wait: the row is the one the column-by-column sums and concatenations give |
| `CompanyFigures.EmployeeOrderIsInvisible` | convex/companyFigures.ts:226-288 | permuting the employees changes no count, median, percentile, rate or pooled figure of the company; of the listed charter times only the order |
| `Rejections.RejectingKeepsTheFirstTime` | convex/managerDecisions.ts:139-145 | both writers keep the first rejection no later than the newest plan rejection, agree on the row's first rejection time, and never move it once set |
| `Rejections.ReadExactlyBehindFewer` | convex/corrections.ts:66-104 | the first qualifying row of an index range is read if and only if fewer than the bound of others stand before it |
| `Rejections.AnswerHolds` | convex/corrections.ts:131-174 | whatever is answered, live or retired, is a rejection that binds the plan; no bound is assumed |
| `Rejections.HoldsSaid` | convex/corrections.ts:131-174 | what holds a plan, field by field: another row, no trial, with either rejection time, of an employee of the same owner, that shares one of its two names |
| `Rejections.HoldsRetiredSaid` | convex/retirements.ts:97-112 | and of a retired employee: kept for the same owner under a key that is one of the row's names |
| `Rejections.RefusedExactly` | convex/corrections.ts:131-174 | the walk is refused if and only if a named row's owner has too many retirements to read; an unnamed row and one of no owner are held by nothing |
| `Rejections.EarliestIsFound` | convex/corrections.ts:131-174 | with fewer than the bound of others in each range, the answer is the minimum over the whole table of qualifying live rows and retired rejections, and none exactly when there is none |
| `Rejections.TiesGoToTheLive` | convex/corrections.ts:131-174 | within those bounds a retired employee's rejection is answered only when strictly earlier than every live row that holds the plan |
| `Rejections.FoundExactlyWhenShown` | convex/corrections.ts:66-174 | with no bound assumed: the answer is the whole table's earliest, or none with none there, if and only if some live row of the least time stands among the first of some range of some name, or no live row holds the plan, or a retired employee's rejection is no later than any of them |
| `Rejections.MissedAtTheBound` | convex/corrections.ts:49-104 | with exactly the bound of others before it, the owner's own rejection is missed: a table, a row and the rejection are given |
| `Rejections.FindRetired` | convex/retirements.ts:97-112 | the nested loop finds the first of the earliest rejections that bear one of the names |
| `Rejections.FindFirstRejection` | convex/corrections.ts:131-174 | the walk with its owner cache, early break and strict comparison answers what the specification answers, its refusal of too many retirements included |
| `Retirements.RetiringKeepsTheAnswer` | convex/reset.ts:605-621 | where no trial row bears a name, retiring a colleague keeps the time a sibling's plan is held on, and none where there was none; the answer after it is again the earliest |
| `WorkItems.RunKeepsInv` | convex/workSeeding.ts:236-280 | over every run of hires, listings, trial inserts, remembered names, rejections and retirements: ids are one row's, each row's two rejection times are in order and past, and a trial row, inserted with no names (`convex/revocationEvaluation.ts:285-300`), never bears one |
| `WorkItems.RunGoesOn` | convex/workSeeding.ts:236-280 | over every run each row of the later table is new, or is an earlier one with its employee, its name, its other name once it had one and its first rejection time |
| `WorkItems.ListedOnce` | convex/workSeeding.ts:236-280 | an item is listed once for an employee, under the names it was first seen by; seen again it takes its other name only if it had none and it is not the name it has |
| `WorkItems.MessageIsNoTrial` | convex/intakeActions.ts:1470-1490 | the id a Slack message is listed by is never a revocation trial's, so no listing of one gives a trial row a name |
| `WorkItems.RunFindsTheEarliest` | convex/corrections.ts:131-174 | so over every such run, with fewer than the bound of others in each range, the answer is the table's earliest rejection, live or retired |
| `WorkItems.RunRetiringKeepsTheAnswer` | convex/reset.ts:605-621 | and at any moment of it retiring a colleague moves no sibling's answer |
| `Corrections.ScanIsBest` | convex/corrections.ts:342-367 | the scan keeps both budgets, stays newest first, takes only matching rows, and leaves a matching row out if and only if it no longer fits behind the newer ones chosen |
| `Corrections.SelectionIsMaximal` | convex/corrections.ts:342-367 | the selection has at most five rows within the character budget, no repeats, the shared words first when they fit, the rest newest first, active and the employee's own; with fewer than five chosen no unchosen matching correction fits in what is left |
| `Corrections.SelectionIsOfTheWanted` | convex/corrections.ts:342-367 | in the rows' own terms: the shared words first when they fit, then only the employee's active corrections of the candidate's category or on its surface, newest first and the later kept first among equals; with fewer than five chosen every one left out was too long |
| `Corrections.ScanRefinesThePlainForm` | src/work/corrections.ts:77-100 | the indexed scan chooses what the plain selection over the whole table chooses, in whatever order that is given, when no shared words come first and no two matching rows share a time |
| `Corrections.FirstWordsAreFound` | convex/corrections.ts:177-196 | within the read's bound the words shown are the earliest active rejection words kept on the item, and none exactly when there are none |
| `Corrections.SharedIsOfTheEarliest` | convex/corrections.ts:198-208 | the shared words are those of the earliest rejection of all, the earliest active ones kept with it, and there are none exactly when a live first rejection has none or a retired employee's comes first |
| `CorrectionTable.MarkedExactly` | convex/corrections.ts:292-314 | marking keeps exactly the named ids that are active and the employee's own or the shared one, once each, lists the item once on each, and writes nothing else |
| `CorrectionTable.MarkedAgain` | convex/corrections.ts:292-314 | marking the same plan again changes nothing and keeps the same ids |
| `CorrectionTable.CorrectionsStand` | convex/corrections.ts:240-258 | over every run of keep, mark and retire: no kept words change, a retired row stays retired and is applied to nothing more, kept text is never blank, no item is listed twice |
| `CorrectionTable.KeptThenOn` | convex/corrections.ts:240-258 | words that are not blank are one row at the end of the table, blank ones none; over every later run that row holds those words, its first retirement, and in order and once each the items applied to it, by plans of its employee or that share it, until then |
| `CorrectionTable.Table.KeepCorrection` | convex/corrections.ts:240-258 | keeps words that are not blank as one active row, and nothing else |
| `CorrectionTable.Table.MarkCorrectionsApplied` | convex/corrections.ts:292-314 | the loop over the plan's ids leaves the table and answers the ids of the specification above |
| `CorrectionTable.Table.RetireCorrection` | convex/corrections.ts:407-424 | retires a row once; an unknown id throws and a retired one keeps its first time |
| `CorrectionTable.Table.SelectedForCandidate` | convex/corrections.ts:342-367 | the loop with its running budget answers the selection above |
| `Charters.StepKeepsInv` | convex/charters.ts:250-308 | every commit, strike, approval, amendment, send-back and discard keeps: what a version supersedes is an earlier approved version of the same employee one step older; none is superseded twice; each row is announced by exactly the event that tells its origin; an active employee has an approved charter; and no approved version is deleted or rewritten |
| `Charters.HistoryIsUnforked` | convex/charters.ts:465-538 | the same over every run from an empty table, and any approved version of any moment of it stands unchanged at the end |
| `CharterBodies.CommittedThenApproved` | convex/charters.ts:377-438 | from a commit on: an unapproved draft that supersedes nothing, its employee pending, told once; after any steps but its approval, send-back or handover, an approval with a strike that cannot be honoured changes nothing, and any other puts in force the struck body when a constraint then stands struck and the words as drafted when none does, sets the employee active and tells it; every later moment finds that version so |
| `CharterBodies.DraftStands` | convex/charters.ts:330-356 | a draft stays as committed but for its strikes: a constraint stands struck as the last strike or restoring of it that was honoured left it |
| `CharterBodies.AmendedThenOn` | convex/charters.ts:465-538 | an amendment is accepted if and only if the employee's newest version is approved and can be counted up and something changes; it adds the amended body one version up over it, changes no other row or state, tells it, and both versions stand so ever after |
| `CharterBodies.SentBackExactlyWhen` | convex/charters.ts:756-803 | a draft is sent back if and only if it is its employee's newest version, unapproved, and the note is within its bound; it alone is deleted |
| `CharterBodies.ApprovalsAreToldOnce` | convex/charters.ts:377-438 | over every run from an empty table the record tells of each approved draft's approval once and of no other row's |
| `Charters.DiscardIsAllOrNothing` | convex/charters.ts:250-308 | a handover discards every version of an employee with none approved and leaves it deployed and all else as it was, changes nothing of one with an approved version, and refuses only past its bound of drafts |
| `Charters.SendingBackUndoesTheDraft` | convex/charters.ts:756-803 | committing a draft and sending it back leaves the versions as they were; an approved charter beneath is in force again, and with none the employee is back to its one-to-one or before it |
| `Charters.RestoringUndoesTheStrike` | convex/charters.ts:321-356 | striking a constraint and restoring it leaves the whole book as it was; a refused strike changed nothing; restoring is never refused |
| `Charters.WalkEndsAtTheDraft` | convex/charters.ts:674-682 | the walk back ends at a version a commit announced if and only if the chain is within the bound; each amendment on the way counted the version up by one |
| `CharterBook.Ledger.CommitCharter` | convex/charters.ts:66-96 | inserts an unapproved version that supersedes nothing and announces it, and sets the employee pending, as both its callers do in the same transaction (`convex/charters.ts:161`, `convex/voice.ts:615`) |
| `CharterBook.Ledger.SetConstraintStruck` | convex/charters.ts:330-356 | flags or restores one constraint of an unapproved body; a strike approval would refuse or that changes no clause is answered false and writes nothing; an approved charter or an index without a constraint throws |
| `CharterBook.Ledger.ApproveCharter` | convex/charters.ts:377-438 | approves once, striking first; a refused strike leaves the row and is answered false; approving twice changes nothing. What it puts in force is `CharterBodies.CommittedThenApproved` |
| `CharterBook.Ledger.AmendCharter` | convex/charters.ts:465-538 | adds an approved version over the employee's latest, which must be approved, and becomes its latest; every refusal changes nothing |
| `CharterBook.Ledger.RequestChangesOf` | convex/charters.ts:756-803 | deletes the latest unapproved draft alone and sets the state by whether an approved one remains; every refusal changes nothing |
| `CharterBook.Ledger.DiscardUnapprovedCharter` | convex/charters.ts:282-308 | deletes each draft read, in turn, or none; it answers that the employee starts over exactly when it had no approved version, and that a draft went exactly when it also had one |
| `CharterBook.Ledger.FirstVersionOf` | convex/charters.ts:674-682 | the bounded loop answers the walk, which is at a commit's version if and only if the chain is within the bound |
| `SlackMarkup.PassesAreOnePass` | src/surfaces/slack-markup.ts:14-16 | the three global replacements in their order escape each character once: none rewrites what an earlier one wrote |
| `SlackMarkup.EscapedShowsAsWritten` | src/surfaces/slack-markup.ts:10-16 | an escaped text shows as it was written, and holds no `<` or `>` |
| `AccessRequests.SentIsFinal` | convex/accessRequests.ts:139-150 | once Slack's timestamp is recorded, over every run no release erases it and no claim of that draft succeeds |
| `AccessRequests.ClaimsAreApart` | convex/accessRequests.ts:447-492 | two successful claims of one draft have between them a release that took effect, or are the claim's whole bound apart |
| `AccessRequests.ReleaseEndsExactly` | convex/accessRequests.ts:524-548 | a release takes effect if and only if it is of this draft, Slack has no timestamp for it, a claim stands, and the release names no claim or that very claim; it ends nothing else |
| `AccessRequests.ClaimIsUndoneOrKept` | convex/accessRequests.ts:447-548 | a claim's release restores the card to the field; its record keeps the claim's time and no release undoes it |
| `AccessRequests.EarlierDraftIsOver` | convex/accessRequests.ts:447-548 | after a redraft no claim, record or release of the earlier draft changes anything, at any later point of any run |
| `AccessRequests.WordsAreFound` | convex/accessRequests.ts:404-421 | the words a draft recorded are found again after any run if and only if fewer lines than the read takes have followed its own: at most 49 |
| `AccessRequests.SentWordsAreTheDrafts` | convex/accessRequests.ts:404-421 | whatever happens between a draft and a claim of it, the text sent is that draft's own words, escaped, and shows as they were written |
| `RequestRuns.ClaimSucceedsExactly` | convex/accessRequests.ts:447-492 | after a draft and any run, a claim of it succeeds if and only if the card still holds that draft, no send has it or the last claim is ten minutes old with no timestamp, the employee is there with a chat that can carry it, the card still makes that ask with no connection landed since, and fewer than 50 request lines followed its own; it is then stamped, and a refusal writes nothing |
| `RequestRuns.DraftedOnce` | convex/accessRequests.ts:278-319 | a request is drafted again if and only if there is none, the ask changed or a connection landed since; a draft adds one line with its words; its message is scheduled for the draft the card then holds if and only if it is to be messaged and no send has it |
| `RequestRuns.TimesApart` | convex/accessRequests.ts:342-360 | the two times a request was passed on are written apart, in either order |
| `RequestRuns.RecordedExactly` | convex/accessRequests.ts:498-516 | Slack's timestamp is kept on the draft it names and no other, beside the time of its claim |
| `AccessRequests.LateFailureEndsAnother` | convex/managerChannelActions.ts:793-819 | a failed send's own release names no claim, so one that comes back after its claim's bound ends the claim of a later send still under way |
| `RequestCard.Surface.DraftRequest` | convex/accessRequests.ts:278-319 | drafts once and schedules the message only of the request the card holds, never one sent or being sent |
| `RequestCard.Surface.RecordSentVia` | convex/accessRequests.ts:342-360 | writes the one time asked for and no other field |
| `RequestCard.Surface.FindDraftedWords` | convex/accessRequests.ts:404-421 | the newest-first read of a bounded number of lines finds what the specification finds |
| `RequestCard.Surface.ClaimMessageOf` | convex/accessRequests.ts:447-492 | claims or refuses, check by check in order, as the specification; a refusal writes nothing |
| `RequestCard.Surface.RecordMessageOf` | convex/accessRequests.ts:498-516 | records the timestamp on the named draft only, keeping the time of its claim |
| `RequestCard.Surface.ReleaseMessageOf` | convex/accessRequests.ts:524-548 | releases as the specification's release |
| `Grants.RecordDeterminesGrants` | convex/agents.ts:522-557 | over every run of deploy, grant and revoke: replaying the record gives the table row for row; each scope's events alternate from a grant on; at most one row of a scope is active, exactly while its last event is a grant |
| `Grants.StepKeepsInv` | convex/agents.ts:666-688 | every step keeps that agreement |
| `GrantRequests.RecordIsWhatWasAsked` | convex/agents.ts:490-557 | over every run from an empty deployment: a scope's events are exactly those the run's requests tell, with their sources and times, a list with a blank scope telling none; and the employee holds the scope if and only if the last of them is a grant |
| `GrantRequests.TableIsWhatWasAsked` | convex/agents.ts:522-557 | so its rows are those grants in order, each ended at the time of the revocation after it and no other |
| `Grants.DashboardFollowsTheRecord` | convex/agents.ts:560-612 | with a clock that never goes back, a scope is reported active and granted as its events say, and by whom unless an earlier grant shares the last grant's time; an ended one is reported as the first grant of that time was; its reported revocation is right if and only if no earlier grant shares that time, or the revocation does too |
| `Grants.TiedGrantsMisreport` | convex/agents.ts:591-610 | the run that deploys, grants, revokes, grants again in the same millisecond and revokes later: its record's last revocation is the later one, and the one reported is the first |
| `GrantTable.Permissions.DeployAgent` | convex/agents.ts:244-269 | inserts each initial scope with its event, once |
| `GrantTable.Permissions.GrantScopeOnce` | convex/agents.ts:666-688 | adds a row and its event only while no active row stands, and says which |
| `GrantTable.Permissions.GrantScopesOf` | convex/agents.ts:490-503 | grants each scope in turn; a blank one takes the whole call back |
| `GrantTable.Permissions.RevokeScopeOf` | convex/agents.ts:522-557 | ends every active row of the scope at one time with one event, or changes nothing; answers exactly how many it ended; refuses a blank scope |

## Left out

- CredentialTable.Deployment.RowsNamingKey: the script's loop over the pages has no bound of its own; it is stated of at most one page for each turn, any number.
- CredentialTable.Deployment.FinishRotation: reading the backend's keys, setting and removing them and the file are the script's; the removal is what the last promise is about.
- StoreAction.KnownValueMintsNoRow: `store` is taken as running alone; under interleaving the table's invariants hold for its writes as for any others, but two stores at once may insert a value twice.
- StoreAction.StoresKeepPageDistinct: each page row is required to be readable and each value's fingerprint distinct, as the code's reads need.
- CredentialTable.Deployment.ResealEveryRow: the rotation's loop has no bound of its own; it is stated of at most so many calls, any number.
- CredentialTable.Deployment.RewriteEveryRef: the migration runner that keeps the cursor between pages is taken as that loop, of at most one page for each turn, any number.
- OwnerPurge.CardHidesNoLoss: one direction only; the card's read computes the kept identities over live rows, so the purge may keep more than the card counts. When the card answers yes is `OwnerPurge.CardSaysExactly`.
- KeyedPages.RewriteKeysEveryValue: a page ref written beside the rewrite is required to be the one its value keys at that moment, as a store's and a store's move are.
- KeyedPages.RewrittenValueMintsNoRow: the store is taken as running alone.
- SyncGenerations.SyncWritesWhileItRuns: a source's own running sync is required to be one of its own; a batch's cursor check and a run resumed from an earlier one are not modelled.
- VendorHolds.HoldIsItsStory: when attempts are scheduled, and that a hold is over within its 24 hours, are the scheduler's.
- Corrections.ScanRefinesThePlainForm: no two matching corrections of one time; among equals the index and the plain sort may order them differently.
- CompanyFigures.CompanyMetricsOf: the employees' own rows and the set-aside counts the answer carries beside the company's row are copied through by the source and not modelled.
- Rejections.RejectingKeepsTheFirstTime: the clock is not behind the row's own times.
- Charters.HistoryIsUnforked: a charter's wording is a token; what previewing a strike answers, what the strikes leave at approval and the amendment's diff are parameters of a step, here and in `CharterBodies`.
- CharterBook.Ledger.DiscardUnapprovedCharter: the workspace files deleted beside the drafts are not modelled.
- AccessRequests.LateFailureEndsAnother: the sending action's own time limits are not modelled; see above.
- AccessRequests.ClaimsAreApart: says nothing of how many messages reach Slack: a post whose answer was lost is released and may be sent again.
- Grants.DashboardFollowsTheRecord: the source of a grant written before sources were kept, inferred from surfaces and skills, is not modelled.
- Grants.RecordDeterminesGrants: one time per transaction, and a deploy's id is new.
- A page read of credentials is in table order; the index gives ref order within one page. Which of several holders of one value is moved first may differ, and nothing proved depends on it.
- The prune of superseded credentials is modelled without its age and bound-surface conditions, so with more deletions than the code makes.
- The end of a paged read is a page shorter than its size; Convex may also say so of a full last page.
- Values kept in an external token store, which leave no ciphertext on the row.
- `markSuspect` compares ciphertexts, so a re-seal between its read and its write makes it a no-op; not modelled.
- Other writers of the credential table: provider identities, MCP and organisation connections, and the migration that clears a sync's own revoke stamps (`convex/migrations.ts:468-487`).
- A retirement's claims, its credential revocations and its refusal of an employee with too much to keep; a handover's departure row, which the colleague's read treats alike.
- `forPlan` and the dashboard's list of corrections: plain reads.
- The DM's card, grants and allowlist, the request's wording, and the connection's state are what a claim finds around it, and parameters here.
- Documentation windows, seeding, scheduling, logging and everything under `app/`: other concerns, or easy members only.
