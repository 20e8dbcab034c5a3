# Flowva rewards: daily-claim streak engine, notifications, reward catalog, password reset

This project models the logic of the rewards dashboard of a React app backed by a hosted record store:

- **Daily claim and streak** (`RewardCard.jsx`). A logged-in user may claim 5 points once per calendar day.
  A claim on the day after the last claim continues the streak. Any other claim restarts it at 1.
  A successful claim credits the profile, records the streak row, appends a `daily_reward` transaction and emits a notification.
  Loading the card creates missing rows. It shows whether today is claimed, and it shows the streak only while it is still alive.
  The week strip marks the last `streak` days ending today.
- **Notification dropdown** (`NotificationDropdown.jsx`). This covers the unread badge, opening one notification,
  mark all as read and delete all. It also covers the bell animation: the dropdown keeps the unread count of the previous poll to animate the bell
  only when it grows, but as written every poll compares against 0 (see Findings), so the model states both comparisons.
- **Reward catalog tabs** (`RewardsTable.jsx`). A tab filter over the static catalog (`rewardsData.js`) and the per-tab counts.
- **Password reset** (`ResetPassword.jsx`). A length check, then a confirmation check, then one update call under a loading flag.
  The page navigates to `/login` on success.

The record store is an in-memory value (`Streak.Store`): profiles and streak rows are maps keyed by user id,
and transactions and claim notifications are append-only sequences.
A calendar day is an integer day key. The day before `d` is `d - 1`.
Today's key, the logged-in user, the notification query's answer and the identity provider's answers are parameters.
The rewards card's two row reads are answered from the in-memory store, so a read always returns the stored row (see "## Left out").

Pure logic is written as functions with lemmas (modules `Streak`, `RewardsTable`, and the list functions of `Notifications`).
The components that update state step by step are classes:

- `RewardCardComponent.RewardCard`
- `Notifications.NotificationDropdown`
- `ResetPassword.ResetPasswordPage`

Their methods are proved to perform exactly the transitions the pure functions describe.

The central result is `Streak.LedgerMatchesLog`. It starts from an empty store and allows any sequence of loads and claims by any users.
After such a sequence, every balance equals the sum of that user's transactions, which is 5 points per credited day.
The stored streak equals the number of consecutive credited days that end at the last claim.
`Streak.RunCreditsOncePerDay` adds that no day is ever credited twice to a user, provided the clock never runs backwards.

Two facts about the code shape the model:

- The code has no debits, no referral crediting, no partial-failure result and no guard against a negative balance.
- A streak is never reset in the store when days are missed. The stored streak stays as it is; only the loaded view shows 0, and the next claim restarts it at 1.

## Model

| member | source | states |
|---|---|---|
| Streak.WithProfile | src/components/rewards/RewardCard.jsx:79-82 | the profile row is created with 0 points only if missing; no balance and no other table changes |
| Streak.WithStreakRow | src/components/rewards/RewardCard.jsx:155-162 | the streak row is created as (0, no date) only if missing; no user's effective streak row changes |
| Streak.NextStreak | src/components/rewards/RewardCard.jsx:170-173 | the streak a successful claim records: 1 unless the last claim was yesterday, and between 1 and the stored streak + 1 for a non-negative stored streak; the exact recurrence is `Streak.NextStreakRecurrence` and its meaning over the log `Streak.RunLengthAppend` |
| Streak.Claim | src/components/rewards/RewardCard.jsx:134-221 | the claim as one store transition: not logged in iff there is no user; already claimed iff the last claim is today; a non-crediting outcome leaves balances, log and notifications as they were; a credited claim appends exactly one transaction and one notification (the full effect is `Streak.ClaimEffects`) |
| Streak.ShownStreak | src/components/rewards/RewardCard.jsx:106-115 | the streak the card shows: the stored one after a claim today, and otherwise exactly one less than what a claim now would record (so 0 after a gap) |
| Streak.Load | src/components/rewards/RewardCard.jsx:53-119 | the load as one store transition: the view names the user, is claimed-today iff the last claim is today, shows the user's balance, and no balance, effective streak row, transaction or notification changes (the full view is `Streak.LoadViewFacts`) |
| Streak.ClaimRejectedIffClaimedToday | src/components/rewards/RewardCard.jsx:164-168 | a claim is rejected as already claimed iff the last claim day is today, and then the store is unchanged |
| Streak.ClaimWithoutUser | src/components/rewards/RewardCard.jsx:134-138 | with no logged-in user a claim reports that and leaves the store unchanged |
| Streak.NextStreakRecurrence | src/components/rewards/RewardCard.jsx:170-173 | a claim not made today succeeds; the new streak is the stored streak + 1 when the last claim was yesterday, and 1 otherwise (no date, or any gap) |
| Streak.ClaimEffects | src/components/rewards/RewardCard.jsx:187-209 | a successful claim adds exactly 5 points, sets the streak row to (new streak, today), appends one `daily_reward` transaction of 5 dated today and one notification, and leaves every other user's balance and streak row unchanged |
| Streak.ClaimTwiceSameDay | src/components/rewards/RewardCard.jsx:164-168 | a second claim on the same day is rejected and changes nothing; the two together add at most one transaction and at most 5 points |
| Streak.LoadViewFacts | src/components/rewards/RewardCard.jsx:72-117 | loading shows the stored points, claimed-today iff the last claim is today, and the stored streak if the last claim is today or yesterday and 0 otherwise (0 for a missing row); it creates the missing rows and changes no balance, streak or log |
| Streak.LoadWithoutUser | src/components/rewards/RewardCard.jsx:60-68 | without a user the view is no user, 0 points, streak 0, not claimed, and the store is unchanged |
| Streak.LoadAgreesWithClaim | src/components/rewards/RewardCard.jsx:108-115 | the loaded claimed-today flag holds iff a claim now would be rejected |
| Streak.LoadAfterClaim | src/components/rewards/RewardCard.jsx:211-213 | after a successful claim, loading on the same day shows claimed-today, the credited balance and the new streak |
| Streak.RunLengthAppend | src/components/rewards/RewardCard.jsx:170-173 | a run of consecutive days grows by one when the new day follows the last and restarts at 1 otherwise, matching the streak recurrence |
| Streak.SumForDaily | src/components/rewards/RewardCard.jsx:196-201 | when every transaction is worth 5 points, a user's sum is 5 times the number of that user's transactions |
| Streak.ClaimPreservesConsistent | src/components/rewards/RewardCard.jsx:164-209 | a claim keeps the store invariant: balance = sum of the user's transactions, last claim = day of the last transaction, streak = run of consecutive days ending there |
| Streak.LoadPreservesConsistent | src/components/rewards/RewardCard.jsx:72-98 | loading (creating missing rows at 0) keeps the same invariant |
| Streak.RunPreservesConsistent | src/components/rewards/RewardCard.jsx:53-221 | any sequence of loads and claims keeps the invariant |
| Streak.LedgerMatchesLog | src/components/rewards/RewardCard.jsx:182-201 | from an empty store (profiles created at 0), after any sequence of loads and claims each balance equals the sum of the user's transaction points, i.e. 5 per credited day, and the streak is the run of consecutive credited days ending at the last claim |
| Streak.ClaimCreditsOncePerDay | src/components/rewards/RewardCard.jsx:164-168 | with no stored claim day after today, a claim keeps every user's credited days strictly increasing |
| Streak.RunCreditsOncePerDay | src/components/rewards/RewardCard.jsx:164-201 | for any sequence of loads and claims whose days never go back, no user is credited twice for the same day |
| Streak.ConsecutiveClaims | src/components/rewards/RewardCard.jsx:170-173 | claiming on n consecutive days after a gap gives streak n, last claim the n-th day, and 5·n more points |
| Streak.WeekdayIndex | src/components/rewards/RewardCard.jsx:224-225 | JavaScript's weekday (Sunday = 0) maps to a slot in [0, 6] with Monday = 0 and Sunday = 6, i.e. `(day + 6) % 7` |
| Streak.ActiveStreakDays | src/components/rewards/RewardCard.jsx:226-227 | the week strip has seven slots |
| Streak.ActiveSlotsAreRecentDays | src/components/rewards/RewardCard.jsx:223-228 | the slot of the day k days back from today is active iff k < streak; today's slot is active iff streak ≥ 1 |
| Streak.ActiveSlotCount | src/components/rewards/RewardCard.jsx:223-228 | exactly min(streak, 7) slots are active, none for a streak ≤ 0 |
| Streak.RotateOnce | src/components/rewards/RewardCard.jsx:226-227 | moving today one slot later moves every mark of the strip one slot right, the last wrapping to the front |
| RewardCardComponent.RewardCard.constructor | src/components/rewards/RewardCard.jsx:21-27 | the card starts not loaded, with no user, 0 points, streak 1 and nothing claimed |
| RewardCardComponent.RewardCard.SelectProfile | src/components/rewards/RewardCard.jsx:73-77 | the profile select finds a row iff one exists, and returns its points |
| RewardCardComponent.RewardCard.SelectStreak | src/components/rewards/RewardCard.jsx:87-91 | the streak select finds a row iff one exists, and returns it |
| RewardCardComponent.RewardCard.LoadRewards | src/components/rewards/RewardCard.jsx:53-119 | step by step, the load leaves the store and the shown points, streak and claimed flag exactly as `Streak.Load` says, and marks the card loaded |
| RewardCardComponent.RewardCard.ClaimDaily | src/components/rewards/RewardCard.jsx:134-221 | step by step, the claim leaves the store and returns exactly what `Streak.Claim` says; without a user the view is untouched; when already claimed only the claimed flag is set; on success the card shows the new stored balance (old + 5), the new streak, claimed and the popup |
| RewardCardComponent.RewardCard.WeekStrip | src/components/rewards/RewardCard.jsx:367-375 | the rendered strip has seven slots, today's is active iff the shown streak ≥ 1, and min(streak, 7) are active |
| Notifications.UnreadCount | src/components/notifications/NotificationDropdown.jsx:86 | the unread count lies in [0, length] and is 0 iff every entry is read |
| Notifications.BadgeShown | src/components/notifications/NotificationDropdown.jsx:92-94 | the badge shows iff some entry is unread |
| Notifications.WithRead | src/components/notifications/NotificationDropdown.jsx:51-53 | marking an id keeps the length and every field except `read`, and sets `read` exactly on the entries with that id |
| Notifications.WithAllRead | src/components/notifications/NotificationDropdown.jsx:71 | mark-all keeps the length and every field except `read`, which becomes true everywhere |
| Notifications.Preview | src/components/notifications/NotificationDropdown.jsx:130 | the preview is a prefix of the message of length min(70, length) |
| Notifications.BellAnimates | src/components/notifications/NotificationDropdown.jsx:28-29 | the bell comparison: never animates when the previous count is at least the list's length, and with a non-negative previous count animates only when the badge shows; both comparisons are related in `Notifications.StalePollReanimates` and `Notifications.ArrivalAfterMarkAllRead` |
| Notifications.WithReadIdempotent | src/components/notifications/NotificationDropdown.jsx:51-53 | marking the same id twice equals marking it once |
| Notifications.WithReadOfReadEntry | src/components/notifications/NotificationDropdown.jsx:44-53 | clicking an already-read entry (ids unique) leaves the list unchanged |
| Notifications.WithReadAbsent | src/components/notifications/NotificationDropdown.jsx:51-53 | marking an id that no entry has leaves the list unchanged |
| Notifications.WithReadUnreadCount | src/components/notifications/NotificationDropdown.jsx:51-53 | clicking an unread entry lowers the unread count by exactly one; clicking a read one leaves it |
| Notifications.WithAllReadFacts | src/components/notifications/NotificationDropdown.jsx:71 | after mark-all the unread count is 0 and the badge is hidden; mark-all is idempotent |
| Notifications.MarkingPreservesOrder | src/components/notifications/NotificationDropdown.jsx:19-23 | both mark operations keep the newest-first order and the distinct ids of the fetched list |
| Notifications.ArrivalAfterMarkAllRead | src/components/notifications/NotificationDropdown.jsx:28-33 | under the intended comparison with the count stored by the previous fetch (which is refreshed only by a fetch), one new unread arrival after mark-all animates the bell only if the earlier list had no unread entry; under the as-written comparison with 0 it always animates |
| Notifications.PolledBellAnimates | src/components/notifications/NotificationDropdown.jsx:37-41 | as written, the polled fetch compares against the first render's count 0, so the bell animates iff some fetched entry is unread |
| Notifications.StalePollReanimates | src/components/notifications/NotificationDropdown.jsx:28-41 | for any fetched list with an unread entry, the as-written poll animates the bell again, while comparing against the count stored by the previous fetch of the same list does not |
| Notifications.NotificationDropdown.constructor | src/components/notifications/NotificationDropdown.jsx:6-11 | the dropdown starts empty, closed, with previous count 0 and no animation |
| Notifications.NotificationDropdown.FetchNotifications | src/components/notifications/NotificationDropdown.jsx:13-35 | without a user or on a query error nothing changes; otherwise the list becomes the fetched rows, the bell is set animating iff their unread count exceeds the count stored by the previous fetch (the intended comparison, see Findings), and the stored count becomes the new count |
| Notifications.NotificationDropdown.HandleNotificationClick | src/components/notifications/NotificationDropdown.jsx:43-57 | a store update for the id is sent iff the clicked entry was unread; locally only that id becomes read, the dropdown closes and the overlay shows the entry |
| Notifications.NotificationDropdown.MarkAllRead | src/components/notifications/NotificationDropdown.jsx:59-72 | a no-op on an empty list or without a user; otherwise one store update for the user is sent, every entry becomes read with length and order kept, and the unread count is 0 |
| Notifications.NotificationDropdown.DeleteAll | src/components/notifications/NotificationDropdown.jsx:74-84 | a no-op on an empty list or without a user; otherwise one delete for the user is sent and the list becomes empty |
| RewardsTable.FilteredRewards | src/components/rewards/RewardsTable.jsx:10-16 | the shown list is no longer than the catalog and holds only catalog entries the tab accepts |
| RewardsTable.WithStatus | src/components/rewards/RewardsTable.jsx:20-22 | the status filter behind the counts: no longer than the catalog, and holds only catalog entries with that status (multiplicities in `RewardsTable.WithStatusSelects`) |
| RewardsTable.TabCounts | src/components/rewards/RewardsTable.jsx:18-23 | the four counts: `all` is the catalog length and each status count is at most it (they sum to it by `RewardsTable.CountsAddUp`, and match the tabs by `RewardsTable.CountsMatchTabs`) |
| RewardsTable.AllTabShowsCatalog | src/components/rewards/RewardsTable.jsx:11 | the `all` tab shows the catalog unchanged |
| RewardsTable.StatusTabShowsStatus | src/components/rewards/RewardsTable.jsx:12-14 | the `unlocked`, `locked` and `coming-soon` tabs show exactly the list the matching count filters |
| RewardsTable.WithStatusSelects | src/components/rewards/RewardsTable.jsx:20-22 | the status filter keeps each entry with that status as often as the catalog has it, and no other entry |
| RewardsTable.UnknownTabShowsNothing | src/components/rewards/RewardsTable.jsx:15 | any other tab id shows an empty list |
| RewardsTable.FilteredIsSubsequence | src/components/rewards/RewardsTable.jsx:10-16 | the shown list is a subsequence of the catalog (catalog order kept) |
| RewardsTable.SubsequenceOfTail | src/components/rewards/RewardsTable.jsx:10-16 | a subsequence of the catalog's tail is a subsequence of the catalog |
| RewardsTable.SubsequenceDropHead | src/components/rewards/RewardsTable.jsx:10-16 | dropping the first element of a subsequence leaves a subsequence |
| RewardsTable.CountsMatchTabs | src/components/rewards/RewardsTable.jsx:18-30 | each tab's count is the length of the list that tab shows; `all` counts the whole catalog |
| RewardsTable.CountsAddUp | src/components/rewards/RewardsTable.jsx:18-23 | when every status is one of the three known values, unlocked + locked + coming soon = all |
| RewardsTable.EmptyTextIffNothingAccepted | src/components/rewards/RewardsTable.jsx:64-65 | "No rewards available." shows iff the tab accepts no catalog entry |
| RewardsTable.CatalogFacts | src/data/rewardsData.js:3-74 | the shipped catalog has 8 entries: 0 unlocked, 7 locked, 1 coming soon; so the Unlocked tab shows the empty text and the other tabs do not |
| RewardsTable.LockedThenComingSoon | src/data/rewardsData.js:3-74 | any eight-entry catalog with seven locked entries followed by one coming soon has counts (8, 0, 7, 1) and shows the empty text exactly on the Unlocked tab |
| RewardsTable.StatusCounts | src/data/rewardsData.js:3-74 | a catalog of k locked entries followed by m coming-soon entries has counts (k + m, 0, k, m) |
| ResetPassword.Validate | src/pages/ResetPassword.jsx:16-24 | a password shorter than 6 is rejected as too short; a password of length ≥ 6 that differs from the confirmation is rejected as a mismatch; the form passes iff the password has length ≥ 6 and matches |
| ResetPassword.ShortPasswordIgnoresConfirmation | src/pages/ResetPassword.jsx:16-19 | a short password is rejected for length whatever the confirmation holds |
| ResetPassword.ResetPasswordPage.constructor | src/pages/ResetPassword.jsx:8-10 | the page starts with empty fields, not loading, no call and no navigation |
| ResetPassword.ResetPasswordPage.SetPassword | src/pages/ResetPassword.jsx:53 | typing sets the password field |
| ResetPassword.ResetPasswordPage.SetConfirmPassword | src/pages/ResetPassword.jsx:61 | typing sets the confirmation field |
| ResetPassword.ResetPasswordPage.HandleResetPassword | src/pages/ResetPassword.jsx:13-40 | a rejected form makes no call and no navigation; an accepted one makes exactly one update carrying the password while `loading` is true; `loading` is false afterwards whatever the outcome; navigation to `/login` happens only when the update returns no error |

## Findings

| source | as written | input that shows it | evidently intended | confidence | as-written member | corrected member |
|---|---|---|---|---|---|---|
| src/components/notifications/NotificationDropdown.jsx:28-41 | the first fetch and the 10-second timer are set up once, with an empty dependency list, so every poll runs the first render's `fetchNotifications`, which reads `prevUnreadCount` as 0; the stored count is never read | two polls that both return the same single unread notification: the count goes 0 → 1 on the first and stays 1, yet the second poll also sees 1 > 0 and animates the bell | animate only when the unread count grew since the previous poll, which is what `prevUnreadCount` is kept for | medium, not executed (depends on React's closure capture) | Notifications.StalePollReanimates | Notifications.NotificationDropdown.FetchNotifications |

## Left out

- Store and identity-provider I/O: queries, inserts, updates, `getUser` and the auth-state listener are not modelled. The store is an in-memory value, and fetched rows and provider answers are parameters. Every write is assumed to succeed, because the claim ignores the write results and the `catch` only shows a toast.
- Failed reads on the rewards card: `SelectProfile` and `SelectStreak` always return the stored row. In the code a failed `maybeSingle()` read yields no data and is handled like a missing row (RewardCard.jsx:73-98, 149-187). The follow-up insert of a fresh row fails on the existing key, and that error is ignored too. In a claim, a failed streak read leaves the local row at (0, no date), so the already-claimed guard is skipped, the new streak is 1, and the upsert writes (1, today) and credits another 5 points even on a day already claimed. A failed profile read makes the update write 0 + 5 over the balance. In a load, a failed streak read changes only the view (streak 0, not claimed), and the stored row is untouched. Either breaks what `Streak.LedgerMatchesLog` and `Streak.RunCreditsOncePerDay` state, so those results hold only for runs in which every read returns the stored row.
- Concurrency: the claim is one atomic transition. The concurrent write batch and the read-then-write race on the points column (RewardCard.jsx:176-192) are not modelled. Neither are the `mounted` guard and calls after unmount.
- Wall-clock and time-zone arithmetic (RewardCard.jsx:43-47, 100-104, 141-145): today is a day-key parameter and yesterday is `today - 1`. Daylight-saving and midnight edge cases are not reproduced.
- Nullable columns: `profile?.points ?? 0` and `current_streak ?? 0` are modelled with non-null integer columns.
- Store-assigned columns: a claim's notification is modelled as the inserted payload (`Streak.NotificationRow`). The id, `created_at` and the default `read = false` are assigned by the store and are not modelled.
- Notifications.NotificationDropdown.FetchNotifications: compares against the stored previous count, as intended. The as-written comparison with 0 is `Notifications.PolledBellAnimates` (see Findings). The store's newest-first ordering and distinct ids are taken as a precondition on the fetched rows. The model does not sort them.
- Timers: the 10-second poll and the one-second timeout that stops the bell animation (NotificationDropdown.jsx:31, 39) are not modelled. `animateBell` is only ever set, never reset.
- Notifications.Preview: models `slice(0, 70)` on Unicode characters, whereas JavaScript slices UTF-16 code units. The trailing `...` that is always appended is presentation.
- ResetPassword.Validate: measures the password in Unicode characters, whereas JavaScript's `length` counts UTF-16 code units.
- ResetPassword.ResetPasswordPage.HandleResetPassword: the asynchronous call is one step. Its result is a parameter, and the loading flag while the call is in flight is recorded in the call log.
- Referral data (RewardCard.jsx:231-251) is only read and displayed, so it is not modelled. Referral crediting, debits and redemption do not exist in the code.
- Presentation: toasts, modals, skeletons, the share and claim-task modals, the progress bar (floating point), the bell's open/close toggle and the overlay's close buttons.
- Out of scope: the sidebar, layout, routing, the auth context and auth page.
