/**
 * The rewards card component: its view state, and the two handlers that read
 * and write the record store step by step. Each handler is proved to perform
 * exactly the transition the pure engine in module Streak describes.
 */
module RewardCardComponent {
  import opened Options
  import opened Streak

  class RewardCard {
    /** The record store the card talks to, held in memory. */
    var db: Store

    var userLoaded: bool
    var userId: Option<UserId>
    var points: int
    var streak: int
    var claimedToday: bool
    var showClaimPopup: bool

    /** The card's initial state before the first load. */
    constructor (store: Store)
      ensures db == store && userId == None && !userLoaded
      ensures points == 0 && streak == 1 && !claimedToday && !showClaimPopup
    {
      db := store;
      userLoaded := false;
      userId := None;
      points := 0;
      streak := 1;
      claimedToday := false;
      showClaimPopup := false;
    }

    /** The profile row's points, as a single-row select. */
    function SelectProfile(u: UserId): (r: Option<int>)
      reads this
      ensures r.Some? <==> u in db.profiles
      ensures r.Some? ==> r.value == Balance(db, u)
    {
      if u in db.profiles then Some(db.profiles[u]) else None
    }

    /** The streak row, as a single-row select. */
    function SelectStreak(u: UserId): (r: Option<StreakRow>)
      reads this
      ensures r.Some? <==> u in db.streaks
      ensures r.Some? ==> r.value == StreakRowOf(db, u)
    {
      if u in db.streaks then Some(db.streaks[u]) else None
    }

    /**
     * Loads the card: creates the missing profile and streak rows, then shows
     * the points, whether today is claimed, and the streak (reset to 0 when the
     * last claim is older than yesterday).
     */
    method LoadRewards(user: Option<UserId>, today: DayKey)
      modifies this
      ensures db == Load(old(db), user, today).store
      ensures RewardView(userId, points, streak, claimedToday) == Load(old(db), user, today).view
      ensures userLoaded && showClaimPopup == old(showClaimPopup)
    {
      userLoaded := false;
      if user.None? {
        userId := None;
        points := 0;
        streak := 0;
        claimedToday := false;
        userLoaded := true;
        return;
      }
      var u := user.value;
      userId := Some(u);

      var profile := SelectProfile(u);
      if profile.None? {
        db := db.(profiles := db.profiles[u := 0]);
        profile := Some(0);
      }
      points := profile.value;

      var streakData := SelectStreak(u);
      if streakData.None? {
        db := db.(streaks := db.streaks[u := FreshStreakRow]);
        streakData := Some(FreshStreakRow);
      }

      var row := streakData.value;
      var currentStreak := row.currentStreak;
      if row.lastClaimDate == Some(today) {
        claimedToday := true;
      } else {
        claimedToday := false;
        if row.lastClaimDate != Some(today - 1) {
          currentStreak := 0;
        }
      }
      streak := currentStreak;
      userLoaded := true;
    }

    /**
     * Claims today's points. Without a user nothing changes; after a claim
     * today only the claimed flag is set; otherwise the four writes are applied
     * and the card shows the new balance and streak.
     */
    method ClaimDaily(user: Option<UserId>, today: DayKey) returns (outcome: ClaimOutcome)
      modifies this
      ensures db == Claim(old(db), user, today).store
      ensures outcome == Claim(old(db), user, today).outcome
      ensures userLoaded == old(userLoaded) && userId == old(userId)
      ensures outcome.NotLoggedIn? ==>
                points == old(points) && streak == old(streak)
                && claimedToday == old(claimedToday) && showClaimPopup == old(showClaimPopup)
      ensures outcome.AlreadyClaimed? ==>
                claimedToday && points == old(points) && streak == old(streak) && showClaimPopup == old(showClaimPopup)
      ensures outcome.Claimed? ==>
                points == Balance(db, user.value) && points == Balance(old(db), user.value) + DAILY_POINTS
                && streak == outcome.newStreak && claimedToday && showClaimPopup
    {
      if user.None? {
        return NotLoggedIn;
      }
      var u := user.value;

      var streakData := SelectStreak(u);
      if streakData.None? {
        db := db.(streaks := db.streaks[u := FreshStreakRow]);
        streakData := Some(FreshStreakRow);
      }
      var row := streakData.value;

      if row.lastClaimDate == Some(today) {
        claimedToday := true;
        return AlreadyClaimed;
      }

      var newStreak := NextStreak(row, today);

      var profile := SelectProfile(u);
      if profile.None? {
        db := db.(profiles := db.profiles[u := 0]);
        profile := Some(0);
      }
      var updatedPoints := profile.value + DAILY_POINTS;

      db := Store(
        db.profiles[u := updatedPoints],
        db.streaks[u := StreakRow(newStreak, Some(today))],
        db.transactions + [Transaction(u, DAILY_REWARD, DAILY_POINTS, today)],
        db.notifications + [NotificationRow(u, DAILY_REWARD, CLAIM_TITLE, CLAIM_MESSAGE, REWARDS_URL)]);

      points := updatedPoints;
      streak := newStreak;
      claimedToday := true;
      showClaimPopup := true;
      outcome := Claimed(newStreak);
    }

    /** The week strip shown beside the streak, for today's JavaScript weekday. */
    function WeekStrip(jsDay: int): (r: seq<bool>)
      reads this
      requires 0 <= jsDay < 7
      ensures |r| == 7
      ensures r[WeekdayIndex(jsDay)] <==> streak >= 1
      ensures CountActive(r) == if streak <= 0 then 0 else if streak >= 7 then 7 else streak
    {
      ActiveSlotsAreRecentDays(WeekdayIndex(jsDay), streak, 0);
      ActiveSlotCount(WeekdayIndex(jsDay), streak);
      ActiveStreakDays(WeekdayIndex(jsDay), streak)
    }
  }
}
