/**
 * The daily-claim streak engine of the rewards card, as a pure state machine
 * over an in-memory record store.
 *
 * The store holds the four tables the card reads and writes: `profiles`
 * (points per user), `daily_streaks` (current streak and last claim day per
 * user), `transactions` (append-only) and `notifications` (append-only here).
 * A calendar day is an integer day key; the day before `d` is `d - 1`.
 */
module Streak {
  import opened Options

  type UserId = string

  /** A calendar day in the user's local time, counted in whole days. */
  type DayKey = int

  const DAILY_POINTS: int := 5
  const DAILY_REWARD: string := "daily_reward"
  const CLAIM_TITLE: string := "Daily Reward Claimed! \U{1F389}"
  const CLAIM_MESSAGE: string := "You earned 5 points for your daily streak. Keep it going!"
  const REWARDS_URL: string := "/rewards"

  datatype StreakRow = StreakRow(currentStreak: int, lastClaimDate: Option<DayKey>)

  datatype Transaction = Transaction(userId: UserId, kind: string, points: int, date: DayKey)

  /** The payload a claim inserts into the notifications table. */
  datatype NotificationRow = NotificationRow(userId: UserId, kind: string, title: string, message: string, url: string)

  datatype Store = Store(
    profiles: map<UserId, int>,
    streaks: map<UserId, StreakRow>,
    transactions: seq<Transaction>,
    notifications: seq<NotificationRow>)

  const EmptyStore: Store := Store(map[], map[], [], [])

  /** The row inserted when a user has no streak row yet. */
  const FreshStreakRow: StreakRow := StreakRow(0, None)

  /** Points of `u`; a user without a profile row has 0 (the row the card creates). */
  function Balance(s: Store, u: UserId): int {
    if u in s.profiles then s.profiles[u] else 0
  }

  /** The streak row of `u`, or the row the card creates when it is missing. */
  function StreakRowOf(s: Store, u: UserId): StreakRow {
    if u in s.streaks then s.streaks[u] else FreshStreakRow
  }

  function LastClaim(s: Store, u: UserId): Option<DayKey> {
    StreakRowOf(s, u).lastClaimDate
  }

  /** Create-if-missing of the profile row, with 0 points. */
  function WithProfile(s: Store, u: UserId): (r: Store)
    ensures u in r.profiles
    ensures forall v :: Balance(r, v) == Balance(s, v)
    ensures r.streaks == s.streaks && r.transactions == s.transactions && r.notifications == s.notifications
  {
    if u in s.profiles then s else s.(profiles := s.profiles[u := 0])
  }

  /** Create-if-missing of the streak row, with streak 0 and no last claim. */
  function WithStreakRow(s: Store, u: UserId): (r: Store)
    ensures u in r.streaks
    ensures forall v :: StreakRowOf(r, v) == StreakRowOf(s, v)
    ensures r.profiles == s.profiles && r.transactions == s.transactions && r.notifications == s.notifications
  {
    if u in s.streaks then s else s.(streaks := s.streaks[u := FreshStreakRow])
  }

  /** The streak a successful claim on `today` records. */
  function NextStreak(row: StreakRow, today: DayKey): (r: int)
    ensures row.lastClaimDate != Some(today - 1) ==> r == 1
    ensures row.currentStreak >= 0 ==> 1 <= r <= row.currentStreak + 1
  {
    if row.lastClaimDate == Some(today - 1) then row.currentStreak + 1 else 1
  }

  datatype ClaimOutcome = NotLoggedIn | AlreadyClaimed | Claimed(newStreak: int)

  datatype ClaimStep = ClaimStep(store: Store, outcome: ClaimOutcome)

  /** The daily claim of `user` on `today`, one atomic transition of the store. */
  function Claim(s: Store, user: Option<UserId>, today: DayKey): (r: ClaimStep)
    ensures r.outcome == NotLoggedIn <==> user.None?
    ensures r.outcome == AlreadyClaimed <==> user.Some? && LastClaim(s, user.value) == Some(today)
    ensures !r.outcome.Claimed? ==>
              r.store.profiles == s.profiles && r.store.transactions == s.transactions
              && r.store.notifications == s.notifications
    ensures r.outcome.Claimed? ==>
              |r.store.transactions| == |s.transactions| + 1 && |r.store.notifications| == |s.notifications| + 1
  {
    match user
    case None => ClaimStep(s, NotLoggedIn)
    case Some(u) =>
      var s1 := WithStreakRow(s, u);
      var row := s1.streaks[u];
      if row.lastClaimDate == Some(today) then
        ClaimStep(s1, AlreadyClaimed)
      else
        var newStreak := NextStreak(row, today);
        var s2 := WithProfile(s1, u);
        var updatedPoints := s2.profiles[u] + DAILY_POINTS;
        ClaimStep(
          Store(
            s2.profiles[u := updatedPoints],
            s2.streaks[u := StreakRow(newStreak, Some(today))],
            s2.transactions + [Transaction(u, DAILY_REWARD, DAILY_POINTS, today)],
            s2.notifications + [NotificationRow(u, DAILY_REWARD, CLAIM_TITLE, CLAIM_MESSAGE, REWARDS_URL)]),
          Claimed(newStreak))
  }

  /** What the card shows after loading. */
  datatype RewardView = RewardView(userId: Option<UserId>, points: int, streak: int, claimedToday: bool)

  datatype LoadStep = LoadStep(store: Store, view: RewardView)

  /** The streak the card shows: the stored one if the last claim was today or yesterday, else 0. */
  function ShownStreak(row: StreakRow, today: DayKey): (r: int)
    ensures row.lastClaimDate == Some(today) ==> r == row.currentStreak
    ensures row.lastClaimDate != Some(today) ==> r == NextStreak(row, today) - 1
  {
    if row.lastClaimDate == Some(today) then row.currentStreak
    else if row.lastClaimDate != Some(today - 1) then 0
    else row.currentStreak
  }

  /** Loading the card: create the missing rows, then derive the view. */
  function Load(s: Store, user: Option<UserId>, today: DayKey): (r: LoadStep)
    ensures r.view.userId == user
    ensures r.view.claimedToday <==> user.Some? && LastClaim(s, user.value) == Some(today)
    ensures user.Some? ==> r.view.points == Balance(s, user.value)
    ensures forall v :: Balance(r.store, v) == Balance(s, v) && StreakRowOf(r.store, v) == StreakRowOf(s, v)
    ensures r.store.transactions == s.transactions && r.store.notifications == s.notifications
  {
    match user
    case None => LoadStep(s, RewardView(None, 0, 0, false))
    case Some(u) =>
      var s1 := WithProfile(s, u);
      var s2 := WithStreakRow(s1, u);
      var row := s2.streaks[u];
      LoadStep(s2, RewardView(Some(u), s1.profiles[u], ShownStreak(row, today), row.lastClaimDate == Some(today)))
  }

  // ---------------------------------------------------------------------------
  // One claim

  /** A claim is rejected exactly when the last claim was today, and a rejected claim changes nothing. */
  lemma ClaimRejectedIffClaimedToday(s: Store, u: UserId, today: DayKey)
    ensures Claim(s, Some(u), today).outcome == AlreadyClaimed <==> LastClaim(s, u) == Some(today)
    ensures Claim(s, Some(u), today).outcome == AlreadyClaimed ==> Claim(s, Some(u), today).store == s
    ensures Claim(s, Some(u), today).outcome != NotLoggedIn
  {
  }

  /** Without a logged-in user a claim changes nothing. */
  lemma ClaimWithoutUser(s: Store, today: DayKey)
    ensures Claim(s, None, today) == ClaimStep(s, NotLoggedIn)
  {
  }

  /** The streak recurrence: one more than the stored streak after a claim yesterday, else 1. */
  lemma NextStreakRecurrence(s: Store, u: UserId, today: DayKey)
    requires LastClaim(s, u) != Some(today)
    ensures Claim(s, Some(u), today).outcome.Claimed?
    ensures LastClaim(s, u) == Some(today - 1) ==>
              Claim(s, Some(u), today).outcome.newStreak == StreakRowOf(s, u).currentStreak + 1
    ensures LastClaim(s, u) != Some(today - 1) ==> Claim(s, Some(u), today).outcome.newStreak == 1
  {
  }

  /** Everything a successful claim does, and that it touches no other user's rows. */
  lemma ClaimEffects(s: Store, u: UserId, today: DayKey)
    requires LastClaim(s, u) != Some(today)
    ensures var r := Claim(s, Some(u), today).store;
      && Balance(r, u) == Balance(s, u) + DAILY_POINTS
      && StreakRowOf(r, u) == StreakRow(NextStreak(StreakRowOf(s, u), today), Some(today))
      && r.transactions == s.transactions + [Transaction(u, DAILY_REWARD, DAILY_POINTS, today)]
      && r.notifications == s.notifications + [NotificationRow(u, DAILY_REWARD, CLAIM_TITLE, CLAIM_MESSAGE, REWARDS_URL)]
      && (forall v :: v != u ==> Balance(r, v) == Balance(s, v) && StreakRowOf(r, v) == StreakRowOf(s, v))
  {
  }

  /** Two claims on the same day credit once: the second is rejected and changes nothing. */
  lemma {:induction false} ClaimTwiceSameDay(s: Store, u: UserId, today: DayKey)
    ensures var first := Claim(s, Some(u), today);
      && Claim(first.store, Some(u), today) == ClaimStep(first.store, AlreadyClaimed)
      && |first.store.transactions| <= |s.transactions| + 1
      && Balance(first.store, u) <= Balance(s, u) + DAILY_POINTS
  {
    var first := Claim(s, Some(u), today);
    if LastClaim(s, u) != Some(today) {
      ClaimEffects(s, u, today);
    }
    assert LastClaim(first.store, u) == Some(today);
  }

  // ---------------------------------------------------------------------------
  // Loading the card

  /** The load view: claimed-today, the shown streak, and the rows it creates. */
  lemma LoadViewFacts(s: Store, u: UserId, today: DayKey)
    ensures var step := Load(s, Some(u), today);
      && step.view.userId == Some(u)
      && step.view.points == Balance(s, u)
      && (step.view.claimedToday <==> LastClaim(s, u) == Some(today))
      && (LastClaim(s, u) == Some(today) || LastClaim(s, u) == Some(today - 1) ==>
            step.view.streak == StreakRowOf(s, u).currentStreak)
      && (LastClaim(s, u) != Some(today) && LastClaim(s, u) != Some(today - 1) ==> step.view.streak == 0)
      && (u !in s.streaks ==> step.view.streak == 0)
      && u in step.store.profiles && u in step.store.streaks
      && (forall v :: Balance(step.store, v) == Balance(s, v) && StreakRowOf(step.store, v) == StreakRowOf(s, v))
      && step.store.transactions == s.transactions && step.store.notifications == s.notifications
  {
  }

  /** Without a logged-in user the card shows 0 points, streak 0 and no claim. */
  lemma LoadWithoutUser(s: Store, today: DayKey)
    ensures Load(s, None, today) == LoadStep(s, RewardView(None, 0, 0, false))
  {
  }

  /** The claim button is disabled exactly when a claim would be rejected. */
  lemma LoadAgreesWithClaim(s: Store, u: UserId, today: DayKey)
    ensures Load(s, Some(u), today).view.claimedToday <==> Claim(s, Some(u), today).outcome == AlreadyClaimed
  {
  }

  /** After a successful claim, loading on the same day shows the credit, the new streak and claimed-today. */
  lemma LoadAfterClaim(s: Store, u: UserId, today: DayKey)
    requires LastClaim(s, u) != Some(today)
    ensures var c := Claim(s, Some(u), today);
      var view := Load(c.store, Some(u), today).view;
      && view.claimedToday
      && view.points == Balance(s, u) + DAILY_POINTS
      && view.streak == c.outcome.newStreak
  {
    ClaimEffects(s, u, today);
  }

  // ---------------------------------------------------------------------------
  // The history of a user: ledger and streak consistency

  /** The points of `u`'s transactions, summed. */
  function SumFor(txs: seq<Transaction>, u: UserId): int {
    if txs == [] then 0
    else (if txs[0].userId == u then txs[0].points else 0) + SumFor(txs[1..], u)
  }

  /** The days of `u`'s transactions, in log order. */
  function DatesOf(txs: seq<Transaction>, u: UserId): seq<DayKey> {
    if txs == [] then []
    else (if txs[0].userId == u then [txs[0].date] else []) + DatesOf(txs[1..], u)
  }

  /** The number of consecutive days that end at the last day of `ds`. */
  function RunLength(ds: seq<DayKey>): nat {
    if |ds| == 0 then 0
    else if |ds| == 1 then 1
    else if ds[|ds| - 2] == ds[|ds| - 1] - 1 then RunLength(ds[..|ds| - 1]) + 1
    else 1
  }

  predicate StrictlyIncreasing(ds: seq<DayKey>) {
    forall i, j :: 0 <= i < j < |ds| ==> ds[i] < ds[j]
  }

  lemma {:induction false} SumForAppend(txs: seq<Transaction>, t: Transaction, u: UserId)
    ensures SumFor(txs + [t], u) == SumFor(txs, u) + (if t.userId == u then t.points else 0)
    decreases |txs|
  {
    if txs != [] {
      assert (txs + [t])[1..] == txs[1..] + [t];
      SumForAppend(txs[1..], t, u);
    }
  }

  lemma {:induction false} DatesOfAppend(txs: seq<Transaction>, t: Transaction, u: UserId)
    ensures DatesOf(txs + [t], u) == DatesOf(txs, u) + (if t.userId == u then [t.date] else [])
    decreases |txs|
  {
    var last := if t.userId == u then [t.date] else [];
    if txs == [] {
      assert [t][1..] == [];
      assert DatesOf([t], u) == last + DatesOf([], u);
    } else {
      var head := if txs[0].userId == u then [txs[0].date] else [];
      assert (txs + [t])[0] == txs[0];
      assert (txs + [t])[1..] == txs[1..] + [t];
      DatesOfAppend(txs[1..], t, u);
      calc {
        DatesOf(txs + [t], u);
        head + DatesOf(txs[1..] + [t], u);
        head + (DatesOf(txs[1..], u) + last);
        (head + DatesOf(txs[1..], u)) + last;
        DatesOf(txs, u) + last;
      }
    }
  }

  /** Extending a history by one day continues the run after yesterday and restarts it otherwise. */
  lemma RunLengthAppend(ds: seq<DayKey>, d: DayKey)
    ensures RunLength(ds + [d]) == if ds != [] && ds[|ds| - 1] == d - 1 then RunLength(ds) + 1 else 1
  {
    if ds != [] {
      assert (ds + [d])[..|ds|] == ds;
    }
  }

  /** When every transaction is a daily reward, a user's points are 5 per credited day. */
  lemma {:induction false} SumForDaily(txs: seq<Transaction>, u: UserId)
    requires forall i :: 0 <= i < |txs| ==> txs[i].points == DAILY_POINTS
    ensures SumFor(txs, u) == DAILY_POINTS * |DatesOf(txs, u)|
    decreases |txs|
  {
    if txs != [] {
      SumForDaily(txs[1..], u);
    }
  }

  /** The streak row of `u` agrees with `u`'s transaction log. */
  predicate HistoryMatches(s: Store, u: UserId) {
    var ds := DatesOf(s.transactions, u);
    var row := StreakRowOf(s, u);
    if ds == [] then row.lastClaimDate == None
    else row.lastClaimDate == Some(ds[|ds| - 1]) && row.currentStreak == RunLength(ds)
  }

  predicate AllDailyRewards(txs: seq<Transaction>) {
    forall i :: 0 <= i < |txs| ==> txs[i].kind == DAILY_REWARD && txs[i].points == DAILY_POINTS
  }

  /**
   * The store invariant: every transaction is a daily reward, every balance is
   * the sum of the user's transactions, the last claim day is the day of the
   * user's last transaction, and the streak is the run of consecutive days
   * ending there.
   */
  ghost predicate Consistent(s: Store) {
    && AllDailyRewards(s.transactions)
    && (forall u :: Balance(s, u) == SumFor(s.transactions, u))
    && (forall u :: HistoryMatches(s, u))
  }

  lemma EmptyStoreConsistent()
    ensures Consistent(EmptyStore)
  {
  }

  lemma {:induction false} ClaimPreservesConsistent(s: Store, user: Option<UserId>, today: DayKey)
    requires Consistent(s)
    ensures Consistent(Claim(s, user, today).store)
  {
    if user.Some? && LastClaim(s, user.value) != Some(today) {
      var u := user.value;
      var r := Claim(s, user, today).store;
      var t := Transaction(u, DAILY_REWARD, DAILY_POINTS, today);
      ClaimEffects(s, u, today);
      assert AllDailyRewards(r.transactions) by {
        forall i | 0 <= i < |r.transactions|
          ensures r.transactions[i].kind == DAILY_REWARD && r.transactions[i].points == DAILY_POINTS
        {
          if i < |s.transactions| {
            assert r.transactions[i] == s.transactions[i];
          }
        }
      }
      forall v
        ensures Balance(r, v) == SumFor(r.transactions, v) && HistoryMatches(r, v)
      {
        SumForAppend(s.transactions, t, v);
        DatesOfAppend(s.transactions, t, v);
        assert Balance(s, v) == SumFor(s.transactions, v);
        assert HistoryMatches(s, v);
        if v == u {
          var ds := DatesOf(s.transactions, u);
          RunLengthAppend(ds, today);
          assert DatesOf(r.transactions, u) == ds + [today];
          assert StreakRowOf(r, u) == StreakRow(NextStreak(StreakRowOf(s, u), today), Some(today));
          assert (ds + [today])[|ds + [today]| - 1] == today;
        } else {
          assert DatesOf(r.transactions, v) == DatesOf(s.transactions, v);
          assert StreakRowOf(r, v) == StreakRowOf(s, v);
        }
      }
    }
  }

  /** Loading adds no transaction and changes no balance or streak row. */
  lemma LoadKeepsHistory(s: Store, user: Option<UserId>, today: DayKey)
    ensures var r := Load(s, user, today).store;
      && r.transactions == s.transactions && r.notifications == s.notifications
      && (forall v :: Balance(r, v) == Balance(s, v) && StreakRowOf(r, v) == StreakRowOf(s, v))
  {
  }

  lemma LoadPreservesConsistent(s: Store, user: Option<UserId>, today: DayKey)
    requires Consistent(s)
    ensures Consistent(Load(s, user, today).store)
  {
    if user.Some? {
      LoadViewFacts(s, user.value, today);
      var r := Load(s, user, today).store;
      forall v ensures HistoryMatches(r, v) {
        assert HistoryMatches(s, v);
      }
    }
  }

  // ---------------------------------------------------------------------------
  // Sequences of events

  datatype Event = LoadEvent(user: Option<UserId>, today: DayKey) | ClaimEvent(user: Option<UserId>, today: DayKey)

  function Step(s: Store, e: Event): Store {
    match e
    case LoadEvent(user, today) => Load(s, user, today).store
    case ClaimEvent(user, today) => Claim(s, user, today).store
  }

  function Run(s: Store, events: seq<Event>): Store
    decreases |events|
  {
    if events == [] then s else Run(Step(s, events[0]), events[1..])
  }

  lemma {:induction false} RunPreservesConsistent(s: Store, events: seq<Event>)
    requires Consistent(s)
    ensures Consistent(Run(s, events))
    decreases |events|
  {
    if events != [] {
      match events[0] {
        case LoadEvent(user, today) => LoadPreservesConsistent(s, user, today);
        case ClaimEvent(user, today) => ClaimPreservesConsistent(s, user, today);
      }
      RunPreservesConsistent(Step(s, events[0]), events[1..]);
    }
  }

  /**
   * Starting from an empty store (every profile created at 0), after any
   * sequence of loads and claims each balance is the sum of the user's
   * transactions, which is 5 points per credited day, and the stored streak is
   * the run of consecutive credited days ending at the last claim.
   */
  lemma LedgerMatchesLog(events: seq<Event>, u: UserId)
    ensures var s := Run(EmptyStore, events);
      var ds := DatesOf(s.transactions, u);
      && Balance(s, u) == SumFor(s.transactions, u)
      && Balance(s, u) == DAILY_POINTS * |ds|
      && (ds != [] ==> StreakRowOf(s, u).currentStreak == RunLength(ds) && LastClaim(s, u) == Some(ds[|ds| - 1]))
  {
    EmptyStoreConsistent();
    RunPreservesConsistent(EmptyStore, events);
    var s := Run(EmptyStore, events);
    SumForDaily(s.transactions, u);
    assert HistoryMatches(s, u);
  }

  /** No stored claim day lies after `today`. */
  ghost predicate ClockAhead(s: Store, today: DayKey) {
    forall u :: LastClaim(s, u).Some? ==> LastClaim(s, u).value <= today
  }

  /** Every user's credited days are strictly increasing, so no day is credited twice. */
  ghost predicate CreditedOncePerDay(s: Store) {
    forall u :: StrictlyIncreasing(DatesOf(s.transactions, u))
  }

  predicate Chronological(events: seq<Event>) {
    forall i, j :: 0 <= i < j < |events| ==> events[i].today <= events[j].today
  }

  lemma {:induction false} ClaimCreditsOncePerDay(s: Store, user: Option<UserId>, today: DayKey)
    requires Consistent(s) && CreditedOncePerDay(s) && ClockAhead(s, today)
    ensures CreditedOncePerDay(Claim(s, user, today).store)
    ensures forall later :: today <= later ==> ClockAhead(Claim(s, user, today).store, later)
  {
    if user.Some? && LastClaim(s, user.value) != Some(today) {
      var u := user.value;
      var r := Claim(s, user, today).store;
      var t := Transaction(u, DAILY_REWARD, DAILY_POINTS, today);
      ClaimEffects(s, u, today);
      forall v ensures StrictlyIncreasing(DatesOf(r.transactions, v)) {
        DatesOfAppend(s.transactions, t, v);
        assert HistoryMatches(s, v);
        assert StrictlyIncreasing(DatesOf(s.transactions, v));
        if v == u {
          var ds := DatesOf(s.transactions, u);
          assert ds != [] ==> ds[|ds| - 1] < today;
          assert DatesOf(r.transactions, u) == ds + [today];
        }
      }
      forall later | today <= later ensures ClockAhead(r, later) {
        forall v | LastClaim(r, v).Some? ensures LastClaim(r, v).value <= later {
          if v != u {
            assert LastClaim(r, v) == LastClaim(s, v);
          }
        }
      }
    }
  }

  /**
   * When the clock never goes back, no user is credited twice for one day:
   * each user's transaction days are strictly increasing.
   */
  lemma {:induction false} RunCreditsOncePerDay(s: Store, events: seq<Event>)
    requires Consistent(s) && CreditedOncePerDay(s)
    requires Chronological(events)
    requires events != [] ==> ClockAhead(s, events[0].today)
    ensures CreditedOncePerDay(Run(s, events))
    decreases |events|
  {
    if events != [] {
      var e := events[0];
      match e {
        case LoadEvent(user, today) =>
          LoadPreservesConsistent(s, user, today);
          LoadKeepsHistory(s, user, today);
        case ClaimEvent(user, today) =>
          ClaimPreservesConsistent(s, user, today);
          ClaimCreditsOncePerDay(s, user, today);
      }
      var s' := Step(s, e);
      if |events| > 1 {
        var next := events[1].today;
        assert events[0].today <= next;
        if e.LoadEvent? {
          forall v | LastClaim(s', v).Some? ensures LastClaim(s', v).value <= next {
            assert LastClaim(s', v) == LastClaim(s, v);
          }
        } else {
          assert ClockAhead(s', next);
        }
      }
      assert Chronological(events[1..]) by {
        forall i, j | 0 <= i < j < |events| - 1 ensures events[1..][i].today <= events[1..][j].today {
          assert events[i + 1].today <= events[j + 1].today;
        }
      }
      RunCreditsOncePerDay(s', events[1..]);
    }
  }

  /** The claims of `u` on days `first`, `first + 1`, ..., `first + count - 1`. */
  function ClaimDays(s: Store, u: UserId, first: DayKey, count: nat): Store
    decreases count
  {
    if count == 0 then s else ClaimDays(Claim(s, Some(u), first).store, u, first + 1, count - 1)
  }

  /**
   * Claiming on `count` consecutive days, starting after a gap, leaves a streak
   * of `count`, credits 5 points per day and succeeds every day.
   */
  lemma {:induction false} ConsecutiveClaims(s: Store, u: UserId, first: DayKey, count: nat)
    requires count > 0
    requires LastClaim(s, u) != Some(first) && LastClaim(s, u) != Some(first - 1)
    ensures StreakRowOf(ClaimDays(s, u, first, count), u) == StreakRow(count, Some(first + count - 1))
    ensures Balance(ClaimDays(s, u, first, count), u) == Balance(s, u) + DAILY_POINTS * count
  {
    ConsecutiveClaimsFrom(s, u, first, count, 0);
  }

  lemma {:induction false} ConsecutiveClaimsFrom(s: Store, u: UserId, first: DayKey, count: nat, done: nat)
    requires count > 0
    requires if done == 0 then LastClaim(s, u) != Some(first) && LastClaim(s, u) != Some(first - 1)
             else StreakRowOf(s, u) == StreakRow(done, Some(first - 1))
    ensures StreakRowOf(ClaimDays(s, u, first, count), u) == StreakRow(done + count, Some(first + count - 1))
    ensures Balance(ClaimDays(s, u, first, count), u) == Balance(s, u) + DAILY_POINTS * count
    decreases count
  {
    ClaimEffects(s, u, first);
    var s' := Claim(s, Some(u), first).store;
    assert StreakRowOf(s', u) == StreakRow(done + 1, Some(first));
    if count > 1 {
      ConsecutiveClaimsFrom(s', u, first + 1, count - 1, done + 1);
    }
  }

  // ---------------------------------------------------------------------------
  // The week strip

  /** JavaScript's `getDay()` (Sunday = 0) as a Monday-first slot index (Monday = 0, Sunday = 6). */
  function WeekdayIndex(jsDay: int): (r: int)
    requires 0 <= jsDay < 7
    ensures 0 <= r < 7
    ensures r == (jsDay + 6) % 7
    ensures jsDay == 1 ==> r == 0
    ensures jsDay == 0 ==> r == 6
  {
    if jsDay == 0 then 6 else jsDay - 1
  }

  /**
   * The seven Monday-first slots of the week strip; slot `i` is active when it
   * lies fewer than `streak` days back from today, walking backwards cyclically.
   * `todayIndex - i + 7` is positive, so JavaScript's `%` and Dafny's agree.
   */
  function ActiveStreakDays(todayIndex: int, streak: int): (r: seq<bool>)
    requires 0 <= todayIndex < 7
    ensures |r| == 7
  {
    seq(7, i => (todayIndex - i + 7) % 7 < streak)
  }

  function CountActive(slots: seq<bool>): nat {
    if slots == [] then 0 else (if slots[0] then 1 else 0) + CountActive(slots[1..])
  }

  /** Slot of the day `back` days before today. */
  function SlotBack(todayIndex: int, back: int): int {
    (todayIndex - back + 7) % 7
  }

  /** The active slots are exactly the last `streak` days ending today (at most a week). */
  lemma ActiveSlotsAreRecentDays(todayIndex: int, streak: int, back: int)
    requires 0 <= todayIndex < 7 && 0 <= back < 7
    ensures 0 <= SlotBack(todayIndex, back) < 7
    ensures ActiveStreakDays(todayIndex, streak)[SlotBack(todayIndex, back)] <==> back < streak
    ensures ActiveStreakDays(todayIndex, streak)[todayIndex] <==> streak >= 1
  {
    var i := SlotBack(todayIndex, back);
    assert (todayIndex - i + 7) % 7 == back;
  }

  /** Exactly `min(streak, 7)` slots are active (none for a non-positive streak). */
  lemma ActiveSlotCount(todayIndex: int, streak: int)
    requires 0 <= todayIndex < 7
    ensures CountActive(ActiveStreakDays(todayIndex, streak)) ==
              if streak <= 0 then 0 else if streak >= 7 then 7 else streak
  {
    var r := ActiveStreakDays(todayIndex, streak);
    CountSeven(r);
    BelowStreak(streak);
    RotatedSlots(todayIndex, streak);
  }

  /** The seven slots' bits, summed in slot order. */
  function SlotSum(r: seq<bool>): nat
    requires |r| == 7
  {
    Bit(r[0]) + Bit(r[1]) + Bit(r[2]) + Bit(r[3]) + Bit(r[4]) + Bit(r[5]) + Bit(r[6])
  }

  /**
   * Whatever today's slot, the strip holds the offsets 0..6 in some order:
   * moving today one slot later rotates the strip by one slot, which keeps the sum.
   */
  lemma {:induction false} RotatedSlots(todayIndex: int, streak: int)
    requires 0 <= todayIndex < 7
    ensures SlotSum(ActiveStreakDays(todayIndex, streak))
            == Bit(0 < streak) + Bit(1 < streak) + Bit(2 < streak) + Bit(3 < streak)
              + Bit(4 < streak) + Bit(5 < streak) + Bit(6 < streak)
    decreases todayIndex
  {
    if todayIndex == 0 {
      MondaySlots(streak);
    } else {
      RotatedSlots(todayIndex - 1, streak);
      RotateOnce(todayIndex, streak);
    }
  }

  /** On a Monday the strip lists the offsets 0, 6, 5, ..., 1. */
  lemma MondaySlots(streak: int)
    ensures var r := ActiveStreakDays(0, streak);
            r[0] == (0 < streak) && r[1] == (6 < streak) && r[2] == (5 < streak) && r[3] == (4 < streak)
            && r[4] == (3 < streak) && r[5] == (2 < streak) && r[6] == (1 < streak)
  {
  }

  /** Moving today one slot later moves every mark one slot to the right, the last one wrapping to the front. */
  lemma RotateOnce(todayIndex: int, streak: int)
    requires 0 < todayIndex < 7
    ensures var r := ActiveStreakDays(todayIndex, streak);
            var q := ActiveStreakDays(todayIndex - 1, streak);
            r[0] == q[6] && r[1..] == q[..6]
  {
  }

  lemma BelowStreak(streak: int)
    ensures Bit(0 < streak) + Bit(1 < streak) + Bit(2 < streak) + Bit(3 < streak)
      + Bit(4 < streak) + Bit(5 < streak) + Bit(6 < streak)
      == if streak <= 0 then 0 else if streak >= 7 then 7 else streak
  {
  }

  function Bit(b: bool): nat { if b then 1 else 0 }

  lemma CountSeven(r: seq<bool>)
    requires |r| == 7
    ensures CountActive(r) == SlotSum(r)
  {
    assert CountActive(r[6..]) == Bit(r[6]) + CountActive(r[7..]);
    assert CountActive(r[5..]) == Bit(r[5]) + CountActive(r[6..]);
    assert CountActive(r[4..]) == Bit(r[4]) + CountActive(r[5..]);
    assert CountActive(r[3..]) == Bit(r[3]) + CountActive(r[4..]);
    assert CountActive(r[2..]) == Bit(r[2]) + CountActive(r[3..]);
    assert CountActive(r[1..]) == Bit(r[1]) + CountActive(r[2..]);
    assert CountActive(r) == Bit(r[0]) + CountActive(r[1..]);
  }
}
