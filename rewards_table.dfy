/**
 * The redeem page's reward grid: a tab selects which catalog entries are
 * shown, and each tab button carries a count.
 */
module RewardsTable {
  import opened RewardsData

  const ALL: string := "all"
  const UNLOCKED: string := "unlocked"
  const LOCKED: string := "locked"
  const COMING_SOON: string := "coming-soon"

  /** Whether the entry is shown under the tab, testing the tab ids in the page's order. */
  function TabAccepts(tab: string, r: Reward): bool {
    if tab == ALL then true
    else if tab == UNLOCKED then r.status == UNLOCKED
    else if tab == LOCKED then r.status == LOCKED
    else if tab == COMING_SOON then r.status == COMING_SOON
    else false
  }

  /** The entries shown under the tab, in catalog order. */
  function FilteredRewards(rs: seq<Reward>, tab: string): (r: seq<Reward>)
    ensures |r| <= |rs|
    ensures forall i :: 0 <= i < |r| ==> r[i] in rs && TabAccepts(tab, r[i])
  {
    if rs == [] then []
    else (if TabAccepts(tab, rs[0]) then [rs[0]] else []) + FilteredRewards(rs[1..], tab)
  }

  /** The entries with the given status, as the tab counts select them. */
  function WithStatus(rs: seq<Reward>, status: string): (r: seq<Reward>)
    ensures |r| <= |rs|
    ensures forall i :: 0 <= i < |r| ==> r[i] in rs && r[i].status == status
  {
    if rs == [] then []
    else (if rs[0].status == status then [rs[0]] else []) + WithStatus(rs[1..], status)
  }

  /** The status filter keeps every entry with the status, as often as the catalog has it, and no other. */
  lemma {:induction false} WithStatusSelects(rs: seq<Reward>, status: string, x: Reward)
    ensures multiset(WithStatus(rs, status))[x] == if x.status == status then multiset(rs)[x] else 0
  {
    if rs != [] {
      assert rs == [rs[0]] + rs[1..];
      WithStatusSelects(rs[1..], status, x);
    }
  }

  datatype Counts = Counts(all: nat, unlocked: nat, locked: nat, comingSoon: nat)

  function TabCounts(rs: seq<Reward>): (c: Counts)
    ensures c.all == |rs|
    ensures c.unlocked <= c.all && c.locked <= c.all && c.comingSoon <= c.all
  {
    Counts(|rs|, |WithStatus(rs, UNLOCKED)|, |WithStatus(rs, LOCKED)|, |WithStatus(rs, COMING_SOON)|)
  }

  /** The grid shows "No rewards available." instead of entries. */
  function ShowsEmptyText(rs: seq<Reward>, tab: string): bool {
    |FilteredRewards(rs, tab)| == 0
  }

  predicate IsSubsequence<T(==)>(a: seq<T>, b: seq<T>)
    decreases |b|
  {
    if a == [] then true
    else if b == [] then false
    else if a[0] == b[0] then IsSubsequence(a[1..], b[1..])
    else IsSubsequence(a, b[1..])
  }

  predicate KnownStatuses(rs: seq<Reward>) {
    forall i :: 0 <= i < |rs| ==> rs[i].status in {UNLOCKED, LOCKED, COMING_SOON}
  }

  // ---------------------------------------------------------------------------

  /** The "all" tab shows the whole catalog unchanged. */
  lemma {:induction false} AllTabShowsCatalog(rs: seq<Reward>)
    ensures FilteredRewards(rs, ALL) == rs
  {
    if rs != [] {
      AllTabShowsCatalog(rs[1..]);
    }
  }

  /** A status tab shows exactly the entries with that status, in order: the list its count measures. */
  lemma {:induction false} StatusTabShowsStatus(rs: seq<Reward>, tab: string)
    requires tab in {UNLOCKED, LOCKED, COMING_SOON}
    ensures FilteredRewards(rs, tab) == WithStatus(rs, tab)
  {
    if rs != [] {
      StatusTabShowsStatus(rs[1..], tab);
    }
  }

  /** Any other tab id shows nothing. */
  lemma {:induction false} UnknownTabShowsNothing(rs: seq<Reward>, tab: string)
    requires tab !in {ALL, UNLOCKED, LOCKED, COMING_SOON}
    ensures FilteredRewards(rs, tab) == []
  {
    if rs != [] {
      UnknownTabShowsNothing(rs[1..], tab);
    }
  }

  /** The shown entries keep their catalog order. */
  lemma {:induction false} FilteredIsSubsequence(rs: seq<Reward>, tab: string)
    ensures IsSubsequence(FilteredRewards(rs, tab), rs)
  {
    if rs != [] {
      FilteredIsSubsequence(rs[1..], tab);
      if !TabAccepts(tab, rs[0]) {
        assert FilteredRewards(rs, tab) == FilteredRewards(rs[1..], tab);
        SubsequenceOfTail(FilteredRewards(rs[1..], tab), rs);
      } else {
        assert FilteredRewards(rs, tab) == [rs[0]] + FilteredRewards(rs[1..], tab);
      }
    }
  }

  /** A subsequence of the tail is a subsequence of the whole. */
  lemma {:induction false} SubsequenceOfTail<T>(a: seq<T>, b: seq<T>)
    requires b != [] && IsSubsequence(a, b[1..])
    ensures IsSubsequence(a, b)
    decreases |b|, 0
  {
    if a != [] && a[0] == b[0] {
      SubsequenceDropHead(a, b[1..]);
    }
  }

  /** Dropping the first element of a subsequence leaves a subsequence. */
  lemma {:induction false} SubsequenceDropHead<T>(a: seq<T>, c: seq<T>)
    requires a != [] && IsSubsequence(a, c)
    ensures IsSubsequence(a[1..], c)
    decreases |c|, 1
  {
    assert c != [];
    if a[0] == c[0] {
      SubsequenceOfTail(a[1..], c);
    } else {
      SubsequenceDropHead(a, c[1..]);
      SubsequenceOfTail(a[1..], c);
    }
  }

  /** Each tab's count is the length of the list the tab shows. */
  lemma CountsMatchTabs(rs: seq<Reward>)
    ensures TabCounts(rs).all == |FilteredRewards(rs, ALL)|
    ensures TabCounts(rs).unlocked == |FilteredRewards(rs, UNLOCKED)|
    ensures TabCounts(rs).locked == |FilteredRewards(rs, LOCKED)|
    ensures TabCounts(rs).comingSoon == |FilteredRewards(rs, COMING_SOON)|
  {
    AllTabShowsCatalog(rs);
    StatusTabShowsStatus(rs, UNLOCKED);
    StatusTabShowsStatus(rs, LOCKED);
    StatusTabShowsStatus(rs, COMING_SOON);
  }

  /** When every status is one of the three known ones, the three counts add up to the total. */
  lemma {:induction false} CountsAddUp(rs: seq<Reward>)
    requires KnownStatuses(rs)
    ensures TabCounts(rs).unlocked + TabCounts(rs).locked + TabCounts(rs).comingSoon == TabCounts(rs).all
  {
    if rs != [] {
      assert KnownStatuses(rs[1..]) by {
        forall i | 0 <= i < |rs| - 1 ensures rs[1..][i].status in {UNLOCKED, LOCKED, COMING_SOON} {
          assert rs[1..][i] == rs[i + 1];
        }
      }
      CountsAddUp(rs[1..]);
      assert rs[0].status in {UNLOCKED, LOCKED, COMING_SOON};
    }
  }

  /** The empty text appears exactly when the tab accepts no entry of the catalog. */
  lemma {:induction false} EmptyTextIffNothingAccepted(rs: seq<Reward>, tab: string)
    ensures ShowsEmptyText(rs, tab) <==> forall i :: 0 <= i < |rs| ==> !TabAccepts(tab, rs[i])
  {
    if rs != [] {
      EmptyTextIffNothingAccepted(rs[1..], tab);
      assert forall i :: 1 <= i < |rs| ==> rs[i] == rs[1..][i - 1];
    }
  }

  /**
   * The shipped catalog: 8 entries, none unlocked, 7 locked, 1 coming soon,
   * so the Unlocked tab shows the empty text and the others do not.
   */
  lemma CatalogFacts()
    ensures KnownStatuses(Catalog)
    ensures TabCounts(Catalog) == Counts(8, 0, 7, 1)
    ensures ShowsEmptyText(Catalog, UNLOCKED)
    ensures !ShowsEmptyText(Catalog, ALL) && !ShowsEmptyText(Catalog, LOCKED) && !ShowsEmptyText(Catalog, COMING_SOON)
  {
    CatalogStatuses();
    LockedThenComingSoon(Catalog);
  }

  /** The tab facts of any catalog shaped like the shipped one: seven locked entries, then one coming soon. */
  lemma LockedThenComingSoon(rs: seq<Reward>)
    requires |rs| == 8
    requires forall k :: 0 <= k < 7 ==> rs[k].status == LOCKED
    requires rs[7].status == COMING_SOON
    ensures KnownStatuses(rs)
    ensures TabCounts(rs) == Counts(8, 0, 7, 1)
    ensures ShowsEmptyText(rs, UNLOCKED)
    ensures !ShowsEmptyText(rs, ALL) && !ShowsEmptyText(rs, LOCKED) && !ShowsEmptyText(rs, COMING_SOON)
  {
    StatusCounts(rs, 7, 1);
    CountsMatchTabs(rs);
  }

  /** The shipped catalog lists its seven locked entries first and its coming-soon entry last. */
  lemma CatalogStatuses()
    ensures |Catalog| == 8
    ensures forall k :: 0 <= k < 7 ==> Catalog[k].status == LOCKED
    ensures Catalog[7].status == COMING_SOON
  {
  }

  /** A catalog of `locked` locked entries followed by `soon` coming-soon entries. */
  lemma {:induction false} StatusCounts(rs: seq<Reward>, locked: nat, soon: nat)
    requires |rs| == locked + soon
    requires forall k :: 0 <= k < locked ==> rs[k].status == LOCKED
    requires forall k :: locked <= k < |rs| ==> rs[k].status == COMING_SOON
    ensures TabCounts(rs) == Counts(locked + soon, 0, locked, soon)
    ensures KnownStatuses(rs)
    decreases |rs|
  {
    assert UNLOCKED != LOCKED && UNLOCKED != COMING_SOON && LOCKED != COMING_SOON;
    if rs != [] {
      if locked > 0 {
        StatusCounts(rs[1..], locked - 1, soon);
      } else {
        StatusCounts(rs[1..], 0, soon - 1);
      }
    }
  }
}
