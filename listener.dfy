/**
 The three handlers of the Hide Bots listener, which keep accounts of the
 "ignored" user type (bots) out of the forum's "who is online" displays
 unless the viewer is an administrator.

 The viewer's administrative permission (`acl_get('a_')` in the host) is the
 parameter `isAdmin`; the host constants USER_IGNORE and ANONYMOUS are the
 parameters `userIgnore` and `anonymous`.
 */
module Listener {
  import opened Decimal

  // ---------------------------------------------------------------------
  // Data handed over by the board-index event
  // ---------------------------------------------------------------------

  /** One row of the host's online-session query: the user's id and user type. */
  datatype Row = Row(userId: int, userType: int)

  /**
   The host's summary of who is online: the listed users (`online_users`),
   the users whose online status is hidden (`hidden_users`), both keyed by
   user id, and the three counters.
   */
  datatype OnlineUsers = OnlineUsers(
    onlineUsers: map<int, int>,
    hiddenUsers: map<int, int>,
    totalOnline: int,
    visibleOnline: int,
    hiddenOnline: int)

  /** The counter an online user is counted in. */
  datatype Bucket = Hidden | Visible

  predicate IsIgnored(row: Row, userIgnore: int) {
    row.userType == userIgnore
  }

  function BucketOf(row: Row, hiddenUsers: map<int, int>): Bucket {
    if row.userId in hiddenUsers then Hidden else Visible
  }

  // ---------------------------------------------------------------------
  // Specification of the board-index filter
  // ---------------------------------------------------------------------

  /** Number of rows of the ignored type, each occurrence counted. */
  function IgnoredCount(rows: seq<Row>, userIgnore: int): nat {
    if |rows| == 0 then 0
    else
      IgnoredCount(rows[..|rows| - 1], userIgnore)
      + (if IsIgnored(rows[|rows| - 1], userIgnore) then 1 else 0)
  }

  /** Number of rows of the ignored type whose user sits in bucket `b`. */
  function IgnoredInBucket(rows: seq<Row>, userIgnore: int, hiddenUsers: map<int, int>, b: Bucket): nat {
    if |rows| == 0 then 0
    else
      var last := rows[|rows| - 1];
      IgnoredInBucket(rows[..|rows| - 1], userIgnore, hiddenUsers, b)
      + (if IsIgnored(last, userIgnore) && BucketOf(last, hiddenUsers) == b then 1 else 0)
  }

  /** The user ids of the rows of the ignored type. */
  function IgnoredIds(rows: seq<Row>, userIgnore: int): set<int> {
    set i | 0 <= i < |rows| && IsIgnored(rows[i], userIgnore) :: rows[i].userId
  }

  /** A map without the entries keyed by `ids`; every other entry is kept as it was. */
  function RemoveIds<V>(m: map<int, V>, ids: set<int>): (r: map<int, V>)
    ensures r.Keys == m.Keys - ids
    ensures forall k :: k in r ==> r[k] == m[k]
  {
    m - ids
  }

  /**
   The summary left behind once every ignored row is taken out: each such
   row costs one from the total and one from the bucket its user is in
   according to the original `hidden_users`, and its id leaves the list.
   */
  function HideIgnored(ou: OnlineUsers, rows: seq<Row>, userIgnore: int): (r: OnlineUsers)
    ensures r.hiddenUsers == ou.hiddenUsers
    ensures forall i :: 0 <= i < |rows| && IsIgnored(rows[i], userIgnore) ==> rows[i].userId !in r.onlineUsers
    ensures forall k :: k in ou.onlineUsers && k !in IgnoredIds(rows, userIgnore) ==>
      k in r.onlineUsers && r.onlineUsers[k] == ou.onlineUsers[k]
    ensures r.onlineUsers.Keys <= ou.onlineUsers.Keys
  {
    OnlineUsers(
      RemoveIds(ou.onlineUsers, IgnoredIds(rows, userIgnore)),
      ou.hiddenUsers,
      ou.totalOnline - IgnoredCount(rows, userIgnore),
      ou.visibleOnline - IgnoredInBucket(rows, userIgnore, ou.hiddenUsers, Visible),
      ou.hiddenOnline - IgnoredInBucket(rows, userIgnore, ou.hiddenUsers, Hidden))
  }

  // ---------------------------------------------------------------------
  // The board-index handler
  // ---------------------------------------------------------------------

  /**
   core.obtain_users_online_string_before_modify: walks the rows and, for each
   row of the ignored type, decrements the hidden or visible counter and the
   total, and drops the user from the online list and from the link map.
   Administrators see everything: for them nothing changes.
   */
  method ObtainUsersOnlienStringBeforeModify(
    isAdmin: bool, userIgnore: int, rowset: seq<Row>,
    onlineUsers: OnlineUsers, userOnlineLink: map<int, string>)
    returns (newOnlineUsers: OnlineUsers, newUserOnlineLink: map<int, string>)
    ensures isAdmin ==> newOnlineUsers == onlineUsers && newUserOnlineLink == userOnlineLink
    ensures !isAdmin ==> newOnlineUsers == HideIgnored(onlineUsers, rowset, userIgnore)
    ensures !isAdmin ==> newUserOnlineLink == RemoveIds(userOnlineLink, IgnoredIds(rowset, userIgnore))
  {
    if isAdmin {
      return onlineUsers, userOnlineLink;
    }
    var ou := onlineUsers;
    var link := userOnlineLink;
    for i := 0 to |rowset|
      invariant ou.hiddenUsers == onlineUsers.hiddenUsers
      invariant ou.totalOnline == onlineUsers.totalOnline - IgnoredCount(rowset[..i], userIgnore)
      invariant ou.hiddenOnline
        == onlineUsers.hiddenOnline - IgnoredInBucket(rowset[..i], userIgnore, onlineUsers.hiddenUsers, Hidden)
      invariant ou.visibleOnline
        == onlineUsers.visibleOnline - IgnoredInBucket(rowset[..i], userIgnore, onlineUsers.hiddenUsers, Visible)
      invariant ou.onlineUsers == onlineUsers.onlineUsers - IgnoredIds(rowset[..i], userIgnore)
      invariant link == userOnlineLink - IgnoredIds(rowset[..i], userIgnore)
    {
      var row := rowset[i];
      PrefixStep(rowset, i, userIgnore, onlineUsers.hiddenUsers);
      if row.userType == userIgnore {
        RemoveOneMore(onlineUsers.onlineUsers, IgnoredIds(rowset[..i], userIgnore), row.userId);
        RemoveOneMore(userOnlineLink, IgnoredIds(rowset[..i], userIgnore), row.userId);
        if row.userId in ou.hiddenUsers {
          ou := ou.(hiddenOnline := ou.hiddenOnline - 1);
        } else {
          ou := ou.(visibleOnline := ou.visibleOnline - 1);
        }
        ou := ou.(totalOnline := ou.totalOnline - 1);
        ou := ou.(onlineUsers := ou.onlineUsers - {row.userId});
        link := link - {row.userId};
      }
    }
    assert rowset[..|rowset|] == rowset;
    ghost var spec := HideIgnored(onlineUsers, rowset, userIgnore);
    assert ou.onlineUsers == spec.onlineUsers && ou.totalOnline == spec.totalOnline;
    assert ou.hiddenOnline == spec.hiddenOnline && ou.visibleOnline == spec.visibleOnline;
    newOnlineUsers, newUserOnlineLink := ou, link;
  }

  /** Taking out one more key after a set of keys is taking out the larger set. */
  lemma RemoveOneMore<V>(m: map<int, V>, ids: set<int>, id: int)
    ensures m - ids - {id} == m - (ids + {id})
  {
  }

  /** What one more row of the rowset adds to the counts and ids of a prefix. */
  lemma PrefixStep(rows: seq<Row>, i: nat, userIgnore: int, hiddenUsers: map<int, int>)
    requires i < |rows|
    ensures IgnoredCount(rows[..i + 1], userIgnore)
      == IgnoredCount(rows[..i], userIgnore) + (if IsIgnored(rows[i], userIgnore) then 1 else 0)
    ensures IgnoredInBucket(rows[..i + 1], userIgnore, hiddenUsers, Hidden)
      == IgnoredInBucket(rows[..i], userIgnore, hiddenUsers, Hidden)
         + (if IsIgnored(rows[i], userIgnore) && rows[i].userId in hiddenUsers then 1 else 0)
    ensures IgnoredInBucket(rows[..i + 1], userIgnore, hiddenUsers, Visible)
      == IgnoredInBucket(rows[..i], userIgnore, hiddenUsers, Visible)
         + (if IsIgnored(rows[i], userIgnore) && rows[i].userId !in hiddenUsers then 1 else 0)
    ensures IgnoredIds(rows[..i + 1], userIgnore)
      == IgnoredIds(rows[..i], userIgnore) + (if IsIgnored(rows[i], userIgnore) then {rows[i].userId} else {})
  {
    var ext := rows[..i + 1];
    assert ext[..i] == rows[..i] && ext[i] == rows[i];
    LastRowIds(ext, userIgnore);
  }

  /** The ignored ids of a rowset are those of all but its last row, plus the last row's if it is ignored. */
  lemma LastRowIds(rows: seq<Row>, userIgnore: int)
    requires |rows| > 0
    ensures var n := |rows| - 1;
      IgnoredIds(rows, userIgnore)
      == IgnoredIds(rows[..n], userIgnore) + (if IsIgnored(rows[n], userIgnore) then {rows[n].userId} else {})
  {
    var n := |rows| - 1;
    var pre := rows[..n];
    forall id | id in IgnoredIds(rows, userIgnore)
      ensures id in IgnoredIds(pre, userIgnore) || (IsIgnored(rows[n], userIgnore) && id == rows[n].userId)
    {
      var j :| 0 <= j < |rows| && IsIgnored(rows[j], userIgnore) && rows[j].userId == id;
      if j < n {
        assert pre[j] == rows[j];
      }
    }
    forall id | id in IgnoredIds(pre, userIgnore)
      ensures id in IgnoredIds(rows, userIgnore)
    {
      var j :| 0 <= j < |pre| && IsIgnored(pre[j], userIgnore) && pre[j].userId == id;
      assert rows[j] == pre[j];
    }
  }

  // ---------------------------------------------------------------------
  // Properties of the board-index filter
  // ---------------------------------------------------------------------

  /**
   Rows are counted, not users: an ignored user listed in two rows costs
   two from the counters but leaves the online list only once.
   */
  lemma RepeatedIgnoredRowCountsTwice(ou: OnlineUsers, row: Row, userIgnore: int)
    requires IsIgnored(row, userIgnore)
    ensures var r := HideIgnored(ou, [row, row], userIgnore);
      r.totalOnline == ou.totalOnline - 2
      && r.onlineUsers == ou.onlineUsers - {row.userId}
  {
    var rows := [row, row];
    PrefixStep(rows, 0, userIgnore, map[]);
    PrefixStep(rows, 1, userIgnore, map[]);
    assert rows[..0] == [] && rows[..2] == rows;
    assert IgnoredIds([], userIgnore) == {};
  }

  /** Every ignored row is counted in exactly one of the two buckets. */
  lemma {:induction false} BucketsPartitionIgnored(rows: seq<Row>, userIgnore: int, hiddenUsers: map<int, int>)
    ensures IgnoredInBucket(rows, userIgnore, hiddenUsers, Hidden)
      + IgnoredInBucket(rows, userIgnore, hiddenUsers, Visible)
      == IgnoredCount(rows, userIgnore)
  {
    if |rows| > 0 {
      BucketsPartitionIgnored(rows[..|rows| - 1], userIgnore, hiddenUsers);
    }
  }

  /**
   The filter keeps `hidden_online + visible_online - total_online`, so a
   summary whose buckets add up to the total still does afterwards.
   */
  lemma HideIgnoredKeepsBalance(ou: OnlineUsers, rows: seq<Row>, userIgnore: int)
    ensures var r := HideIgnored(ou, rows, userIgnore);
      r.hiddenOnline + r.visibleOnline - r.totalOnline
      == ou.hiddenOnline + ou.visibleOnline - ou.totalOnline
    ensures var r := HideIgnored(ou, rows, userIgnore);
      ou.hiddenOnline + ou.visibleOnline == ou.totalOnline ==>
      r.hiddenOnline + r.visibleOnline == r.totalOnline
  {
    BucketsPartitionIgnored(rows, userIgnore, ou.hiddenUsers);
  }

  /** Counts and ids of a concatenation are those of its parts. */
  lemma {:induction false} CountsOfConcat(a: seq<Row>, b: seq<Row>, userIgnore: int, hiddenUsers: map<int, int>)
    ensures IgnoredCount(a + b, userIgnore) == IgnoredCount(a, userIgnore) + IgnoredCount(b, userIgnore)
    ensures forall k: Bucket ::
      (IgnoredInBucket(a + b, userIgnore, hiddenUsers, k)
       == IgnoredInBucket(a, userIgnore, hiddenUsers, k) + IgnoredInBucket(b, userIgnore, hiddenUsers, k))
    ensures IgnoredIds(a + b, userIgnore) == IgnoredIds(a, userIgnore) + IgnoredIds(b, userIgnore)
    decreases |b|
  {
    if |b| == 0 {
      assert a + b == a;
    } else {
      var b' := b[..|b| - 1];
      assert (a + b)[..|a + b| - 1] == a + b';
      CountsOfConcat(a, b', userIgnore, hiddenUsers);
    }
    IdsOfConcat(a, b, userIgnore);
  }

  lemma IdsOfConcat(a: seq<Row>, b: seq<Row>, userIgnore: int)
    ensures IgnoredIds(a + b, userIgnore) == IgnoredIds(a, userIgnore) + IgnoredIds(b, userIgnore)
  {
    var ab := a + b;
    forall id | id in IgnoredIds(ab, userIgnore)
      ensures id in IgnoredIds(a, userIgnore) + IgnoredIds(b, userIgnore)
    {
      var j :| 0 <= j < |ab| && IsIgnored(ab[j], userIgnore) && ab[j].userId == id;
      if j < |a| {
        assert ab[j] == a[j];
      } else {
        assert ab[j] == b[j - |a|];
      }
    }
    forall id | id in IgnoredIds(a, userIgnore) + IgnoredIds(b, userIgnore)
      ensures id in IgnoredIds(ab, userIgnore)
    {
      if id in IgnoredIds(a, userIgnore) {
        var j :| 0 <= j < |a| && IsIgnored(a[j], userIgnore) && a[j].userId == id;
        assert ab[j] == a[j];
      } else {
        var j :| 0 <= j < |b| && IsIgnored(b[j], userIgnore) && b[j].userId == id;
        assert ab[|a| + j] == b[j];
      }
    }
  }

  /**
   Filtering a rowset in two pieces, one after the other, is the same as
   filtering it at once: the bucket of each row depends only on
   `hidden_users`, which the filter never changes.
   */
  lemma HideIgnoredConcat(ou: OnlineUsers, a: seq<Row>, b: seq<Row>, userIgnore: int)
    ensures HideIgnored(HideIgnored(ou, a, userIgnore), b, userIgnore) == HideIgnored(ou, a + b, userIgnore)
  {
    CountsOfConcat(a, b, userIgnore, ou.hiddenUsers);
    var once := HideIgnored(ou, a + b, userIgnore);
    var twice := HideIgnored(HideIgnored(ou, a, userIgnore), b, userIgnore);
    assert twice.onlineUsers == once.onlineUsers;
  }

  /** A row that is not of the ignored type changes nothing, wherever it stands. */
  lemma NonIgnoredRowChangesNothing(ou: OnlineUsers, pre: seq<Row>, row: Row, post: seq<Row>, userIgnore: int)
    requires !IsIgnored(row, userIgnore)
    ensures HideIgnored(ou, pre + [row] + post, userIgnore) == HideIgnored(ou, pre + post, userIgnore)
    ensures IgnoredIds(pre + [row] + post, userIgnore) == IgnoredIds(pre + post, userIgnore)
  {
    var afterPre := HideIgnored(ou, pre, userIgnore);
    HideIgnoredConcat(ou, pre, [row], userIgnore);
    HideIgnoredConcat(ou, pre + [row], post, userIgnore);
    HideIgnoredConcat(ou, pre, post, userIgnore);
    NoIgnoredRowsNoChange(afterPre, [row], userIgnore);
    IdsOfConcat(pre + [row], post, userIgnore);
    IdsOfConcat(pre, [row], userIgnore);
    IdsOfConcat(pre, post, userIgnore);
    NoIgnoredRowsCountZero([row], userIgnore, map[]);
  }

  /** A rowset without ignored rows leaves the summary as it was. */
  lemma NoIgnoredRowsNoChange(ou: OnlineUsers, rows: seq<Row>, userIgnore: int)
    requires forall i :: 0 <= i < |rows| ==> !IsIgnored(rows[i], userIgnore)
    ensures HideIgnored(ou, rows, userIgnore) == ou
  {
    NoIgnoredRowsCountZero(rows, userIgnore, ou.hiddenUsers);
    assert ou.onlineUsers - {} == ou.onlineUsers;
  }

  lemma {:induction false} NoIgnoredRowsCountZero(rows: seq<Row>, userIgnore: int, hiddenUsers: map<int, int>)
    requires forall i :: 0 <= i < |rows| ==> !IsIgnored(rows[i], userIgnore)
    ensures IgnoredCount(rows, userIgnore) == 0
    ensures forall b: Bucket :: IgnoredInBucket(rows, userIgnore, hiddenUsers, b) == 0
    ensures IgnoredIds(rows, userIgnore) == {}
  {
    if |rows| > 0 {
      NoIgnoredRowsCountZero(rows[..|rows| - 1], userIgnore, hiddenUsers);
    }
  }

  /** No two ignored rows share a user id. */
  ghost predicate DistinctIgnoredIds(rows: seq<Row>, userIgnore: int) {
    forall i, j :: 0 <= i < j < |rows| && IsIgnored(rows[i], userIgnore) && IsIgnored(rows[j], userIgnore) ==>
      rows[i].userId != rows[j].userId
  }

  /** With no id repeated among the ignored rows, there are as many ids as ignored rows. */
  lemma {:induction false} DistinctIdsCount(rows: seq<Row>, userIgnore: int)
    requires DistinctIgnoredIds(rows, userIgnore)
    ensures |IgnoredIds(rows, userIgnore)| == IgnoredCount(rows, userIgnore)
    decreases |rows|
  {
    if |rows| > 0 {
      var n := |rows| - 1;
      var pre := rows[..n];
      DistinctPrefix(rows, userIgnore);
      DistinctIdsCount(pre, userIgnore);
      LastRowIds(rows, userIgnore);
      if IsIgnored(rows[n], userIgnore) {
        LastIgnoredIdIsNew(rows, userIgnore);
      }
    }
  }

  lemma DistinctPrefix(rows: seq<Row>, userIgnore: int)
    requires |rows| > 0 && DistinctIgnoredIds(rows, userIgnore)
    ensures DistinctIgnoredIds(rows[..|rows| - 1], userIgnore)
  {
    var pre := rows[..|rows| - 1];
    forall i, j | 0 <= i < j < |pre| ensures pre[i] == rows[i] && pre[j] == rows[j] { }
  }

  lemma LastIgnoredIdIsNew(rows: seq<Row>, userIgnore: int)
    requires DistinctIgnoredIds(rows, userIgnore)
    requires |rows| > 0 && IsIgnored(rows[|rows| - 1], userIgnore)
    ensures rows[|rows| - 1].userId !in IgnoredIds(rows[..|rows| - 1], userIgnore)
  {
    var n := |rows| - 1;
    var pre := rows[..n];
    forall j | 0 <= j < |pre| && IsIgnored(pre[j], userIgnore)
      ensures pre[j].userId != rows[n].userId
    {
      assert pre[j] == rows[j];
    }
  }

  /**
   When every ignored row stands for a distinct user who is on the list,
   the list shrinks by exactly as much as `total_online` drops.
   */
  lemma HideIgnoredShrinksListLikeTotal(ou: OnlineUsers, rows: seq<Row>, userIgnore: int)
    requires DistinctIgnoredIds(rows, userIgnore)
    requires forall i :: 0 <= i < |rows| && IsIgnored(rows[i], userIgnore) ==> rows[i].userId in ou.onlineUsers
    ensures var r := HideIgnored(ou, rows, userIgnore);
      |ou.onlineUsers| - |r.onlineUsers| == ou.totalOnline - r.totalOnline
  {
    var ids := IgnoredIds(rows, userIgnore);
    DistinctIdsCount(rows, userIgnore);
    var keys := ou.onlineUsers.Keys;
    assert ids <= keys;
    assert keys == (keys - ids) + ids;
    assert |keys| == |keys - ids| + |ids|;
    var r := HideIgnored(ou, rows, userIgnore);
    assert r.onlineUsers.Keys == keys - ids;
    assert |r.onlineUsers| == |r.onlineUsers.Keys|;
    assert |ou.onlineUsers| == |keys|;
  }

  /**
   The worked example: users 1 (normal) and 2 (a bot) are online and
   visible; a non-admin viewer is left with user 1 only.
   */
  lemma BoardIndexExample()
    ensures HideIgnored(OnlineUsers(map[1 := 1, 2 := 2], map[], 2, 2, 0), [Row(1, 0), Row(2, 2)], 2)
      == OnlineUsers(map[1 := 1], map[], 1, 1, 0)
    ensures RemoveIds(map[1 := "u1", 2 := "u2"], IgnoredIds([Row(1, 0), Row(2, 2)], 2)) == map[1 := "u1"]
  {
    var rows := [Row(1, 0), Row(2, 2)];
    PrefixStep(rows, 0, 2, map[]);
    PrefixStep(rows, 1, 2, map[]);
    assert rows[..0] == [] && rows[..2] == rows;
    assert IgnoredIds([], 2) == {};
    assert IgnoredCount(rows, 2) == 1;
    assert IgnoredInBucket(rows, 2, map[], Visible) == 1;
    assert IgnoredInBucket(rows, 2, map[], Hidden) == 0;
    assert IgnoredIds(rows, 2) == {2};
    assert map[1 := 1, 2 := 2] - {2} == map[1 := 1];
    assert map[1 := "u1", 2 := "u2"] - {2} == map[1 := "u1"];
  }

  // ---------------------------------------------------------------------
  // The two query handlers
  // ---------------------------------------------------------------------

  /**
   The text of the `WHERE` entry of a query-parts map; PHP reads a missing
   entry as null, which concatenates as the empty string.
   */
  function WhereOf(sqlAry: map<string, string>): string {
    if "WHERE" in sqlAry then sqlAry["WHERE"] else ""
  }

  /** The `WHERE` entry extended by `clause`; every other entry untouched. */
  function AppendToWhere(sqlAry: map<string, string>, clause: string): (r: map<string, string>)
    ensures r.Keys == sqlAry.Keys + {"WHERE"}
    ensures r["WHERE"] == WhereOf(sqlAry) + clause
    ensures forall k :: k in sqlAry && k != "WHERE" ==> r[k] == sqlAry[k]
  {
    sqlAry["WHERE" := WhereOf(sqlAry) + clause]
  }

  const ObtainClauseHead := " AND u.user_type <> "
  const ViewonlineClauseHead := " AND (u.user_type <> "
  const GuestClauseHead := " OR s.session_user_id = "

  /** The predicate excluding the ignored type from the board-index listing. */
  function ObtainUsersOnlineClause(userIgnore: int): string {
    ObtainClauseHead + IntString(userIgnore)
  }

  /**
   The predicate of the "who is online" page: exclude the ignored type, but
   let the anonymous pseudo-user through when guests are shown.
   */
  function ViewonlineClause(userIgnore: int, showGuests: bool, anonymous: int): string {
    ViewonlineClauseHead + IntString(userIgnore) + GuestTail(showGuests, anonymous)
  }

  /** What a `ViewonlineClause` text says: the excluded type and, if present, the admitted guest id. */
  datatype ViewonlineFilter = ViewonlineFilter(excludedType: int, admittedGuest: Option<int>)

  /** Reads back the user type a board-index predicate excludes. */
  function ParseObtainUsersOnlineClause(s: string): Option<int> {
    if !(ObtainClauseHead <= s) then None
    else
      match LeadingInt(s[|ObtainClauseHead|..])
      case Some((v, rest)) => if rest == [] then Some(v) else None
      case None => None
  }

  /** Reads back what a "who is online" page predicate excludes and admits. */
  function ParseViewonlineClause(s: string): Option<ViewonlineFilter> {
    if !(ViewonlineClauseHead <= s) then None
    else
      match LeadingInt(s[|ViewonlineClauseHead|..])
      case None => None
      case Some((excluded, rest)) =>
        match ParseGuestTail(rest)
        case None => None
        case Some(guest) => Some(ViewonlineFilter(excluded, guest))
  }

  /** Reads the end of a "who is online" predicate: `)`, or the admitted guest id and `)`. */
  function ParseGuestTail(s: string): Option<Option<int>> {
    if s == ")" then Some(None)
    else if !(GuestClauseHead <= s) then None
    else
      match LeadingInt(s[|GuestClauseHead|..])
      case None => None
      case Some((guest, tail)) => if tail == ")" then Some(Some(guest)) else None
  }

  /** Past a fixed head, a clause reads as the rendered integer and what follows it. */
  lemma AfterHead(head: string, n: int, t: string)
    ensures head <= head + IntString(n) + t
    ensures (head + IntString(n) + t)[|head|..] == IntString(n) + t
  {
    assert head + IntString(n) + t == head + (IntString(n) + t);
  }

  /** The board-index predicate names exactly the ignored type. */
  lemma ObtainUsersOnlineClauseRoundTrip(userIgnore: int)
    ensures ParseObtainUsersOnlineClause(ObtainUsersOnlineClause(userIgnore)) == Some(userIgnore)
  {
    AfterHead(ObtainClauseHead, userIgnore, []);
    assert ObtainClauseHead + IntString(userIgnore) + [] == ObtainUsersOnlineClause(userIgnore);
    LeadingIntOfIntString(userIgnore, []);
  }

  /**
   The "who is online" predicate names exactly the ignored type, and it
   admits a guest id exactly when guests are shown, that id being ANONYMOUS.
   */
  lemma ViewonlineClauseRoundTrip(userIgnore: int, showGuests: bool, anonymous: int)
    ensures ParseViewonlineClause(ViewonlineClause(userIgnore, showGuests, anonymous))
      == Some(ViewonlineFilter(userIgnore, if showGuests then Some(anonymous) else None))
  {
    var rest := GuestTail(showGuests, anonymous);
    AfterHead(ViewonlineClauseHead, userIgnore, rest);
    assert ViewonlineClauseHead + IntString(userIgnore) + rest == ViewonlineClause(userIgnore, showGuests, anonymous);
    GuestTailRoundTrip(showGuests, anonymous);
    LeadingIntOfIntString(userIgnore, rest);
  }

  /** The end of a "who is online" predicate, after the ignored type. */
  function GuestTail(showGuests: bool, anonymous: int): string {
    (if showGuests then GuestClauseHead + IntString(anonymous) else "") + ")"
  }

  lemma GuestTailRoundTrip(showGuests: bool, anonymous: int)
    ensures var s := GuestTail(showGuests, anonymous);
      |s| > 0 && !IsDigit(s[0]) && ParseGuestTail(s) == Some(if showGuests then Some(anonymous) else None)
  {
    if showGuests {
      AfterHead(GuestClauseHead, anonymous, ")");
      LeadingIntOfIntString(anonymous, ")");
    } else {
      assert GuestTail(showGuests, anonymous) == ")";
    }
  }

  /** What follows a prefix in a concatenation. */
  lemma AfterPrefix(a: string, b: string)
    ensures a <= a + b && (a + b)[|a|..] == b
  {
  }

  /**
   core.obtain_users_online_string_sql (not subscribed by the extension):
   for a non-admin viewer the `WHERE` entry keeps its old text as a prefix and
   gains the predicate excluding the ignored type; nothing else changes.
   */
  function ObtainUsersOnlineStringSql(isAdmin: bool, userIgnore: int, sqlAry: map<string, string>)
    : (r: map<string, string>)
    ensures isAdmin ==> r == sqlAry
    ensures !isAdmin ==> r.Keys == sqlAry.Keys + {"WHERE"}
    ensures !isAdmin ==> forall k :: k in sqlAry && k != "WHERE" ==> r[k] == sqlAry[k]
    ensures !isAdmin ==> WhereOf(sqlAry) <= r["WHERE"]
    ensures !isAdmin ==> r["WHERE"] == WhereOf(sqlAry) + ObtainUsersOnlineClause(userIgnore)
    ensures !isAdmin ==> ParseObtainUsersOnlineClause(r["WHERE"][|WhereOf(sqlAry)|..]) == Some(userIgnore)
  {
    if isAdmin then sqlAry
    else
      var r := AppendToWhere(sqlAry, ObtainUsersOnlineClause(userIgnore));
      AfterPrefix(WhereOf(sqlAry), ObtainUsersOnlineClause(userIgnore));
      ObtainUsersOnlineClauseRoundTrip(userIgnore);
      r
  }

  /**
   core.viewonline_modify_sql: for a non-admin viewer the `WHERE` entry keeps
   its old text as a prefix and gains the predicate excluding the ignored
   type, which admits ANONYMOUS exactly when guests are shown; nothing else
   changes.
   */
  function ViewonlineModifySql(
    isAdmin: bool, showGuests: bool, userIgnore: int, anonymous: int, sqlAry: map<string, string>)
    : (r: map<string, string>)
    ensures isAdmin ==> r == sqlAry
    ensures !isAdmin ==> r.Keys == sqlAry.Keys + {"WHERE"}
    ensures !isAdmin ==> forall k :: k in sqlAry && k != "WHERE" ==> r[k] == sqlAry[k]
    ensures !isAdmin ==> WhereOf(sqlAry) <= r["WHERE"]
    ensures !isAdmin ==> r["WHERE"] == WhereOf(sqlAry) + ViewonlineClause(userIgnore, showGuests, anonymous)
    ensures !isAdmin ==>
      ParseViewonlineClause(r["WHERE"][|WhereOf(sqlAry)|..])
      == Some(ViewonlineFilter(userIgnore, if showGuests then Some(anonymous) else None))
  {
    if isAdmin then sqlAry
    else
      var clause := ViewonlineClause(userIgnore, showGuests, anonymous);
      var r := AppendToWhere(sqlAry, clause);
      AfterPrefix(WhereOf(sqlAry), clause);
      ViewonlineClauseRoundTrip(userIgnore, showGuests, anonymous);
      r
  }
}
