// The bot's database tables as values, and what each query in
// repository/repository.go selects from them. The Store class in
// repository.dfy keeps these tables as fields; its methods are specified by
// the functions below, and the properties of the queries are lemmas here.
//
// A row's id is its position plus one (SERIAL), and "ORDER BY created_at"
// is modelled as insertion order: newest inserted first for DESC. The two
// agree while created_at does not decrease along the table
// (NewestFirstByCreatedAt, InsertedKeepsClockOrder). PostGIS is a pair of
// functions (Geo) supplied from outside.
module Tables {
  import opened Wrappers
  import opened Objects

  /** A geographic point, latitude and longitude in degrees. */
  datatype Point = Point(lat: real, lon: real)

  /**
   * The geography the database computes: within(a, b, km) is
   * ST_DWithin(a, b, km * 1000) and distance(a, b) is ST_Distance(a, b).
   */
  datatype Geo = Geo(within: (Point, Point, int) -> bool, distance: (Point, Point) -> real)

  // ---------------------------------------------------------------- users

  /**
   * A row of the users table. The lat/lon columns (coords) are NULL or set
   * together; geog is the PostGIS point that proximity queries use, written
   * by a separate statement in SaveUser.
   */
  datatype UserRow = UserRow(
    userId: int,
    menuId: int,
    username: string,
    firstName: string,
    lastName: string,
    languageCode: string,
    coords: Option<Point>,
    geog: Option<Point>,
    searchRadiusKm: Option<int>,
    phoneNumber: string)

  /** The User FindUser builds from a row: NULL coordinates read as 0. */
  function ToUser(r: UserRow): (u: User)
    ensures u.userId == r.userId && u.menuId == r.menuId && u.languageCode == r.languageCode
    ensures r.coords.None? ==> u.lat == 0.0 && u.lon == 0.0
    ensures r.coords.Some? ==> u.lat == r.coords.value.lat && u.lon == r.coords.value.lon
  {
    User(r.userId, r.menuId, r.username, r.firstName, r.lastName, r.languageCode,
      if r.coords.Some? then r.coords.value.lon else 0.0,
      if r.coords.Some? then r.coords.value.lat else 0.0,
      r.searchRadiusKm, r.phoneNumber)
  }

  /** SaveUser stores the coordinates as NULL exactly when both are 0. */
  function StoredCoords(u: User): (p: Option<Point>)
    ensures p.None? <==> (u.lat == 0.0 && u.lon == 0.0)
  {
    if u.lon != 0.0 || u.lat != 0.0 then Some(Point(u.lat, u.lon)) else None
  }

  /** The row after SaveUser's upsert, before the geog statement: geog is kept (NULL for a new row). */
  function UpsertedRow(users: map<int, UserRow>, u: User): UserRow
  {
    UserRow(u.userId, u.menuId, u.username, u.firstName, u.lastName, u.languageCode,
      StoredCoords(u), if u.userId in users then users[u.userId].geog else None,
      u.searchRadiusKm, u.phoneNumber)
  }

  /** The row after both of SaveUser's statements: geog follows the coordinates. */
  function SavedRow(u: User): UserRow
  {
    UserRow(u.userId, u.menuId, u.username, u.firstName, u.lastName, u.languageCode,
      StoredCoords(u), StoredCoords(u), u.searchRadiusKm, u.phoneNumber)
  }

  /** What FindUser reads back for an id. */
  function UserIn(users: map<int, UserRow>, uid: int): Option<User>
  {
    if uid in users then Some(ToUser(users[uid])) else None
  }

  /** Saving a user and reading it back gives every field back, (0, 0) included. */
  lemma SavedUserReadsBack(users: map<int, UserRow>, u: User)
    ensures UserIn(users[u.userId := SavedRow(u)], u.userId) == Some(u)
    ensures ToUser(UpsertedRow(users, u)) == u
  {
  }

  /** The geog a saved user has is set exactly when a proximity query can find it. */
  lemma SavedGeogIsNullAtOrigin(u: User)
    ensures SavedRow(u).geog.None? <==> (u.lat == 0.0 && u.lon == 0.0)
    ensures SavedRow(u).geog.Some? ==> SavedRow(u).geog.value == Point(u.lat, u.lon)
  {
  }

  /** UpdateUserLocation's UPDATE: lat, lon and geog of an existing row (no row, no change). */
  function Relocated(users: map<int, UserRow>, uid: int, p: Point): (r: map<int, UserRow>)
    ensures r.Keys == users.Keys
    ensures uid in users ==> r[uid] == users[uid].(coords := Some(p), geog := Some(p))
    ensures forall k | k in users && k != uid :: r[k] == users[k]
  {
    if uid in users then users[uid := users[uid].(coords := Some(p), geog := Some(p))] else users
  }

  /** UpdateUserSearchRadius's UPDATE: the radius of an existing row. */
  function WithRadius(users: map<int, UserRow>, uid: int, radiusKm: int): (r: map<int, UserRow>)
    ensures r.Keys == users.Keys
    ensures uid in users ==> r[uid] == users[uid].(searchRadiusKm := Some(radiusKm))
    ensures forall k | k in users && k != uid :: r[k] == users[k]
  {
    if uid in users then users[uid := users[uid].(searchRadiusKm := Some(radiusKm))] else users
  }

  /**
   * UpdateUserLocation's verdict from the user read before the update: the
   * user existed, has a search radius, and had no location or another one.
   */
  predicate LocationTrigger(before: Option<User>, lat: real, lon: real)
  {
    before.Some? && before.value.searchRadiusKm.Some?
    && (!(before.value.lat != 0.0 || before.value.lon != 0.0) || before.value.lat != lat || before.value.lon != lon)
  }

  /**
   * Sending the same non-zero location twice triggers at most once: after
   * the update, the stored user already has these coordinates.
   */
  lemma RelocateThenSameLocation(users: map<int, UserRow>, uid: int, lat: real, lon: real)
    requires lat != 0.0 || lon != 0.0
    ensures !LocationTrigger(UserIn(Relocated(users, uid, Point(lat, lon)), uid), lat, lon)
  {
  }

  /** A user without a stored location who has a radius always triggers. */
  lemma FirstLocationTriggers(users: map<int, UserRow>, uid: int, lat: real, lon: real)
    requires uid in users && users[uid].coords.None? && users[uid].searchRadiusKm.Some?
    ensures LocationTrigger(UserIn(users, uid), lat, lon)
  {
  }

  /** The users table is keyed by userId, and order lists each key once (physical row order). */
  ghost predicate UsersWellFormed(users: map<int, UserRow>, order: seq<int>)
  {
    (forall k | k in users :: users[k].userId == k)
    && (forall i | 0 <= i < |order| :: order[i] in users)
    && (forall k | k in users :: k in order)
    && (forall i, j | 0 <= i < j < |order| :: order[i] != order[j])
  }

  /** The row order after an upsert: a new key is appended, an existing one stays where it is. */
  function UpsertOrder(users: map<int, UserRow>, order: seq<int>, uid: int): seq<int>
  {
    if uid in users then order else order + [uid]
  }

  lemma UpsertKeepsWellFormed(users: map<int, UserRow>, order: seq<int>, r: UserRow)
    requires UsersWellFormed(users, order)
    ensures UsersWellFormed(users[r.userId := r], UpsertOrder(users, order, r.userId))
  {
  }

  /** A row FindUsersInRadius and CountUsersInRadius select: geog set and within range. */
  predicate InRadius(geo: Geo, centre: Point, radiusKm: int, r: UserRow)
  {
    r.geog.Some? && geo.within(r.geog.value, centre, radiusKm)
  }

  /** The selected rows in physical order. */
  function NearbyRows(users: map<int, UserRow>, order: seq<int>, geo: Geo, centre: Point, radiusKm: int): seq<UserRow>
    decreases |order|
  {
    if order == [] then []
    else
      (if order[0] in users && InRadius(geo, centre, radiusKm, users[order[0]]) then [users[order[0]]] else [])
      + NearbyRows(users, order[1..], geo, centre, radiusKm)
  }

  lemma {:induction false} NearbyRowsMembers(users: map<int, UserRow>, order: seq<int>, geo: Geo, centre: Point, radiusKm: int)
    requires forall k | k in users :: users[k].userId == k
    ensures forall r | r in NearbyRows(users, order, geo, centre, radiusKm) ::
      r.userId in order && r.userId in users && users[r.userId] == r && InRadius(geo, centre, radiusKm, r)
    ensures forall k | k in order && k in users && InRadius(geo, centre, radiusKm, users[k]) ::
      users[k] in NearbyRows(users, order, geo, centre, radiusKm)
    decreases |order|
  {
    if order != [] {
      NearbyRowsMembers(users, order[1..], geo, centre, radiusKm);
      forall k | k in order && k in users && InRadius(geo, centre, radiusKm, users[k])
        ensures users[k] in NearbyRows(users, order, geo, centre, radiusKm)
      {
        if k != order[0] {
          assert k in order[1..];
        }
      }
    }
  }

  /** No two rows in s belong to the same user. */
  predicate DistinctUsers(s: seq<UserRow>)
  {
    forall i, j | 0 <= i < j < |s| :: s[i].userId != s[j].userId
  }

  lemma {:induction false} NearbyRowsDistinct(users: map<int, UserRow>, order: seq<int>, geo: Geo, centre: Point, radiusKm: int)
    requires forall k | k in users :: users[k].userId == k
    requires forall i, j | 0 <= i < j < |order| :: order[i] != order[j]
    ensures DistinctUsers(NearbyRows(users, order, geo, centre, radiusKm))
    decreases |order|
  {
    if order != [] {
      var rest := NearbyRows(users, order[1..], geo, centre, radiusKm);
      NearbyRowsDistinct(users, order[1..], geo, centre, radiusKm);
      NearbyRowsMembers(users, order[1..], geo, centre, radiusKm);
      assert order[0] !in order[1..];
      var head := if order[0] in users && InRadius(geo, centre, radiusKm, users[order[0]]) then [users[order[0]]] else [];
      forall r | r in head ensures forall x | x in rest :: x.userId != r.userId {
        forall x | x in rest ensures x.userId != r.userId {
          assert x.userId in order[1..];
        }
      }
      assert NearbyRows(users, order, geo, centre, radiusKm) == head + rest;
    }
  }

  /** The distance ST_Distance sorts by: from the row's geog to the centre. */
  function RowDistance(geo: Geo, centre: Point, r: UserRow): real
  {
    if r.geog.Some? then geo.distance(r.geog.value, centre) else 0.0
  }

  predicate SortedByDistance(geo: Geo, centre: Point, s: seq<UserRow>)
  {
    forall i, j | 0 <= i < j < |s| :: RowDistance(geo, centre, s[i]) <= RowDistance(geo, centre, s[j])
  }

  /** Insert r before the first row that is farther away, so after any row at its own distance. */
  function InsertByDistance(geo: Geo, centre: Point, r: UserRow, s: seq<UserRow>): (t: seq<UserRow>)
    ensures |t| == |s| + 1
    ensures forall x :: x in t <==> x == r || x in s
    ensures multiset(t) == multiset(s) + multiset{r}
    decreases |s|
  {
    if s == [] || RowDistance(geo, centre, r) < RowDistance(geo, centre, s[0]) then [r] + s
    else
      assert s == [s[0]] + s[1..];
      [s[0]] + InsertByDistance(geo, centre, r, s[1..])
  }

  /**
   * ORDER BY ST_Distance: an insertion sort on the distance that keeps the
   * multiset of rows. The query has no tie-break, so rows at equal distance
   * may come in any order; here they come out in reverse input order.
   */
  function SortByDistance(geo: Geo, centre: Point, s: seq<UserRow>): (t: seq<UserRow>)
    ensures |t| == |s|
    ensures forall x :: x in t <==> x in s
    ensures multiset(t) == multiset(s)
    decreases |s|
  {
    if s == [] then []
    else
      assert s == [s[0]] + s[1..];
      InsertByDistance(geo, centre, s[0], SortByDistance(geo, centre, s[1..]))
  }

  lemma {:induction false} InsertByDistanceSorted(geo: Geo, centre: Point, r: UserRow, s: seq<UserRow>)
    requires SortedByDistance(geo, centre, s)
    ensures SortedByDistance(geo, centre, InsertByDistance(geo, centre, r, s))
    decreases |s|
  {
    if s != [] && RowDistance(geo, centre, r) >= RowDistance(geo, centre, s[0]) {
      InsertByDistanceSorted(geo, centre, r, s[1..]);
      var t := InsertByDistance(geo, centre, r, s[1..]);
      forall x | x in t ensures RowDistance(geo, centre, s[0]) <= RowDistance(geo, centre, x) {
        if x != r {
          var i :| 0 <= i < |s[1..]| && s[1..][i] == x;
          assert s[i + 1] == x;
        }
      }
    }
  }

  lemma {:induction false} InsertByDistanceDistinct(geo: Geo, centre: Point, r: UserRow, s: seq<UserRow>)
    requires DistinctUsers(s)
    requires forall x | x in s :: x.userId != r.userId
    ensures DistinctUsers(InsertByDistance(geo, centre, r, s))
    decreases |s|
  {
    if s != [] && RowDistance(geo, centre, r) >= RowDistance(geo, centre, s[0]) {
      InsertByDistanceDistinct(geo, centre, r, s[1..]);
      var t := InsertByDistance(geo, centre, r, s[1..]);
      forall x | x in t ensures x.userId != s[0].userId {
        if x != r {
          var i :| 0 <= i < |s[1..]| && s[1..][i] == x;
          assert s[i + 1] == x;
        }
      }
    }
  }

  /** The sorted rows are in distance order, and each user is there once. */
  lemma {:induction false} SortByDistanceCorrect(geo: Geo, centre: Point, s: seq<UserRow>)
    requires DistinctUsers(s)
    ensures SortedByDistance(geo, centre, SortByDistance(geo, centre, s))
    ensures DistinctUsers(SortByDistance(geo, centre, s))
    decreases |s|
  {
    if s != [] {
      SortByDistanceCorrect(geo, centre, s[1..]);
      InsertByDistanceSorted(geo, centre, s[0], SortByDistance(geo, centre, s[1..]));
      forall x | x in SortByDistance(geo, centre, s[1..]) ensures x.userId != s[0].userId {
        var i :| 0 <= i < |s[1..]| && s[1..][i] == x;
        assert s[i + 1] == x;
      }
      InsertByDistanceDistinct(geo, centre, s[0], SortByDistance(geo, centre, s[1..]));
    }
  }

  /** FindUsersInRadius before conversion: the selected rows, nearest first. */
  function RadiusRows(users: map<int, UserRow>, order: seq<int>, geo: Geo, centre: Point, radiusKm: int): seq<UserRow>
  {
    SortByDistance(geo, centre, NearbyRows(users, order, geo, centre, radiusKm))
  }

  /** Each row of the result converted to a User. */
  function ToUsers(rows: seq<UserRow>): (us: seq<User>)
    ensures |us| == |rows|
    ensures forall i | 0 <= i < |rows| :: us[i] == ToUser(rows[i])
  {
    seq(|rows|, i requires 0 <= i < |rows| => ToUser(rows[i]))
  }

  /**
   * What FindUsersInRadius returns: exactly the users whose geog is within
   * the radius, each once, ordered by distance, with their stored fields.
   */
  lemma RadiusRowsCorrect(users: map<int, UserRow>, order: seq<int>, geo: Geo, centre: Point, radiusKm: int)
    requires UsersWellFormed(users, order)
    ensures var rs := RadiusRows(users, order, geo, centre, radiusKm);
      SortedByDistance(geo, centre, rs) && DistinctUsers(rs)
      && (forall r | r in rs :: r.userId in users && users[r.userId] == r && InRadius(geo, centre, radiusKm, r))
      && (forall k | k in users && InRadius(geo, centre, radiusKm, users[k]) :: users[k] in rs)
      && |rs| == |NearbyRows(users, order, geo, centre, radiusKm)|
  {
    NearbyRowsMembers(users, order, geo, centre, radiusKm);
    NearbyRowsDistinct(users, order, geo, centre, radiusKm);
    SortByDistanceCorrect(geo, centre, NearbyRows(users, order, geo, centre, radiusKm));
  }

  // ------------------------------------------------------------- exchanges

  /** Row ids are SERIAL: the row at position i has id i + 1. */
  predicate SerialIds(rows: seq<Exchange>)
  {
    forall i | 0 <= i < |rows| :: rows[i].id == i + 1
  }

  predicate SerialTimelineIds(rows: seq<TimelineRecord>)
  {
    forall i | 0 <= i < |rows| :: rows[i].id == i + 1
  }

  /**
   * The rows a query keeps, newest first (reverse insertion order): the
   * result of "WHERE keep ORDER BY created_at DESC".
   */
  function NewestFirst<T(!new)>(rows: seq<T>, keep: T -> bool): (r: seq<T>)
    ensures |r| <= |rows|
    ensures forall x :: x in r <==> x in rows && keep(x)
    decreases |rows|
  {
    if rows == [] then [] else NewestFirst(rows[1..], keep) + (if keep(rows[0]) then [rows[0]] else [])
  }

  lemma {:induction false} NewestFirstConcat<T(!new)>(a: seq<T>, b: seq<T>, keep: T -> bool)
    ensures NewestFirst(a + b, keep) == NewestFirst(b, keep) + NewestFirst(a, keep)
    decreases |a|
  {
    if a == [] {
      assert a + b == b;
    } else {
      assert (a + b)[1..] == a[1..] + b;
      assert (a + b)[0] == a[0];
      NewestFirstConcat(a[1..], b, keep);
    }
  }

  /** Ids strictly decrease along the sequence: newest row first. */
  predicate IdsDecrease(rows: seq<Exchange>)
  {
    forall i, j | 0 <= i < j < |rows| :: rows[i].id > rows[j].id
  }

  /** Rows inserted in increasing id order come out in strictly decreasing id order. */
  lemma {:induction false} NewestFirstDescending(rows: seq<Exchange>, keep: Exchange -> bool)
    requires IdsIncrease(rows)
    ensures IdsDecrease(NewestFirst(rows, keep))
    decreases |rows|
  {
    if rows != [] {
      assert IdsIncrease(rows[1..]);
      NewestFirstDescending(rows[1..], keep);
      var tail := NewestFirst(rows[1..], keep);
      forall x | x in tail ensures x.id > rows[0].id {
        assert x in rows[1..];
        var i :| 0 <= i < |rows[1..]| && rows[1..][i] == x;
        assert rows[i + 1] == x;
      }
      var nf := NewestFirst(rows, keep);
      assert nf == tail + (if keep(rows[0]) then [rows[0]] else []);
      forall i, j | 0 <= i < j < |nf| ensures nf[i].id > nf[j].id {
        assert nf[i] == tail[i];
        if j < |tail| {
          assert nf[j] == tail[j];
        } else {
          assert nf[j] == rows[0];
          assert tail[i] in tail;
        }
      }
    }
  }

  /** GetUserExchanges / GetLastUserExchange: the user's rows that are not soft-deleted. */
  function OwnActive(uid: int): Exchange -> bool
  {
    (e: Exchange) => !e.isDeleted && e.userId == uid
  }

  /** GetActiveExchanges: every row that is not soft-deleted. */
  function Active(): Exchange -> bool
  {
    (e: Exchange) => !e.isDeleted
  }

  /** The newest user exchange, as "ORDER BY created_at DESC LIMIT 1": none when there is none. */
  function LastOwnActive(rows: seq<Exchange>, uid: int): Option<Exchange>
  {
    var nf := NewestFirst(rows, OwnActive(uid));
    if nf == [] then None else Some(nf[0])
  }

  /**
   * GetLastUserExchange yields none exactly when the user has no live
   * exchange; otherwise a live exchange of the user with the largest id.
   */
  lemma LastOwnActiveCorrect(rows: seq<Exchange>, uid: int)
    requires SerialIds(rows)
    ensures LastOwnActive(rows, uid).None? <==> (forall e | e in rows :: e.isDeleted || e.userId != uid)
    ensures LastOwnActive(rows, uid).Some? ==>
      var e := LastOwnActive(rows, uid).value;
      e in rows && !e.isDeleted && e.userId == uid
      && (forall x | x in rows && !x.isDeleted && x.userId == uid :: x.id <= e.id)
  {
    assert IdsIncrease(rows);
    NewestFirstDescending(rows, OwnActive(uid));
    var nf := NewestFirst(rows, OwnActive(uid));
    if nf != [] {
      assert nf[0] in nf;
      assert nf[0] in rows && OwnActive(uid)(nf[0]);
      forall x | x in rows && !x.isDeleted && x.userId == uid ensures x.id <= nf[0].id {
        assert OwnActive(uid)(x);
        var j :| 0 <= j < |nf| && nf[j] == x;
        if j > 0 {
          assert nf[0].id > nf[j].id;
        }
      }
    } else {
      forall e | e in rows ensures e.isDeleted || e.userId != uid {
        assert !OwnActive(uid)(e);
      }
    }
  }

  /** created_at does not decrease along the table: rows were inserted under a clock that never runs back. */
  predicate CreatedAtNonDecreasing(rows: seq<Exchange>)
  {
    forall i, j | 0 <= i < j < |rows| :: rows[i].createdAt <= rows[j].createdAt
  }

  predicate CreatedAtNonIncreasing(rows: seq<Exchange>)
  {
    forall i, j | 0 <= i < j < |rows| :: rows[i].createdAt >= rows[j].createdAt
  }

  /**
   * Where created_at follows insertion order, newest-first by insertion is
   * "ORDER BY created_at DESC": created_at does not increase along the result.
   */
  lemma {:induction false} NewestFirstByCreatedAt(rows: seq<Exchange>, keep: Exchange -> bool)
    requires CreatedAtNonDecreasing(rows)
    ensures CreatedAtNonIncreasing(NewestFirst(rows, keep))
    decreases |rows|
  {
    if rows != [] {
      assert CreatedAtNonDecreasing(rows[1..]);
      NewestFirstByCreatedAt(rows[1..], keep);
      var tail := NewestFirst(rows[1..], keep);
      forall x | x in tail ensures x.createdAt >= rows[0].createdAt {
        assert x in rows[1..];
        var i :| 0 <= i < |rows[1..]| && rows[1..][i] == x;
        assert rows[i + 1] == x;
      }
      var nf := NewestFirst(rows, keep);
      assert nf == tail + (if keep(rows[0]) then [rows[0]] else []);
      forall i, j | 0 <= i < j < |nf| ensures nf[i].createdAt >= nf[j].createdAt {
        assert nf[i] == tail[i];
        if j < |tail| {
          assert nf[j] == tail[j];
        } else {
          assert nf[j] == rows[0];
          assert tail[i] in tail;
        }
      }
    }
  }

  /** GetExchangeByID: the row with that id unless it is missing or soft-deleted. */
  function LiveExchange(rows: seq<Exchange>, id: int): (r: Option<Exchange>)
    ensures r.Some? ==> !r.value.isDeleted && r.value in rows
  {
    if 1 <= id <= |rows| && !rows[id - 1].isDeleted then Some(rows[id - 1]) else None
  }

  /** The row stored by CreateExchange: the next id, created_at defaulted to now, deleted_at NULL. */
  function InsertedExchange(rows: seq<Exchange>, e: Exchange, now: int): (s: Exchange)
    ensures s.id == |rows| + 1 && s.deletedAt == None
    ensures s.userId == e.userId && s.direction == e.direction && s.status == e.status
    ensures s.amountUsd == e.amountUsd && s.lat == e.lat && s.lon == e.lon && s.isDeleted == e.isDeleted
    ensures s.createdAt == (if e.createdAt == 0 then now else e.createdAt)
  {
    e.(id := |rows| + 1, createdAt := if e.createdAt == 0 then now else e.createdAt, deletedAt := None)
  }

  /**
   * An insert keeps created_at in insertion order exactly when its created_at
   * (the caller's, or now) is no earlier than every stored row's.
   */
  lemma InsertedKeepsClockOrder(rows: seq<Exchange>, e: Exchange, now: int)
    requires CreatedAtNonDecreasing(rows)
    ensures CreatedAtNonDecreasing(rows + [InsertedExchange(rows, e, now)]) <==>
      forall x | x in rows :: x.createdAt <= InsertedExchange(rows, e, now).createdAt
  {
    var t := rows + [InsertedExchange(rows, e, now)];
    if forall x | x in rows :: x.createdAt <= InsertedExchange(rows, e, now).createdAt {
      forall i, j | 0 <= i < j < |t| ensures t[i].createdAt <= t[j].createdAt {
        if j == |rows| {
          assert t[i] == rows[i];
          assert rows[i] in rows;
        }
      }
    } else {
      var x :| x in rows && x.createdAt > InsertedExchange(rows, e, now).createdAt;
      var i :| 0 <= i < |rows| && rows[i] == x;
      assert t[i] == x && t[|rows|] == InsertedExchange(rows, e, now);
    }
  }

  /** A created, undeleted exchange can be read back by its new id. */
  lemma CreatedExchangeReadsBack(rows: seq<Exchange>, e: Exchange, now: int)
    requires !e.isDeleted
    ensures LiveExchange(rows + [InsertedExchange(rows, e, now)], |rows| + 1) == Some(InsertedExchange(rows, e, now))
  {
  }

  /** UpdateExchangeStatus: the status of the row with that id, deleted or not. */
  function WithStatus(rows: seq<Exchange>, id: int, status: string): (r: seq<Exchange>)
    ensures |r| == |rows|
    ensures forall i | 0 <= i < |rows| :: r[i] == (if i == id - 1 then rows[i].(status := status) else rows[i])
  {
    if 1 <= id <= |rows| then rows[id - 1 := rows[id - 1].(status := status)] else rows
  }

  /**
   * UpdateExchange: direction, status, amount, coordinates and the deletion
   * columns of the row with e's id are taken from e; its owner and creation
   * time stay. There is no is_deleted filter.
   */
  function WithExchange(rows: seq<Exchange>, e: Exchange): (r: seq<Exchange>)
    ensures |r| == |rows|
    ensures forall i | 0 <= i < |rows| && i != e.id - 1 :: r[i] == rows[i]
    ensures 1 <= e.id <= |rows| ==>
      r[e.id - 1] == e.(id := rows[e.id - 1].id, userId := rows[e.id - 1].userId, createdAt := rows[e.id - 1].createdAt)
  {
    if 1 <= e.id <= |rows| then
      rows[e.id - 1 := rows[e.id - 1].(direction := e.direction, status := e.status, amountUsd := e.amountUsd,
        lat := e.lat, lon := e.lon, isDeleted := e.isDeleted, deletedAt := e.deletedAt)]
    else rows
  }

  /** SoftDeleteExchange: marks the row deleted at `now` only if it is not deleted yet. */
  function SoftDeleted(rows: seq<Exchange>, id: int, now: int): seq<Exchange>
  {
    if 1 <= id <= |rows| && !rows[id - 1].isDeleted then
      rows[id - 1 := rows[id - 1].(isDeleted := true, deletedAt := Some(now))]
    else rows
  }

  /**
   * After a soft delete the exchange is gone for GetExchangeByID, every other
   * exchange reads as before, and no row other than this one changed.
   */
  lemma SoftDeletedHides(rows: seq<Exchange>, id: int, now: int)
    ensures LiveExchange(SoftDeleted(rows, id, now), id) == None
    ensures forall other | other != id :: LiveExchange(SoftDeleted(rows, id, now), other) == LiveExchange(rows, other)
    ensures |SoftDeleted(rows, id, now)| == |rows|
    ensures forall i | 0 <= i < |rows| && i != id - 1 :: SoftDeleted(rows, id, now)[i] == rows[i]
  {
  }

  /** Soft delete is idempotent: a second call (at any time) changes nothing, deleted_at included. */
  lemma SoftDeletedIdempotent(rows: seq<Exchange>, id: int, now: int, later: int)
    ensures SoftDeleted(SoftDeleted(rows, id, now), id, later) == SoftDeleted(rows, id, now)
  {
  }

  /** An unknown or already deleted id is a no-op (no error either). */
  lemma SoftDeletedNoOp(rows: seq<Exchange>, id: int, now: int)
    requires !(1 <= id <= |rows|) || rows[id - 1].isDeleted
    ensures SoftDeleted(rows, id, now) == rows
  {
  }

  // ------------------------------------------------- historical exchanges

  const SecondsPerDay: int := 86400

  /** The look-back windows FindHistoricalExchangesInRadius tries, in days. */
  const HistoricalWindows: seq<int> := [3, 7, 14, 30]

  const HistoricalLimit: nat := 10

  /** The WHERE clause of the historical query for one window start. */
  function Candidate(geo: Geo, centre: Point, radiusKm: int, exclude: int, since: int): Exchange -> bool
  {
    (e: Exchange) => !e.isDeleted && e.status == ExchangeStatusPosted && e.userId != exclude
      && e.createdAt >= since && geo.within(Point(e.lat, e.lon), centre, radiusKm)
  }

  /** The rows a predicate keeps, in insertion order. */
  function Filter<T(!new)>(rows: seq<T>, keep: T -> bool): (r: seq<T>)
    ensures |r| <= |rows|
    ensures forall x :: x in r <==> x in rows && keep(x)
    decreases |rows|
  {
    if rows == [] then [] else (if keep(rows[0]) then [rows[0]] else []) + Filter(rows[1..], keep)
  }

  predicate IdsIncrease(rows: seq<Exchange>)
  {
    forall i, j | 0 <= i < j < |rows| :: rows[i].id < rows[j].id
  }

  lemma {:induction false} FilterIdsIncrease(rows: seq<Exchange>, keep: Exchange -> bool)
    requires IdsIncrease(rows)
    ensures IdsIncrease(Filter(rows, keep))
    decreases |rows|
  {
    if rows != [] {
      FilterIdsIncrease(rows[1..], keep);
      forall x | x in Filter(rows[1..], keep) ensures rows[0].id < x.id {
        var i :| 0 <= i < |rows[1..]| && rows[1..][i] == x;
        assert rows[i + 1] == x;
      }
    }
  }

  predicate AuthorIn(uid: int, s: seq<Exchange>)
  {
    exists e | e in s :: e.userId == uid
  }

  /** ROW_NUMBER() OVER (PARTITION BY user_id ORDER BY created_at DESC) = 1: each author's last row. */
  function LatestPerAuthor(m: seq<Exchange>): (r: seq<Exchange>)
    ensures forall x | x in r :: x in m
    decreases |m|
  {
    if m == [] then []
    else (if AuthorIn(m[0].userId, m[1..]) then [] else [m[0]]) + LatestPerAuthor(m[1..])
  }

  /** The last row of m is always kept, so a non-empty input gives a non-empty result. */
  lemma {:induction false} LatestPerAuthorNonEmpty(m: seq<Exchange>)
    requires m != []
    ensures LatestPerAuthor(m) != []
    ensures m[|m| - 1] in LatestPerAuthor(m)
    decreases |m|
  {
    if |m| == 1 {
      assert m[1..] == [];
    } else {
      LatestPerAuthorNonEmpty(m[1..]);
      assert m[1..][|m[1..]| - 1] == m[|m| - 1];
    }
  }

  /** LatestPerAuthor keeps insertion order. */
  lemma {:induction false} LatestPerAuthorIdsIncrease(m: seq<Exchange>)
    requires IdsIncrease(m)
    ensures IdsIncrease(LatestPerAuthor(m))
    decreases |m|
  {
    if m != [] {
      LatestPerAuthorIdsIncrease(m[1..]);
      var rest := LatestPerAuthor(m[1..]);
      forall x | x in rest ensures m[0].id < x.id {
        assert x in m[1..];
        var i :| 0 <= i < |m[1..]| && m[1..][i] == x;
        assert m[i + 1] == x;
      }
      if !AuthorIn(m[0].userId, m[1..]) {
        PrependIdsIncrease(m[0], rest);
      }
    }
  }

  /** A row older than every row of an increasing sequence can go in front of it. */
  lemma PrependIdsIncrease(x: Exchange, rest: seq<Exchange>)
    requires IdsIncrease(rest)
    requires forall y | y in rest :: x.id < y.id
    ensures IdsIncrease([x] + rest)
  {
    var r := [x] + rest;
    forall i, j | 0 <= i < j < |r| ensures r[i].id < r[j].id {
      assert r[j] == rest[j - 1];
      assert rest[j - 1] in rest;
      if i > 0 {
        assert r[i] == rest[i - 1];
      }
    }
  }

  /** No two rows have the same author. */
  predicate OneRowPerAuthor(s: seq<Exchange>)
  {
    forall i, j | 0 <= i < j < |s| :: s[i].userId != s[j].userId
  }

  /** No row of m by e's author is newer than e. */
  predicate NewestOfAuthor(e: Exchange, m: seq<Exchange>)
  {
    forall x | x in m && x.userId == e.userId :: x.id <= e.id
  }

  /** Outside the rows of an author, every row has another author. */
  lemma NotAuthorIn(uid: int, s: seq<Exchange>, x: Exchange)
    requires !AuthorIn(uid, s)
    ensures x in s ==> x.userId != uid
  {
  }

  /** LatestPerAuthor has at most one row per author. */
  lemma {:induction false} LatestPerAuthorDistinct(m: seq<Exchange>)
    ensures OneRowPerAuthor(LatestPerAuthor(m))
    decreases |m|
  {
    if m != [] {
      LatestPerAuthorDistinct(m[1..]);
      var rest := LatestPerAuthor(m[1..]);
      if !AuthorIn(m[0].userId, m[1..]) {
        var r := [m[0]] + rest;
        assert LatestPerAuthor(m) == r;
        forall i, j | 0 <= i < j < |r| ensures r[i].userId != r[j].userId {
          assert r[j] == rest[j - 1];
          if i == 0 {
            assert rest[j - 1] in rest;
            NotAuthorIn(m[0].userId, m[1..], rest[j - 1]);
          } else {
            assert r[i] == rest[i - 1];
          }
        }
      } else {
        assert LatestPerAuthor(m) == rest;
      }
    }
  }

  /** The row LatestPerAuthor keeps for an author is that author's newest in m. */
  lemma {:induction false} LatestPerAuthorIsLatest(m: seq<Exchange>)
    requires IdsIncrease(m)
    ensures forall e | e in LatestPerAuthor(m) :: NewestOfAuthor(e, m)
    decreases |m|
  {
    if m != [] {
      assert IdsIncrease(m[1..]);
      LatestPerAuthorIsLatest(m[1..]);
      var rest := LatestPerAuthor(m[1..]);
      assert m == [m[0]] + m[1..];
      forall x | x in m[1..] ensures m[0].id < x.id {
        var i :| 0 <= i < |m[1..]| && m[1..][i] == x;
        assert m[i + 1] == x;
      }
      forall e | e in rest ensures NewestOfAuthor(e, m) {
        assert NewestOfAuthor(e, m[1..]);
        assert e in m[1..];
        forall x | x in m && x.userId == e.userId ensures x.id <= e.id {
          if x != m[0] {
            assert x in m[1..];
          }
        }
      }
      if !AuthorIn(m[0].userId, m[1..]) {
        forall x | x in m && x.userId == m[0].userId ensures x.id <= m[0].id {
          NotAuthorIn(m[0].userId, m[1..], x);
        }
        assert LatestPerAuthor(m) == [m[0]] + rest;
      } else {
        assert LatestPerAuthor(m) == rest;
      }
    }
  }

  /** LIMIT n. */
  function Take<T>(s: seq<T>, n: nat): (r: seq<T>)
    ensures |r| <= n && (|s| <= n ==> r == s) && (|s| > n ==> r == s[..n])
  {
    if |s| <= n then s else s[..n]
  }

  /** The historical query for one window of `days` days before now, oldest first, at most 10 rows. */
  function HistoricalWindow(rows: seq<Exchange>, geo: Geo, centre: Point, radiusKm: int, exclude: int, now: int, days: int): seq<Exchange>
  {
    Take(LatestPerAuthor(Filter(rows, Candidate(geo, centre, radiusKm, exclude, now - days * SecondsPerDay))), HistoricalLimit)
  }

  /** The first window, among `windows` in order, that yields rows; empty when none does. */
  function FirstHistorical(rows: seq<Exchange>, geo: Geo, centre: Point, radiusKm: int, exclude: int, now: int, windows: seq<int>): seq<Exchange>
    decreases |windows|
  {
    if windows == [] then []
    else
      var found := HistoricalWindow(rows, geo, centre, radiusKm, exclude, now, windows[0]);
      if found != [] then found else FirstHistorical(rows, geo, centre, radiusKm, exclude, now, windows[1..])
  }

  /** Take keeps a prefix, so it keeps order and distinctness and only holds rows of s. */
  lemma TakePrefix(s: seq<Exchange>, n: nat)
    ensures forall x | x in Take(s, n) :: x in s
    ensures IdsIncrease(s) ==> IdsIncrease(Take(s, n))
    ensures OneRowPerAuthor(s) ==> OneRowPerAuthor(Take(s, n))
    ensures n > 0 && s != [] ==> Take(s, n) != []
  {
    if |s| > n {
      var t := s[..n];
      forall x | x in t ensures x in s {
        var i :| 0 <= i < |t| && t[i] == x;
        assert s[i] == x;
      }
    }
  }

  /** A window holds at most 10 rows, in id order, one per author. */
  lemma HistoricalWindowShape(rows: seq<Exchange>, geo: Geo, centre: Point, radiusKm: int, exclude: int, now: int, days: int)
    requires SerialIds(rows)
    ensures |HistoricalWindow(rows, geo, centre, radiusKm, exclude, now, days)| <= HistoricalLimit
    ensures IdsIncrease(HistoricalWindow(rows, geo, centre, radiusKm, exclude, now, days))
    ensures OneRowPerAuthor(HistoricalWindow(rows, geo, centre, radiusKm, exclude, now, days))
  {
    var keep := Candidate(geo, centre, radiusKm, exclude, now - days * SecondsPerDay);
    var m := Filter(rows, keep);
    assert IdsIncrease(rows);
    FilterIdsIncrease(rows, keep);
    LatestPerAuthorIdsIncrease(m);
    LatestPerAuthorDistinct(m);
    TakePrefix(LatestPerAuthor(m), HistoricalLimit);
  }

  /**
   * A window's rows are candidates of that window, each the newest candidate
   * of its author; the window is empty exactly when it has no candidate.
   */
  lemma HistoricalWindowRows(rows: seq<Exchange>, geo: Geo, centre: Point, radiusKm: int, exclude: int, now: int, days: int)
    requires SerialIds(rows)
    ensures var keep := Candidate(geo, centre, radiusKm, exclude, now - days * SecondsPerDay);
      var w := HistoricalWindow(rows, geo, centre, radiusKm, exclude, now, days);
      (forall e | e in w :: e in rows && keep(e) && NewestOfAuthor(e, Filter(rows, keep)))
      && (w == [] <==> forall x | x in rows :: !keep(x))
  {
    var keep := Candidate(geo, centre, radiusKm, exclude, now - days * SecondsPerDay);
    var m := Filter(rows, keep);
    assert IdsIncrease(rows);
    FilterIdsIncrease(rows, keep);
    LatestPerAuthorIsLatest(m);
    TakePrefix(LatestPerAuthor(m), HistoricalLimit);
    if m != [] {
      LatestPerAuthorNonEmpty(m);
    }
    forall x | x in rows && keep(x) ensures m != [] {
      assert x in m;
    }
  }

  /** FindHistoricalExchangesInRadius: 3, 7, 14 and then 30 days; the first that finds anything wins. */
  function Historical(rows: seq<Exchange>, geo: Geo, centre: Point, radiusKm: int, exclude: int, now: int): seq<Exchange>
  {
    FirstHistorical(rows, geo, centre, radiusKm, exclude, now, HistoricalWindows)
  }

  lemma {:induction false} FirstHistoricalIsAWindow(rows: seq<Exchange>, geo: Geo, centre: Point, radiusKm: int, exclude: int, now: int, windows: seq<int>)
    ensures var r := FirstHistorical(rows, geo, centre, radiusKm, exclude, now, windows);
      r == [] || exists k | 0 <= k < |windows| :: r == HistoricalWindow(rows, geo, centre, radiusKm, exclude, now, windows[k])
    ensures FirstHistorical(rows, geo, centre, radiusKm, exclude, now, windows) == [] <==>
      forall k | 0 <= k < |windows| :: HistoricalWindow(rows, geo, centre, radiusKm, exclude, now, windows[k]) == []
    decreases |windows|
  {
    if windows != [] {
      FirstHistoricalIsAWindow(rows, geo, centre, radiusKm, exclude, now, windows[1..]);
      var r := FirstHistorical(rows, geo, centre, radiusKm, exclude, now, windows);
      if HistoricalWindow(rows, geo, centre, radiusKm, exclude, now, windows[0]) == [] {
        assert r == FirstHistorical(rows, geo, centre, radiusKm, exclude, now, windows[1..]);
        if r != [] {
          var k :| 0 <= k < |windows[1..]| && r == HistoricalWindow(rows, geo, centre, radiusKm, exclude, now, windows[1..][k]);
          assert windows[1..][k] == windows[k + 1];
        }
        forall k | 0 <= k < |windows[1..]| ensures windows[1..][k] == windows[k + 1] { }
      } else {
        assert r == HistoricalWindow(rows, geo, centre, radiusKm, exclude, now, windows[0]);
      }
    }
  }

  /** A candidate of a shorter window is a candidate of the 30-day window. */
  lemma CandidateWidens(geo: Geo, centre: Point, radiusKm: int, exclude: int, now: int, days: int, e: Exchange)
    requires days <= 30
    requires Candidate(geo, centre, radiusKm, exclude, now - days * SecondsPerDay)(e)
    ensures Candidate(geo, centre, radiusKm, exclude, now - 30 * SecondsPerDay)(e)
  {
  }

  /** The answer holds at most 10 rows, oldest first, one per author. */
  lemma HistoricalShape(rows: seq<Exchange>, geo: Geo, centre: Point, radiusKm: int, exclude: int, now: int)
    requires SerialIds(rows)
    ensures |Historical(rows, geo, centre, radiusKm, exclude, now)| <= HistoricalLimit
    ensures IdsIncrease(Historical(rows, geo, centre, radiusKm, exclude, now))
    ensures OneRowPerAuthor(Historical(rows, geo, centre, radiusKm, exclude, now))
  {
    var r := Historical(rows, geo, centre, radiusKm, exclude, now);
    FirstHistoricalIsAWindow(rows, geo, centre, radiusKm, exclude, now, HistoricalWindows);
    if r != [] {
      var k :| 0 <= k < |HistoricalWindows| && r == HistoricalWindow(rows, geo, centre, radiusKm, exclude, now, HistoricalWindows[k]);
      HistoricalWindowShape(rows, geo, centre, radiusKm, exclude, now, HistoricalWindows[k]);
    }
  }

  /**
   * Every row of the answer is a live, posted listing within the radius,
   * created in the last 30 days and not by the excluded user.
   */
  lemma HistoricalRows(rows: seq<Exchange>, geo: Geo, centre: Point, radiusKm: int, exclude: int, now: int)
    requires SerialIds(rows)
    ensures forall e | e in Historical(rows, geo, centre, radiusKm, exclude, now) ::
      e in rows && Candidate(geo, centre, radiusKm, exclude, now - 30 * SecondsPerDay)(e)
  {
    var r := Historical(rows, geo, centre, radiusKm, exclude, now);
    FirstHistoricalIsAWindow(rows, geo, centre, radiusKm, exclude, now, HistoricalWindows);
    if r != [] {
      var k :| 0 <= k < |HistoricalWindows| && r == HistoricalWindow(rows, geo, centre, radiusKm, exclude, now, HistoricalWindows[k]);
      var days := HistoricalWindows[k];
      assert days <= 30;
      HistoricalWindowRows(rows, geo, centre, radiusKm, exclude, now, days);
      forall e | e in r ensures Candidate(geo, centre, radiusKm, exclude, now - 30 * SecondsPerDay)(e) {
        CandidateWidens(geo, centre, radiusKm, exclude, now, days, e);
      }
    }
  }

  /** The answer is empty exactly when the last 30 days hold no matching listing. */
  lemma HistoricalEmpty(rows: seq<Exchange>, geo: Geo, centre: Point, radiusKm: int, exclude: int, now: int)
    requires SerialIds(rows)
    ensures Historical(rows, geo, centre, radiusKm, exclude, now) == [] <==>
      forall x | x in rows :: !Candidate(geo, centre, radiusKm, exclude, now - 30 * SecondsPerDay)(x)
  {
    FirstHistoricalIsAWindow(rows, geo, centre, radiusKm, exclude, now, HistoricalWindows);
    HistoricalWindowRows(rows, geo, centre, radiusKm, exclude, now, 30);
    HistoricalRows(rows, geo, centre, radiusKm, exclude, now);
    assert HistoricalWindows[3] == 30;
    var r := Historical(rows, geo, centre, radiusKm, exclude, now);
    if r != [] {
      assert r[0] in r;
    }
  }

  // ------------------------------------------------------ timeline records

  /** GetTimelineRecordsByExchange: every record of the exchange, soft-deleted ones included. */
  function OfExchange(exchangeId: int): TimelineRecord -> bool
  {
    (t: TimelineRecord) => t.exchangeId == exchangeId
  }

  /** GetActiveTimelineRecordsByExchange: the exchange's records that are not soft-deleted. */
  function ActiveOfExchange(exchangeId: int): TimelineRecord -> bool
  {
    (t: TimelineRecord) => t.exchangeId == exchangeId && !t.isDeleted
  }

  /** UpdateTimelineRecord: message id and status of the record with that id. */
  function WithDelivery(ts: seq<TimelineRecord>, id: int, messageId: int, status: string): (r: seq<TimelineRecord>)
    ensures |r| == |ts|
    ensures forall i | 0 <= i < |ts| ::
      r[i] == (if i == id - 1 then ts[i].(telegramMessageId := Some(messageId), status := status) else ts[i])
  {
    if 1 <= id <= |ts| then ts[id - 1 := ts[id - 1].(telegramMessageId := Some(messageId), status := status)] else ts
  }

  /** UpdateTimelineRecordStatus: the status of the record with that id. */
  function WithTimelineStatus(ts: seq<TimelineRecord>, id: int, status: string): (r: seq<TimelineRecord>)
    ensures |r| == |ts|
    ensures forall i | 0 <= i < |ts| :: r[i] == (if i == id - 1 then ts[i].(status := status) else ts[i])
  {
    if 1 <= id <= |ts| then ts[id - 1 := ts[id - 1].(status := status)] else ts
  }

  /** MarkTimelineRecordsAsDeleted: every live record of the exchange is marked deleted at now. */
  function MarkDeleted(ts: seq<TimelineRecord>, exchangeId: int, now: int): (r: seq<TimelineRecord>)
    ensures |r| == |ts|
    ensures forall i | 0 <= i < |ts| && ts[i].exchangeId == exchangeId && !ts[i].isDeleted ::
      r[i] == ts[i].(isDeleted := true, deletedAt := Some(now))
    ensures forall i | 0 <= i < |ts| && (ts[i].exchangeId != exchangeId || ts[i].isDeleted) :: r[i] == ts[i]
  {
    seq(|ts|, i requires 0 <= i < |ts| =>
      if ts[i].exchangeId == exchangeId && !ts[i].isDeleted then ts[i].(isDeleted := true, deletedAt := Some(now)) else ts[i])
  }

  /** A second cascade changes nothing, deleted_at included. */
  lemma MarkDeletedIdempotent(ts: seq<TimelineRecord>, exchangeId: int, now: int, later: int)
    ensures MarkDeleted(MarkDeleted(ts, exchangeId, now), exchangeId, later) == MarkDeleted(ts, exchangeId, now)
  {
  }

  /** An exchange without records is a no-op. */
  lemma MarkDeletedUnknownExchange(ts: seq<TimelineRecord>, exchangeId: int, now: int)
    requires forall t | t in ts :: t.exchangeId != exchangeId
    ensures MarkDeleted(ts, exchangeId, now) == ts
  {
    assert forall i | 0 <= i < |ts| :: ts[i] in ts;
  }

  /**
   * After the cascade the exchange has no active records, while the full
   * history still lists as many records, all of them deleted.
   */
  lemma {:induction false} MarkDeletedHidesRecords(ts: seq<TimelineRecord>, exchangeId: int, now: int)
    ensures NewestFirst(MarkDeleted(ts, exchangeId, now), ActiveOfExchange(exchangeId)) == []
    ensures |NewestFirst(MarkDeleted(ts, exchangeId, now), OfExchange(exchangeId))| == |NewestFirst(ts, OfExchange(exchangeId))|
    ensures forall t | t in NewestFirst(MarkDeleted(ts, exchangeId, now), OfExchange(exchangeId)) :: t.isDeleted
    decreases |ts|
  {
    var m := MarkDeleted(ts, exchangeId, now);
    if ts != [] {
      MarkDeletedHidesRecords(ts[1..], exchangeId, now);
      assert m[1..] == MarkDeleted(ts[1..], exchangeId, now);
    }
    forall t | t in NewestFirst(m, OfExchange(exchangeId)) ensures t.isDeleted {
      var i :| 0 <= i < |m| && m[i] == t;
    }
  }

  // ------------------------------------------------------- contact requests

  datatype ContactRequest = ContactRequest(
    exchangeId: int,
    requesterUserId: int,
    username: string,
    firstName: string,
    lastName: string)

  /** CheckContactRequestExists: some row has exactly this (exchange, requester) pair. */
  predicate HasRequest(reqs: seq<ContactRequest>, exchangeId: int, requester: int)
  {
    exists r | r in reqs :: r.exchangeId == exchangeId && r.requesterUserId == requester
  }

  /** CreateContactRequest: insert only when the pair has no row yet. */
  function WithRequest(reqs: seq<ContactRequest>, req: ContactRequest): seq<ContactRequest>
  {
    if HasRequest(reqs, req.exchangeId, req.requesterUserId) then reqs else reqs + [req]
  }

  /** No two rows share a pair (the table's unique constraint). */
  predicate OnePerPair(reqs: seq<ContactRequest>)
  {
    forall i, j | 0 <= i < j < |reqs| ::
      reqs[i].exchangeId != reqs[j].exchangeId || reqs[i].requesterUserId != reqs[j].requesterUserId
  }

  /**
   * After CreateContactRequest the pair exists, other pairs are as before,
   * and there is still at most one row per pair.
   */
  lemma WithRequestCorrect(reqs: seq<ContactRequest>, req: ContactRequest)
    requires OnePerPair(reqs)
    ensures OnePerPair(WithRequest(reqs, req))
    ensures forall e, u :: HasRequest(WithRequest(reqs, req), e, u) <==>
      HasRequest(reqs, e, u) || (e == req.exchangeId && u == req.requesterUserId)
  {
    var w := WithRequest(reqs, req);
    if !HasRequest(reqs, req.exchangeId, req.requesterUserId) {
      forall i | 0 <= i < |reqs|
        ensures reqs[i].exchangeId != req.exchangeId || reqs[i].requesterUserId != req.requesterUserId
      {
        assert reqs[i] in reqs;
      }
      forall e, u | HasRequest(w, e, u) ensures HasRequest(reqs, e, u) || (e == req.exchangeId && u == req.requesterUserId) {
        var r :| r in w && r.exchangeId == e && r.requesterUserId == u;
        if r != req {
          assert r in reqs;
        }
      }
      forall e, u | HasRequest(reqs, e, u) ensures HasRequest(w, e, u) {
        var r :| r in reqs && r.exchangeId == e && r.requesterUserId == u;
        assert r in w;
      }
      assert req in w;
    }
  }

  /** Repeating the same request leaves exactly the table the first call produced. */
  lemma WithRequestIdempotent(reqs: seq<ContactRequest>, req: ContactRequest, again: ContactRequest)
    requires again.exchangeId == req.exchangeId && again.requesterUserId == req.requesterUserId
    ensures WithRequest(WithRequest(reqs, req), again) == WithRequest(reqs, req)
  {
    if !HasRequest(reqs, req.exchangeId, req.requesterUserId) {
      assert req in reqs + [req];
    }
  }

  // ------------------------------------------------------ location history

  /** One location_histories row: the radius chosen and the coordinates sent after it. */
  datatype HistoryEntry = HistoryEntry(radiusKm: int, lat: real, lon: real)

  function HistoryOf(h: map<int, seq<HistoryEntry>>, uid: int): seq<HistoryEntry>
  {
    if uid in h then h[uid] else []
  }

  /** UpdateLocationHistory on a non-empty history: only the latest entry gets the coordinates. */
  function UpdatedLatest(es: seq<HistoryEntry>, lat: real, lon: real): (r: seq<HistoryEntry>)
    requires es != []
    ensures |r| == |es| && r[..|es| - 1] == es[..|es| - 1]
    ensures r[|es| - 1] == HistoryEntry(es[|es| - 1].radiusKm, lat, lon)
  {
    es[..|es| - 1] + [es[|es| - 1].(lat := lat, lon := lon)]
  }

  /**
   * ShouldTriggerHistoricalFanout: no entry, no fanout; a single entry
   * always; otherwise whether the last two differ in radius or coordinates.
   */
  function ShouldTrigger(es: seq<HistoryEntry>): (b: bool)
    ensures b ==> es != []
    ensures |es| == 1 ==> b
  {
    if |es| == 0 then false
    else if |es| == 1 then true
    else es[|es| - 1] != es[|es| - 2]
  }

  /**
   * The onboarding sequence: a radius is chosen (CreateLocationHistory
   * appends (radius, 0, 0)), then a location is sent (UpdateLocationHistory).
   * The fanout fires iff this is the first entry or the new pair differs
   * from the previous entry.
   */
  lemma TriggerAfterOnboarding(es: seq<HistoryEntry>, radiusKm: int, lat: real, lon: real)
    ensures ShouldTrigger(UpdatedLatest(es + [HistoryEntry(radiusKm, 0.0, 0.0)], lat, lon))
      == (es == [] || es[|es| - 1] != HistoryEntry(radiusKm, lat, lon))
  {
    var r := UpdatedLatest(es + [HistoryEntry(radiusKm, 0.0, 0.0)], lat, lon);
    assert r[|r| - 1] == HistoryEntry(radiusKm, lat, lon);
    if es != [] {
      assert r[|r| - 2] == (es + [HistoryEntry(radiusKm, 0.0, 0.0)])[|es| - 1];
    }
  }
}
