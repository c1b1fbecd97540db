// repository/repository.go as an in-memory store. Each table is a field of
// Store and each Repository method does to those fields what its SQL
// statement does; the queries are specified by the functions of Tables.
//
// A statement either fails as a whole (a database error) or succeeds; which
// ones fail is fixed by the store's `failing` set, so every error path of
// the Go code is reachable. Timestamps are integers given by the caller.
module Repository {
  import opened Wrappers
  import opened Objects
  import opened Tables

  /** The statements that can fail, one per Repository method (SaveUser has two). */
  datatype Op =
    | FindUserOp | SaveUserOp | SaveUserGeogOp | ShowCalloutOp | DismissCalloutOp
    | UpdateUserLocationOp | UpdateUserSearchRadiusOp
    | CreateExchangeOp | GetExchangeByIdOp | GetUserExchangesOp | UpdateExchangeStatusOp
    | GetLastUserExchangeOp | UpdateExchangeOp | SoftDeleteExchangeOp | GetActiveExchangesOp
    | CreateTimelineRecordOp | GetTimelineRecordsOp | UpdateTimelineRecordOp
    | UpdateTimelineRecordStatusOp | MarkTimelineRecordsDeletedOp | GetActiveTimelineRecordsOp
    | FindUsersInRadiusOp | CheckContactRequestOp | CreateContactRequestOp | CountUsersInRadiusOp
    | FindHistoricalOp | CreateLocationHistoryOp | UpdateLocationHistoryOp | ShouldTriggerOp

  /** The `for rows.Next()` loop of a query ordered by created_at DESC. */
  method ScanNewestFirst<T(!new)>(rows: seq<T>, keep: T -> bool) returns (found: seq<T>)
    ensures found == NewestFirst(rows, keep)
  {
    found := [];
    var i := |rows|;
    while i > 0
      invariant 0 <= i <= |rows|
      invariant found == NewestFirst(rows[i..], keep)
      decreases i
    {
      i := i - 1;
      assert rows[i..][1..] == rows[i + 1..];
      if keep(rows[i]) {
        found := found + [rows[i]];
      }
    }
    assert rows[0..] == rows;
  }

  class Store {
    /** users, keyed by userId, and the order its rows were inserted in. */
    var users: map<int, UserRow>
    var userOrder: seq<int>
    var exchanges: seq<Exchange>
    var timeline: seq<TimelineRecord>
    var contactRequests: seq<ContactRequest>
    /** location_histories, per user, oldest first. */
    var history: map<int, seq<HistoryEntry>>
    /** dismissed_feature_callouts: (userId, featureName) pairs. */
    var dismissed: set<(int, string)>
    /** The statements that fail. */
    const failing: set<Op>
    /** What PostGIS answers. */
    const geo: Geo

    ghost predicate Valid()
      reads this
    {
      UsersWellFormed(users, userOrder)
      && SerialIds(exchanges)
      && SerialTimelineIds(timeline)
      && OnePerPair(contactRequests)
    }

    /** An empty database. */
    constructor (geo: Geo, failing: set<Op>)
      ensures Valid()
      ensures this.geo == geo && this.failing == failing
      ensures users == map[] && userOrder == [] && exchanges == [] && timeline == []
      ensures contactRequests == [] && history == map[] && dismissed == {}
    {
      this.geo := geo;
      this.failing := failing;
      users := map[];
      userOrder := [];
      exchanges := [];
      timeline := [];
      contactRequests := [];
      history := map[];
      dismissed := {};
    }

    /** What FindUser returns: the stored user, or none when it is missing or the query fails. */
    function FoundUser(uid: int): Option<User>
      reads this
    {
      if FindUserOp in failing then None else UserIn(users, uid)
    }

    method FindUser(uid: int) returns (u: Option<User>)
      ensures u == FoundUser(uid)
      ensures u.Some? <==> FindUserOp !in failing && uid in users
      ensures u.Some? ==> u.value == ToUser(users[uid])
    {
      if FindUserOp in failing || uid !in users {
        return None;
      }
      return Some(ToUser(users[uid]));
    }

    /**
     * SaveUser: an upsert of every column, then geog set from the
     * coordinates (NULL at (0, 0)). If the second statement fails the
     * columns are already written and geog keeps its old value.
     */
    method SaveUser(u: User) returns (ok: bool)
      requires Valid()
      modifies this`users, this`userOrder
      ensures Valid()
      ensures ok == (SaveUserOp !in failing && SaveUserGeogOp !in failing)
      ensures SaveUserOp in failing ==> users == old(users) && userOrder == old(userOrder)
      ensures SaveUserOp !in failing ==> userOrder == UpsertOrder(old(users), old(userOrder), u.userId)
      ensures SaveUserOp !in failing && SaveUserGeogOp in failing ==>
        users == old(users)[u.userId := UpsertedRow(old(users), u)]
      ensures ok ==> users == old(users)[u.userId := SavedRow(u)]
    {
      if SaveUserOp in failing {
        return false;
      }
      var row := UpsertedRow(users, u);
      UpsertKeepsWellFormed(users, userOrder, row);
      userOrder := UpsertOrder(users, userOrder, u.userId);
      users := users[u.userId := row];
      if SaveUserGeogOp in failing {
        return false;
      }
      UpsertKeepsWellFormed(users, userOrder, SavedRow(u));
      users := users[u.userId := SavedRow(u)];
      ok := true;
    }

    /** ShowCallout: true unless the pair was dismissed; a failed query shows it. */
    method ShowCallout(uid: int, feature: string) returns (show: bool)
      ensures show == (ShowCalloutOp in failing || (uid, feature) !in dismissed)
    {
      show := ShowCalloutOp in failing || (uid, feature) !in dismissed;
    }

    /** DismissCallout: insert the pair, ON CONFLICT DO NOTHING. */
    method DismissCallout(uid: int, feature: string) returns (ok: bool)
      modifies this`dismissed
      ensures ok == (DismissCalloutOp !in failing)
      ensures dismissed == if ok then old(dismissed) + {(uid, feature)} else old(dismissed)
    {
      if DismissCalloutOp in failing {
        return false;
      }
      dismissed := dismissed + {(uid, feature)};
      ok := true;
    }

    /**
     * UpdateUserLocation: reads the user first (a failed read counts as no
     * user), then sets lat, lon and geog. The answer says whether the
     * historical fanout should run.
     */
    method UpdateUserLocation(uid: int, lon: real, lat: real) returns (trigger: bool, ok: bool)
      requires Valid()
      modifies this`users
      ensures Valid()
      ensures ok == (UpdateUserLocationOp !in failing)
      ensures users == if ok then Relocated(old(users), uid, Point(lat, lon)) else old(users)
      ensures trigger == (ok && LocationTrigger(old(FoundUser(uid)), lat, lon))
    {
      var before := FindUser(uid);
      if UpdateUserLocationOp in failing {
        return false, false;
      }
      users := Relocated(users, uid, Point(lat, lon));
      var hasOld := before.Some? && (before.value.lat != 0.0 || before.value.lon != 0.0);
      var changed := !hasOld || before.value.lat != lat || before.value.lon != lon;
      trigger := changed && before.Some? && before.value.searchRadiusKm.Some?;
      ok := true;
    }

    method UpdateUserSearchRadius(uid: int, radiusKm: int) returns (ok: bool)
      requires Valid()
      modifies this`users
      ensures Valid()
      ensures ok == (UpdateUserSearchRadiusOp !in failing)
      ensures users == if ok then WithRadius(old(users), uid, radiusKm) else old(users)
    {
      if UpdateUserSearchRadiusOp in failing {
        return false;
      }
      users := WithRadius(users, uid, radiusKm);
      ok := true;
    }

    /** CreateExchange: appends the row and returns its new id (the caller's id on failure). */
    method CreateExchange(e: Exchange, now: int) returns (id: int, ok: bool)
      requires Valid()
      modifies this`exchanges
      ensures Valid()
      ensures ok == (CreateExchangeOp !in failing)
      ensures ok ==> id == |old(exchanges)| + 1 && exchanges == old(exchanges) + [InsertedExchange(old(exchanges), e, now)]
      ensures !ok ==> id == e.id && exchanges == old(exchanges)
    {
      if CreateExchangeOp in failing {
        return e.id, false;
      }
      var row := InsertedExchange(exchanges, e, now);
      exchanges := exchanges + [row];
      return row.id, true;
    }

    method GetExchangeByID(id: int) returns (r: Option<Exchange>, ok: bool)
      ensures ok == (GetExchangeByIdOp !in failing)
      ensures r == if ok then LiveExchange(exchanges, id) else None
    {
      if GetExchangeByIdOp in failing {
        return None, false;
      }
      return LiveExchange(exchanges, id), true;
    }

    method GetUserExchanges(uid: int) returns (found: seq<Exchange>, ok: bool)
      ensures ok == (GetUserExchangesOp !in failing)
      ensures found == if ok then NewestFirst(exchanges, OwnActive(uid)) else []
    {
      if GetUserExchangesOp in failing {
        return [], false;
      }
      found := ScanNewestFirst(exchanges, OwnActive(uid));
      ok := true;
    }

    method UpdateExchangeStatus(id: int, status: string) returns (ok: bool)
      requires Valid()
      modifies this`exchanges
      ensures Valid()
      ensures ok == (UpdateExchangeStatusOp !in failing)
      ensures exchanges == if ok then WithStatus(old(exchanges), id, status) else old(exchanges)
    {
      if UpdateExchangeStatusOp in failing {
        return false;
      }
      exchanges := WithStatus(exchanges, id, status);
      ok := true;
    }

    method GetLastUserExchange(uid: int) returns (r: Option<Exchange>, ok: bool)
      ensures ok == (GetLastUserExchangeOp !in failing)
      ensures r == if ok then LastOwnActive(exchanges, uid) else None
    {
      if GetLastUserExchangeOp in failing {
        return None, false;
      }
      return LastOwnActive(exchanges, uid), true;
    }

    method UpdateExchange(e: Exchange) returns (ok: bool)
      requires Valid()
      modifies this`exchanges
      ensures Valid()
      ensures ok == (UpdateExchangeOp !in failing)
      ensures exchanges == if ok then WithExchange(old(exchanges), e) else old(exchanges)
    {
      if UpdateExchangeOp in failing {
        return false;
      }
      exchanges := WithExchange(exchanges, e);
      ok := true;
    }

    /** SoftDeleteExchange: no error for an unknown or already deleted id. */
    method SoftDeleteExchange(id: int, now: int) returns (ok: bool)
      requires Valid()
      modifies this`exchanges
      ensures Valid()
      ensures ok == (SoftDeleteExchangeOp !in failing)
      ensures exchanges == if ok then SoftDeleted(old(exchanges), id, now) else old(exchanges)
    {
      if SoftDeleteExchangeOp in failing {
        return false;
      }
      exchanges := SoftDeleted(exchanges, id, now);
      ok := true;
    }

    method GetActiveExchanges() returns (found: seq<Exchange>, ok: bool)
      ensures ok == (GetActiveExchangesOp !in failing)
      ensures found == if ok then NewestFirst(exchanges, Active()) else []
    {
      if GetActiveExchangesOp in failing {
        return [], false;
      }
      found := ScanNewestFirst(exchanges, Active());
      ok := true;
    }

    /** CreateTimelineRecord: appends the record as given, with the next id. */
    method CreateTimelineRecord(t: TimelineRecord) returns (id: int, ok: bool)
      requires Valid()
      modifies this`timeline
      ensures Valid()
      ensures ok == (CreateTimelineRecordOp !in failing)
      ensures ok ==> id == |old(timeline)| + 1 && timeline == old(timeline) + [t.(id := |old(timeline)| + 1)]
      ensures !ok ==> id == t.id && timeline == old(timeline)
    {
      if CreateTimelineRecordOp in failing {
        return t.id, false;
      }
      var row := t.(id := |timeline| + 1);
      timeline := timeline + [row];
      return row.id, true;
    }

    method GetTimelineRecordsByExchange(exchangeId: int) returns (found: seq<TimelineRecord>, ok: bool)
      ensures ok == (GetTimelineRecordsOp !in failing)
      ensures found == if ok then NewestFirst(timeline, OfExchange(exchangeId)) else []
    {
      if GetTimelineRecordsOp in failing {
        return [], false;
      }
      found := ScanNewestFirst(timeline, OfExchange(exchangeId));
      ok := true;
    }

    method UpdateTimelineRecord(id: int, messageId: int, status: string) returns (ok: bool)
      requires Valid()
      modifies this`timeline
      ensures Valid()
      ensures ok == (UpdateTimelineRecordOp !in failing)
      ensures timeline == if ok then WithDelivery(old(timeline), id, messageId, status) else old(timeline)
    {
      if UpdateTimelineRecordOp in failing {
        return false;
      }
      timeline := WithDelivery(timeline, id, messageId, status);
      ok := true;
    }

    method UpdateTimelineRecordStatus(id: int, status: string) returns (ok: bool)
      requires Valid()
      modifies this`timeline
      ensures Valid()
      ensures ok == (UpdateTimelineRecordStatusOp !in failing)
      ensures timeline == if ok then WithTimelineStatus(old(timeline), id, status) else old(timeline)
    {
      if UpdateTimelineRecordStatusOp in failing {
        return false;
      }
      timeline := WithTimelineStatus(timeline, id, status);
      ok := true;
    }

    method MarkTimelineRecordsAsDeleted(exchangeId: int, now: int) returns (ok: bool)
      requires Valid()
      modifies this`timeline
      ensures Valid()
      ensures ok == (MarkTimelineRecordsDeletedOp !in failing)
      ensures timeline == if ok then MarkDeleted(old(timeline), exchangeId, now) else old(timeline)
    {
      if MarkTimelineRecordsDeletedOp in failing {
        return false;
      }
      timeline := MarkDeleted(timeline, exchangeId, now);
      ok := true;
    }

    /** SoftDeleteExchangeTimeline: the same statement under another name. */
    method SoftDeleteExchangeTimeline(exchangeId: int, now: int) returns (ok: bool)
      requires Valid()
      modifies this`timeline
      ensures Valid()
      ensures ok == (MarkTimelineRecordsDeletedOp !in failing)
      ensures timeline == if ok then MarkDeleted(old(timeline), exchangeId, now) else old(timeline)
    {
      ok := MarkTimelineRecordsAsDeleted(exchangeId, now);
    }

    method GetActiveTimelineRecordsByExchange(exchangeId: int) returns (found: seq<TimelineRecord>, ok: bool)
      ensures ok == (GetActiveTimelineRecordsOp !in failing)
      ensures found == if ok then NewestFirst(timeline, ActiveOfExchange(exchangeId)) else []
    {
      if GetActiveTimelineRecordsOp in failing {
        return [], false;
      }
      found := ScanNewestFirst(timeline, ActiveOfExchange(exchangeId));
      ok := true;
    }

    /**
     * FindUsersInRadius: the users whose geog is within radiusKm of
     * (lat, lon), nearest first, read back as Users.
     */
    method FindUsersInRadius(lat: real, lon: real, radiusKm: int) returns (found: seq<User>, ok: bool)
      ensures ok == (FindUsersInRadiusOp !in failing)
      ensures found == if ok then ToUsers(RadiusRows(users, userOrder, geo, Point(lat, lon), radiusKm)) else []
    {
      if FindUsersInRadiusOp in failing {
        return [], false;
      }
      var rows := RadiusRows(users, userOrder, geo, Point(lat, lon), radiusKm);
      found := [];
      var i := 0;
      while i < |rows|
        invariant 0 <= i <= |rows|
        invariant found == ToUsers(rows[..i])
      {
        assert rows[..i + 1] == rows[..i] + [rows[i]];
        found := found + [ToUser(rows[i])];
        i := i + 1;
      }
      assert rows[..|rows|] == rows;
      ok := true;
    }

    method CheckContactRequestExists(exchangeId: int, requester: int) returns (exists_: bool, ok: bool)
      ensures ok == (CheckContactRequestOp !in failing)
      ensures exists_ == (ok && HasRequest(contactRequests, exchangeId, requester))
    {
      if CheckContactRequestOp in failing {
        return false, false;
      }
      return HasRequest(contactRequests, exchangeId, requester), true;
    }

    /** CreateContactRequest: inserts the pair unless it has a row; a duplicate is not an error. */
    method CreateContactRequest(exchangeId: int, requester: int, username: string, firstName: string, lastName: string)
      returns (ok: bool)
      requires Valid()
      modifies this`contactRequests
      ensures Valid()
      ensures ok == (CreateContactRequestOp !in failing)
      ensures contactRequests == if ok then WithRequest(old(contactRequests), ContactRequest(exchangeId, requester, username, firstName, lastName))
        else old(contactRequests)
    {
      if CreateContactRequestOp in failing {
        return false;
      }
      var req := ContactRequest(exchangeId, requester, username, firstName, lastName);
      WithRequestCorrect(contactRequests, req);
      contactRequests := WithRequest(contactRequests, req);
      ok := true;
    }

    method CountUsersInRadius(lat: real, lon: real, radiusKm: int) returns (count: int, ok: bool)
      ensures ok == (CountUsersInRadiusOp !in failing)
      ensures count == if ok then |NearbyRows(users, userOrder, geo, Point(lat, lon), radiusKm)| else 0
    {
      if CountUsersInRadiusOp in failing {
        return 0, false;
      }
      return |NearbyRows(users, userOrder, geo, Point(lat, lon), radiusKm)|, true;
    }

    /** FindHistoricalExchangesInRadius: the 3-, 7-, 14- and 30-day windows in turn. */
    method FindHistoricalExchangesInRadius(lat: real, lon: real, radiusKm: int, exclude: int, now: int)
      returns (found: seq<Exchange>, ok: bool)
      ensures ok == (FindHistoricalOp !in failing)
      ensures found == if ok then Historical(exchanges, geo, Point(lat, lon), radiusKm, exclude, now) else []
    {
      if FindHistoricalOp in failing {
        return [], false;
      }
      var k := 0;
      while k < |HistoricalWindows|
        invariant 0 <= k <= |HistoricalWindows|
        invariant Historical(exchanges, geo, Point(lat, lon), radiusKm, exclude, now)
          == FirstHistorical(exchanges, geo, Point(lat, lon), radiusKm, exclude, now, HistoricalWindows[k..])
      {
        assert HistoricalWindows[k..][1..] == HistoricalWindows[k + 1..];
        var rows := HistoricalWindow(exchanges, geo, Point(lat, lon), radiusKm, exclude, now, HistoricalWindows[k]);
        if |rows| >= 10 || |rows| > 0 {
          return rows, true;
        }
        k := k + 1;
      }
      return [], true;
    }

    /** CreateLocationHistory: a new entry with the radius and coordinates (0, 0). */
    method CreateLocationHistory(uid: int, radiusKm: int) returns (ok: bool)
      modifies this`history
      ensures ok == (CreateLocationHistoryOp !in failing)
      ensures history == if ok then old(history)[uid := HistoryOf(old(history), uid) + [HistoryEntry(radiusKm, 0.0, 0.0)]]
        else old(history)
    {
      if CreateLocationHistoryOp in failing {
        return false;
      }
      history := history[uid := HistoryOf(history, uid) + [HistoryEntry(radiusKm, 0.0, 0.0)]];
      ok := true;
    }

    /** UpdateLocationHistory: the latest entry gets the coordinates; no entry is an error. */
    method UpdateLocationHistory(uid: int, lat: real, lon: real) returns (ok: bool)
      modifies this`history
      ensures ok == (UpdateLocationHistoryOp !in failing && HistoryOf(old(history), uid) != [])
      ensures history == if ok then old(history)[uid := UpdatedLatest(HistoryOf(old(history), uid), lat, lon)]
        else old(history)
    {
      if UpdateLocationHistoryOp in failing || HistoryOf(history, uid) == [] {
        return false;
      }
      history := history[uid := UpdatedLatest(HistoryOf(history, uid), lat, lon)];
      ok := true;
    }

    method ShouldTriggerHistoricalFanout(uid: int) returns (trigger: bool, ok: bool)
      ensures ok == (ShouldTriggerOp !in failing)
      ensures trigger == (ok && ShouldTrigger(HistoryOf(history, uid)))
    {
      if ShouldTriggerOp in failing {
        return false, false;
      }
      return ShouldTrigger(HistoryOf(history, uid)), true;
    }
  }
}
