// fanout/fanout.go: telling nearby users about a new listing, and telling a
// user who moved about the listings already posted near them. The great-circle
// distance (haversine, rounded to whole km) is supplied from outside; "now" is
// an integer number of seconds.
module Fanout {
  import opened Wrappers
  import opened Text
  import opened Locale
  import opened Objects
  import opened Tables
  import opened Repository
  import opened Broker

  /** The radius both fanout queries use in place of the user's own (fanout.go:43-50, 214-223). */
  const OverrideRadiusKm: int := 90000

  /** Rounded distance in km between (lat1, lon1) and (lat2, lon2). */
  type Haversine = (real, real, real, real) -> int

  function DeletePayload(exchangeId: int): string { "delete:" + IntToString(exchangeId) }

  function ContactPayload(exchangeId: int): string { "contact:" + IntToString(exchangeId) }

  /** The "have" line's key, by direction and by whether the reader is the author. */
  function HaveKey(direction: string, author: bool): string
  {
    if direction == DirectionCashToCrypto then
      (if author then "fanout.author_notification_have_cash" else "fanout.notification_have_cash")
    else
      (if author then "fanout.author_notification_have_crypto" else "fanout.notification_have_crypto")
  }

  function NeedKey(direction: string, author: bool): string
  {
    if direction == DirectionCashToCrypto then
      (if author then "fanout.author_notification_need_crypto" else "fanout.notification_need_crypto")
    else
      (if author then "fanout.author_notification_need_cash" else "fanout.notification_need_cash")
  }

  function AmountLine(e: Exchange): seq<Piece>
  {
    if e.amountUsd.Some? then [Fmt([Loc("fanout.notification_amount")], [IntArg(e.amountUsd.value)]), Lit("\n")] else []
  }

  function DistanceLine(distanceKm: int): seq<Piece>
  {
    [Fmt([Loc("fanout.notification_distance")], [IntArg(distanceKm)])]
  }

  /** buildNotificationMessage: what a reader of a new listing sees. */
  function NotificationText(e: Exchange, recipientId: int, distanceKm: int): seq<Piece>
  {
    var author := recipientId == e.userId;
    [Loc(if author then "fanout.author_notification_header" else "fanout.notification_header"), Lit("\n\n"),
     Loc(HaveKey(e.direction, author)), Lit("\n"), Loc(NeedKey(e.direction, author)), Lit("\n")]
    + AmountLine(e)
    + (if author then [] else DistanceLine(distanceKm))
  }

  /** The one button under a notification: delete for the author, show contact for everyone else. */
  function NotificationButton(e: Exchange, recipientId: int): Button
  {
    if recipientId == e.userId then Button([Loc("fanout.button_delete")], DeletePayload(e.id))
    else Button([Loc("fanout.button_show_contact")], ContactPayload(e.id))
  }

  /** queueNotificationMessage: the envelope for one reader, at priority 100. */
  function Notification(e: Exchange, r: User, dist: Haversine): Envelope
  {
    var text := NotificationText(e, r.userId, dist(e.lat, e.lon, r.lat, r.lon));
    ExchangeNotification(e.id, r.userId,
      Message(r.userId, text, SupportedLanguageCode(r.languageCode), "HTML", Inline([[NotificationButton(e, r.userId)]]), false),
      PriorityNotification)
  }

  /** Who is told about a listing: users in the main menu, and its author whatever their state. */
  predicate Notified(e: Exchange, u: User)
  {
    u.menuId == MenuMain || u.userId == e.userId
  }

  function Notifications(e: Exchange, users: seq<User>, dist: Haversine): seq<Envelope>
    decreases |users|
  {
    if users == [] then []
    else (if Notified(e, users[0]) then [Notification(e, users[0], dist)] else []) + Notifications(e, users[1..], dist)
  }

  lemma {:induction false} NotificationsConcat(e: Exchange, a: seq<User>, b: seq<User>, dist: Haversine)
    ensures Notifications(e, a + b, dist) == Notifications(e, a, dist) + Notifications(e, b, dist)
    decreases |a|
  {
    if a == [] {
      assert a + b == b;
    } else {
      assert (a + b)[0] == a[0];
      assert (a + b)[1..] == a[1..] + b;
      NotificationsConcat(e, a[1..], b, dist);
    }
  }

  /**
   * One notification per notified user, in the order of `users`, each about
   * this listing, at priority 100, and nobody else is written to.
   */
  lemma NotificationsCorrect(e: Exchange, users: seq<User>, dist: Haversine)
    ensures |Notifications(e, users, dist)| == |Filter(users, (u: User) => Notified(e, u))|
    ensures forall k | 0 <= k < |Notifications(e, users, dist)| ::
      Notifications(e, users, dist)[k] == Notification(e, Filter(users, (u: User) => Notified(e, u))[k], dist)
    ensures forall n | n in Notifications(e, users, dist) ::
      n.ExchangeNotification? && n.exchangeId == e.id && n.priority == PriorityNotification
      && exists u | u in users :: Notified(e, u) && n.recipientUserId == u.userId
  {
    NotificationsFollowFilter(e, users, dist);
    NotificationsOnlyNotified(e, users, dist);
  }

  /** The notifications are those of the users the filter keeps, in the same order. */
  lemma {:induction false} NotificationsFollowFilter(e: Exchange, users: seq<User>, dist: Haversine)
    ensures |Notifications(e, users, dist)| == |Filter(users, (u: User) => Notified(e, u))|
    ensures forall k | 0 <= k < |Notifications(e, users, dist)| ::
      Notifications(e, users, dist)[k] == Notification(e, Filter(users, (u: User) => Notified(e, u))[k], dist)
    decreases |users|
  {
    if users != [] {
      NotificationsFollowFilter(e, users[1..], dist);
      var tail := Notifications(e, users[1..], dist);
      var ftail := Filter(users[1..], (u: User) => Notified(e, u));
      if Notified(e, users[0]) {
        assert Notifications(e, users, dist) == [Notification(e, users[0], dist)] + tail;
        assert Filter(users, (u: User) => Notified(e, u)) == [users[0]] + ftail;
      } else {
        assert Notifications(e, users, dist) == tail;
        assert Filter(users, (u: User) => Notified(e, u)) == ftail;
      }
    }
  }

  /** Every notification is about this listing, at priority 100, and addressed to a notified user. */
  lemma {:induction false} NotificationsOnlyNotified(e: Exchange, users: seq<User>, dist: Haversine)
    ensures forall n | n in Notifications(e, users, dist) ::
      n.ExchangeNotification? && n.exchangeId == e.id && n.priority == PriorityNotification
      && exists u | u in users :: Notified(e, u) && n.recipientUserId == u.userId
    decreases |users|
  {
    if users != [] {
      NotificationsOnlyNotified(e, users[1..], dist);
      var tail := Notifications(e, users[1..], dist);
      var head := if Notified(e, users[0]) then [Notification(e, users[0], dist)] else [];
      assert Notifications(e, users, dist) == head + tail;
      forall n: Envelope | n in head + tail
        ensures n.ExchangeNotification? && n.exchangeId == e.id && n.priority == PriorityNotification
        ensures exists u | u in users :: Notified(e, u) && n.recipientUserId == u.userId
      {
        if n in tail {
          var u :| u in users[1..] && Notified(e, u) && n.recipientUserId == u.userId;
          assert u in users;
        } else {
          assert n == Notification(e, users[0], dist);
          assert users[0] in users;
        }
      }
    }
  }

  /** Notifications to pairwise different recipients. */
  predicate OnePerRecipient(all: seq<Envelope>)
  {
    forall i, j | 0 <= i < j < |all| ::
      all[i].ExchangeNotification? && all[j].ExchangeNotification? && all[i].recipientUserId != all[j].recipientUserId
  }

  predicate DistinctIds(us: seq<User>)
  {
    forall i, j | 0 <= i < j < |us| :: us[i].userId != us[j].userId
  }

  lemma {:induction false} FilterDistinctIds(us: seq<User>, keep: User -> bool)
    requires DistinctIds(us)
    ensures DistinctIds(Filter(us, keep))
    decreases |us|
  {
    if us != [] {
      var tail := Filter(us[1..], keep);
      FilterDistinctIds(us[1..], keep);
      if keep(us[0]) {
        var all := Filter(us, keep);
        assert all == [us[0]] + tail;
        forall i, j | 0 <= i < j < |all|
          ensures all[i].userId != all[j].userId
        {
          assert all[j] == tail[j - 1];
          if i == 0 {
            assert tail[j - 1] in us[1..];
            var k :| 0 <= k < |us[1..]| && us[1..][k] == tail[j - 1];
            assert us[k + 1] == tail[j - 1];
          } else {
            assert all[i] == tail[i - 1];
          }
        }
      }
    }
  }

  /** Distinct users get their notification once each: no reader is written to twice. */
  lemma NotificationsOncePerUser(e: Exchange, users: seq<User>, dist: Haversine)
    requires DistinctIds(users)
    ensures OnePerRecipient(Notifications(e, users, dist))
  {
    var all := Notifications(e, users, dist);
    var f := Filter(users, (u: User) => Notified(e, u));
    NotificationsCorrect(e, users, dist);
    FilterDistinctIds(users, (u: User) => Notified(e, u));
    forall i, j | 0 <= i < j < |all|
      ensures all[i].ExchangeNotification? && all[j].ExchangeNotification? && all[i].recipientUserId != all[j].recipientUserId
    {
      assert all[i] == Notification(e, f[i], dist) && all[j] == Notification(e, f[j], dist);
    }
  }

  /** The author's button deletes the listing; every other reader's button asks for the contact. */
  lemma NotificationButtonChoice(e: Exchange, r: User, dist: Haversine)
    ensures var n := Notification(e, r, dist);
      n.message.markup.Inline? && |n.message.markup.rows| == 1 && |n.message.markup.rows[0]| == 1
      && n.message.chatId == r.userId
      && n.message.markup.rows[0][0].data == (if r.userId == e.userId then "delete:" else "contact:") + IntToString(e.id)
  {
  }

  /** The catalog keys of a notification, in order. */
  lemma NotificationKeys(e: Exchange, recipientId: int, distanceKm: int)
    ensures var author := recipientId == e.userId;
      Keys(NotificationText(e, recipientId, distanceKm))
      == [if author then "fanout.author_notification_header" else "fanout.notification_header",
          HaveKey(e.direction, author), NeedKey(e.direction, author)]
         + (if e.amountUsd.Some? then ["fanout.notification_amount"] else [])
         + (if author then [] else ["fanout.notification_distance"])
  {
    var author := recipientId == e.userId;
    var header := if author then "fanout.author_notification_header" else "fanout.notification_header";
    var head: seq<Piece> := [Loc(header), Lit("\n\n"),
      Loc(HaveKey(e.direction, author)), Lit("\n"), Loc(NeedKey(e.direction, author)), Lit("\n")];
    assert Keys(head[5..]) == [];
    assert Keys(head[4..]) == [NeedKey(e.direction, author)];
    assert Keys(head[2..]) == [HaveKey(e.direction, author), NeedKey(e.direction, author)] by {
      assert Keys(head[3..]) == [NeedKey(e.direction, author)];
    }
    assert Keys(head) == [header, HaveKey(e.direction, author), NeedKey(e.direction, author)] by {
      assert Keys(head[1..]) == Keys(head[2..]);
    }
    var tail: seq<Piece> := if author then [] else DistanceLine(distanceKm);
    AmountLineKeys(e);
    DistanceLineKeys(distanceKm);
    KeysConcat(head + AmountLine(e), tail);
    KeysConcat(head, AmountLine(e));
  }

  lemma AmountLineKeys(e: Exchange)
    ensures Keys(AmountLine(e)) == if e.amountUsd.Some? then ["fanout.notification_amount"] else []
  {
    if e.amountUsd.Some? {
      var f := Fmt([Loc("fanout.notification_amount")], [IntArg(e.amountUsd.value)]);
      assert PieceKeys(f) == ["fanout.notification_amount"] by {
        assert Keys([Loc("fanout.notification_amount")]) == ["fanout.notification_amount"];
        assert ArgKeys([IntArg(e.amountUsd.value)]) == [];
      }
      assert Keys([Lit("\n")]) == [];
    }
  }

  lemma DistanceLineKeys(distanceKm: int)
    ensures Keys(DistanceLine(distanceKm)) == ["fanout.notification_distance"]
  {
    var f := Fmt([Loc("fanout.notification_distance")], [IntArg(distanceKm)]);
    assert PieceKeys(f) == ["fanout.notification_distance"] by {
      assert Keys([Loc("fanout.notification_distance")]) == ["fanout.notification_distance"];
      assert ArgKeys([IntArg(distanceKm)]) == [];
    }
  }

  /**
   * What buildNotificationMessage promises: the author's header and phrasing
   * exactly for the author, the amount line exactly when an amount is set, the
   * distance line exactly for readers other than the author.
   */
  lemma NotificationContents(e: Exchange, recipientId: int, distanceKm: int)
    ensures var ks := Keys(NotificationText(e, recipientId, distanceKm));
      ("fanout.author_notification_header" in ks <==> recipientId == e.userId)
      && ("fanout.notification_header" in ks <==> recipientId != e.userId)
      && ("fanout.notification_amount" in ks <==> e.amountUsd.Some?)
      && ("fanout.notification_distance" in ks <==> recipientId != e.userId)
      && ("fanout.notification_have_cash" in ks <==> recipientId != e.userId && e.direction == DirectionCashToCrypto)
      && ("fanout.author_notification_have_crypto" in ks <==> recipientId == e.userId && e.direction != DirectionCashToCrypto)
  {
    var amount: seq<string> := if e.amountUsd.Some? then ["fanout.notification_amount"] else [];
    NotificationKeys(e, recipientId, distanceKm);
    if recipientId == e.userId {
      AuthorNotificationKeys(e.direction, amount);
    } else {
      ReaderNotificationKeys(e.direction, amount);
    }
  }

  lemma AuthorNotificationKeys(direction: string, amount: seq<string>)
    requires amount == [] || amount == ["fanout.notification_amount"]
    ensures var ks := ["fanout.author_notification_header", HaveKey(direction, true), NeedKey(direction, true)] + amount;
      "fanout.author_notification_header" in ks && "fanout.notification_header" !in ks
      && ("fanout.notification_amount" in ks <==> amount != []) && "fanout.notification_distance" !in ks
      && "fanout.notification_have_cash" !in ks
      && ("fanout.author_notification_have_crypto" in ks <==> direction != DirectionCashToCrypto)
  {
  }

  lemma ReaderNotificationKeys(direction: string, amount: seq<string>)
    requires amount == [] || amount == ["fanout.notification_amount"]
    ensures var ks := ["fanout.notification_header", HaveKey(direction, false), NeedKey(direction, false)] + amount
        + ["fanout.notification_distance"];
      "fanout.author_notification_header" !in ks && "fanout.notification_header" in ks
      && ("fanout.notification_amount" in ks <==> amount != []) && "fanout.notification_distance" in ks
      && ("fanout.notification_have_cash" in ks <==> direction == DirectionCashToCrypto)
      && "fanout.author_notification_have_crypto" !in ks
  {
  }

  /**
   * BroadcastExchange: no initiator, no initiator radius or a failed query is
   * an error and nothing is published; otherwise every notified user gets one
   * attempt, whatever happens to the attempts before it.
   */
  method BroadcastExchange(ctx: Context, e: Exchange, dist: Haversine) returns (ok: bool)
    requires ctx.Valid()
    modifies ctx`attempted
    ensures ok == (ctx.repo.FoundUser(e.userId).Some? && ctx.repo.FoundUser(e.userId).value.searchRadiusKm.Some?
      && FindUsersInRadiusOp !in ctx.repo.failing)
    ensures ctx.attempted == old(ctx.attempted)
      + (if ok then Notifications(e, ToUsers(RadiusRows(ctx.repo.users, ctx.repo.userOrder, ctx.repo.geo, Point(e.lat, e.lon), OverrideRadiusKm)), dist) else [])
    ensures OnePerRecipient(ctx.attempted[|old(ctx.attempted)|..])
  {
    var initiator := ctx.repo.FindUser(e.userId);
    if initiator.None? || initiator.value.searchRadiusKm.None? {
      assert ctx.attempted[|old(ctx.attempted)|..] == [];
      return false;
    }
    var nearby, found := ctx.repo.FindUsersInRadius(e.lat, e.lon, OverrideRadiusKm);
    if !found {
      assert ctx.attempted[|old(ctx.attempted)|..] == [];
      return false;
    }
    ghost var before := ctx.attempted;
    PublishNotifications(ctx, e, nearby, dist);
    RadiusRowsCorrect(ctx.repo.users, ctx.repo.userOrder, ctx.repo.geo, Point(e.lat, e.lon), OverrideRadiusKm);
    assert DistinctIds(nearby) by {
      var rs := RadiusRows(ctx.repo.users, ctx.repo.userOrder, ctx.repo.geo, Point(e.lat, e.lon), OverrideRadiusKm);
      forall i, j | 0 <= i < j < |nearby| ensures nearby[i].userId != nearby[j].userId {
        assert nearby[i] == ToUser(rs[i]) && nearby[j] == ToUser(rs[j]);
      }
    }
    NotificationsOncePerUser(e, nearby, dist);
    assert ctx.attempted[|before|..] == Notifications(e, nearby, dist);
    ok := true;
  }

  /** BroadcastExchange's loop: one publish attempt per notified user, in order. */
  method PublishNotifications(ctx: Context, e: Exchange, nearby: seq<User>, dist: Haversine)
    modifies ctx`attempted
    ensures ctx.attempted == old(ctx.attempted) + Notifications(e, nearby, dist)
  {
    ghost var before := ctx.attempted;
    var i := 0;
    while i < |nearby|
      invariant 0 <= i <= |nearby|
      invariant ctx.attempted == before + Notifications(e, nearby[..i], dist)
    {
      assert nearby[..i + 1] == nearby[..i] + [nearby[i]];
      NotificationsConcat(e, nearby[..i], [nearby[i]], dist);
      var u := nearby[i];
      if u.menuId == MenuMain || u.userId == e.userId {
        var _ := ctx.Publish(Notification(e, u, dist));
      }
      i := i + 1;
    }
    assert nearby[..|nearby|] == nearby;
  }

  /** formatTimeAgo's integer conversions truncate toward zero. */
  function TruncDiv(n: int, d: int): int
    requires d > 0
  {
    if n >= 0 then n / d else -((-n) / d)
  }

  const SecondsPerMinute: int := 60
  const SecondsPerHour: int := 3600

  /** formatTimeAgo: "how long ago" for an elapsed number of seconds. */
  function TimeAgo(elapsed: int): seq<Piece>
  {
    var minutes := TruncDiv(elapsed, SecondsPerMinute);
    var hours := TruncDiv(elapsed, SecondsPerHour);
    var days := TruncDiv(elapsed, SecondsPerDay);
    var weeks := TruncDiv(days, 7);
    if minutes < 60 then
      (if minutes <= 1 then [Loc("time.minutes_ago_1")] else [Fmt([Loc("time.minutes_ago")], [IntArg(minutes)])])
    else if hours < 24 then
      (if hours == 1 then [Loc("time.hours_ago_1")] else [Fmt([Loc("time.hours_ago")], [IntArg(hours)])])
    else if days < 7 then
      (if days == 1 then [Loc("time.days_ago_1")] else [Fmt([Loc("time.days_ago")], [IntArg(days)])])
    else if days <= 30 then
      (if weeks == 1 then [Loc("time.weeks_ago_1")] else [Fmt([Loc("time.weeks_ago")], [IntArg(weeks)])])
    else [Loc("time.weeks_ago_1")]
  }

  /** `t` is the plural template `key` applied to the count `n`, which is the whole number of `unit`s in `elapsed`. */
  predicate Counted(t: seq<Piece>, key: string, n: int, unit: int, elapsed: int)
  {
    t == [Fmt([Loc(key)], [IntArg(n)])] && n >= 2 && n * unit <= elapsed < (n + 1) * unit
  }

  /**
   * The unit formatTimeAgo picks: minutes below an hour (singular below two
   * minutes, and for a time in the future), then hours below a day, days below
   * a week, weeks up to 30 days, and the singular week after that; the count
   * shown is the number of whole units elapsed.
   */
  lemma TimeAgoUnits(elapsed: int)
    ensures elapsed < 2 * SecondsPerMinute ==> TimeAgo(elapsed) == [Loc("time.minutes_ago_1")]
    ensures 2 * SecondsPerMinute <= elapsed < SecondsPerHour ==>
      Counted(TimeAgo(elapsed), "time.minutes_ago", elapsed / SecondsPerMinute, SecondsPerMinute, elapsed)
    ensures SecondsPerHour <= elapsed < 2 * SecondsPerHour ==> TimeAgo(elapsed) == [Loc("time.hours_ago_1")]
    ensures 2 * SecondsPerHour <= elapsed < SecondsPerDay ==>
      Counted(TimeAgo(elapsed), "time.hours_ago", elapsed / SecondsPerHour, SecondsPerHour, elapsed)
    ensures SecondsPerDay <= elapsed < 2 * SecondsPerDay ==> TimeAgo(elapsed) == [Loc("time.days_ago_1")]
    ensures 2 * SecondsPerDay <= elapsed < 7 * SecondsPerDay ==>
      Counted(TimeAgo(elapsed), "time.days_ago", elapsed / SecondsPerDay, SecondsPerDay, elapsed)
    ensures 7 * SecondsPerDay <= elapsed < 14 * SecondsPerDay ==> TimeAgo(elapsed) == [Loc("time.weeks_ago_1")]
    ensures 14 * SecondsPerDay <= elapsed < 31 * SecondsPerDay ==>
      Counted(TimeAgo(elapsed), "time.weeks_ago", elapsed / (7 * SecondsPerDay), 7 * SecondsPerDay, elapsed)
    ensures 31 * SecondsPerDay <= elapsed ==> TimeAgo(elapsed) == [Loc("time.weeks_ago_1")]
  {
    if elapsed >= 0 {
      var days := elapsed / SecondsPerDay;
      assert days / 7 == elapsed / (7 * SecondsPerDay) by {
        DaysToWeeks(elapsed);
      }
    }
  }

  /** Whole weeks counted from whole days are whole weeks counted from seconds. */
  lemma DaysToWeeks(n: nat)
    ensures n / SecondsPerDay / 7 == n / (7 * SecondsPerDay)
  {
    var q := n / (7 * SecondsPerDay);
    var r := n % (7 * SecondsPerDay);
    assert n == q * (7 * SecondsPerDay) + r;
    var d := r / SecondsPerDay;
    assert 0 <= d < 7;
    assert n == (q * 7 + d) * SecondsPerDay + r % SecondsPerDay;
    assert n / SecondsPerDay == q * 7 + d;
  }

  /** buildHistoricalNotificationMessage: always the reader's phrasing, always the distance line. */
  function HistoricalText(e: Exchange, distanceKm: int, now: int): seq<Piece>
  {
    [Fmt([Loc("fanout.historical_notification_header")], [TextArg(TimeAgo(now - e.createdAt))]), Lit("\n\n"),
     Loc(HaveKey(e.direction, false)), Lit("\n"), Loc(NeedKey(e.direction, false)), Lit("\n")]
    + AmountLine(e)
    + DistanceLine(distanceKm)
  }

  /** queueHistoricalNotificationMessage: a show-contact button only, at priority 80. */
  function HistoricalNotification(e: Exchange, r: User, now: int, dist: Haversine): Envelope
  {
    var text := HistoricalText(e, dist(e.lat, e.lon, r.lat, r.lon), now);
    ExchangeNotification(e.id, r.userId,
      Message(r.userId, text, SupportedLanguageCode(r.languageCode), "HTML",
        Inline([[Button([Loc("fanout.button_show_contact")], ContactPayload(e.id))]]), false),
      PriorityHistorical)
  }

  /** One message per listing whose author is a known user, in the listings' order. */
  function HistoricalNotifications(es: seq<Exchange>, r: User, authors: set<int>, now: int, dist: Haversine): seq<Envelope>
  {
    ByKnownAuthor(es, authors, (e: Exchange) => HistoricalNotification(e, r, now, dist))
  }

  /** msg(e) for every listing e whose author is in `authors`, in the listings' order. */
  function ByKnownAuthor(es: seq<Exchange>, authors: set<int>, msg: Exchange -> Envelope): seq<Envelope>
    decreases |es|
  {
    if es == [] then []
    else (if es[0].userId in authors then [msg(es[0])] else []) + ByKnownAuthor(es[1..], authors, msg)
  }

  lemma {:induction false} ByKnownAuthorConcat(a: seq<Exchange>, b: seq<Exchange>, authors: set<int>, msg: Exchange -> Envelope)
    ensures ByKnownAuthor(a + b, authors, msg) == ByKnownAuthor(a, authors, msg) + ByKnownAuthor(b, authors, msg)
    decreases |a|
  {
    if a == [] {
      assert a + b == b;
    } else {
      assert (a + b)[0] == a[0];
      assert (a + b)[1..] == a[1..] + b;
      ByKnownAuthorConcat(a[1..], b, authors, msg);
      var h := if a[0].userId in authors then [msg(a[0])] else [];
      assert ByKnownAuthor(a + b, authors, msg) == h + ByKnownAuthor(a[1..] + b, authors, msg);
      assert ByKnownAuthor(a, authors, msg) == h + ByKnownAuthor(a[1..], authors, msg);
    }
  }

  lemma HistoricalNotificationsConcat(a: seq<Exchange>, b: seq<Exchange>, r: User, authors: set<int>, now: int, dist: Haversine)
    ensures HistoricalNotifications(a + b, r, authors, now, dist)
      == HistoricalNotifications(a, r, authors, now, dist) + HistoricalNotifications(b, r, authors, now, dist)
  {
    ByKnownAuthorConcat(a, b, authors, (e: Exchange) => HistoricalNotification(e, r, now, dist));
  }

  /** A single listing gives its message exactly when its author is known. */
  lemma ByKnownAuthorOne(x: Exchange, authors: set<int>, msg: Exchange -> Envelope)
    ensures ByKnownAuthor([x], authors, msg) == if x.userId in authors then [msg(x)] else []
  {
    assert [x][1..] == [];
  }

  /** Every historical message goes to the one reader, at priority 80, about a listing with a known author. */
  lemma {:induction false} HistoricalNotificationsCorrect(es: seq<Exchange>, r: User, authors: set<int>, now: int, dist: Haversine)
    ensures |HistoricalNotifications(es, r, authors, now, dist)| <= |es|
    ensures forall n | n in HistoricalNotifications(es, r, authors, now, dist) ::
      n.ExchangeNotification? && n.recipientUserId == r.userId && n.priority == PriorityHistorical
      && n.message.markup == Inline([[Button([Loc("fanout.button_show_contact")], ContactPayload(n.exchangeId))]])
      && exists e | e in es :: e.id == n.exchangeId && e.userId in authors
    ensures (forall e | e in es :: e.userId in authors) ==> |HistoricalNotifications(es, r, authors, now, dist)| == |es|
    decreases |es|
  {
    if es != [] {
      HistoricalNotificationsCorrect(es[1..], r, authors, now, dist);
      var tail := HistoricalNotifications(es[1..], r, authors, now, dist);
      assert forall e | e in es[1..] :: e in es;
      if es[0].userId in authors {
        assert HistoricalNotifications(es, r, authors, now, dist) == [HistoricalNotification(es[0], r, now, dist)] + tail;
        assert es[0] in es;
      }
    }
  }

  /** The historical text never uses the author's phrasing and always ends with the distance. */
  lemma HistoricalTextContents(e: Exchange, distanceKm: int, now: int)
    ensures var t := HistoricalText(e, distanceKm, now);
      t[|t| - 1] == Fmt([Loc("fanout.notification_distance")], [IntArg(distanceKm)])
      && t[0] == Fmt([Loc("fanout.historical_notification_header")], [TextArg(TimeAgo(now - e.createdAt))])
      && t[2] == Loc(HaveKey(e.direction, false)) && t[4] == Loc(NeedKey(e.direction, false))
      && (t[6..|t| - 1] == AmountLine(e))
  {
  }

  /**
   * BroadcastHistoricalExchanges: a missing reader is an error; a reader
   * without a radius is left alone without error; a failed query is an error;
   * otherwise one attempt per found listing whose author exists.
   */
  method BroadcastHistoricalExchanges(ctx: Context, userId: int, lat: real, lon: real, now: int, dist: Haversine)
    returns (ok: bool)
    requires ctx.Valid()
    modifies ctx`attempted
    ensures ctx.repo.FoundUser(userId).None? ==> !ok && ctx.attempted == old(ctx.attempted)
    ensures ctx.repo.FoundUser(userId).Some? && ctx.repo.FoundUser(userId).value.searchRadiusKm.None? ==>
      ok && ctx.attempted == old(ctx.attempted)
    ensures ctx.repo.FoundUser(userId).Some? && ctx.repo.FoundUser(userId).value.searchRadiusKm.Some? ==>
      ok == (FindHistoricalOp !in ctx.repo.failing)
      && ctx.attempted == old(ctx.attempted)
        + (if ok then HistoricalNotifications(Historical(ctx.repo.exchanges, ctx.repo.geo, Point(lat, lon), OverrideRadiusKm, userId, now),
                        ctx.repo.FoundUser(userId).value, ctx.repo.users.Keys, now, dist)
           else [])
  {
    var user := ctx.repo.FindUser(userId);
    if user.None? {
      return false;
    }
    if user.value.searchRadiusKm.None? {
      return true;
    }
    var found, qok := ctx.repo.FindHistoricalExchangesInRadius(lat, lon, OverrideRadiusKm, userId, now);
    if !qok {
      return false;
    }
    PublishHistorical(ctx, found, user.value, now, dist);
    ok := true;
  }

  /** BroadcastHistoricalExchanges' loop: one attempt per listing whose author is found, in order. */
  method PublishHistorical(ctx: Context, found: seq<Exchange>, reader: User, now: int, dist: Haversine)
    requires ctx.Valid() && FindUserOp !in ctx.repo.failing
    modifies ctx`attempted
    ensures ctx.attempted == old(ctx.attempted) + HistoricalNotifications(found, reader, ctx.repo.users.Keys, now, dist)
  {
    ghost var before := ctx.attempted;
    ghost var msg := (e: Exchange) => HistoricalNotification(e, reader, now, dist);
    var i := 0;
    while i < |found|
      invariant 0 <= i <= |found|
      invariant ctx.attempted == before + ByKnownAuthor(found[..i], ctx.repo.users.Keys, msg)
    {
      assert found[..i + 1] == found[..i] + [found[i]];
      ByKnownAuthorConcat(found[..i], [found[i]], ctx.repo.users.Keys, msg);
      ByKnownAuthorOne(found[i], ctx.repo.users.Keys, msg);
      PublishHistoricalOne(ctx, found[i], reader, now, dist);
      i := i + 1;
    }
    assert found[..|found|] == found;
  }

  /** One round of that loop: the message is attempted when the listing's author is found. */
  method PublishHistoricalOne(ctx: Context, x: Exchange, reader: User, now: int, dist: Haversine)
    requires ctx.Valid() && FindUserOp !in ctx.repo.failing
    modifies ctx`attempted
    ensures ctx.attempted == old(ctx.attempted)
      + (if x.userId in ctx.repo.users.Keys then [HistoricalNotification(x, reader, now, dist)] else [])
  {
    var initiator := ctx.repo.FindUser(x.userId);
    if initiator.Some? {
      var _ := ctx.Publish(HistoricalNotification(x, reader, now, dist));
    }
  }
}
