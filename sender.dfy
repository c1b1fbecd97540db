// sender/sender.go: the consumer of the outgoing queue. Each delivery is
// routed on its message_type header, handed to the Bot API (whose reply is
// a parameter), counted in a metric, and for an exchange notification
// recorded as a timeline row. rabbit/rabbit.go fixes the headers each kind
// of envelope is published with.
module Sender {
  import opened Wrappers
  import opened Text
  import opened Locale
  import opened Objects
  import opened Tables
  import opened Repository
  import opened Broker

  // ------------------------------------------------------------ extractErrorCode

  /** RE2's \s: the ASCII white space \t \n \f \r and space (not \v). */
  predicate RegexSpace(c: char)
  {
    c == '\t' || c == '\n' || c == '\U{0C}' || c == '\r' || c == ' '
  }

  /** What may stand right before a code: (?:^|\s|:|\(|-), the start of text aside. */
  predicate OpensCode(c: char)
  {
    RegexSpace(c) || c == ':' || c == '(' || c == '-'
  }

  /** What may stand right after a code: (?:\s|$|:|!|\)|,), the end of text aside. */
  predicate ClosesCode(c: char)
  {
    RegexSpace(c) || c == ':' || c == '!' || c == ')' || c == ','
  }

  /** The pattern matches with its group [4-5]\d{2} at positions p, p+1, p+2 of s. */
  predicate CodeAt(s: string, p: nat)
  {
    p + 3 <= |s|
    && (s[p] == '4' || s[p] == '5') && IsDigit(s[p + 1]) && IsDigit(s[p + 2])
    && (p == 0 || OpensCode(s[p - 1]))
    && (p + 3 == |s| || ClosesCode(s[p + 3]))
  }

  /** strconv.Atoi of the three captured digits. */
  function CodeValue(s: string, p: nat): (n: int)
    requires CodeAt(s, p)
    ensures 400 <= n <= 599
  {
    (s[p] as int - '0' as int) * 100 + (s[p + 1] as int - '0' as int) * 10 + (s[p + 2] as int - '0' as int)
  }

  /**
   * The capture of the leftmost match from position i on. A match at p
   * starts at p (via ^) or at p - 1 (via the character before it), so the
   * leftmost match is the one with the smallest p; when a code opens the
   * text, ^ is the first alternative and wins over a match starting at the
   * same place one character later.
   */
  function ScanCode(s: string, i: nat): (code: int)
    decreases |s| - i
  {
    if i + 3 > |s| then 0
    else if CodeAt(s, i) then CodeValue(s, i)
    else ScanCode(s, i + 1)
  }

  /** extractErrorCode: 200 for no error, else the first HTTP code in the message, else 0. */
  function ExtractErrorCode(err: Option<string>): (code: int)
  {
    if err.None? then 200 else ScanCode(err.value, 0)
  }

  lemma {:induction false} ScanCodeLeftmost(s: string, i: nat, p: nat)
    requires i <= p && CodeAt(s, p)
    requires forall q | i <= q < p :: !CodeAt(s, q)
    ensures ScanCode(s, i) == CodeValue(s, p)
    decreases p - i
  {
    if i < p {
      ScanCodeLeftmost(s, i + 1, p);
    }
  }

  lemma {:induction false} ScanCodeNone(s: string, i: nat)
    requires forall q | i <= q :: !CodeAt(s, q)
    ensures ScanCode(s, i) == 0
    decreases |s| - i
  {
    if i + 3 <= |s| {
      ScanCodeNone(s, i + 1);
    }
  }

  lemma {:induction false} ScanCodeFound(s: string, i: nat)
    requires ScanCode(s, i) != 0
    ensures exists p: nat :: i <= p && CodeAt(s, p) && ScanCode(s, i) == CodeValue(s, p)
    decreases |s| - i
  {
    if !CodeAt(s, i) {
      ScanCodeFound(s, i + 1);
    }
  }

  /**
   * The code found is the capture of the leftmost match, and 0 means the
   * pattern does not match anywhere.
   */
  lemma ExtractErrorCodeCorrect(e: string)
    ensures ExtractErrorCode(Some(e)) == 0 <==> forall p: nat :: !CodeAt(e, p)
    ensures forall p: nat | CodeAt(e, p) && (forall q: nat | 0 <= q < p :: !CodeAt(e, q)) :: ExtractErrorCode(Some(e)) == CodeValue(e, p)
  {
    forall p: nat | CodeAt(e, p) && (forall q: nat | 0 <= q < p :: !CodeAt(e, q))
      ensures ExtractErrorCode(Some(e)) == CodeValue(e, p)
    {
      ScanCodeLeftmost(e, 0, p);
    }
    if forall p: nat :: !CodeAt(e, p) {
      ScanCodeNone(e, 0);
    } else {
      var p :| CodeAt(e, p);
      SmallestCode(e, p);
    }
  }

  /** Some match has a leftmost one. */
  lemma {:induction false} SmallestCode(e: string, p: nat)
    requires CodeAt(e, p)
    ensures exists m: nat :: CodeAt(e, m) && (forall q: nat | 0 <= q < m :: !CodeAt(e, q)) && ScanCode(e, 0) != 0
    decreases p
  {
    if forall q: nat | 0 <= q < p :: !CodeAt(e, q) {
      ScanCodeLeftmost(e, 0, p);
    } else {
      var q :| 0 <= q < p && CodeAt(e, q);
      SmallestCode(e, q);
    }
  }

  /** Every answer is 0, 200 or an HTTP error code 400..599. */
  lemma ExtractErrorCodeRange(err: Option<string>)
    ensures var c := ExtractErrorCode(err); c == 0 || c == 200 || 400 <= c <= 599
    ensures err.Some? ==> ExtractErrorCode(err) != 200
  {
    if err.Some? && ScanCode(err.value, 0) != 0 {
      ScanCodeFound(err.value, 0);
    }
  }

  /** A phone number, a four-digit number and two-digit numbers carry no code. */
  lemma NoCodeExamples()
    ensures ExtractErrorCode(Some("Error 4001")) == 0
    ensures ExtractErrorCode(Some("Error 40 or 50")) == 0
    ensures ExtractErrorCode(Some("+1-429-555-0123")) == 0
  {
    var a := "Error 4001";
    forall q | 0 <= q ensures !CodeAt(a, q) {
      if q == 6 { assert a[9] == '1'; }
    }
    ScanCodeNone(a, 0);
    var b := "Error 40 or 50";
    forall q | 0 <= q ensures !CodeAt(b, q) {
      if q == 6 { assert b[8] == ' '; }
      if q == 12 { assert q + 3 > |b|; }
    }
    ScanCodeNone(b, 0);
    var c := "+1-429-555-0123";
    forall q | 0 <= q ensures !CodeAt(c, q) {
      if q == 3 { assert c[6] == '-'; assert c[3] == '4'; }
      if q == 7 { assert c[7] == '5'; assert c[10] == '-'; }
    }
    ScanCodeNone(c, 0);
  }

  /** The first code wins; a code glued to other digits does not count. */
  lemma CodeExamples()
    ensures ExtractErrorCode(Some("400 and 500")) == 400
    ensures ExtractErrorCode(Some("year 2023, code 500")) == 500
  {
    var a := "400 and 500";
    assert CodeAt(a, 0);
    ScanCodeLeftmost(a, 0, 0);
    var b := "year 2023, code 500";
    assert CodeAt(b, 16);
    forall q | 0 <= q < 16 ensures !CodeAt(b, q) {
    }
    ScanCodeLeftmost(b, 0, 16);
  }

  // ------------------------------------------------------------ deliveries

  /** An AMQP header value: the sender only tells strings and int64 apart from the rest. */
  datatype Header = HStr(s: string) | HInt64(n: int) | HOther

  /** The JSON body of a delivery, decoded as one of the bag types of rabbit.go. */
  datatype Bag =
    | MessageBag(message: Message, priority: int)
    | CallbackBag(callbackId: string, answer: string, priority: int)
    | EditBag(chatId: int, messageId: int, text: seq<Piece>, lang: string, parseMode: string, priority: int)

  /** A delivery from the queue; body None is a body that does not unmarshal. */
  datatype Delivery = Delivery(headers: map<string, Header>, body: Option<Bag>)

  /**
   * What the publish calls of rabbit.go put on the queue for an envelope: a
   * plain message has no headers; the others name their type, and an
   * exchange notification also carries its two ids.
   */
  function Published(e: Envelope): Delivery
  {
    match e
    case TgMessage(m, p) => Delivery(map[], Some(MessageBag(m, p)))
    case CallbackAnswer(id, a, p) => Delivery(map["message_type" := HStr("callback_answer")], Some(CallbackBag(id, a, p)))
    case EditText(c, mid, t, l, pm, p) => Delivery(map["message_type" := HStr("edit_message")], Some(EditBag(c, mid, t, l, pm, p)))
    case ExchangeNotification(x, r, m, p) =>
      Delivery(map["message_type" := HStr("exchange_notification"), "exchange_id" := HInt64(x), "recipient_user_id" := HInt64(r)],
        Some(MessageBag(m, p)))
  }

  datatype Route = NotificationRoute | CallbackRoute | EditRoute | RegularRoute

  /** The switch on message_type: three known string values, anything else is a regular message. */
  function RouteOf(headers: map<string, Header>): (r: Route)
    ensures r == RegularRoute <==>
      ("message_type" !in headers
       || headers["message_type"] !in {HStr("exchange_notification"), HStr("callback_answer"), HStr("edit_message")})
  {
    if "message_type" !in headers then RegularRoute
    else if headers["message_type"] == HStr("exchange_notification") then NotificationRoute
    else if headers["message_type"] == HStr("callback_answer") then CallbackRoute
    else if headers["message_type"] == HStr("edit_message") then EditRoute
    else RegularRoute
  }

  /** A call the sender makes on the Bot API. */
  datatype BotCall =
    | SendCall(message: Message)
    | AnswerCall(callbackId: string, answer: string)
    | EditCall(chatId: int, messageId: int, text: seq<Piece>, lang: string, parseMode: string)

  /** The Bot API's reply: the sent message's id, or the error's text. */
  datatype Reply = Delivered(messageId: int) | Failed(error: string)

  /** metrics.RecordTelegramMessage(kind, status, errorCode). */
  datatype Metric = Metric(kind: string, status: string, errorCode: string)

  function KindName(r: Route): string
  {
    match r
    case NotificationRoute => "exchange_notification"
    case CallbackRoute => "callback_answer"
    case EditRoute => "edit_message"
    case RegularRoute => "regular"
  }

  /** The metric after a call: "sent"/"none", or "failed" with the extracted error code. */
  function MetricFor(r: Route, reply: Reply): (m: Metric)
    ensures m.kind == KindName(r)
    ensures reply.Delivered? <==> m.status == "sent"
    ensures reply.Failed? ==> m.errorCode == IntToString(ExtractErrorCode(Some(reply.error)))
  {
    match reply
    case Delivered(_) => Metric(KindName(r), "sent", "none")
    case Failed(e) => Metric(KindName(r), "failed", IntToString(ExtractErrorCode(Some(e))))
  }

  /** The two int64 ids of an exchange notification's headers, when both are there. */
  function NotificationIds(headers: map<string, Header>): Option<(int, int)>
  {
    if "exchange_id" in headers && headers["exchange_id"].HInt64?
      && "recipient_user_id" in headers && headers["recipient_user_id"].HInt64?
    then Some((headers["exchange_id"].n, headers["recipient_user_id"].n))
    else None
  }

  /**
   * json.Unmarshal into a bag struct of rabbit.go succeeds on any JSON
   * object: keys of another bag type are ignored and the missing field keeps
   * its zero value, so a body of the wrong kind decodes as the zero-valued
   * bag the route expects.
   */
  const ZeroMessage := Message(0, [], "", "", NoMarkup, false)

  function MessageOf(b: Bag): (m: Message)
    ensures b.MessageBag? ==> m == b.message
    ensures !b.MessageBag? ==> m == ZeroMessage
  {
    if b.MessageBag? then b.message else ZeroMessage
  }

  function AnswerOf(b: Bag): (c: BotCall)
    ensures c.AnswerCall?
    ensures b.CallbackBag? ==> c == AnswerCall(b.callbackId, b.answer)
    ensures !b.CallbackBag? ==> c == AnswerCall("", "")
  {
    if b.CallbackBag? then AnswerCall(b.callbackId, b.answer) else AnswerCall("", "")
  }

  function EditOf(b: Bag): (c: BotCall)
    ensures c.EditCall?
    ensures b.EditBag? ==> c == EditCall(b.chatId, b.messageId, b.text, b.lang, b.parseMode)
    ensures !b.EditBag? ==> c == EditCall(0, 0, [], "", "")
  {
    if b.EditBag? then EditCall(b.chatId, b.messageId, b.text, b.lang, b.parseMode) else EditCall(0, 0, [], "", "")
  }

  /**
   * The Bot API call a delivery leads to: none when the body does not
   * unmarshal or when a notification lacks its ids; otherwise the call of
   * the route's kind made from the body as that route decodes it.
   */
  function CallFor(d: Delivery): Option<BotCall>
  {
    if d.body.None? then None
    else
      match RouteOf(d.headers)
      case NotificationRoute =>
        if NotificationIds(d.headers).Some? then Some(SendCall(MessageOf(d.body.value))) else None
      case CallbackRoute => Some(AnswerOf(d.body.value))
      case EditRoute => Some(EditOf(d.body.value))
      case RegularRoute => Some(SendCall(MessageOf(d.body.value)))
  }

  /**
   * A call is made exactly when the body unmarshals and, for a notification,
   * both ids are int64 headers; the call is of the route's kind, and a body
   * of another bag kind gives that kind's zero-valued call.
   */
  lemma CallForCases(d: Delivery)
    ensures CallFor(d).Some? <==> d.body.Some? && (RouteOf(d.headers) == NotificationRoute ==> NotificationIds(d.headers).Some?)
    ensures CallFor(d).Some? ==> match RouteOf(d.headers)
      case NotificationRoute => CallFor(d).value.SendCall?
      case RegularRoute => CallFor(d).value.SendCall?
      case CallbackRoute => CallFor(d).value.AnswerCall?
      case EditRoute => CallFor(d).value.EditCall?
    ensures CallFor(d).Some? && CallFor(d).value.SendCall? && !d.body.value.MessageBag? ==>
      CallFor(d).value == SendCall(ZeroMessage)
    ensures CallFor(d).Some? && CallFor(d).value.AnswerCall? && !d.body.value.CallbackBag? ==>
      CallFor(d).value == AnswerCall("", "")
    ensures CallFor(d).Some? && CallFor(d).value.EditCall? && !d.body.value.EditBag? ==>
      CallFor(d).value == EditCall(0, 0, [], "", "")
  {
  }

  /** The Bot API call that carries out an envelope the bot published. */
  function CallOf(e: Envelope): BotCall
  {
    match e
    case TgMessage(m, _) => SendCall(m)
    case CallbackAnswer(id, a, _) => AnswerCall(id, a)
    case EditText(c, mid, t, l, pm, _) => EditCall(c, mid, t, l, pm)
    case ExchangeNotification(_, _, m, _) => SendCall(m)
  }

  /**
   * Every envelope the bot publishes reaches the handler of its own kind and
   * becomes exactly its own Bot API call; a notification's ids survive the
   * trip through the headers.
   */
  lemma PublishedRoundTrip(e: Envelope)
    ensures CallFor(Published(e)) == Some(CallOf(e))
    ensures RouteOf(Published(e).headers) == (match e
      case TgMessage(_, _) => RegularRoute
      case CallbackAnswer(_, _, _) => CallbackRoute
      case EditText(_, _, _, _, _, _) => EditRoute
      case ExchangeNotification(_, _, _, _) => NotificationRoute)
    ensures e.ExchangeNotification? ==> NotificationIds(Published(e).headers) == Some((e.exchangeId, e.recipientUserId))
  {
  }

  /** The record handleExchangeNotification writes: sent with the message id, or failed without one. */
  function DeliveryRecord(exchangeId: int, recipient: int, reply: Reply, now: int): (t: TimelineRecord)
    ensures t.exchangeId == exchangeId && t.recipientUserId == recipient && !t.isDeleted && t.deletedAt == None
    ensures reply.Delivered? ==> t.status == TimelineStatusSent && t.telegramMessageId == Some(reply.messageId)
    ensures reply.Failed? ==> t.status == TimelineStatusFailed && t.telegramMessageId == None
  {
    var t := NewTimelineRecord(exchangeId, recipient, now);
    match reply
    case Delivered(id) => t.(telegramMessageId := Some(id), status := TimelineStatusSent)
    case Failed(_) => t.(status := TimelineStatusFailed)
  }

  /**
   * handleExchangeNotification: ids that are not int64 end it with no call
   * and no record; otherwise the message is sent first and exactly one
   * record of the outcome is inserted (an insert error is only logged).
   */
  method HandleExchangeNotification(repo: Store, m: Message, headers: map<string, Header>, reply: Reply, now: int)
    returns (call: Option<BotCall>, metric: Option<Metric>)
    requires repo.Valid()
    modifies repo`timeline
    ensures repo.Valid()
    ensures NotificationIds(headers).None? ==> call.None? && metric.None? && repo.timeline == old(repo.timeline)
    ensures NotificationIds(headers).Some? ==>
      var (x, r) := NotificationIds(headers).value;
      call == Some(SendCall(m)) && metric == Some(MetricFor(NotificationRoute, reply))
      && repo.timeline == old(repo.timeline)
        + (if CreateTimelineRecordOp in repo.failing then []
           else [DeliveryRecord(x, r, reply, now).(id := |old(repo.timeline)| + 1)])
  {
    if !("exchange_id" in headers && headers["exchange_id"].HInt64?) {
      return None, None;
    }
    var exchangeId := headers["exchange_id"].n;
    if !("recipient_user_id" in headers && headers["recipient_user_id"].HInt64?) {
      return None, None;
    }
    var recipient := headers["recipient_user_id"].n;
    call := Some(SendCall(m));
    metric := Some(MetricFor(NotificationRoute, reply));
    var record := NewTimelineRecord(exchangeId, recipient, now);
    if reply.Failed? {
      record := record.(status := TimelineStatusFailed);
    } else {
      record := record.(telegramMessageId := Some(reply.messageId), status := TimelineStatusSent);
    }
    var _, _ := repo.CreateTimelineRecord(record);
  }

  /**
   * Handler: the call made is CallFor(d), its outcome is counted, and only
   * a sent or failed exchange notification adds a timeline record.
   */
  method Handle(repo: Store, d: Delivery, reply: Reply, now: int) returns (call: Option<BotCall>, metric: Option<Metric>)
    requires repo.Valid()
    modifies repo`timeline
    ensures repo.Valid()
    ensures call == CallFor(d)
    ensures metric == if call.Some? then Some(MetricFor(RouteOf(d.headers), reply)) else None
    ensures repo.timeline == old(repo.timeline)
      + (if call.Some? && RouteOf(d.headers) == NotificationRoute && CreateTimelineRecordOp !in repo.failing
         then [DeliveryRecord(NotificationIds(d.headers).value.0, NotificationIds(d.headers).value.1, reply, now)
           .(id := |old(repo.timeline)| + 1)]
         else [])
  {
    if d.body.None? {
      return None, None;
    }
    var route := RouteOf(d.headers);
    var bag := d.body.value;
    if route == NotificationRoute {
      call, metric := HandleExchangeNotification(repo, MessageOf(bag), d.headers, reply, now);
    } else if route == CallbackRoute {
      call, metric := Some(AnswerOf(bag)), Some(MetricFor(CallbackRoute, reply));
    } else if route == EditRoute {
      call, metric := Some(EditOf(bag)), Some(MetricFor(EditRoute, reply));
    } else {
      call, metric := Some(SendCall(MessageOf(bag))), Some(MetricFor(RegularRoute, reply));
    }
  }

  /**
   * A fanout notification the bot published leaves exactly one timeline
   * row for its exchange and recipient, sent or failed as the Bot API said.
   */
  lemma NotificationLeavesOneRecord(e: Envelope, reply: Reply, now: int)
    requires e.ExchangeNotification?
    ensures var d := Published(e);
      CallFor(d).Some? && RouteOf(d.headers) == NotificationRoute
      && NotificationIds(d.headers).value == (e.exchangeId, e.recipientUserId)
      && DeliveryRecord(e.exchangeId, e.recipientUserId, reply, now).status == (if reply.Delivered? then TimelineStatusSent else TimelineStatusFailed)
  {
  }
}
