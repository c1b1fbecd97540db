// The per-state screens of menu/*.go: what each menu state shows, what its
// buttons send back, and what each handler does to the store and the
// outbox. A handler gets the user as the menu loop read it; each state
// change is the Go pair `user.MenuId = X; Repo.SaveUser(user)`.
//
// A nil *User dereferenced after FindUser is a panic that ends the process
// (librecash.go installs no recover); a handler that can reach one returns
// `crashed`, and nothing after the panic happens.
module Screens {
  import opened Wrappers
  import opened Text
  import opened Locale
  import opened Objects
  import opened Tables
  import opened Repository
  import opened Broker
  import opened Fanout
  import opened Contact

  /** What comes from outside the bot: the current time in seconds and the distance function. */
  datatype World = World(now: int, dist: Haversine)

  /** The sender of an incoming message (tgbotapi.User): its profile fields. */
  datatype Profile = Profile(username: string, firstName: string, lastName: string, languageCode: string)

  /** An incoming tgbotapi.Message: its text, a shared location, a shared phone number, its sender. */
  datatype Incoming = Incoming(text: string, location: Option<Point>, contact: Option<string>, from: Option<Profile>)

  /** &tgbotapi.Message{}: what the menu loop hands to every handler after the first. */
  const EmptyMessage: Incoming := Incoming("", None, None, None)

  /**
   * The follow-up message RegenerateCurrentMenu and ContinueMenuProcessing
   * build: no text, and a sender that carries only its id.
   */
  const IdOnlyMessage: Incoming := Incoming("", None, None, Some(Profile("", "", "", "")))

  /** A message with nothing for a handler to act on: no text, no location, no contact. */
  predicate Bare(msg: Incoming)
  {
    msg.text == "" && msg.location.None? && msg.contact.None?
  }

  /** The catalog a user's texts are rendered from (User.Locale). */
  function Lang(u: User): string
  {
    SupportedLanguageCode(u.languageCode)
  }

  // ---------------------------------------------------------------------
  // The users table as SaveUser leaves it

  datatype UserTable = UserTable(rows: map<int, UserRow>, order: seq<int>)

  function TableOf(repo: Store): UserTable
    reads repo
  {
    UserTable(repo.users, repo.userOrder)
  }

  predicate SaveSucceeds(failing: set<Op>)
  {
    SaveUserOp !in failing && SaveUserGeogOp !in failing
  }

  /**
   * The table after Repository.SaveUser(u): unchanged when the upsert
   * fails; otherwise the user reads back as saved (also when only the geog
   * statement fails), and no other user changes.
   */
  function AfterSave(t: UserTable, failing: set<Op>, u: User): (r: UserTable)
    ensures SaveUserOp in failing ==> r == t
    ensures SaveUserOp !in failing ==> UserIn(r.rows, u.userId) == Some(u)
    ensures forall uid :: uid != u.userId ==> UserIn(r.rows, uid) == UserIn(t.rows, uid)
    ensures r.rows.Keys == t.rows.Keys + (if SaveUserOp in failing then {} else {u.userId})
  {
    SavedUserReadsBack(t.rows, u);
    if SaveUserOp in failing then t
    else if SaveUserGeogOp in failing then UserTable(t.rows[u.userId := UpsertedRow(t.rows, u)], UpsertOrder(t.rows, t.order, u.userId))
    else UserTable(t.rows[u.userId := SavedRow(u)], UpsertOrder(t.rows, t.order, u.userId))
  }

  /** Repository.SaveUser, described on the table. */
  method Persist(ctx: Context, u: User) returns (ok: bool)
    requires ctx.Valid()
    modifies ctx.repo`users, ctx.repo`userOrder
    ensures ctx.Valid()
    ensures TableOf(ctx.repo) == AfterSave(old(TableOf(ctx.repo)), ctx.repo.failing, u)
    ensures ok == SaveSucceeds(ctx.repo.failing)
  {
    ok := ctx.repo.SaveUser(u);
  }

  /** A user that was found stays found after a save, with the saved menu state or its old one. */
  lemma SaveKeepsUser(t: UserTable, failing: set<Op>, u: User, m: int)
    requires UserIn(t.rows, u.userId) == Some(u)
    ensures UserIn(AfterSave(t, failing, u.(menuId := m)).rows, u.userId) ==
      if SaveUserOp in failing then Some(u) else Some(u.(menuId := m))
  {
  }

  // ---------------------------------------------------------------------
  // Buttons and callback payloads

  function RowData(row: seq<Button>): seq<string>
  {
    if row == [] then [] else [row[0].data] + RowData(row[1..])
  }

  function RowsData(rows: seq<seq<Button>>): seq<string>
  {
    if rows == [] then [] else RowData(rows[0]) + RowsData(rows[1..])
  }

  /** The callback data of an inline keyboard's buttons, row by row. */
  function Payloads(m: Markup): seq<string>
  {
    if m.Inline? then RowsData(m.rows) else []
  }

  /** The second part of "<tag>:<rest>" when splitting on ':' gives exactly two parts. */
  function TaggedPart(data: string, tag: string): Option<string>
  {
    var parts := Split(data, ':');
    if |parts| == 2 && parts[0] == tag then Some(parts[1]) else None
  }

  /** TaggedPart accepts exactly "<tag>:<rest>" with no further ':'. */
  lemma TaggedPartCorrect(data: string, tag: string, rest: string)
    requires ':' !in tag
    ensures TaggedPart(data, tag) == Some(rest) <==> ':' !in rest && data == tag + ":" + rest
  {
    if ':' !in rest && data == tag + ":" + rest {
      SplitPair(tag, ':', rest);
    }
    if TaggedPart(data, tag) == Some(rest) {
      var parts := Split(data, ':');
      JoinSplit(data, ':');
      assert Join(parts, ':') == parts[0] + [':'] + Join(parts[1..], ':');
      assert Join(parts[1..], ':') == parts[1];
    }
  }

  // ---------------------------------------------------------------------
  // menu/us_compliance_menu.go

  /** Handle: the compliance question with a yes and a no button, in Markdown. */
  function ComplianceQuestion(u: User): Message
  {
    Message(u.userId, [Loc("us_compliance.question")], Lang(u), "Markdown",
      Inline([[Button([Loc("us_compliance.button_yes")], "us_compliance_yes"),
               Button([Loc("us_compliance.button_no")], "us_compliance_no")]]), false)
  }

  /** The state a compliance answer leads to: yes blocks, no continues; anything else is ignored. */
  function ComplianceNext(data: string): (r: Option<int>)
    ensures r == Some(MenuBlocked) <==> data == "us_compliance_yes"
    ensures r == Some(MenuInit) <==> data == "us_compliance_no"
    ensures r.Some? ==> r.value == MenuBlocked || r.value == MenuInit
  {
    if data == "us_compliance_yes" then Some(MenuBlocked)
    else if data == "us_compliance_no" then Some(MenuInit)
    else None
  }

  /** The question offers exactly the two answers the callback understands. */
  lemma ComplianceButtons(u: User)
    ensures Payloads(ComplianceQuestion(u).markup) == ["us_compliance_yes", "us_compliance_no"]
    ensures forall p | p in Payloads(ComplianceQuestion(u).markup) :: ComplianceNext(p).Some?
  {
    var row := [Button([Loc("us_compliance.button_yes")], "us_compliance_yes"),
                Button([Loc("us_compliance.button_no")], "us_compliance_no")];
    assert RowData(row) == ["us_compliance_yes"] + RowData(row[1..]);
    assert RowsData([row]) == RowData(row) + RowsData([]);
  }

  method ComplianceHandle(ctx: Context, u: User)
    modifies ctx`attempted
    ensures ctx.attempted == old(ctx.attempted) + [TgMessage(ComplianceQuestion(u), PrioritySend)]
  {
    ctx.Send(ComplianceQuestion(u));
  }

  // ---------------------------------------------------------------------
  // menu/blocked_menu.go

  function BlockedNotice(u: User): Message
  {
    Message(u.userId, [Loc("blocked.message")], Lang(u), "Markdown", NoMarkup, false)
  }

  /** Handle: one message, no buttons and no state change; only /start leaves this state. */
  method BlockedHandle(ctx: Context, u: User)
    modifies ctx`attempted
    ensures ctx.attempted == old(ctx.attempted) + [TgMessage(BlockedNotice(u), PrioritySend)]
  {
    ctx.Send(BlockedNotice(u));
  }

  // ---------------------------------------------------------------------
  // menu/init_menu.go

  const AdminFeature: string := "admin_channel_new_user_notification"

  /** The welcome, naming the language the user is served in; link previews off. */
  function Welcome(u: User): Message
  {
    Message(u.userId, [Fmt([Loc("init_menu.welcome")], [StrArg(LanguageName(u.languageCode))])], Lang(u), "", NoMarkup, true)
  }

  /** The admin channel's notice: the user without the phone, and the language, in English. */
  function AdminNotice(adminChatId: int, u: User): Message
  {
    Message(adminChatId,
      [Fmt([Lit("New user joined LibreCash: %s\nLanguage: %s")],
           [TextArg(UserIdentifier(u, false, "en")), StrArg(LanguageName(u.languageCode))])],
      "en", "HTML", NoMarkup, false)
  }

  /** ShowCallout's answer: the admin is told unless the pair was dismissed (a failed read tells). */
  predicate AdminDue(dismissed: set<(int, string)>, failing: set<Op>, uid: int)
  {
    ShowCalloutOp in failing || (uid, AdminFeature) !in dismissed
  }

  twostate predicate InitDone(ctx: Context, u: User)
    reads ctx, ctx.repo
  {
    var due := AdminDue(old(ctx.repo.dismissed), ctx.repo.failing, u.userId);
    ctx.attempted == old(ctx.attempted) + [TgMessage(Welcome(u), PrioritySend)]
      + (if due then [TgMessage(AdminNotice(ctx.adminChatId, u), PriorityAdmin)] else [])
    && ctx.repo.dismissed == (if due && DismissCalloutOp !in ctx.repo.failing
                              then old(ctx.repo.dismissed) + {(u.userId, AdminFeature)} else old(ctx.repo.dismissed))
    && TableOf(ctx.repo) == AfterSave(old(TableOf(ctx.repo)), ctx.repo.failing, u.(menuId := MenuSelectRadius))
  }

  /**
   * Handle: the welcome, the admin notice when the callout is due (and
   * then dismissed), and the move to radius selection. Once the callout
   * statements work, the notice is never due again for this user.
   */
  method InitHandle(ctx: Context, u: User)
    requires ctx.Valid()
    modifies ctx`attempted, ctx.repo`dismissed, ctx.repo`users, ctx.repo`userOrder
    ensures ctx.Valid()
    ensures InitDone(ctx, u)
    ensures ShowCalloutOp !in ctx.repo.failing && DismissCalloutOp !in ctx.repo.failing ==>
      !AdminDue(ctx.repo.dismissed, ctx.repo.failing, u.userId)
  {
    ctx.Send(Welcome(u));
    var show := ctx.repo.ShowCallout(u.userId, AdminFeature);
    if show {
      var _ := ctx.Publish(TgMessage(AdminNotice(ctx.adminChatId, u), PriorityAdmin));
      var _ := ctx.repo.DismissCallout(u.userId, AdminFeature);
    }
    var _ := Persist(ctx, u.(menuId := MenuSelectRadius));
  }

  // ---------------------------------------------------------------------
  // menu/select_radius_menu.go

  /** Handle: three one-button rows, big city, suburbs and rural. */
  function RadiusPrompt(u: User): Message
  {
    Message(u.userId, [Loc("select_radius_menu.message")], Lang(u), "Markdown",
      Inline([[Button([Loc("select_radius_menu.big_city")], "radius_5")],
              [Button([Loc("select_radius_menu.suburbs")], "radius_15")],
              [Button([Loc("select_radius_menu.rural")], "radius_50")]]), false)
  }

  /** The radius a button stands for. */
  function RadiusOf(data: string): (r: Option<int>)
    ensures r.Some? <==> data in ["radius_5", "radius_15", "radius_50"]
  {
    if data == "radius_5" then Some(5)
    else if data == "radius_15" then Some(15)
    else if data == "radius_50" then Some(50)
    else None
  }

  /** The prompt's buttons are exactly the payloads HandleCallback maps, to 5, 15 and 50 km. */
  lemma RadiusButtons(u: User)
    ensures Payloads(RadiusPrompt(u).markup) == ["radius_5", "radius_15", "radius_50"]
    ensures RadiusOf("radius_5") == Some(5) && RadiusOf("radius_15") == Some(15) && RadiusOf("radius_50") == Some(50)
  {
    var rows := RadiusPrompt(u).markup.rows;
    assert RowData(rows[0]) == ["radius_5"];
    assert RowData(rows[1]) == ["radius_15"];
    assert RowData(rows[2]) == ["radius_50"];
    assert RowsData(rows[2..]) == ["radius_50"] + RowsData([]);
    assert RowsData(rows[1..]) == ["radius_15"] + RowsData(rows[2..]);
  }

  method SelectRadiusHandle(ctx: Context, u: User)
    modifies ctx`attempted
    ensures ctx.attempted == old(ctx.attempted) + [TgMessage(RadiusPrompt(u), PrioritySend)]
  {
    ctx.Send(RadiusPrompt(u));
  }

  /** The confirmation that replaces the prompt, in plain text. */
  function RadiusConfirmed(cb: Callback, u: User, radiusKm: int): Envelope
  {
    EditText(cb.chatId, cb.messageId, [Fmt([Loc("select_radius_menu.radius_confirmed")], [IntArg(radiusKm)])], Lang(u), "", PriorityEdit)
  }

  /** The history after CreateLocationHistory: a new latest entry with the radius and no coordinates yet. */
  function RadiusHistory(h: map<int, seq<HistoryEntry>>, failing: set<Op>, uid: int, radiusKm: int): map<int, seq<HistoryEntry>>
  {
    if CreateLocationHistoryOp in failing then h else h[uid := HistoryOf(h, uid) + [HistoryEntry(radiusKm, 0.0, 0.0)]]
  }

  /**
   * HandleCallback's effect: an unknown payload or a failed radius update
   * does nothing. Otherwise the press is answered, the prompt becomes the
   * confirmation and the user is saved with the radius; when that save
   * works a history entry is opened, the user moves to the location
   * question and it is shown.
   */
  twostate predicate RadiusDone(ctx: Context, cb: Callback, u: User)
    reads ctx, ctx.repo
  {
    var r := RadiusOf(cb.data);
    var failing := ctx.repo.failing;
    if r.None? || UpdateUserSearchRadiusOp in failing then
      ctx.attempted == old(ctx.attempted) && TableOf(ctx.repo) == old(TableOf(ctx.repo))
      && ctx.repo.history == old(ctx.repo.history)
    else
      var u1 := u.(searchRadiusKm := Some(r.value));
      var u2 := u1.(menuId := MenuAskLocation);
      var t1 := AfterSave(UserTable(WithRadius(old(ctx.repo.users), u.userId, r.value), old(ctx.repo.userOrder)), failing, u1);
      if SaveSucceeds(failing) then
        ctx.attempted == old(ctx.attempted) + [Ack(cb), RadiusConfirmed(cb, u, r.value), TgMessage(LocationPrompt(u2), PrioritySend)]
        && TableOf(ctx.repo) == AfterSave(t1, failing, u2)
        && ctx.repo.history == RadiusHistory(old(ctx.repo.history), failing, u.userId, r.value)
      else
        ctx.attempted == old(ctx.attempted) + [Ack(cb), RadiusConfirmed(cb, u, r.value)]
        && TableOf(ctx.repo) == t1 && ctx.repo.history == old(ctx.repo.history)
  }

  method SelectRadiusCallback(ctx: Context, cb: Callback, u: User)
    requires ctx.Valid()
    modifies ctx`attempted, ctx.repo`users, ctx.repo`userOrder, ctx.repo`history
    ensures ctx.Valid()
    ensures RadiusDone(ctx, cb, u)
  {
    var radius := RadiusOf(cb.data);
    if radius.None? {
      return;
    }
    var ok := ctx.repo.UpdateUserSearchRadius(u.userId, radius.value);
    if !ok {
      return;
    }
    ConfirmRadius(ctx, cb, u, radius.value);
  }

  /**
   * The rest of HandleCallback once the radius is stored: answer, confirm,
   * save the radius, then open a history entry, move to the location
   * question and show it, stopping at the first failed save.
   */
  method ConfirmRadius(ctx: Context, cb: Callback, u: User, r: int)
    requires ctx.Valid()
    modifies ctx`attempted, ctx.repo`users, ctx.repo`userOrder, ctx.repo`history
    ensures ctx.Valid()
    ensures var u1 := u.(searchRadiusKm := Some(r));
      var u2 := u1.(menuId := MenuAskLocation);
      var t1 := AfterSave(old(TableOf(ctx.repo)), ctx.repo.failing, u1);
      if SaveSucceeds(ctx.repo.failing) then
        ctx.attempted == old(ctx.attempted) + [Ack(cb), RadiusConfirmed(cb, u, r), TgMessage(LocationPrompt(u2), PrioritySend)]
        && TableOf(ctx.repo) == AfterSave(t1, ctx.repo.failing, u2)
        && ctx.repo.history == RadiusHistory(old(ctx.repo.history), ctx.repo.failing, u.userId, r)
      else
        ctx.attempted == old(ctx.attempted) + [Ack(cb), RadiusConfirmed(cb, u, r)]
        && TableOf(ctx.repo) == t1 && ctx.repo.history == old(ctx.repo.history)
  {
    AcknowledgeRadius(ctx, cb, u, r);
    var u1 := u.(searchRadiusKm := Some(r));
    var ok := Persist(ctx, u1);
    if !ok {
      return;
    }
    var _ := ctx.repo.CreateLocationHistory(u.userId, r);
    var u2 := u1.(menuId := MenuAskLocation);
    ok := Persist(ctx, u2);
    if !ok {
      return;
    }
    AskLocationHandle(ctx, u2, EmptyMessage);
  }
  /** The callback is answered and its message edited into the confirmation. */
  method AcknowledgeRadius(ctx: Context, cb: Callback, u: User, r: int)
    requires ctx.Valid()
    modifies ctx`attempted
    ensures ctx.attempted == old(ctx.attempted) + [Ack(cb), RadiusConfirmed(cb, u, r)]
  {
    var _ := ctx.AnswerCallbackQuery(cb.id, "");
    var _ := ctx.EditMessage(cb.chatId, cb.messageId,
      [Fmt([Loc("select_radius_menu.radius_confirmed")], [IntArg(r)])], Lang(u), "");
  }


  // ---------------------------------------------------------------------
  // menu/ask_location_menu.go

  /** Handle without a location: the prompt with a share-location key. */
  function LocationPrompt(u: User): Message
  {
    Message(u.userId, [Loc("ask_location_menu.message")], Lang(u), "",
      Reply([[LocationKey([Loc("ask_location_menu.next_button")])]]), false)
  }

  function LocationReceived(u: User): Message
  {
    Message(u.userId, [Loc("ask_location_menu.location_received")], Lang(u), "", RemoveKeyboard, false)
  }

  /** The user with the shared coordinates (saveLocation). */
  function Located(u: User, p: Point): (r: User)
    ensures r.lat == p.lat && r.lon == p.lon && r.menuId == u.menuId && r.userId == u.userId
  {
    u.(lon := p.lon, lat := p.lat)
  }

  /** The users table after saveLocation's save and UpdateUserLocation. */
  function LocatedTable(t: UserTable, failing: set<Op>, u: User, p: Point): UserTable
  {
    var t1 := AfterSave(t, failing, Located(u, p));
    if UpdateUserLocationOp in failing then t1 else UserTable(Relocated(t1.rows, u.userId, p), t1.order)
  }

  /** The history after saveLocation: the latest entry gets the coordinates, unless a step fails. */
  function LocatedHistory(h: map<int, seq<HistoryEntry>>, failing: set<Op>, uid: int, p: Point): map<int, seq<HistoryEntry>>
  {
    if UpdateUserLocationOp in failing || UpdateLocationHistoryOp in failing || HistoryOf(h, uid) == [] then h
    else h[uid := UpdatedLatest(HistoryOf(h, uid), p.lat, p.lon)]
  }

  twostate predicate LocationDone(ctx: Context, u: User, msg: Incoming)
    reads ctx, ctx.repo
  {
    if msg.location.None? then
      ctx.attempted == old(ctx.attempted) + [TgMessage(LocationPrompt(u), PrioritySend)]
      && TableOf(ctx.repo) == old(TableOf(ctx.repo)) && ctx.repo.history == old(ctx.repo.history)
    else
      var u2 := Located(u, msg.location.value).(menuId := MenuAskPhone);
      ctx.attempted == old(ctx.attempted) + [TgMessage(LocationReceived(u2), PrioritySend)]
      && TableOf(ctx.repo) == AfterSave(LocatedTable(old(TableOf(ctx.repo)), ctx.repo.failing, u, msg.location.value), ctx.repo.failing, u2)
      && ctx.repo.history == LocatedHistory(old(ctx.repo.history), ctx.repo.failing, u.userId, msg.location.value)
  }

  /**
   * Handle: a shared location is saved, the latest history entry takes it
   * (skipped when UpdateUserLocation fails) and the user moves on to the
   * phone question whatever failed; without a location only the prompt.
   */
  method AskLocationHandle(ctx: Context, u: User, msg: Incoming)
    requires ctx.Valid()
    modifies ctx`attempted, ctx.repo`users, ctx.repo`userOrder, ctx.repo`history
    ensures ctx.Valid()
    ensures LocationDone(ctx, u, msg)
  {
    if msg.location.None? {
      ctx.Send(LocationPrompt(u));
      return;
    }
    var p := msg.location.value;
    SaveLocation(ctx, u, p);
    var u2 := Located(u, p).(menuId := MenuAskPhone);
    var _ := Persist(ctx, u2);
    ctx.Send(LocationReceived(u2));
  }

  /** saveLocation: the user row, its coordinates and the latest history entry, each step skipped on failure. */
  method SaveLocation(ctx: Context, u: User, p: Point)
    requires ctx.Valid()
    modifies ctx.repo`users, ctx.repo`userOrder, ctx.repo`history
    ensures ctx.Valid()
    ensures TableOf(ctx.repo) == LocatedTable(old(TableOf(ctx.repo)), ctx.repo.failing, u, p)
    ensures ctx.repo.history == LocatedHistory(old(ctx.repo.history), ctx.repo.failing, u.userId, p)
  {
    var _ := Persist(ctx, Located(u, p));
    var _, ok := ctx.repo.UpdateUserLocation(u.userId, p.lon, p.lat);
    if ok {
      var _ := ctx.repo.UpdateLocationHistory(u.userId, p.lat, p.lon);
    }
  }

  // ---------------------------------------------------------------------
  // menu/ask_phone_menu.go

  /** The label of the "don't share" key, as the user sees it. */
  function SkipLabel(cats: Catalogs, u: User): (r: string)
    ensures r != ""
  {
    Get(cats, Lang(u), "ask_phone_menu.skip_button")
  }

  /** Handle on other input: the prompt with a share-contact key above a skip key. */
  function PhonePrompt(u: User): Message
  {
    Message(u.userId, [Loc("ask_phone_menu.message")], Lang(u), "",
      Reply([[ContactKey([Loc("ask_phone_menu.share_button")])], [TextKey([Loc("ask_phone_menu.skip_button")])]]), false)
  }

  function PhoneReceived(u: User): Message
  {
    Message(u.userId, [Loc("ask_phone_menu.phone_received")], Lang(u), "", RemoveKeyboard, false)
  }

  function PhoneSkipped(u: User): Message
  {
    Message(u.userId, [Loc("ask_phone_menu.phone_skipped")], Lang(u), "", RemoveKeyboard, false)
  }

  /** The empty follow-up message is never the skip text, so it only re-sends the prompt. */
  lemma EmptyTextIsNotSkip(cats: Catalogs, u: User)
    ensures EmptyMessage.text != SkipLabel(cats, u)
  {
  }

  twostate predicate PhoneDone(ctx: Context, u: User, msg: Incoming, crashed: bool)
    reads ctx, ctx.repo
  {
    ctx.repo.history == old(ctx.repo.history)
    && if msg.contact.Some? then
      var u1 := u.(phoneNumber := msg.contact.value);
      ctx.attempted == old(ctx.attempted) + [TgMessage(PhoneReceived(u1), PrioritySend)]
      && TableOf(ctx.repo) == AfterSave(AfterSave(old(TableOf(ctx.repo)), ctx.repo.failing, u1), ctx.repo.failing,
                                        u1.(menuId := MenuHistoricalFanoutExecute))
      && !crashed
    else if msg.text == SkipLabel(ctx.cats, u) then
      var u1 := u.(phoneNumber := "");
      var t1 := AfterSave(old(TableOf(ctx.repo)), ctx.repo.failing, u1);
      !crashed
      && if SaveSucceeds(ctx.repo.failing) then
        ctx.attempted == old(ctx.attempted) + [TgMessage(PhoneSkipped(u1), PrioritySend)]
        && TableOf(ctx.repo) == AfterSave(t1, ctx.repo.failing, u1.(menuId := MenuHistoricalFanoutExecute))
      else
        ctx.attempted == old(ctx.attempted) && TableOf(ctx.repo) == t1
    else
      ctx.attempted == old(ctx.attempted) + [TgMessage(PhonePrompt(u), PrioritySend)]
      && TableOf(ctx.repo) == old(TableOf(ctx.repo))
      && crashed == ctx.repo.FoundUser(u.userId).None?
  }

  /** TransitionToHistoricalFanoutExecute: state 290, saved; a failed save stops there. */
  method TransitionToHistoricalFanoutExecute(ctx: Context, u: User) returns (ok: bool)
    requires ctx.Valid()
    modifies ctx.repo`users, ctx.repo`userOrder
    ensures ctx.Valid()
    ensures TableOf(ctx.repo) == AfterSave(old(TableOf(ctx.repo)), ctx.repo.failing, u.(menuId := MenuHistoricalFanoutExecute))
    ensures ok == SaveSucceeds(ctx.repo.failing)
  {
    ok := Persist(ctx, u.(menuId := MenuHistoricalFanoutExecute));
  }

  /**
   * Handle: a shared contact wins over any text and is saved as the phone;
   * the skip text clears the phone (a failed save stops there); both then
   * move to the historical fanout. Anything else re-sends the prompt and
   * then reads the user back, which panics when it is not found.
   */
  method AskPhoneHandle(ctx: Context, u: User, msg: Incoming) returns (crashed: bool)
    requires ctx.Valid()
    modifies ctx`attempted, ctx.repo`users, ctx.repo`userOrder
    ensures ctx.Valid()
    ensures PhoneDone(ctx, u, msg, crashed)
  {
    crashed := false;
    if msg.contact.Some? {
      var u1 := u.(phoneNumber := msg.contact.value);
      var _ := Persist(ctx, u1);
      ctx.Send(PhoneReceived(u1));
      var _ := TransitionToHistoricalFanoutExecute(ctx, u1);
      return;
    }
    if msg.text == SkipLabel(ctx.cats, u) {
      var u1 := u.(phoneNumber := "");
      var ok := Persist(ctx, u1);
      if !ok {
        return;
      }
      ctx.Send(PhoneSkipped(u1));
      var _ := TransitionToHistoricalFanoutExecute(ctx, u1);
      return;
    }
    ctx.Send(PhonePrompt(u));
    var after := ctx.repo.FindUser(u.userId);
    crashed := after.None?;
  }

  // ---------------------------------------------------------------------
  // menu/historical_fanout_execute_menu.go

  /**
   * Whether Handle reaches the broadcast: the trigger query works and
   * fires, the user has a radius, and the listings query within that
   * radius works and finds something.
   */
  predicate FanoutDue(failing: set<Op>, history: map<int, seq<HistoryEntry>>, exchanges: seq<Exchange>, geo: Geo, u: User, now: int)
  {
    ShouldTriggerOp !in failing && ShouldTrigger(HistoryOf(history, u.userId))
    && u.searchRadiusKm.Some?
    && FindHistoricalOp !in failing
    && Historical(exchanges, geo, Point(u.lat, u.lon), u.searchRadiusKm.value, u.userId, now) != []
  }

  /** What BroadcastHistoricalExchanges publishes for the stored reader (its radius replaced by 90000 km). */
  function HistoricalFanout(exchanges: seq<Exchange>, geo: Geo, users: map<int, UserRow>, reader: User, lat: real, lon: real, now: int, dist: Haversine)
    : seq<Envelope>
  {
    if reader.searchRadiusKm.None? then []
    else HistoricalNotifications(Historical(exchanges, geo, Point(lat, lon), OverrideRadiusKm, reader.userId, now), reader, users.Keys, now, dist)
  }

  twostate predicate ExecuteDone(ctx: Context, u: User, w: World)
    reads ctx, ctx.repo
  {
    var reader := old(ctx.repo.FoundUser(u.userId));
    var broadcast := FanoutDue(ctx.repo.failing, old(ctx.repo.history), old(ctx.repo.exchanges), ctx.repo.geo, u, w.now) && reader.Some?;
    ctx.repo.history == old(ctx.repo.history)
    && ctx.attempted == old(ctx.attempted)
      + (if broadcast then HistoricalFanout(old(ctx.repo.exchanges), ctx.repo.geo, old(ctx.repo.users), reader.value, u.lat, u.lon, w.now, w.dist) else [])
    && TableOf(ctx.repo) == AfterSave(old(TableOf(ctx.repo)), ctx.repo.failing,
         u.(menuId := if broadcast then MenuHistoricalFanoutWait else MenuMain))
  }

  /** transitionToMain of the execute screen: state Main, saved; the menu loop shows it. */
  method ExecuteToMain(ctx: Context, u: User)
    requires ctx.Valid()
    modifies ctx.repo`users, ctx.repo`userOrder
    ensures ctx.Valid()
    ensures TableOf(ctx.repo) == AfterSave(old(TableOf(ctx.repo)), ctx.repo.failing, u.(menuId := MenuMain))
  {
    var _ := Persist(ctx, u.(menuId := MenuMain));
  }

  /**
   * TransitionToHistoricalFanoutWait: state 295, saved; after a successful
   * save the user is read back, which panics when it is not found.
   */
  method TransitionToHistoricalFanoutWait(ctx: Context, u: User) returns (crashed: bool)
    requires ctx.Valid()
    modifies ctx.repo`users, ctx.repo`userOrder
    ensures ctx.Valid()
    ensures TableOf(ctx.repo) == AfterSave(old(TableOf(ctx.repo)), ctx.repo.failing, u.(menuId := MenuHistoricalFanoutWait))
    ensures crashed == (SaveSucceeds(ctx.repo.failing) && FindUserOp in ctx.repo.failing)
  {
    var ok := Persist(ctx, u.(menuId := MenuHistoricalFanoutWait));
    if !ok {
      return false;
    }
    var after := ctx.repo.FindUser(u.userId);
    crashed := after.None?;
  }

  /**
   * Handle: a failed or negative trigger, no radius, a failed or empty
   * listings query, or a failed broadcast each lead to Main; a broadcast
   * that went out leads to the wait screen. Exactly one of the two is saved.
   */
  method HistoricalFanoutExecuteHandle(ctx: Context, u: User, w: World)
    requires ctx.Valid()
    modifies ctx`attempted, ctx.repo`users, ctx.repo`userOrder
    ensures ctx.Valid()
    ensures ExecuteDone(ctx, u, w)
  {
    var trigger, tok := ctx.repo.ShouldTriggerHistoricalFanout(u.userId);
    if !tok || !trigger || u.searchRadiusKm.None? {
      ExecuteToMain(ctx, u);
      return;
    }
    var found, qok := ctx.repo.FindHistoricalExchangesInRadius(u.lat, u.lon, u.searchRadiusKm.value, u.userId, w.now);
    if !qok || found == [] {
      ExecuteToMain(ctx, u);
      return;
    }
    var ok := BroadcastHistoricalExchanges(ctx, u.userId, u.lat, u.lon, w.now, w.dist);
    if !ok {
      ExecuteToMain(ctx, u);
      return;
    }
    var crashed := TransitionToHistoricalFanoutWait(ctx, u);
    assert !crashed;
  }

  // ---------------------------------------------------------------------
  // menu/historical_fanout_wait_menu.go

  const ContinuePayload: string := "historical_fanout:continue"

  /** showContinuationMessage: the continue button, in HTML. */
  function ContinuePrompt(u: User): Message
  {
    Message(u.userId, [Loc("historical_fanout.message")], Lang(u), "HTML",
      Inline([[Button([Loc("historical_fanout.button_continue")], ContinuePayload)]]), false)
  }

  /** The prompt has one button, the continue payload, and is queued behind the listings it follows. */
  lemma ContinueButton(u: User)
    ensures Payloads(ContinuePrompt(u).markup) == [ContinuePayload]
    ensures PriorityContinue < PriorityHistorical
  {
    assert RowsData(ContinuePrompt(u).markup.rows) == RowData(ContinuePrompt(u).markup.rows[0]) + RowsData([]);
  }

  /** Handle: the continue prompt at priority 70, then the user is read back (a panic when not found). */
  method HistoricalFanoutWaitHandle(ctx: Context, u: User) returns (crashed: bool)
    modifies ctx`attempted
    ensures ctx.attempted == old(ctx.attempted) + [TgMessage(ContinuePrompt(u), PriorityContinue)]
    ensures crashed == ctx.repo.FoundUser(u.userId).None?
  {
    ctx.SendWithPriority(ContinuePrompt(u), PriorityContinue);
    var after := ctx.repo.FindUser(u.userId);
    crashed := after.None?;
  }

  // ---------------------------------------------------------------------
  // menu/main_menu.go

  /** Handle: one row per direction, in HTML. */
  function MainMenu(u: User): Message
  {
    Message(u.userId, [Loc("main_menu.message")], Lang(u), "HTML",
      Inline([[Button([Loc("main_menu.cash_to_crypto")], MainPayload(DirectionCashToCrypto))],
              [Button([Loc("main_menu.crypto_to_cash")], MainPayload(DirectionCryptoToCash))]]), false)
  }

  function MainPayload(dir: string): string
  {
    "main:" + dir
  }

  /** The direction a main-menu payload picks: exactly two parts, "main" first, a known direction second. */
  function MainDirection(data: string): Option<string>
  {
    var d := TaggedPart(data, "main");
    if d.Some? && (d.value == DirectionCashToCrypto || d.value == DirectionCryptoToCash) then d else None
  }

  /** A payload picks a direction iff it is "main:" followed by one of the two directions. */
  lemma MainDirectionCorrect(data: string, dir: string)
    ensures MainDirection(data) == Some(dir) <==>
      (dir == DirectionCashToCrypto || dir == DirectionCryptoToCash) && data == "main:" + dir
  {
    assert ':' !in DirectionCashToCrypto && ':' !in DirectionCryptoToCash;
    TaggedPartCorrect(data, "main", dir);
  }

  /** The menu's two buttons are exactly the two payloads the callback accepts, one per direction. */
  lemma MainButtons(u: User)
    ensures Payloads(MainMenu(u).markup) == [MainPayload(DirectionCashToCrypto), MainPayload(DirectionCryptoToCash)]
    ensures forall p | p in Payloads(MainMenu(u).markup) :: MainDirection(p).Some?
  {
    var rows := MainMenu(u).markup.rows;
    assert RowData(rows[0]) == [MainPayload(DirectionCashToCrypto)];
    assert RowData(rows[1]) == [MainPayload(DirectionCryptoToCash)];
    assert RowsData(rows[1..]) == [MainPayload(DirectionCryptoToCash)] + RowsData([]);
    MainPayloadsAccepted();
  }

  /** Both payloads of the menu pick their direction. */
  lemma MainPayloadsAccepted()
    ensures MainDirection(MainPayload(DirectionCashToCrypto)) == Some(DirectionCashToCrypto)
    ensures MainDirection(MainPayload(DirectionCryptoToCash)) == Some(DirectionCryptoToCash)
  {
    DirectionAccepted(DirectionCashToCrypto);
    DirectionAccepted(DirectionCryptoToCash);
  }

  lemma DirectionAccepted(dir: string)
    requires dir == DirectionCashToCrypto || dir == DirectionCryptoToCash
    ensures MainDirection(MainPayload(dir)) == Some(dir)
  {
    MainDirectionCorrect(MainPayload(dir), dir);
  }

  method MainHandle(ctx: Context, u: User)
    modifies ctx`attempted
    ensures ctx.attempted == old(ctx.attempted) + [TgMessage(MainMenu(u), PrioritySend)]
  {
    ctx.Send(MainMenu(u));
  }

  /** TransitionToMainMenu: state Main, saved (a failed save is only logged); no menu is shown. */
  method TransitionToMainMenu(ctx: Context, u: User)
    requires ctx.Valid()
    modifies ctx.repo`users, ctx.repo`userOrder
    ensures ctx.Valid()
    ensures TableOf(ctx.repo) == AfterSave(old(TableOf(ctx.repo)), ctx.repo.failing, u.(menuId := MenuMain))
  {
    var _ := Persist(ctx, u.(menuId := MenuMain));
  }

  /** The confirmation that replaces the main menu once a direction is picked. */
  function DirectionConfirmed(cb: Callback, u: User, dir: string): Envelope
  {
    EditText(cb.chatId, cb.messageId, [Loc("main_menu.confirmed_" + dir)], Lang(u), "HTML", PriorityEdit)
  }

  /**
   * HandleMainMenuCallback: a malformed payload or an unknown direction is
   * only answered. Otherwise an initiated listing at the user's
   * coordinates is created (a failure is ignored), the menu is replaced by
   * the confirmation, the press answered, and the user moves to the amount
   * screen, which is shown.
   */
  method MainCallback(ctx: Context, cb: Callback, u: User, w: World)
    requires ctx.Valid()
    modifies ctx`attempted, ctx.repo`exchanges, ctx.repo`users, ctx.repo`userOrder
    ensures ctx.Valid()
    ensures MainDirection(cb.data).None? ==>
      ctx.attempted == old(ctx.attempted) + [Ack(cb)]
      && ctx.repo.exchanges == old(ctx.repo.exchanges) && TableOf(ctx.repo) == old(TableOf(ctx.repo))
    ensures MainDirection(cb.data).Some? ==>
      var dir := MainDirection(cb.data).value;
      var u1 := u.(menuId := MenuAmount);
      ctx.repo.exchanges == (if CreateExchangeOp in ctx.repo.failing then old(ctx.repo.exchanges)
        else old(ctx.repo.exchanges) + [InsertedExchange(old(ctx.repo.exchanges), NewExchange(u.userId, dir, u.lat, u.lon, w.now), w.now)])
      && ctx.attempted == old(ctx.attempted) + [DirectionConfirmed(cb, u, dir), Ack(cb), TgMessage(AmountMenu(u1), PrioritySend)]
      && TableOf(ctx.repo) == AfterSave(old(TableOf(ctx.repo)), ctx.repo.failing, u1)
  {
    var dir := MainDirection(cb.data);
    if dir.None? {
      var _ := ctx.AnswerCallbackQuery(cb.id, "");
      return;
    }
    var _, _ := ctx.repo.CreateExchange(NewExchange(u.userId, dir.value, u.lat, u.lon, w.now), w.now);
    AcknowledgeDirection(ctx, cb, u, dir.value);
    var u1 := u.(menuId := MenuAmount);
    var _ := Persist(ctx, u1);
    AmountHandle(ctx, u1);
  }

  /** The menu message is edited into the chosen direction, then the callback is answered. */
  method AcknowledgeDirection(ctx: Context, cb: Callback, u: User, dir: string)
    requires ctx.Valid()
    modifies ctx`attempted
    ensures ctx.attempted == old(ctx.attempted) + [DirectionConfirmed(cb, u, dir), Ack(cb)]
  {
    var _ := ctx.EditMessage(cb.chatId, cb.messageId, [Loc("main_menu.confirmed_" + dir)], Lang(u), "HTML");
    var _ := ctx.AnswerCallbackQuery(cb.id, "");
  }

  // ---------------------------------------------------------------------
  // menu/amount_menu.go

  function AmountPayload(choice: string): string
  {
    "amount:" + choice
  }

  /** Handle: amounts 5 to 100 and cancel, and the user's radius (5 when unset) in the text. */
  function AmountMenu(u: User): Message
  {
    var radius := if u.searchRadiusKm.Some? then u.searchRadiusKm.value else 5;
    Message(u.userId, [Fmt([Loc("amount_menu.message")], [IntArg(radius)])], Lang(u), "HTML",
      Inline([[Button([Loc("amount_menu.button_5")], AmountPayload("5")), Button([Loc("amount_menu.button_10")], AmountPayload("10"))],
              [Button([Loc("amount_menu.button_15")], AmountPayload("15")), Button([Loc("amount_menu.button_25")], AmountPayload("25"))],
              [Button([Loc("amount_menu.button_50")], AmountPayload("50")), Button([Loc("amount_menu.button_75")], AmountPayload("75"))],
              [Button([Loc("amount_menu.button_100")], AmountPayload("100"))],
              [Button([Loc("amount_menu.button_cancel")], AmountPayload("cancel"))]]), false)
  }

  datatype AmountChoice = CancelListing | PostAmount(usd: int)

  /** What an amount payload asks for: "amount:cancel", or "amount:" and a number Atoi accepts. */
  function AmountChoiceOf(data: string): Option<AmountChoice>
  {
    var part := TaggedPart(data, "amount");
    if part.None? then None
    else if part.value == "cancel" then Some(CancelListing)
    else if ParseInt(part.value).Some? then Some(PostAmount(ParseInt(part.value).value))
    else None
  }

  /** The listing after the choice: cancel changes only the status; an amount sets it and posts, together. */
  function Chosen(e: Exchange, c: AmountChoice): (r: Exchange)
    ensures r.(status := e.status, amountUsd := e.amountUsd) == e
    ensures c.CancelListing? ==> r.status == ExchangeStatusCanceled && r.amountUsd == e.amountUsd
    ensures c.PostAmount? ==> r.status == ExchangeStatusPosted && r.amountUsd == Some(c.usd)
  {
    match c
    case CancelListing => e.(status := ExchangeStatusCanceled)
    case PostAmount(n) => e.(amountUsd := Some(n), status := ExchangeStatusPosted)
  }

  function AmountConfirmation(c: AmountChoice): seq<Piece>
  {
    match c
    case CancelListing => [Loc("amount_menu.canceled")]
    case PostAmount(n) => [Fmt([Loc("amount_menu.amount_selected")], [IntArg(n)])]
  }

  /** "amount:<s>" asks to cancel when s is "cancel", and for the amount Atoi reads from s otherwise. */
  lemma AmountPayloadParsed(part: string)
    requires ':' !in part
    ensures AmountChoiceOf(AmountPayload(part)) ==
      if part == "cancel" then Some(CancelListing)
      else if ParseInt(part).Some? then Some(PostAmount(ParseInt(part).value))
      else None
  {
    TaggedPartCorrect(AmountPayload(part), "amount", part);
  }

  /** The screen offers eight payloads in four rows of amounts and a cancel row. */
  lemma AmountPayloads(u: User)
    ensures Payloads(AmountMenu(u).markup) ==
      [AmountPayload("5"), AmountPayload("10"), AmountPayload("15"), AmountPayload("25"),
       AmountPayload("50"), AmountPayload("75"), AmountPayload("100"), AmountPayload("cancel")]
  {
    var rows := AmountMenu(u).markup.rows;
    ThreePairsTwoSingles(rows);
  }

  /** The data of a keyboard of three two-button rows and two one-button rows, in reading order. */
  lemma ThreePairsTwoSingles(rows: seq<seq<Button>>)
    requires |rows| == 5 && |rows[0]| == 2 && |rows[1]| == 2 && |rows[2]| == 2 && |rows[3]| == 1 && |rows[4]| == 1
    ensures RowsData(rows) == [rows[0][0].data, rows[0][1].data, rows[1][0].data, rows[1][1].data,
                               rows[2][0].data, rows[2][1].data, rows[3][0].data, rows[4][0].data]
  {
    assert rows[4..][1..] == [];
    assert rows[3..][1..] == rows[4..];
    assert rows[2..][1..] == rows[3..];
    assert rows[1..][1..] == rows[2..];
    assert RowsData(rows[4..]) == RowData(rows[4]) + RowsData([]);
    assert RowsData(rows[3..]) == RowData(rows[3]) + RowsData(rows[4..]);
    assert RowsData(rows[2..]) == RowData(rows[2]) + RowsData(rows[3..]);
    assert RowsData(rows[1..]) == RowData(rows[1]) + RowsData(rows[2..]);
    ShortRowData(rows[0]);
    ShortRowData(rows[1]);
    ShortRowData(rows[2]);
    ShortRowData(rows[3]);
    ShortRowData(rows[4]);
  }

  lemma ShortRowData(row: seq<Button>)
    requires 1 <= |row| <= 2
    ensures RowData(row) == if |row| == 1 then [row[0].data] else [row[0].data, row[1].data]
  {
    if |row| == 2 {
      assert row[1..][1..] == [];
    } else {
      assert row[1..] == [];
    }
  }

  /** A button whose part is a short run of digits asks for the amount those digits denote. */
  lemma AmountDigitsAccepted(part: string)
    requires 1 <= |part| <= 3 && AllDigits(part)
    ensures AmountChoiceOf(AmountPayload(part)) == Some(PostAmount(DigitsValue(part)))
  {
    assert IsDigit(part[0]);
    assert part != "cancel";
    assert ':' !in part by {
      forall i | 0 <= i < |part| ensures part[i] != ':' { assert IsDigit(part[i]); }
    }
    DigitsValueBound(part);
    ParseIntOfDigits(part);
    AmountPayloadParsed(part);
  }

  lemma OneDigitAccepted(d: char)
    requires IsDigit(d)
    ensures AmountChoiceOf(AmountPayload([d])) == Some(PostAmount(d as int - '0' as int))
  {
    assert [d][..0] == [];
    AmountDigitsAccepted([d]);
  }

  lemma TwoDigitsAccepted(d1: char, d0: char)
    requires IsDigit(d1) && IsDigit(d0)
    ensures AmountChoiceOf(AmountPayload([d1, d0])) == Some(PostAmount((d1 as int - '0' as int) * 10 + (d0 as int - '0' as int)))
  {
    assert [d1, d0][..1] == [d1];
    assert [d1][..0] == [];
    assert DigitsValue([d1]) == d1 as int - '0' as int;
    AmountDigitsAccepted([d1, d0]);
  }

  /** Each amount button asks for the amount its label names; the last one cancels. */
  lemma AmountButtonsAccepted()
    ensures AmountChoiceOf(AmountPayload("5")) == Some(PostAmount(5))
    ensures AmountChoiceOf(AmountPayload("10")) == Some(PostAmount(10))
    ensures AmountChoiceOf(AmountPayload("15")) == Some(PostAmount(15))
    ensures AmountChoiceOf(AmountPayload("25")) == Some(PostAmount(25))
    ensures AmountChoiceOf(AmountPayload("50")) == Some(PostAmount(50))
    ensures AmountChoiceOf(AmountPayload("75")) == Some(PostAmount(75))
    ensures AmountChoiceOf(AmountPayload("100")) == Some(PostAmount(100))
    ensures AmountChoiceOf(AmountPayload("cancel")) == Some(CancelListing)
  {
    OneDigitAccepted('5');
    TwoDigitsAccepted('1', '0');
    TwoDigitsAccepted('1', '5');
    TwoDigitsAccepted('2', '5');
    TwoDigitsAccepted('5', '0');
    TwoDigitsAccepted('7', '5');
    ThreeDigitsAccepted('1', '0', '0');
    AmountPayloadParsed("cancel");
  }

  lemma ThreeDigitsAccepted(d2: char, d1: char, d0: char)
    requires IsDigit(d2) && IsDigit(d1) && IsDigit(d0)
    ensures AmountChoiceOf(AmountPayload([d2, d1, d0])) ==
      Some(PostAmount((d2 as int - '0' as int) * 100 + (d1 as int - '0' as int) * 10 + (d0 as int - '0' as int)))
  {
    assert [d2, d1, d0][..2] == [d2, d1];
    assert [d2, d1][..1] == [d2];
    assert [d2][..0] == [];
    assert DigitsValue([d2]) == d2 as int - '0' as int;
    assert DigitsValue([d2, d1]) == (d2 as int - '0' as int) * 10 + (d1 as int - '0' as int);
    AmountDigitsAccepted([d2, d1, d0]);
  }

  /** What BroadcastExchange publishes for a listing, on the table it reads. */
  function ExchangeFanout(users: map<int, UserRow>, order: seq<int>, geo: Geo, failing: set<Op>, e: Exchange, dist: Haversine)
    : seq<Envelope>
  {
    var initiator := if FindUserOp in failing then None else UserIn(users, e.userId);
    if initiator.Some? && initiator.value.searchRadiusKm.Some? && FindUsersInRadiusOp !in failing
    then Notifications(e, ToUsers(RadiusRows(users, order, geo, Point(e.lat, e.lon), OverrideRadiusKm)), dist)
    else []
  }

  /** What GetLastUserExchange returns when it works. */
  function LastListing(exchanges: seq<Exchange>, failing: set<Op>, uid: int): Option<Exchange>
  {
    if GetLastUserExchangeOp in failing then None else LastOwnActive(exchanges, uid)
  }

  /** The envelopes a valid choice on listing `e0` publishes, in order. */
  function AmountEffects(users: map<int, UserRow>, order: seq<int>, geo: Geo, failing: set<Op>,
                         cb: Callback, u: User, e0: Exchange, c: AmountChoice, dist: Haversine): seq<Envelope>
  {
    (if c.PostAmount? then ExchangeFanout(users, order, geo, failing, Chosen(e0, c), dist) else [])
    + [EditText(cb.chatId, cb.messageId, AmountConfirmation(c), Lang(u), "HTML", PriorityEdit), Ack(cb),
       TgMessage(MainMenu(u.(menuId := MenuMain)), PrioritySend)]
  }

  /**
   * The second half of HandleAmountMenuCallback, once the choice and the
   * listing are known: update, broadcast a posted listing, confirm, answer,
   * and return the user to the main menu.
   */
  method ApplyAmountChoice(ctx: Context, cb: Callback, u: User, w: World, e0: Exchange, c: AmountChoice)
    requires ctx.Valid()
    modifies ctx`attempted, ctx.repo`exchanges, ctx.repo`users, ctx.repo`userOrder
    ensures ctx.Valid()
    ensures ctx.repo.exchanges ==
      (if UpdateExchangeOp in ctx.repo.failing then old(ctx.repo.exchanges) else WithExchange(old(ctx.repo.exchanges), Chosen(e0, c)))
    ensures ctx.attempted == old(ctx.attempted)
      + AmountEffects(old(ctx.repo.users), old(ctx.repo.userOrder), ctx.repo.geo, ctx.repo.failing, cb, u, e0, c, w.dist)
    ensures TableOf(ctx.repo) == AfterSave(old(TableOf(ctx.repo)), ctx.repo.failing, u.(menuId := MenuMain))
  {
    StoreChoice(ctx, e0, c, w);
    ghost var fanout := ctx.attempted[|old(ctx.attempted)|..];
    ConfirmAmountChoice(ctx, cb, u, c);
    assert ctx.attempted == old(ctx.attempted) + fanout
      + [EditText(cb.chatId, cb.messageId, AmountConfirmation(c), Lang(u), "HTML", PriorityEdit), Ack(cb),
         TgMessage(MainMenu(u.(menuId := MenuMain)), PrioritySend)];
  }

  /** The update of the listing, and for a posted one the broadcast the goroutine performs. */
  method StoreChoice(ctx: Context, e0: Exchange, c: AmountChoice, w: World)
    requires ctx.Valid()
    modifies ctx`attempted, ctx.repo`exchanges
    ensures ctx.Valid()
    ensures ctx.repo.exchanges ==
      (if UpdateExchangeOp in ctx.repo.failing then old(ctx.repo.exchanges) else WithExchange(old(ctx.repo.exchanges), Chosen(e0, c)))
    ensures ctx.attempted == old(ctx.attempted)
      + (if c.PostAmount? then ExchangeFanout(ctx.repo.users, ctx.repo.userOrder, ctx.repo.geo, ctx.repo.failing, Chosen(e0, c), w.dist) else [])
  {
    var e := Chosen(e0, c);
    var _ := ctx.repo.UpdateExchange(e);
    if c.PostAmount? {
      // The background goroutine, run at the point it is started.
      var _ := BroadcastExchange(ctx, e, w.dist);
    }
  }

  /** The confirmation, the answer to the press, the save in state Main and the main menu. */
  method ConfirmAmountChoice(ctx: Context, cb: Callback, u: User, c: AmountChoice)
    requires ctx.Valid()
    modifies ctx`attempted, ctx.repo`users, ctx.repo`userOrder
    ensures ctx.Valid()
    ensures ctx.attempted == old(ctx.attempted)
      + [EditText(cb.chatId, cb.messageId, AmountConfirmation(c), Lang(u), "HTML", PriorityEdit), Ack(cb),
         TgMessage(MainMenu(u.(menuId := MenuMain)), PrioritySend)]
    ensures TableOf(ctx.repo) == AfterSave(old(TableOf(ctx.repo)), ctx.repo.failing, u.(menuId := MenuMain))
  {
    var _ := ctx.EditMessage(cb.chatId, cb.messageId, AmountConfirmation(c), Lang(u), "HTML");
    var _ := ctx.AnswerCallbackQuery(cb.id, "");
    var u1 := u.(menuId := MenuMain);
    var _ := Persist(ctx, u1);
    MainHandle(ctx, u1);
  }

  /**
   * HandleAmountMenuCallback: a malformed payload, no last listing (or a
   * failed read) or a non-numeric amount is only answered. Otherwise the
   * user's newest live listing is cancelled or given its amount and posted
   * (an update failure is ignored), a posted listing is broadcast, the
   * menu is replaced by the confirmation, the press answered, and the user
   * is back in the main menu, which is shown.
   */
  method AmountCallback(ctx: Context, cb: Callback, u: User, w: World)
    requires ctx.Valid()
    modifies ctx`attempted, ctx.repo`exchanges, ctx.repo`users, ctx.repo`userOrder
    ensures ctx.Valid()
    ensures var last := LastListing(old(ctx.repo.exchanges), ctx.repo.failing, u.userId);
      AmountChoiceOf(cb.data).None? || last.None? ==>
      ctx.attempted == old(ctx.attempted) + [Ack(cb)]
      && ctx.repo.exchanges == old(ctx.repo.exchanges) && TableOf(ctx.repo) == old(TableOf(ctx.repo))
    ensures var last := LastListing(old(ctx.repo.exchanges), ctx.repo.failing, u.userId);
      AmountChoiceOf(cb.data).Some? && last.Some? ==>
      var c := AmountChoiceOf(cb.data).value;
      ctx.repo.exchanges == (if UpdateExchangeOp in ctx.repo.failing then old(ctx.repo.exchanges) else WithExchange(old(ctx.repo.exchanges), Chosen(last.value, c)))
      && ctx.attempted == old(ctx.attempted)
        + AmountEffects(old(ctx.repo.users), old(ctx.repo.userOrder), ctx.repo.geo, ctx.repo.failing, cb, u, last.value, c, w.dist)
      && TableOf(ctx.repo) == AfterSave(old(TableOf(ctx.repo)), ctx.repo.failing, u.(menuId := MenuMain))
  {
    var part := TaggedPart(cb.data, "amount");
    if part.None? {
      var _ := ctx.AnswerCallbackQuery(cb.id, "");
      return;
    }
    var last, ok := ctx.repo.GetLastUserExchange(u.userId);
    if !ok || last.None? {
      var _ := ctx.AnswerCallbackQuery(cb.id, "");
      return;
    }
    var choice: AmountChoice;
    if part.value == "cancel" {
      choice := CancelListing;
    } else {
      var n := ParseInt(part.value);
      if n.None? {
        var _ := ctx.AnswerCallbackQuery(cb.id, "");
        return;
      }
      choice := PostAmount(n.value);
    }
    assert AmountChoiceOf(cb.data) == Some(choice);
    ApplyAmountChoice(ctx, cb, u, w, last.value, choice);
  }

  method AmountHandle(ctx: Context, u: User)
    modifies ctx`attempted
    ensures ctx.attempted == old(ctx.attempted) + [TgMessage(AmountMenu(u), PrioritySend)]
  {
    ctx.Send(AmountMenu(u));
  }

  // ---------------------------------------------------------------------
  // menu/menu.go: the handler switch of the menu loop

  /** The states whose handler the menu loop calls before it looks at the state again. */
  const HandlerStates: set<int> := {MenuUSComplianceCheck, MenuBlocked, MenuInit, MenuAskLocation,
    MenuSelectRadius, MenuAskPhone, MenuHistoricalFanoutExecute, MenuHistoricalFanoutWait}

  /** Exactly `added` was published, the users table is `t`, and callouts and history are as before. */
  twostate predicate Left(ctx: Context, added: seq<Envelope>, t: UserTable)
    reads ctx, ctx.repo
  {
    ctx.attempted == old(ctx.attempted) + added
    && TableOf(ctx.repo) == t
    && ctx.repo.dismissed == old(ctx.repo.dismissed) && ctx.repo.history == old(ctx.repo.history)
  }

  /** Exactly `added` was published, and the users, callouts and history are as before. */
  twostate predicate Only(ctx: Context, added: seq<Envelope>)
    reads ctx, ctx.repo
  {
    ctx.attempted == old(ctx.attempted) + added
    && TableOf(ctx.repo) == old(TableOf(ctx.repo))
    && ctx.repo.dismissed == old(ctx.repo.dismissed) && ctx.repo.history == old(ctx.repo.history)
  }

  /**
   * The switch on user.MenuId and the handler's Handle, for the states
   * that continue the loop; any other state does nothing here. On the
   * empty follow-up message a handler never moves a stored user back to
   * an earlier state, which is what ends the loop.
   */
  method Dispatch(ctx: Context, u: User, msg: Incoming, w: World) returns (crashed: bool)
    requires ctx.Valid()
    modifies ctx`attempted, ctx.repo`users, ctx.repo`userOrder, ctx.repo`dismissed, ctx.repo`history
    ensures ctx.Valid()
    ensures u.menuId == MenuUSComplianceCheck ==> Only(ctx, [TgMessage(ComplianceQuestion(u), PrioritySend)]) && !crashed
    ensures u.menuId == MenuBlocked ==> Only(ctx, [TgMessage(BlockedNotice(u), PrioritySend)]) && !crashed
    ensures u.menuId == MenuInit ==> InitDone(ctx, u) && ctx.repo.history == old(ctx.repo.history) && !crashed
    ensures u.menuId == MenuAskLocation ==> LocationDone(ctx, u, msg) && ctx.repo.dismissed == old(ctx.repo.dismissed) && !crashed
    ensures u.menuId == MenuSelectRadius ==> Only(ctx, [TgMessage(RadiusPrompt(u), PrioritySend)]) && !crashed
    ensures u.menuId == MenuAskPhone ==> PhoneDone(ctx, u, msg, crashed) && ctx.repo.dismissed == old(ctx.repo.dismissed)
    ensures u.menuId == MenuHistoricalFanoutExecute ==> ExecuteDone(ctx, u, w) && ctx.repo.dismissed == old(ctx.repo.dismissed) && !crashed
    ensures u.menuId == MenuHistoricalFanoutWait ==>
      Only(ctx, [TgMessage(ContinuePrompt(u), PriorityContinue)]) && crashed == ctx.repo.FoundUser(u.userId).None?
    ensures u.menuId !in HandlerStates ==> Only(ctx, []) && !crashed
    ensures Bare(msg) && old(ctx.repo.FoundUser(u.userId)) == Some(u) && !crashed ==>
      ctx.repo.FoundUser(u.userId).Some? && ctx.repo.FoundUser(u.userId).value.menuId >= u.menuId
    ensures HasPrefix(ctx.attempted, old(ctx.attempted))
  {
    if u.menuId < MenuAskLocation {
      crashed := DispatchEarly(ctx, u, msg, w);
    } else if u.menuId < MenuAskPhone {
      crashed := DispatchLocation(ctx, u, msg, w);
    } else {
      crashed := DispatchLate(ctx, u, msg, w);
    }
  }

  /** Dispatch for the states before the location question. */
  method DispatchEarly(ctx: Context, u: User, msg: Incoming, w: World) returns (crashed: bool)
    requires u.menuId < MenuAskLocation
    requires ctx.Valid()
    modifies ctx`attempted, ctx.repo`users, ctx.repo`userOrder, ctx.repo`dismissed, ctx.repo`history
    ensures ctx.Valid()
    ensures u.menuId == MenuUSComplianceCheck ==> Only(ctx, [TgMessage(ComplianceQuestion(u), PrioritySend)]) && !crashed
    ensures u.menuId == MenuBlocked ==> Only(ctx, [TgMessage(BlockedNotice(u), PrioritySend)]) && !crashed
    ensures u.menuId == MenuInit ==> InitDone(ctx, u) && ctx.repo.history == old(ctx.repo.history) && !crashed
    ensures u.menuId !in HandlerStates ==> Only(ctx, []) && !crashed
    ensures Bare(msg) && old(ctx.repo.FoundUser(u.userId)) == Some(u) && !crashed ==>
      ctx.repo.FoundUser(u.userId).Some? && ctx.repo.FoundUser(u.userId).value.menuId >= u.menuId
    ensures HasPrefix(ctx.attempted, old(ctx.attempted))
  {
    crashed := false;
    if u.menuId == MenuUSComplianceCheck {
      ComplianceHandle(ctx, u);
    } else if u.menuId == MenuBlocked {
      BlockedHandle(ctx, u);
    } else if u.menuId == MenuInit {
      InitHandle(ctx, u);
    }
  }

  /** Dispatch for the location and radius questions. */
  method DispatchLocation(ctx: Context, u: User, msg: Incoming, w: World) returns (crashed: bool)
    requires MenuAskLocation <= u.menuId < MenuAskPhone
    requires ctx.Valid()
    modifies ctx`attempted, ctx.repo`users, ctx.repo`userOrder, ctx.repo`dismissed, ctx.repo`history
    ensures ctx.Valid()
    ensures u.menuId == MenuAskLocation ==> LocationDone(ctx, u, msg) && ctx.repo.dismissed == old(ctx.repo.dismissed) && !crashed
    ensures u.menuId == MenuSelectRadius ==> Only(ctx, [TgMessage(RadiusPrompt(u), PrioritySend)]) && !crashed
    ensures u.menuId !in HandlerStates ==> Only(ctx, []) && !crashed
    ensures Bare(msg) && old(ctx.repo.FoundUser(u.userId)) == Some(u) && !crashed ==>
      ctx.repo.FoundUser(u.userId).Some? && ctx.repo.FoundUser(u.userId).value.menuId >= u.menuId
    ensures HasPrefix(ctx.attempted, old(ctx.attempted))
  {
    crashed := false;
    if u.menuId == MenuAskLocation {
      AskLocationHandle(ctx, u, msg);
    } else if u.menuId == MenuSelectRadius {
      SelectRadiusHandle(ctx, u);
    }
  }


  /** Dispatch for the phone question and the states after it. */
  method DispatchLate(ctx: Context, u: User, msg: Incoming, w: World) returns (crashed: bool)
    requires u.menuId >= MenuAskPhone
    requires ctx.Valid()
    modifies ctx`attempted, ctx.repo`users, ctx.repo`userOrder, ctx.repo`dismissed, ctx.repo`history
    ensures ctx.Valid()
    ensures u.menuId == MenuAskPhone ==> PhoneDone(ctx, u, msg, crashed) && ctx.repo.dismissed == old(ctx.repo.dismissed)
    ensures u.menuId == MenuHistoricalFanoutExecute ==> ExecuteDone(ctx, u, w) && ctx.repo.dismissed == old(ctx.repo.dismissed) && !crashed
    ensures u.menuId == MenuHistoricalFanoutWait ==>
      Only(ctx, [TgMessage(ContinuePrompt(u), PriorityContinue)]) && crashed == ctx.repo.FoundUser(u.userId).None?
    ensures u.menuId !in HandlerStates ==> Only(ctx, []) && !crashed
    ensures Bare(msg) && old(ctx.repo.FoundUser(u.userId)) == Some(u) && !crashed ==>
      ctx.repo.FoundUser(u.userId).Some? && ctx.repo.FoundUser(u.userId).value.menuId >= u.menuId
    ensures HasPrefix(ctx.attempted, old(ctx.attempted))
  {
    crashed := false;
    if u.menuId == MenuAskPhone {
      crashed := AskPhoneHandle(ctx, u, msg);
      if Bare(msg) {
        EmptyTextIsNotSkip(ctx.cats, u);
      }
    } else if u.menuId == MenuHistoricalFanoutExecute {
      HistoricalFanoutExecuteHandle(ctx, u, w);
    } else if u.menuId == MenuHistoricalFanoutWait {
      crashed := HistoricalFanoutWaitHandle(ctx, u);
    }
  }
}
