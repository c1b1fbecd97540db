// menu/contact_request.go: the "Show contact" and "Delete" buttons under a
// listing, and how a user is named to another user.
module Contact {
  import opened Wrappers
  import opened Text
  import opened Locale
  import opened Objects
  import opened Tables
  import opened Repository
  import opened Broker

  // ------------------------------------------------------------ HTML escaping

  /** htmlEscapeString: five ReplaceAll passes, '&' first. */
  function HtmlEscape(s: string): string
  {
    var amp := ReplaceChar(s, '&', "&amp;");
    var lt := ReplaceChar(amp, '<', "&lt;");
    var gt := ReplaceChar(lt, '>', "&gt;");
    var quot := ReplaceChar(gt, '"', "&quot;");
    ReplaceChar(quot, '\'', "&#39;")
  }

  /** The entity one character stands for, or the character itself. */
  function EscapeChar(c: char): string
  {
    if c == '&' then "&amp;"
    else if c == '<' then "&lt;"
    else if c == '>' then "&gt;"
    else if c == '"' then "&quot;"
    else if c == '\'' then "&#39;"
    else [c]
  }

  /** Escaping character by character: the reference the ReplaceAll chain is held to. */
  function EscapeEach(s: string): string
    decreases |s|
  {
    if s == [] then "" else EscapeChar(s[0]) + EscapeEach(s[1..])
  }

  predicate Markup(c: char)
  {
    c == '<' || c == '>' || c == '"' || c == '\''
  }

  /** Decoding the five entities, left to right. */
  function HtmlUnescape(s: string): string
    decreases |s|
  {
    if s == [] then ""
    else if HasPrefix(s, "&amp;") then "&" + HtmlUnescape(s[5..])
    else if HasPrefix(s, "&lt;") then "<" + HtmlUnescape(s[4..])
    else if HasPrefix(s, "&gt;") then ">" + HtmlUnescape(s[4..])
    else if HasPrefix(s, "&quot;") then "\"" + HtmlUnescape(s[6..])
    else if HasPrefix(s, "&#39;") then "'" + HtmlUnescape(s[5..])
    else [s[0]] + HtmlUnescape(s[1..])
  }

  lemma HtmlEscapeConcat(a: string, b: string)
    ensures HtmlEscape(a + b) == HtmlEscape(a) + HtmlEscape(b)
  {
    ReplaceCharConcat(a, b, '&', "&amp;");
    var a1, b1 := ReplaceChar(a, '&', "&amp;"), ReplaceChar(b, '&', "&amp;");
    ReplaceCharConcat(a1, b1, '<', "&lt;");
    var a2, b2 := ReplaceChar(a1, '<', "&lt;"), ReplaceChar(b1, '<', "&lt;");
    ReplaceCharConcat(a2, b2, '>', "&gt;");
    var a3, b3 := ReplaceChar(a2, '>', "&gt;"), ReplaceChar(b2, '>', "&gt;");
    ReplaceCharConcat(a3, b3, '"', "&quot;");
    var a4, b4 := ReplaceChar(a3, '"', "&quot;"), ReplaceChar(b3, '"', "&quot;");
    ReplaceCharConcat(a4, b4, '\'', "&#39;");
  }

  lemma ReplaceCharOne(c: char, x: char, rep: string)
    ensures ReplaceChar([c], x, rep) == if c == x then rep else [c]
  {
    assert [c][1..] == [];
  }

  /** The four passes after the '&' pass leave its entity alone. */
  lemma PassesAfterAmpKeep(e: string)
    requires forall c | c in e :: !Markup(c)
    ensures ReplaceChar(ReplaceChar(ReplaceChar(ReplaceChar(e, '<', "&lt;"), '>', "&gt;"), '"', "&quot;"), '\'', "&#39;") == e
  {
    ReplaceCharAbsent(e, '<', "&lt;");
    ReplaceCharAbsent(e, '>', "&gt;");
    ReplaceCharAbsent(e, '"', "&quot;");
    ReplaceCharAbsent(e, '\'', "&#39;");
  }

  /** The three passes after the '<' pass leave its entity alone. */
  lemma PassesAfterLtKeep(e: string)
    requires forall c | c in e :: !Markup(c)
    ensures ReplaceChar(ReplaceChar(ReplaceChar(e, '>', "&gt;"), '"', "&quot;"), '\'', "&#39;") == e
  {
    ReplaceCharAbsent(e, '>', "&gt;");
    ReplaceCharAbsent(e, '"', "&quot;");
    ReplaceCharAbsent(e, '\'', "&#39;");
  }

  lemma EscapeAmp(c: char)
    requires c == '&'
    ensures HtmlEscape([c]) == "&amp;"
  {
    ReplaceCharOne(c, '&', "&amp;");
    PassesAfterAmpKeep("&amp;");
  }

  lemma EscapeLt(c: char)
    requires c == '<'
    ensures HtmlEscape([c]) == "&lt;"
  {
    ReplaceCharOne(c, '&', "&amp;");
    ReplaceCharOne(c, '<', "&lt;");
    PassesAfterLtKeep("&lt;");
  }

  lemma EscapeGt(c: char)
    requires c == '>'
    ensures HtmlEscape([c]) == "&gt;"
  {
    ReplaceCharOne(c, '&', "&amp;");
    ReplaceCharOne(c, '<', "&lt;");
    ReplaceCharOne(c, '>', "&gt;");
    ReplaceCharAbsent("&gt;", '"', "&quot;");
    ReplaceCharAbsent("&gt;", '\'', "&#39;");
  }

  lemma EscapeQuot(c: char)
    requires c == '"'
    ensures HtmlEscape([c]) == "&quot;"
  {
    ReplaceCharOne(c, '&', "&amp;");
    ReplaceCharOne(c, '<', "&lt;");
    ReplaceCharOne(c, '>', "&gt;");
    ReplaceCharOne(c, '"', "&quot;");
    ReplaceCharAbsent("&quot;", '\'', "&#39;");
  }

  lemma EscapeApos(c: char)
    requires c == '\''
    ensures HtmlEscape([c]) == "&#39;"
  {
    ReplaceCharOne(c, '&', "&amp;");
    ReplaceCharOne(c, '<', "&lt;");
    ReplaceCharOne(c, '>', "&gt;");
    ReplaceCharOne(c, '"', "&quot;");
    ReplaceCharOne(c, '\'', "&#39;");
  }

  lemma EscapeOther(c: char)
    requires !Markup(c) && c != '&'
    ensures HtmlEscape([c]) == [c]
  {
    ReplaceCharOne(c, '&', "&amp;");
    ReplaceCharOne(c, '<', "&lt;");
    ReplaceCharOne(c, '>', "&gt;");
    ReplaceCharOne(c, '"', "&quot;");
    ReplaceCharOne(c, '\'', "&#39;");
  }

  /** Each character goes through the five passes to exactly its entity. */
  lemma HtmlEscapeChar(c: char)
    ensures HtmlEscape([c]) == EscapeChar(c)
  {
    if c == '&' {
      EscapeAmp(c);
    } else if c == '<' {
      EscapeLt(c);
    } else if c == '>' {
      EscapeGt(c);
    } else if c == '"' {
      EscapeQuot(c);
    } else if c == '\'' {
      EscapeApos(c);
    } else {
      EscapeOther(c);
    }
  }

  /** The ReplaceAll chain escapes each character on its own: '&' going first means no entity is escaped twice. */
  lemma {:induction false} HtmlEscapeIsPerChar(s: string)
    ensures HtmlEscape(s) == EscapeEach(s)
    decreases |s|
  {
    if s != [] {
      assert s == [s[0]] + s[1..];
      HtmlEscapeConcat([s[0]], s[1..]);
      HtmlEscapeChar(s[0]);
      HtmlEscapeIsPerChar(s[1..]);
    }
  }

  lemma {:induction false} EscapeEachHasNoMarkup(s: string)
    ensures forall c | c in EscapeEach(s) :: !Markup(c)
    decreases |s|
  {
    if s != [] {
      EscapeEachHasNoMarkup(s[1..]);
      assert forall c | c in EscapeChar(s[0]) :: !Markup(c);
    }
  }

  /** Escaped text contains none of < > " ' and so cannot open or close a tag or an attribute. */
  lemma HtmlEscapeHasNoMarkup(s: string)
    ensures forall c | c in HtmlEscape(s) :: !Markup(c)
  {
    HtmlEscapeIsPerChar(s);
    EscapeEachHasNoMarkup(s);
  }

  /** Text without the five special characters is returned unchanged. */
  lemma HtmlEscapePlain(s: string)
    requires forall c | c in s :: !Markup(c) && c != '&'
    ensures HtmlEscape(s) == s
  {
    ReplaceCharAbsent(s, '&', "&amp;");
    ReplaceCharAbsent(s, '<', "&lt;");
    ReplaceCharAbsent(s, '>', "&gt;");
    ReplaceCharAbsent(s, '"', "&quot;");
    ReplaceCharAbsent(s, '\'', "&#39;");
  }

  /** Decoding an entity followed by `t`. */
  lemma UnescapeEntity(e: string, c: char, t: string)
    requires (e, c) in [("&amp;", '&'), ("&lt;", '<'), ("&gt;", '>'), ("&quot;", '"'), ("&#39;", '\'')]
    ensures HtmlUnescape(e + t) == [c] + HtmlUnescape(t)
  {
    var s := e + t;
    assert s[..|e|] == e && s[|e|..] == t;
    assert HasPrefix(s, e) && s[1] == e[1];
    if e != "&amp;" { DiffersAt(s, "&amp;", 1); }
    if e != "&lt;" { DiffersAt(s, "&lt;", 1); }
    if e != "&gt;" { DiffersAt(s, "&gt;", 1); }
    if e != "&quot;" { DiffersAt(s, "&quot;", 1); }
  }

  lemma UnescapePlain(c: char, t: string)
    requires !Markup(c) && c != '&'
    ensures HtmlUnescape([c] + t) == [c] + HtmlUnescape(t)
  {
    var s := [c] + t;
    assert s[0] == c && s[1..] == t;
    DiffersAt(s, "&amp;", 0);
    DiffersAt(s, "&lt;", 0);
    DiffersAt(s, "&gt;", 0);
    DiffersAt(s, "&quot;", 0);
    DiffersAt(s, "&#39;", 0);
  }

  lemma UnescapeEscapedChar(c: char, t: string)
    ensures HtmlUnescape(EscapeChar(c) + t) == [c] + HtmlUnescape(t)
  {
    if c == '&' {
      UnescapeEntity("&amp;", c, t);
    } else if c == '<' {
      UnescapeEntity("&lt;", c, t);
    } else if c == '>' {
      UnescapeEntity("&gt;", c, t);
    } else if c == '"' {
      UnescapeEntity("&quot;", c, t);
    } else if c == '\'' {
      UnescapeEntity("&#39;", c, t);
    } else {
      UnescapePlain(c, t);
    }
  }

  lemma {:induction false} UnescapeEscapeEach(s: string)
    ensures HtmlUnescape(EscapeEach(s)) == s
    decreases |s|
  {
    if s != [] {
      UnescapeEscapedChar(s[0], EscapeEach(s[1..]));
      UnescapeEscapeEach(s[1..]);
    }
  }

  /** Escaping loses nothing: decoding the entities gives the display name back. */
  lemma HtmlEscapeRoundTrip(s: string)
    ensures HtmlUnescape(HtmlEscape(s)) == s
  {
    HtmlEscapeIsPerChar(s);
    UnescapeEscapeEach(s);
  }

  // ------------------------------------------------------------ naming users

  /** The link text for a user without a username. */
  function DisplayName(u: User): string
  {
    if u.firstName != "" && u.lastName != "" then u.firstName + " " + u.lastName
    else if u.firstName != "" then u.firstName
    else if u.lastName != "" then u.lastName
    else "Anonymous"
  }

  /** The name is the non-empty parts, a space between two; "Anonymous" when there are none. */
  lemma DisplayNameParts(u: User)
    ensures u.firstName != "" || u.lastName != "" ==>
      DisplayName(u) == u.firstName + (if u.firstName != "" && u.lastName != "" then " " else "") + u.lastName
    ensures u.firstName == "" && u.lastName == "" ==> DisplayName(u) == "Anonymous"
    ensures DisplayName(u) != ""
  {
  }

  /** The opening of a tg://user link, up to the user id. */
  const AnchorOpen: string := "<a href=\"tg://user?id="

  function UserLink(u: User): string
  {
    AnchorOpen + IntToString(u.userId) + "\">" + HtmlEscape(DisplayName(u)) + "</a>"
  }

  /** The localized phone line, rendered in `lang` whatever the reader's own catalog. */
  function PhoneLine(u: User, includePhone: bool, lang: string): seq<Piece>
  {
    if includePhone && u.phoneNumber != "" then [Lit("\n"), Fmt([LocIn(lang, "phone_label")], [StrArg(u.phoneNumber)])] else []
  }

  /** formatUserIdentifier: "@username", else a tg:// link, then the phone line when asked for and known. */
  function UserIdentifier(u: User, includePhone: bool, lang: string): seq<Piece>
  {
    [Lit(if u.username != "" then "@" + u.username else UserLink(u))] + PhoneLine(u, includePhone, lang)
  }

  /** The identifier's shape: which form is used, and the phone line exactly when asked for and known. */
  lemma UserIdentifierShape(u: User, includePhone: bool, lang: string)
    ensures var r := UserIdentifier(u, includePhone, lang);
      r[0].Lit?
      && (u.username != "" ==> r[0].s == "@" + u.username)
      && (u.username == "" ==> HasPrefix(r[0].s, AnchorOpen))
      && (|r| == 3 <==> includePhone && u.phoneNumber != "")
      && (|r| == 1 <==> !(includePhone && u.phoneNumber != ""))
      && (Keys(r) == if includePhone && u.phoneNumber != "" then ["phone_label"] else [])
  {
    PhoneLineShape(u, includePhone, lang);
    if u.username == "" {
      var id := IntToString(u.userId);
      assert HasPrefix(AnchorOpen + id, AnchorOpen) by {
        assert (AnchorOpen + id)[..|AnchorOpen|] == AnchorOpen;
      }
      PrefixExtends(AnchorOpen + id, AnchorOpen, "\">");
      PrefixExtends(AnchorOpen + id + "\">", AnchorOpen, HtmlEscape(DisplayName(u)));
      PrefixExtends(AnchorOpen + id + "\">" + HtmlEscape(DisplayName(u)), AnchorOpen, "</a>");
    }
    var head := [Lit(if u.username != "" then "@" + u.username else UserLink(u))];
    assert Keys(head) == [];
    KeysConcat(head, PhoneLine(u, includePhone, lang));
  }

  lemma PhoneLineShape(u: User, includePhone: bool, lang: string)
    ensures |PhoneLine(u, includePhone, lang)| == if includePhone && u.phoneNumber != "" then 2 else 0
    ensures Keys(PhoneLine(u, includePhone, lang)) == if includePhone && u.phoneNumber != "" then ["phone_label"] else []
    ensures includePhone && u.phoneNumber != "" ==>
      PhoneLine(u, includePhone, lang)[0] == Lit("\n") && PhoneLine(u, includePhone, lang)[1].Fmt?
      && PhoneLine(u, includePhone, lang)[1].args == [StrArg(u.phoneNumber)]
  {
    var r := PhoneLine(u, includePhone, lang);
    if includePhone && u.phoneNumber != "" {
      var f := Fmt([LocIn(lang, "phone_label")], [StrArg(u.phoneNumber)]);
      assert PieceKeys(f) == ["phone_label"] by {
        assert Keys([LocIn(lang, "phone_label")]) == ["phone_label"];
        assert ArgKeys([StrArg(u.phoneNumber)]) == [];
      }
      assert Keys(r[1..]) == ["phone_label"];
    }
  }

  /**
   * A user without a username is shown as a link whose visible name cannot
   * break out of the anchor: between the opening tag and "</a>" there is no
   * < > " or ' at all.
   */
  lemma UserLinkNameInert(u: User)
    ensures var l := UserLink(u);
      var k := |AnchorOpen| + |IntToString(u.userId)| + 2;
      k + 4 <= |l| && l[|l| - 4..] == "</a>" &&
      forall i | k <= i < |l| - 4 :: !Markup(l[i])
  {
    var id, name := IntToString(u.userId), HtmlEscape(DisplayName(u));
    var l := UserLink(u);
    assert l == AnchorOpen + id + "\">" + name + "</a>";
    HtmlEscapeHasNoMarkup(DisplayName(u));
    var k := |AnchorOpen| + |id| + 2;
    forall i | k <= i < |l| - 4 ensures !Markup(l[i]) {
      assert l[i] == name[i - k];
      assert name[i - k] in name;
    }
  }

  // ------------------------------------------------------------ payloads

  /** The id of a "<tag>:<int64>" payload: exactly two parts, the right tag, a parsable number. */
  function ParsePayload(data: string, tag: string): Option<int>
  {
    var parts := Split(data, ':');
    if |parts| != 2 || parts[0] != tag then None else ParseInt(parts[1])
  }

  lemma {:induction false} IntToStringHasNoColon(n: int)
    ensures ':' !in IntToString(n)
  {
    var s := NatToString(if n < 0 then -n else n);
    forall i | 0 <= i < |s| ensures s[i] != ':' {
      assert IsDigit(s[i]);
    }
    if n < 0 {
      assert IntToString(n) == "-" + s;
    }
  }

  /** Exactly the payloads "<tag>:<n>" with a colon-free 64-bit number n are accepted, and they give n. */
  lemma ParsePayloadCorrect(data: string, tag: string, n: int)
    requires ':' !in tag
    ensures ParsePayload(data, tag) == Some(n) <==>
      |tag| < |data| && data[..|tag| + 1] == tag + ":" && ':' !in data[|tag| + 1..] && ParseInt(data[|tag| + 1..]) == Some(n)
  {
    var parts := Split(data, ':');
    if |tag| < |data| && data[..|tag| + 1] == tag + ":" && ':' !in data[|tag| + 1..] {
      var rest := data[|tag| + 1..];
      assert data == tag + [':'] + rest;
      SplitPair(tag, ':', rest);
    }
    if ParsePayload(data, tag) == Some(n) {
      JoinSplit(data, ':');
      assert Join(parts, ':') == parts[0] + [':'] + Join(parts[1..], ':');
      assert Join(parts[1..], ':') == parts[1];
      assert data == tag + [':'] + parts[1];
      assert data[..|tag| + 1] == tag + ":";
      assert data[|tag| + 1..] == parts[1];
    }
  }

  /** The payloads fanout writes parse back to their exchange id. */
  lemma PayloadRoundTrip(tag: string, id: int)
    requires ':' !in tag
    requires MinInt64 <= id <= MaxInt64
    ensures ParsePayload(tag + ":" + IntToString(id), tag) == Some(id)
  {
    IntToStringHasNoColon(id);
    ParseIntOfIntToString(id);
    var data := tag + ":" + IntToString(id);
    assert data[..|tag| + 1] == tag + ":" && data[|tag| + 1..] == IntToString(id);
    ParsePayloadCorrect(data, tag, id);
  }

  lemma RejectedPayload(data: string, tag: string)
    requires ':' !in tag
    requires !(|tag| < |data| && data[..|tag| + 1] == tag + ":" && ':' !in data[|tag| + 1..] && ParseInt(data[|tag| + 1..]).Some?)
    ensures ParsePayload(data, tag) == None
  {
    if ParsePayload(data, tag).Some? {
      ParsePayloadCorrect(data, tag, ParsePayload(data, tag).value);
    }
  }

  /** Malformed delete payloads are refused: a third part, no number, a non-number, another tag. */
  lemma MalformedPayloads()
    ensures ParsePayload("delete:123:456", "delete") == None
    ensures ParsePayload("delete:", "delete") == None
    ensures ParsePayload("delete:abc", "delete") == None
    ensures ParsePayload("contact:42", "delete") == None
  {
    assert "delete:123:456"[7..][3] == ':';
    RejectedPayload("delete:123:456", "delete");
    assert "delete:"[7..] == "";
    RejectedPayload("delete:", "delete");
    assert "delete:abc"[7..][0] == 'a';
    RejectedPayload("delete:abc", "delete");
    assert "contact:42"[..7] != "delete:" by { assert "contact:42"[0] == 'c'; }
    RejectedPayload("contact:42", "delete");
  }

  // ------------------------------------------------------------ show contact

  /** The exchange a "contact:" press refers to, as GetExchangeByID returns it. */
  function ContactTarget(repo: Store, data: string): Option<Exchange>
    reads repo
  {
    var id := ParsePayload(data, "contact");
    if id.None? || GetExchangeByIdOp in repo.failing then None else LiveExchange(repo.exchanges, id.value)
  }

  /** The listing's author, when the listing and the author are found. */
  function ContactInitiator(repo: Store, data: string): Option<User>
    reads repo
  {
    var ex := ContactTarget(repo, data);
    if ex.None? then None else repo.FoundUser(ex.value.userId)
  }

  /** Whether the press gets as far as sharing contacts: a request row exists once it is done. */
  predicate ContactShared(repo: Store, data: string, requester: int)
    reads repo
  {
    ContactInitiator(repo, data).Some? && CheckContactRequestOp !in repo.failing
    && (HasRequest(repo.contactRequests, ContactTarget(repo, data).value.id, requester) || CreateContactRequestOp !in repo.failing)
  }

  /** editRequesterMessage: the listing's text with the author's identifier appended, keyboard dropped. */
  function RequesterEdit(cb: Callback, requester: User, initiator: User): Envelope
  {
    var lang := SupportedLanguageCode(requester.languageCode);
    EditText(cb.chatId, cb.messageId,
      [Lit(cb.messageText), Fmt([Lit("\n\n"), Loc("contact_request.contact_info")], [TextArg(UserIdentifier(initiator, true, lang))])],
      lang, "HTML", PriorityEdit)
  }

  /** sendInitiatorNotification: the requester's identifier, with phone, at priority 100. */
  function InitiatorNotice(initiator: User, requester: User): Envelope
  {
    var lang := SupportedLanguageCode(initiator.languageCode);
    TgMessage(Message(initiator.userId, [Fmt([Loc("contact_request.notification")], [TextArg(UserIdentifier(requester, true, lang))])],
      lang, "HTML", NoMarkup, false), PriorityNotification)
  }

  /** Each party sees the other: the requester's edit names the author, the author's notice names the requester. */
  lemma ContactExchangeOfNames(cb: Callback, requester: User, initiator: User)
    ensures RequesterEdit(cb, requester, initiator).text[1].args[0].t[0] == UserIdentifier(initiator, true, SupportedLanguageCode(requester.languageCode))[0]
    ensures InitiatorNotice(initiator, requester).message.chatId == initiator.userId
    ensures InitiatorNotice(initiator, requester).message.text[0].args[0].t == UserIdentifier(requester, true, SupportedLanguageCode(initiator.languageCode))
    ensures RequesterEdit(cb, requester, initiator).chatId == cb.chatId && RequesterEdit(cb, requester, initiator).messageId == cb.messageId
  {
  }

  /**
   * HandleContactRequestCallback: every press is answered first; a malformed
   * payload, a missing or deleted listing, a missing author or a failed
   * lookup ends there. Otherwise the request row is created if absent (a
   * failure ends there), the requester's message shows the author and the
   * author is told who asked, also when the row already existed.
   */
  method HandleContactRequest(ctx: Context, cb: Callback, user: User)
    requires ctx.Valid()
    modifies ctx`attempted, ctx.repo`contactRequests
    ensures ctx.Valid()
    ensures ctx.repo.contactRequests ==
      if ContactInitiator(ctx.repo, cb.data).Some? && CheckContactRequestOp !in ctx.repo.failing && CreateContactRequestOp !in ctx.repo.failing
      then WithRequest(old(ctx.repo.contactRequests),
        ContactRequest(ContactTarget(ctx.repo, cb.data).value.id, user.userId, user.username, user.firstName, user.lastName))
      else old(ctx.repo.contactRequests)
    ensures ctx.attempted == old(ctx.attempted) + [Ack(cb)]
      + (if old(ContactShared(ctx.repo, cb.data, user.userId))
         then [RequesterEdit(cb, user, ContactInitiator(ctx.repo, cb.data).value), InitiatorNotice(ContactInitiator(ctx.repo, cb.data).value, user)]
         else [])
  {
    var ex, initiator := FindContactParties(ctx, cb.data);
    if initiator.None? {
      var _ := ctx.AnswerCallbackQuery(cb.id, "");
      return;
    }
    var recorded := RecordContactRequest(ctx, ex.value.id, user);
    var _ := ctx.AnswerCallbackQuery(cb.id, "");
    if recorded {
      ShareContact(ctx, cb, user, initiator.value);
    }
  }

  /** A recorded request: the requester's message says so, and the initiator gets the contact. */
  method ShareContact(ctx: Context, cb: Callback, user: User, initiator: User)
    requires ctx.Valid()
    modifies ctx`attempted
    ensures ctx.attempted == old(ctx.attempted) + [RequesterEdit(cb, user, initiator), InitiatorNotice(initiator, user)]
  {
    var _ := ctx.EditMessage(cb.chatId, cb.messageId, RequesterEdit(cb, user, initiator).text,
      SupportedLanguageCode(user.languageCode), "HTML");
    var _ := ctx.Publish(InitiatorNotice(initiator, user));
  }

  /** The lookups of HandleContactRequestCallback: payload, live listing, its author. */
  method FindContactParties(ctx: Context, data: string) returns (ex: Option<Exchange>, initiator: Option<User>)
    ensures ex == ContactTarget(ctx.repo, data)
    ensures initiator == ContactInitiator(ctx.repo, data)
  {
    var parts := Split(data, ':');
    if |parts| != 2 || parts[0] != "contact" {
      return None, None;
    }
    var id := ParseInt(parts[1]);
    if id.None? {
      return None, None;
    }
    var ok;
    ex, ok := ctx.repo.GetExchangeByID(id.value);
    if !ok || ex.None? {
      return None, None;
    }
    initiator := ctx.repo.FindUser(ex.value.userId);
  }

  /**
   * Records that `user` asked for the listing's contact unless a row already
   * exists; the answer says whether a row is there afterwards.
   */
  method RecordContactRequest(ctx: Context, exchangeId: int, user: User) returns (recorded: bool)
    requires ctx.Valid()
    modifies ctx.repo`contactRequests
    ensures ctx.Valid()
    ensures recorded == (CheckContactRequestOp !in ctx.repo.failing
      && (HasRequest(old(ctx.repo.contactRequests), exchangeId, user.userId) || CreateContactRequestOp !in ctx.repo.failing))
    ensures ctx.repo.contactRequests ==
      if CheckContactRequestOp !in ctx.repo.failing && CreateContactRequestOp !in ctx.repo.failing
      then WithRequest(old(ctx.repo.contactRequests), ContactRequest(exchangeId, user.userId, user.username, user.firstName, user.lastName))
      else old(ctx.repo.contactRequests)
  {
    var exists_, checked := ctx.repo.CheckContactRequestExists(exchangeId, user.userId);
    if !checked {
      return false;
    }
    if !exists_ {
      recorded := ctx.repo.CreateContactRequest(exchangeId, user.userId, user.username, user.firstName, user.lastName);
      return;
    }
    if CreateContactRequestOp !in ctx.repo.failing {
      // nothing is written: the row is already there, which is what WithRequest keeps
      assert WithRequest(ctx.repo.contactRequests,
        ContactRequest(exchangeId, user.userId, user.username, user.firstName, user.lastName)) == ctx.repo.contactRequests;
    }
    recorded := true;
  }

  // ------------------------------------------------------------ delete

  /** The exchange a "delete:" press refers to, as GetExchangeByID returns it. */
  function DeleteTarget(repo: Store, data: string): Option<Exchange>
    reads repo
  {
    var id := ParsePayload(data, "delete");
    if id.None? || GetExchangeByIdOp in repo.failing then None else LiveExchange(repo.exchanges, id.value)
  }

  /** Only the listing's author may delete it. */
  predicate MayDelete(repo: Store, data: string, uid: int)
    reads repo
  {
    DeleteTarget(repo, data).Some? && DeleteTarget(repo, data).value.userId == uid
  }

  /** The first of `records` addressed to `uid`. */
  function FirstRecordFor(records: seq<TimelineRecord>, uid: int): (r: Option<TimelineRecord>)
    ensures r.Some? ==> r.value in records && r.value.recipientUserId == uid
    ensures r.None? <==> forall t | t in records :: t.recipientUserId != uid
    decreases |records|
  {
    if records == [] then None
    else if records[0].recipientUserId == uid then Some(records[0])
    else FirstRecordFor(records[1..], uid)
  }

  /** editAuthorMessage's edit: only when the author's first record has a message id. */
  function AuthorEdit(records: seq<TimelineRecord>, author: User): seq<Envelope>
  {
    var r := FirstRecordFor(records, author.userId);
    if r.None? || r.value.telegramMessageId.None? then []
    else [EditText(author.userId, r.value.telegramMessageId.value, [Loc("delete_exchange.deleted_by_you")],
      SupportedLanguageCode(author.languageCode), "HTML", PriorityEdit)]
  }

  /** What FindUser answers: the user table, and whether the lookup fails. */
  datatype Directory = Directory(users: map<int, UserRow>, lookupFails: bool)

  function Find(dir: Directory, uid: int): Option<User>
  {
    if dir.lookupFails then None else UserIn(dir.users, uid)
  }

  function DirectoryOf(repo: Store): (dir: Directory)
    reads repo
    ensures forall uid :: Find(dir, uid) == repo.FoundUser(uid)
  {
    Directory(repo.users, FindUserOp in repo.failing)
  }

  /** Every row is stored under its own user id. */
  predicate Keyed(dir: Directory)
  {
    forall k | k in dir.users :: dir.users[k].userId == k
  }

  /** The edit editRecipientMessages makes for one record, if any. */
  function RecipientEdit(dir: Directory, t: TimelineRecord, authorId: int): seq<Envelope>
  {
    if t.recipientUserId == authorId || t.telegramMessageId.None? then []
    else
      var r := Find(dir, t.recipientUserId);
      if r.None? then []
      else [EditText(r.value.userId, t.telegramMessageId.value, [Loc("delete_exchange.deleted_by_author")],
        SupportedLanguageCode(r.value.languageCode), "HTML", PriorityEdit)]
  }

  function RecipientEdits(dir: Directory, records: seq<TimelineRecord>, authorId: int): seq<Envelope>
    decreases |records|
  {
    if records == [] then [] else RecipientEdit(dir, records[0], authorId) + RecipientEdits(dir, records[1..], authorId)
  }

  lemma {:induction false} RecipientEditsConcat(dir: Directory, a: seq<TimelineRecord>, b: seq<TimelineRecord>, authorId: int)
    ensures RecipientEdits(dir, a + b, authorId) == RecipientEdits(dir, a, authorId) + RecipientEdits(dir, b, authorId)
    decreases |a|
  {
    if a == [] {
      assert a + b == b;
    } else {
      assert (a + b)[0] == a[0];
      assert (a + b)[1..] == a[1..] + b;
      RecipientEditsConcat(dir, a[1..], b, authorId);
    }
  }

  /** A record that editRecipientMessages edits. */
  predicate Editable(dir: Directory, t: TimelineRecord, authorId: int)
  {
    t.recipientUserId != authorId && t.telegramMessageId.Some? && Find(dir, t.recipientUserId).Some?
  }

  /**
   * The recipients' edits skip the author, records without a message id and
   * users that are not found: each edit is for an editable record.
   */
  lemma {:induction false} RecipientEditsSound(dir: Directory, records: seq<TimelineRecord>, authorId: int)
    requires Keyed(dir)
    ensures |RecipientEdits(dir, records, authorId)| <= |records|
    ensures forall e | e in RecipientEdits(dir, records, authorId) ::
      e.EditText? && e.chatId != authorId && e.text == [Loc("delete_exchange.deleted_by_author")]
      && exists t | t in records :: Editable(dir, t, authorId) && e.chatId == t.recipientUserId && e.messageId == t.telegramMessageId.value
    decreases |records|
  {
    if records != [] {
      RecipientEditsSound(dir, records[1..], authorId);
      var t0 := records[0];
      var head := RecipientEdit(dir, t0, authorId);
      var tail := RecipientEdits(dir, records[1..], authorId);
      assert RecipientEdits(dir, records, authorId) == head + tail;
      forall e: Envelope | e in head + tail
        ensures e.EditText? && e.chatId != authorId && e.text == [Loc("delete_exchange.deleted_by_author")]
          && exists t | t in records :: Editable(dir, t, authorId) && e.chatId == t.recipientUserId && e.messageId == t.telegramMessageId.value
      {
        if e in tail {
          var t :| t in records[1..] && Editable(dir, t, authorId) && e.chatId == t.recipientUserId && e.messageId == t.telegramMessageId.value;
          assert t in records;
        } else {
          FoundUserId(dir, t0.recipientUserId);
          assert t0 in records;
        }
      }
    }
  }

  /** A found user carries the id it was looked up by. */
  lemma FoundUserId(dir: Directory, uid: int)
    requires Keyed(dir)
    ensures Find(dir, uid).Some? ==> Find(dir, uid).value.userId == uid
  {
    if Find(dir, uid).Some? {
      assert uid in dir.users && dir.users[uid].userId == uid;
    }
  }

  /** Every editable record's message is edited. */
  lemma {:induction false} RecipientEditsComplete(dir: Directory, records: seq<TimelineRecord>, authorId: int)
    requires Keyed(dir)
    ensures forall t | t in records && Editable(dir, t, authorId) ::
      exists e | e in RecipientEdits(dir, records, authorId) :: e.EditText? && e.chatId == t.recipientUserId && e.messageId == t.telegramMessageId.value
    decreases |records|
  {
    if records != [] {
      RecipientEditsComplete(dir, records[1..], authorId);
      var t0 := records[0];
      var head := RecipientEdit(dir, t0, authorId);
      var tail := RecipientEdits(dir, records[1..], authorId);
      assert RecipientEdits(dir, records, authorId) == head + tail;
      forall t | t in records && Editable(dir, t, authorId)
        ensures exists e: Envelope | e in head + tail :: e.EditText? && e.chatId == t.recipientUserId && e.messageId == t.telegramMessageId.value
      {
        if t == t0 {
          FoundUserId(dir, t0.recipientUserId);
          assert head[0] in head + tail;
        } else {
          assert t in records[1..];
          var e :| e in tail && e.EditText? && e.chatId == t.recipientUserId && e.messageId == t.telegramMessageId.value;
          assert e in head + tail;
        }
      }
    }
  }

  /** The author is told at most once, in their own message, and only when that message is known. */
  lemma AuthorEditCorrect(records: seq<TimelineRecord>, author: User)
    ensures |AuthorEdit(records, author)| <= 1
    ensures forall e | e in AuthorEdit(records, author) ::
      e.EditText? && e.chatId == author.userId && e.text == [Loc("delete_exchange.deleted_by_you")]
      && exists t | t in records :: t.recipientUserId == author.userId && t.telegramMessageId == Some(e.messageId)
    ensures (forall t | t in records :: t.recipientUserId != author.userId) ==> AuthorEdit(records, author) == []
  {
  }

  /** editAuthorMessage's search: the first record addressed to the author, stopping there. */
  method FindAuthorRecord(records: seq<TimelineRecord>, author: int) returns (found: Option<TimelineRecord>)
    ensures found == FirstRecordFor(records, author)
  {
    found := None;
    var i := 0;
    while i < |records|
      invariant 0 <= i <= |records|
      invariant FirstRecordFor(records, author) == FirstRecordFor(records[i..], author)
    {
      assert records[i..][1..] == records[i + 1..];
      if records[i].recipientUserId == author {
        return Some(records[i]);
      }
      i := i + 1;
    }
    assert records[i..] == [];
  }

  method EditAuthorMessage(ctx: Context, author: User, records: seq<TimelineRecord>)
    modifies ctx`attempted
    ensures ctx.attempted == old(ctx.attempted) + AuthorEdit(records, author)
  {
    var r := FindAuthorRecord(records, author.userId);
    if r.None? || r.value.telegramMessageId.None? {
      return;
    }
    var _ := ctx.EditMessage(author.userId, r.value.telegramMessageId.value, [Loc("delete_exchange.deleted_by_you")],
      SupportedLanguageCode(author.languageCode), "HTML");
  }

  /** editRecipientMessages: one attempt per editable record; a failed edit does not stop the rest. */
  method EditRecipientMessages(ctx: Context, authorId: int, records: seq<TimelineRecord>)
    modifies ctx`attempted
    ensures ctx.attempted == old(ctx.attempted) + RecipientEdits(DirectoryOf(ctx.repo), records, authorId)
  {
    ghost var dir := DirectoryOf(ctx.repo);
    var i := 0;
    while i < |records|
      invariant 0 <= i <= |records|
      invariant ctx.attempted == old(ctx.attempted) + RecipientEdits(dir, records[..i], authorId)
    {
      assert records[..i + 1] == records[..i] + [records[i]];
      RecipientEditsConcat(dir, records[..i], [records[i]], authorId);
      assert RecipientEdits(dir, [records[i]], authorId) == RecipientEdit(dir, records[i], authorId);
      EditRecipientMessage(ctx, authorId, records[i]);
      i := i + 1;
    }
    assert records[..|records|] == records;
  }

  /** One record of the loop: a reader other than the author, with a message, who is found. */
  method EditRecipientMessage(ctx: Context, authorId: int, t: TimelineRecord)
    modifies ctx`attempted
    ensures ctx.attempted == old(ctx.attempted) + RecipientEdit(DirectoryOf(ctx.repo), t, authorId)
  {
    if t.recipientUserId != authorId && t.telegramMessageId.Some? {
      var recipient := ctx.repo.FindUser(t.recipientUserId);
      if recipient.Some? {
        var _ := ctx.EditMessage(recipient.value.userId, t.telegramMessageId.value, [Loc("delete_exchange.deleted_by_author")],
          SupportedLanguageCode(recipient.value.languageCode), "HTML");
      }
    }
  }

  /** The author's message, then every other reader's, each edited to the removal notice. */
  method EditExchangeMessages(ctx: Context, author: User, records: seq<TimelineRecord>)
    modifies ctx`attempted
    ensures ctx.attempted == old(ctx.attempted) + (AuthorEdit(records, author) + RecipientEdits(DirectoryOf(ctx.repo), records, author.userId))
  {
    EditAuthorMessage(ctx, author, records);
    EditRecipientMessages(ctx, author.userId, records);
    ghost var a, r := AuthorEdit(records, author), RecipientEdits(DirectoryOf(ctx.repo), records, author.userId);
    assert old(ctx.attempted) + a + r == old(ctx.attempted) + (a + r);
  }

  /** Whether every step of the deletion cascade succeeds. */
  predicate CascadeSucceeds(repo: Store)
    reads repo
  {
    SoftDeleteExchangeOp !in repo.failing && GetTimelineRecordsOp !in repo.failing && MarkTimelineRecordsDeletedOp !in repo.failing
  }

  /**
   * The cascade after the author's press has been answered: soft delete the
   * listing, read its timeline, soft delete the timeline, each failure ending
   * it there; then the author's message and every other reader's message.
   */
  method DeleteCascade(ctx: Context, id: int, author: User, now: int)
    requires ctx.Valid()
    modifies ctx`attempted, ctx.repo`exchanges, ctx.repo`timeline
    ensures ctx.Valid()
    ensures ctx.repo.exchanges == if SoftDeleteExchangeOp !in ctx.repo.failing then SoftDeleted(old(ctx.repo.exchanges), id, now) else old(ctx.repo.exchanges)
    ensures ctx.repo.timeline == if CascadeSucceeds(ctx.repo) then MarkDeleted(old(ctx.repo.timeline), id, now) else old(ctx.repo.timeline)
    ensures ctx.attempted == old(ctx.attempted)
      + (if CascadeSucceeds(ctx.repo)
         then AuthorEdit(NewestFirst(old(ctx.repo.timeline), OfExchange(id)), author)
           + RecipientEdits(DirectoryOf(ctx.repo), NewestFirst(old(ctx.repo.timeline), OfExchange(id)), author.userId)
         else [])
  {
    var ok := ctx.repo.SoftDeleteExchange(id, now);
    if ok {
      DeleteTimeline(ctx, id, author, now);
    }
  }

  /** The cascade once the listing is soft deleted: read its timeline, soft delete it, edit the messages. */
  method DeleteTimeline(ctx: Context, id: int, author: User, now: int)
    requires ctx.Valid()
    modifies ctx`attempted, ctx.repo`timeline
    ensures ctx.Valid()
    ensures var works := GetTimelineRecordsOp !in ctx.repo.failing && MarkTimelineRecordsDeletedOp !in ctx.repo.failing;
      ctx.repo.timeline == (if works then MarkDeleted(old(ctx.repo.timeline), id, now) else old(ctx.repo.timeline))
      && ctx.attempted ==
        if works
        then old(ctx.attempted) + (AuthorEdit(NewestFirst(old(ctx.repo.timeline), OfExchange(id)), author)
          + RecipientEdits(DirectoryOf(ctx.repo), NewestFirst(old(ctx.repo.timeline), OfExchange(id)), author.userId))
        else old(ctx.attempted)
  {
    var records, read := ctx.repo.GetTimelineRecordsByExchange(id);
    if read {
      var ok := ctx.repo.SoftDeleteExchangeTimeline(id, now);
      if ok {
        EditExchangeMessages(ctx, author, records);
      }
    }
  }

  /**
   * HandleDeleteExchangeCallback: anyone but the author, a malformed payload
   * or a missing listing gets only the answer; the author's press is
   * answered and then runs the cascade.
   */
  method HandleDeleteExchange(ctx: Context, cb: Callback, user: User, now: int)
    requires ctx.Valid()
    modifies ctx`attempted, ctx.repo`exchanges, ctx.repo`timeline
    ensures ctx.Valid()
    ensures !old(MayDelete(ctx.repo, cb.data, user.userId)) ==>
      ctx.attempted == old(ctx.attempted) + [Ack(cb)]
      && ctx.repo.exchanges == old(ctx.repo.exchanges) && ctx.repo.timeline == old(ctx.repo.timeline)
    ensures old(MayDelete(ctx.repo, cb.data, user.userId)) ==>
      var id := ParsePayload(cb.data, "delete").value;
      var records := NewestFirst(old(ctx.repo.timeline), OfExchange(id));
      ctx.repo.exchanges == (if SoftDeleteExchangeOp !in ctx.repo.failing then SoftDeleted(old(ctx.repo.exchanges), id, now) else old(ctx.repo.exchanges))
      && ctx.repo.timeline == (if CascadeSucceeds(ctx.repo) then MarkDeleted(old(ctx.repo.timeline), id, now) else old(ctx.repo.timeline))
      && ctx.attempted == old(ctx.attempted) + [Ack(cb)]
        + (if CascadeSucceeds(ctx.repo) then AuthorEdit(records, user) + RecipientEdits(DirectoryOf(ctx.repo), records, user.userId) else [])
  {
    var parts := Split(cb.data, ':');
    if |parts| != 2 || parts[0] != "delete" {
      var _ := ctx.AnswerCallbackQuery(cb.id, "");
      return;
    }
    var id := ParseInt(parts[1]);
    if id.None? {
      var _ := ctx.AnswerCallbackQuery(cb.id, "");
      return;
    }
    var ex, ok := ctx.repo.GetExchangeByID(id.value);
    if !ok || ex.None? || user.userId != ex.value.userId {
      var _ := ctx.AnswerCallbackQuery(cb.id, "");
      return;
    }
    var _ := ctx.AnswerCallbackQuery(cb.id, "");
    DeleteCascade(ctx, id.value, user, now);
  }
}
