// context/context.go: the bot's only way to talk to Telegram is to publish an
// envelope on the outgoing queue, each with a priority (higher is delivered
// first). Context keeps every publish attempt in order; which attempts fail
// (the broker was unreachable) is fixed by the `failing` set of attempt
// numbers, so that callers' handling of a failed publish is visible.
module Broker {
  import opened Wrappers
  import opened Locale
  import opened Repository

  /** Queue priorities used across the bot. */
  const PriorityCallbackAnswer: int := 255
  const PrioritySend: int := 220
  const PriorityEdit: int := 200
  const PriorityAdmin: int := 200
  const PriorityNotification: int := 100
  const PriorityHistorical: int := 80
  const PriorityContinue: int := 70

  /** An inline-keyboard button: its label and the callback data it sends back. */
  datatype Button = Button(caption: seq<Piece>, data: string)

  /** A reply-keyboard button: plain text, or one that shares the location or the phone contact. */
  datatype KeyButton = TextKey(caption: seq<Piece>) | LocationKey(caption: seq<Piece>) | ContactKey(caption: seq<Piece>)

  datatype Markup =
    | NoMarkup
    | Inline(rows: seq<seq<Button>>)
    | Reply(keys: seq<seq<KeyButton>>)
    | RemoveKeyboard

  /**
   * A tgbotapi.MessageConfig: chat, text (rendered in `lang`), parse mode
   * ("" for plain text), reply markup and whether link previews are off.
   */
  datatype Message = Message(chatId: int, text: seq<Piece>, lang: string, parseMode: string, markup: Markup, noPreview: bool)

  /** A message with no markup, in plain text. */
  function Plain(chatId: int, text: seq<Piece>, lang: string): Message
  {
    Message(chatId, text, lang, "", NoMarkup, false)
  }

  datatype Envelope =
    | TgMessage(message: Message, priority: int)
    | CallbackAnswer(callbackId: string, answer: string, priority: int)
    | EditText(chatId: int, messageId: int, text: seq<Piece>, lang: string, parseMode: string, priority: int)
    | ExchangeNotification(exchangeId: int, recipientUserId: int, message: Message, priority: int)

  /**
   * An incoming tgbotapi.CallbackQuery: its id, its data, and the chat, id
   * and text of the message whose button was pressed.
   */
  datatype Callback = Callback(id: string, data: string, chatId: int, messageId: int, messageText: string)

  /** The empty answer that stops a pressed button's loading animation. */
  function Ack(cb: Callback): Envelope
  {
    CallbackAnswer(cb.id, "", PriorityCallbackAnswer)
  }

  /** The envelopes of `log` whose attempt number (counted from `first`) is not in `failing`. */
  function Delivered(log: seq<Envelope>, failing: set<nat>, first: nat): (r: seq<Envelope>)
    ensures |r| <= |log|
    ensures forall e :: e in r ==> e in log
    decreases |log|
  {
    if log == [] then []
    else (if first in failing then [] else [log[0]]) + Delivered(log[1..], failing, first + 1)
  }

  lemma {:induction false} DeliveredConcat(a: seq<Envelope>, b: seq<Envelope>, failing: set<nat>, first: nat)
    ensures Delivered(a + b, failing, first) == Delivered(a, failing, first) + Delivered(b, failing, first + |a|)
    decreases |a|
  {
    if a == [] {
      assert a + b == b;
    } else {
      assert (a + b)[0] == a[0];
      assert (a + b)[1..] == a[1..] + b;
      DeliveredConcat(a[1..], b, failing, first + 1);
    }
  }

  /** With no failing attempt every envelope is delivered, in order. */
  lemma {:induction false} DeliveredAll(log: seq<Envelope>, failing: set<nat>, first: nat)
    requires forall k :: first <= k < first + |log| ==> k !in failing
    ensures Delivered(log, failing, first) == log
    decreases |log|
  {
    if log != [] {
      DeliveredAll(log[1..], failing, first + 1);
      assert [log[0]] + log[1..] == log;
    }
  }

  class Context {
    /** Every publish attempt, oldest first. */
    var attempted: seq<Envelope>
    /** The attempt numbers (0-based) whose publish fails. */
    const failing: set<nat>
    const repo: Store
    const cats: Catalogs
    const adminChatId: int

    ghost predicate Valid()
      reads this, repo
    {
      repo.Valid()
    }

    constructor (repo: Store, cats: Catalogs, adminChatId: int, failing: set<nat>)
      ensures this.repo == repo && this.cats == cats && this.adminChatId == adminChatId && this.failing == failing
      ensures attempted == []
    {
      this.repo := repo;
      this.cats := cats;
      this.adminChatId := adminChatId;
      this.failing := failing;
      attempted := [];
    }

    /** What reached the queue. */
    function Outbox(): seq<Envelope>
      reads this
    {
      Delivered(attempted, failing, 0)
    }

    /** Whether the next publish attempt succeeds. */
    function NextSucceeds(): bool
      reads this
    {
      |attempted| !in failing
    }

    /** One publish attempt; the answer says whether it reached the queue. */
    method Publish(e: Envelope) returns (ok: bool)
      modifies this`attempted
      ensures attempted == old(attempted) + [e]
      ensures ok == old(NextSucceeds())
      ensures Outbox() == old(Outbox()) + (if ok then [e] else [])
    {
      ok := NextSucceeds();
      DeliveredConcat(attempted, [e], failing, 0);
      attempted := attempted + [e];
    }

    /** Send: priority 220; a publish error is not reported. */
    method Send(m: Message)
      modifies this`attempted
      ensures attempted == old(attempted) + [TgMessage(m, PrioritySend)]
    {
      var _ := Publish(TgMessage(m, PrioritySend));
    }

    /** SendWithPriority: the caller's priority, unchanged. */
    method SendWithPriority(m: Message, priority: int)
      modifies this`attempted
      ensures attempted == old(attempted) + [TgMessage(m, priority)]
    {
      var _ := Publish(TgMessage(m, priority));
    }

    /** AnswerCallbackQuery: priority 255. */
    method AnswerCallbackQuery(callbackId: string, answer: string) returns (ok: bool)
      modifies this`attempted
      ensures attempted == old(attempted) + [CallbackAnswer(callbackId, answer, PriorityCallbackAnswer)]
      ensures ok == old(NextSucceeds())
    {
      ok := Publish(CallbackAnswer(callbackId, answer, PriorityCallbackAnswer));
    }

    /** EditMessage: replaces a sent message's text and drops its keyboard; priority 200. */
    method EditMessage(chatId: int, messageId: int, text: seq<Piece>, lang: string, parseMode: string) returns (ok: bool)
      modifies this`attempted
      ensures attempted == old(attempted) + [EditText(chatId, messageId, text, lang, parseMode, PriorityEdit)]
      ensures ok == old(NextSucceeds())
    {
      ok := Publish(EditText(chatId, messageId, text, lang, parseMode, PriorityEdit));
    }
  }
}
