/**
 * The `history` table and the message handler that appends to it.  A chat
 * message whose text is an amount is credited either to the author of the
 * message it replies to or to its sender, and becomes one new row.
 */
module Ledger {
  import opened Options
  import opened Decimals
  import opened AmountParser

  /** A Telegram user, reduced to the one field the handler reads. */
  datatype User = User(fullName: string)

  /** The message a reply refers to: its id and its author. */
  datatype RepliedMessage = RepliedMessage(messageId: int, author: User)

  /** An incoming text message, reduced to what the handler reads. */
  datatype Message = Message(chatId: int, messageId: int, sender: User, text: string,
                             replyTo: Option<RepliedMessage>)

  /** Whom an entry is credited to, and which message it answers. */
  datatype Attribution = Attribution(userName: string, replyId: Option<int>)

  /**
   * The attribution rule: a reply is credited to the author of the message
   * replied to and keeps that message's id; any other message is credited
   * to its sender and keeps no reply id.
   */
  function Attribute(m: Message): (r: Attribution)
    ensures r.replyId.Some? <==> m.replyTo.Some?
    ensures m.replyTo.Some? ==> r.userName == m.replyTo.value.author.fullName &&
                                r.replyId.value == m.replyTo.value.messageId
    ensures m.replyTo.None? ==> r.userName == m.sender.fullName
  {
    match m.replyTo
    case Some(original) => Attribution(original.author.fullName, Some(original.messageId))
    case None => Attribution(m.sender.fullName, None)
  }

  /** One row of `history`; `id` is assigned by the store, `createdAt` is the insert time. */
  datatype Row = Row(id: nat, chatId: int, messageId: int, replyId: Option<int>,
                     userName: string, amount: Decimal, createdAt: int)

  /** Row ids grow strictly along the table, as a SERIAL key hands them out. */
  ghost predicate IdsIncreasing(rows: seq<Row>)
  {
    forall i, j :: 0 <= i < j < |rows| ==> rows[i].id < rows[j].id
  }

  /** The `history` table: its rows in insertion order and the next SERIAL value. */
  class History {
    var rows: seq<Row>
    var nextId: nat

    ghost predicate Valid()
      reads this
    {
      nextId >= 1 && IdsIncreasing(rows) &&
      forall i :: 0 <= i < |rows| ==> rows[i].id < nextId
    }

    constructor ()
      ensures Valid() && rows == [] && nextId == 1
    {
      rows := [];
      nextId := 1;
    }

    /**
     * `INSERT INTO history (chat_id, message_id, reply_message_id, user_name,
     * amount)`: one new row with the next id, every earlier row unchanged.
     */
    method Insert(chatId: int, messageId: int, replyId: Option<int>, userName: string,
                  amount: Decimal, createdAt: int) returns (row: Row)
      requires Valid()
      modifies this
      ensures Valid()
      ensures row == Row(old(nextId), chatId, messageId, replyId, userName, amount, createdAt)
      ensures rows == old(rows) + [row]
      ensures nextId == old(nextId) + 1
    {
      row := Row(nextId, chatId, messageId, replyId, userName, amount, createdAt);
      rows := rows + [row];
      nextId := nextId + 1;
    }
  }

  /**
   * `handle_msg`: strip the text, parse it as an amount and, when it is one,
   * append exactly one row carrying the chat, the message, the attribution
   * and the amount.  Any other text leaves the table as it was.  `now` is the
   * store's insert time.
   */
  method HandleMessage(h: History, m: Message, now: int) returns (recorded: Option<Row>)
    requires h.Valid()
    modifies h
    ensures h.Valid()
    ensures ParseAmount(Strip(m.text)).None? ==>
              recorded.None? && h.rows == old(h.rows) && h.nextId == old(h.nextId)
    ensures ParseAmount(Strip(m.text)).Some? ==>
              var who := Attribute(m);
              recorded == Some(Row(old(h.nextId), m.chatId, m.messageId, who.replyId, who.userName,
                                   ParseAmount(Strip(m.text)).value, now)) &&
              h.rows == old(h.rows) + [recorded.value] && h.nextId == old(h.nextId) + 1
  {
    var text := Strip(m.text);
    var amount := ParseAmount(text);
    if amount.None? {
      return None;
    }
    var who := Attribute(m);
    var row := h.Insert(m.chatId, m.messageId, who.replyId, who.userName, amount.value, now);
    recorded := Some(row);
  }
}
