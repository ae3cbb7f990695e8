/**
 * The channel records kept in channels_id_with_slots_info.json, and the lookup of a
 * channel by chat id (helpers.py `get_channel_by_chat_id`).
 *
 * Ids are compared as Python's `str()` renders them: a JSON number by its decimal
 * digits, a JSON string as itself, and a missing id as "None".
 */
module Channels {
  import opened Wrappers
  import opened Text

  /** The value of a channel's "id" field, or of a chat id. */
  datatype Id = IntId(n: int) | StrId(s: string) | NoId

  /** `str(id)`; `channel.get("id")` of a channel without an id is None, which reads "None". */
  function Key(id: Id): string
  {
    match id
    case IntId(n) => IntToString(n)
    case StrId(s) => s
    case NoId => "None"
  }

  /** A JSON object with string values: one timing slot ("time", "name", "user_id"). */
  type Record = map<string, string>

  /** One entry of the "channels" list. */
  datatype Channel = Channel(id: Id, name: string, subject: string, timings: seq<Record>)

  /** The loaded document: its "channels" list, or None when the document has no such key. */
  datatype Snapshot = Snapshot(channels: Option<seq<Channel>>)

  /** The index of the first channel whose id reads as `key`, if there is one. */
  function FirstMatch(cs: seq<Channel>, key: string): (r: Option<nat>)
    ensures r.Some? ==> r.value < |cs| && Key(cs[r.value].id) == key
    ensures r.Some? ==> forall j :: 0 <= j < r.value ==> Key(cs[j].id) != key
    ensures r.None? ==> forall j :: 0 <= j < |cs| ==> Key(cs[j].id) != key
    decreases |cs|
  {
    if cs == [] then None
    else if Key(cs[0].id) == key then Some(0)
    else
      match FirstMatch(cs[1..], key)
      case None => None
      case Some(i) => Some(i + 1)
  }

  /** `get_channel_by_chat_id`: scans the channels in order and returns the first whose id matches. */
  method GetChannelByChatId(chatId: Id, data: Option<Snapshot>) returns (r: Option<Channel>)
    ensures data.None? || data.value.channels.None? ==> r.None?
    ensures data.Some? && data.value.channels.Some? ==>
              (r.Some? <==> FirstMatch(data.value.channels.value, Key(chatId)).Some?)
    ensures r.Some? ==> r.value == data.value.channels.value[FirstMatch(data.value.channels.value, Key(chatId)).value]
  {
    if data.None? || data.value.channels.None? {
      return None;
    }
    var cs := data.value.channels.value;
    for i := 0 to |cs|
      invariant forall j :: 0 <= j < i ==> Key(cs[j].id) != Key(chatId)
    {
      if Key(cs[i].id) == Key(chatId) {
        MatchAt(cs, Key(chatId), i);
        return Some(cs[i]);
      }
    }
    return None;
  }

  /** A match at `i` with none before it is the first match. */
  lemma {:induction false} MatchAt(cs: seq<Channel>, key: string, i: nat)
    requires i < |cs| && Key(cs[i].id) == key
    requires forall j :: 0 <= j < i ==> Key(cs[j].id) != key
    ensures FirstMatch(cs, key) == Some(i)
    decreases i
  {
    if i > 0 {
      MatchAt(cs[1..], key, i - 1);
    }
  }

  /** Two numeric ids match exactly when they are equal. */
  lemma NumericIdsMatchIffEqual(a: int, b: int)
    ensures Key(IntId(a)) == Key(IntId(b)) <==> a == b
  {
    if Key(IntId(a)) == Key(IntId(b)) {
      IntToStringInjective(a, b);
    }
  }

  /**
   * A numeric id and its decimal text are the same id, so a channel saved with either is
   * found by both; a channel with no id is never found by a numeric chat id.
   */
  lemma NumberMatchesItsText(n: int)
    ensures Key(IntId(n)) == Key(StrId(IntToString(n)))
    ensures Key(IntId(n)) != Key(NoId)
  {
    var t := IntToString(n);
    if n < 0 {
      assert t[0] == '-';
    } else {
      assert AllDigits(t);
      assert IsDigit(t[0]);
    }
  }
}
