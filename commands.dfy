/**
 * The chat commands (commands.py): splitting a `/updateChannels` message into its
 * `$$$`-delimited arguments, validating them, upserting the channel into the stored
 * channel list, and the replies the bot sends back.
 *
 * `json.loads` is the parameter `decode`; the read of channels_id_with_slots_info.json is
 * the parameter `stored` (None when the read or its decoding fails); the list the
 * handler tries to write is the `written` part of the outcome, and `writeFailure` is the
 * error the write raised, if any.
 */
module Commands {
  import opened Wrappers
  import opened Text
  import opened Channels
  import Duty

  const Delimiter := "$$$"
  const UpdateCommand := "/updateChannels"

  const UsageText := "Invalid number of arguments for /updateChannels. Please use:\n"
    + "/updateChannels $$$ChannelName$$$ $$$Subject$$$ $$$[{{\"time\":\"...\",\"name\":\"...\",\"user_id\":\"...\"}}, ...]$$$"
  const NotAListText := "Error: Timings must be provided as a JSON array."
  const MissingKeysText := "Error: Each timing must contain 'time', 'name', and 'user_id' keys."
  const ParseErrorPrefix := "Error parsing timings JSON: "
  const WriteErrorPrefix := "Failed to update channels: "
  const UpdatedText := "Channel updated successfully."
  const AddedText := "Channel added successfully."
  const TimingsHeader := "New Doubt Timings:\n"
  const UnknownText := "Unknown command. Please check your input and try again."

  // ---------------------------------------------------------------- argument splitting

  /**
   * `[strip(part) for part in parts if strip(part)]`; `handle_commands` uses it with
   * `str.strip`. The lemmas about the shape of the result hold for any `strip`.
   */
  function KeptParts(strip: string -> string, parts: seq<string>): (r: seq<string>)
    ensures |r| <= |parts|
    decreases |parts|
  {
    if parts == [] then []
    else
      var p := strip(parts[0]);
      (if p == [] then [] else [p]) + KeptParts(strip, parts[1..])
  }

  /** The arguments `handle_commands` passes on: the kept parts, less a leading command token. */
  function SplitArgs(message: string): seq<string>
  {
    var kept := KeptParts(Strip, SplitOn(message, Delimiter));
    if kept != [] && StartsWith(kept[0], UpdateCommand) then kept[1..] else kept
  }

  /** The kept parts are exactly the non-empty stripped parts. */
  lemma {:induction false} KeptPartsMembers(strip: string -> string, parts: seq<string>, x: string)
    ensures x in KeptParts(strip, parts) <==> x != [] && exists i :: 0 <= i < |parts| && x == strip(parts[i])
    decreases |parts|
  {
    if parts != [] {
      KeptPartsMembers(strip, parts[1..], x);
      if x != [] && x != strip(parts[0]) && exists i :: 0 <= i < |parts| && x == strip(parts[i]) {
        var i :| 0 <= i < |parts| && x == strip(parts[i]);
        assert x == strip(parts[1..][i - 1]);
      }
    }
  }

  /** A kept part is non-empty and unpadded, and lacks whatever all the parts lack. */
  lemma KeptPartShape(parts: seq<string>, x: string, d: string)
    requires x in KeptParts(Strip, parts)
    requires forall i :: 0 <= i < |parts| ==> !Contains(parts[i], d)
    ensures x != [] && Unpadded(x) && !Contains(x, d)
  {
    KeptPartsMembers(Strip, parts, x);
    var i :| 0 <= i < |parts| && x == Strip(parts[i]);
    StripKeepsAbsence(parts[i], d);
  }

  /** Every argument is non-empty, carries no surrounding whitespace and holds no `$$$`. */
  lemma ArgsAvoidDelimiter(message: string, j: nat)
    requires j < |SplitArgs(message)|
    ensures SplitArgs(message)[j] != [] && Unpadded(SplitArgs(message)[j])
    ensures !Contains(SplitArgs(message)[j], Delimiter)
  {
    var parts := SplitOn(message, Delimiter);
    var kept := KeptParts(Strip, parts);
    assert SplitArgs(message)[j] in kept;
    forall i | 0 <= i < |parts| ensures !Contains(parts[i], Delimiter) {
      SplitPartsAvoidSeparator(message, Delimiter, i);
    }
    KeptPartShape(parts, SplitArgs(message)[j], Delimiter);
  }

  /** A part that strips to nothing is dropped. */
  lemma KeptSkip(strip: string -> string, ps: seq<string>, k: nat)
    requires k < |ps| && strip(ps[k]) == []
    ensures KeptParts(strip, ps[k..]) == KeptParts(strip, ps[k + 1..])
  {
    assert ps[k..][1..] == ps[k + 1..];
  }

  /** A part that strips to something is kept, stripped. */
  lemma KeptTake(strip: string -> string, ps: seq<string>, k: nat)
    requires k < |ps| && strip(ps[k]) != []
    ensures KeptParts(strip, ps[k..]) == [strip(ps[k])] + KeptParts(strip, ps[k + 1..])
  {
    assert ps[k..][1..] == ps[k + 1..];
  }

  /** The last three of seven pieces: blank, kept, blank. */
  lemma KeptLastThree(strip: string -> string, ps: seq<string>)
    requires |ps| == 7 && strip(ps[4]) == [] && strip(ps[5]) != [] && strip(ps[6]) == []
    ensures KeptParts(strip, ps[4..]) == [strip(ps[5])]
  {
    assert ps[7..] == [];
    KeptSkip(strip, ps, 6);
    KeptTake(strip, ps, 5);
    KeptSkip(strip, ps, 4);
  }

  /** The comprehension over seven pieces of which the third, fifth and seventh strip to nothing. */
  lemma KeptSeven(strip: string -> string, p0: string, p1: string, p2: string, p3: string, p4: string,
                  p5: string, p6: string)
    requires strip(p2) == [] && strip(p4) == [] && strip(p6) == []
    requires strip(p0) != [] && strip(p1) != [] && strip(p3) != [] && strip(p5) != []
    ensures KeptParts(strip, [p0, p1, p2, p3, p4, p5, p6])
         == [strip(p0)] + ([strip(p1)] + ([strip(p3)] + [strip(p5)]))
  {
    var ps := [p0, p1, p2, p3, p4, p5, p6];
    KeptLastThree(strip, ps);
    KeptTake(strip, ps, 3);
    KeptSkip(strip, ps, 2);
    KeptTake(strip, ps, 1);
    KeptTake(strip, ps, 0);
    assert ps[0..] == ps;
  }

  /** Four elements consed are the four-element sequence. */
  lemma ConsFour<T>(a: T, b: T, c: T, d: T)
    ensures [a] + ([b] + ([c] + [d])) == [a, b, c, d]
  {
  }

  /** `d.join` of the first `k` parts, from the join of the first `k - 1`. */
  lemma JoinPrefix(ps: seq<string>, d: string, k: nat)
    requires 2 <= k <= |ps|
    ensures Join(ps[..k], d) == Join(ps[..k - 1], d) + d + ps[k - 1]
  {
    JoinSnoc(ps[..k], d);
    assert ps[..k][..k - 1] == ps[..k - 1];
  }

  /** `d.join` of seven pieces. */
  lemma JoinSeven(ps: seq<string>, d: string)
    requires |ps| == 7
    ensures Join(ps, d) == ps[0] + d + ps[1] + d + ps[2] + d + ps[3] + d + ps[4] + d + ps[5] + d + ps[6]
  {
    assert Join(ps[..1], d) == ps[0];
    JoinPrefix(ps, d, 2);
    JoinPrefix(ps, d, 3);
    JoinPrefix(ps, d, 4);
    JoinPrefix(ps, d, 5);
    JoinPrefix(ps, d, 6);
    JoinPrefix(ps, d, 7);
    assert ps[..7] == ps;
  }

  /** The command token with its trailing blank strips to the bare token. */
  lemma CommandPieceStrips()
    ensures Strip(UpdateCommand + " ") == UpdateCommand
  {
    StripPadded([], UpdateCommand, " ");
    assert [] + UpdateCommand + " " == UpdateCommand + " ";
  }

  /** The blanks between the `$$$` groups strip to nothing. */
  lemma BlankPiecesStrip()
    ensures Strip(" ") == [] && Strip("") == []
  {
    assert AllSpace(" ") && AllSpace("");
  }

  /** The pieces of the documented message, stripped, are the command and the three arguments. */
  lemma DocumentedPieces(n: string, s: string, t: string)
    requires n != [] && s != [] && t != [] && Unpadded(n) && Unpadded(s) && Unpadded(t)
    ensures KeptParts(Strip, [UpdateCommand + " ", n, " ", s, " ", t, ""]) == [UpdateCommand, n, s, t]
  {
    CommandPieceStrips();
    BlankPiecesStrip();
    StripUnpadded(n);
    StripUnpadded(s);
    StripUnpadded(t);
    KeptSeven(Strip, UpdateCommand + " ", n, " ", s, " ", t, "");
    ConsFour(UpdateCommand, n, s, t);
  }

  /** No piece of the documented message holds a `$`, the first character of the delimiter. */
  lemma PiecesAvoidDollar(n: string, s: string, t: string)
    requires forall i :: 0 <= i < |n| ==> n[i] != '$'
    requires forall i :: 0 <= i < |s| ==> s[i] != '$'
    requires forall i :: 0 <= i < |t| ==> t[i] != '$'
    ensures var parts := [UpdateCommand + " ", n, " ", s, " ", t, ""];
            forall k, i :: 0 <= k < |parts| && 0 <= i < |parts[k]| ==> parts[k][i] != Delimiter[0]
  {
    var parts := [UpdateCommand + " ", n, " ", s, " ", t, ""];
    forall k, i | 0 <= k < |parts| && 0 <= i < |parts[k]| ensures parts[k][i] != Delimiter[0] {
      if k == 0 {
        assert parts[0] == "/updateChannels ";
      }
    }
  }

  /** Dropping the head of a four-element sequence. */
  lemma DropHead<T>(a: T, b: T, c: T, d: T)
    ensures [a, b, c, d][1..] == [b, c, d]
  {
  }

  /**
   * A message written as the usage text shows, with arguments free of `$` and of
   * surrounding whitespace, splits into exactly those three arguments.
   */
  lemma DocumentedMessage(n: string, s: string, t: string)
    requires n != [] && s != [] && t != [] && Unpadded(n) && Unpadded(s) && Unpadded(t)
    requires forall i :: 0 <= i < |n| ==> n[i] != '$'
    requires forall i :: 0 <= i < |s| ==> s[i] != '$'
    requires forall i :: 0 <= i < |t| ==> t[i] != '$'
    ensures SplitArgs(UpdateCommand + " " + Delimiter + n + Delimiter + " " + Delimiter + s + Delimiter + " "
                      + Delimiter + t + Delimiter) == [n, s, t]
  {
    DocumentedSplit(n, s, t);
    DocumentedPieces(n, s, t);
    ArgsAfterCommand(UpdateCommand + " " + Delimiter + n + Delimiter + " " + Delimiter + s + Delimiter + " "
                     + Delimiter + t + Delimiter, n, s, t);
  }

  /** When the kept parts are the command token and three more, those three are the arguments. */
  lemma ArgsAfterCommand(message: string, n: string, s: string, t: string)
    requires KeptParts(Strip, SplitOn(message, Delimiter)) == [UpdateCommand, n, s, t]
    ensures SplitArgs(message) == [n, s, t]
  {
    DropHead(UpdateCommand, n, s, t);
    StartsWithItself(UpdateCommand);
  }

  lemma StartsWithItself(p: string)
    ensures StartsWith(p, p)
  {
    assert p[..|p|] == p;
  }

  /** The documented message splits on `$$$` into the command piece, the arguments and the blanks between them. */
  lemma DocumentedSplit(n: string, s: string, t: string)
    requires forall i :: 0 <= i < |n| ==> n[i] != '$'
    requires forall i :: 0 <= i < |s| ==> s[i] != '$'
    requires forall i :: 0 <= i < |t| ==> t[i] != '$'
    ensures SplitOn(UpdateCommand + " " + Delimiter + n + Delimiter + " " + Delimiter + s + Delimiter + " "
                    + Delimiter + t + Delimiter, Delimiter) == [UpdateCommand + " ", n, " ", s, " ", t, ""]
  {
    var parts := [UpdateCommand + " ", n, " ", s, " ", t, ""];
    JoinSeven(parts, Delimiter);
    var message := UpdateCommand + " " + Delimiter + n + Delimiter + " " + Delimiter + s + Delimiter + " "
                   + Delimiter + t + Delimiter;
    assert message + "" == message;
    PiecesAvoidDollar(n, s, t);
    SplitOfJoin(parts, Delimiter);
  }

  // ---------------------------------------------------------------- payload and replies

  /** What `json.loads` makes of the timings argument. */
  datatype Payload = Malformed(error: string) | NotAList | Array(items: seq<Record>)

  /** A timing record holding all three keys the bot needs. */
  predicate HasKeys(item: Record)
  {
    "time" in item && "name" in item && "user_id" in item
  }

  predicate AllHaveKeys(items: seq<Record>)
  {
    forall i :: 0 <= i < |items| ==> HasKeys(items[i])
  }

  /** One line of the timings listing: ` - {time}: {name} ({user_id})`. */
  function Line(item: Record): string
    requires HasKeys(item)
  {
    " - " + item["time"] + ": " + item["name"] + " (" + item["user_id"] + ")\n"
  }

  /** The timings listing, one line per record in order. */
  function Lines(items: seq<Record>): string
    requires AllHaveKeys(items)
    decreases |items|
  {
    if items == [] then "" else Lines(items[..|items| - 1]) + Line(items[|items| - 1])
  }

  /** The reply after a successful write. */
  function SuccessReply(found: bool, name: string, subject: string, items: seq<Record>): string
    requires AllHaveKeys(items)
  {
    (if found then UpdatedText else AddedText) + "\nChannel Name: " + name + "\nSubject: " + subject + "\n"
      + TimingsHeader + Lines(items)
  }

  /** The status line reads "updated" exactly when an existing channel was replaced. */
  lemma StatusLine(found: bool, name: string, subject: string, items: seq<Record>)
    requires AllHaveKeys(items)
    ensures StartsWith(SuccessReply(found, name, subject, items), UpdatedText) <==> found
    ensures StartsWith(SuccessReply(found, name, subject, items), AddedText) <==> !found
  {
    var r := SuccessReply(found, name, subject, items);
    if found {
      assert r[..|UpdatedText|] == UpdatedText;
      assert r[8] == 'u' && AddedText[8] == 'a';
    } else {
      assert r[..|AddedText|] == AddedText;
      assert r[8] == 'a' && UpdatedText[8] == 'u';
    }
  }

  // ---------------------------------------------------------------- upsert

  /** The channel list the stored document yields: no readable document or no "channels" key is an empty list. */
  function Loaded(stored: Option<Snapshot>): (cs: seq<Channel>)
    ensures stored.None? || stored.value.channels.None? ==> cs == []
  {
    if stored.Some? && stored.value.channels.Some? then stored.value.channels.value else []
  }

  /** The first channel with `c`'s id is replaced by `c`; without one, `c` is appended. */
  function Upserted(cs: seq<Channel>, c: Channel): (r: seq<Channel>)
    ensures FirstMatch(cs, Key(c.id)).Some? ==>
              var i := FirstMatch(cs, Key(c.id)).value;
              |r| == |cs| && r[i] == c && forall j :: 0 <= j < |cs| && j != i ==> r[j] == cs[j]
    ensures FirstMatch(cs, Key(c.id)).None? ==> |r| == |cs| + 1 && r[..|cs|] == cs && r[|cs|] == c
  {
    match FirstMatch(cs, Key(c.id))
    case Some(i) => cs[i := c]
    case None => cs + [c]
  }

  /** The loop of `handle_update_channels` over the stored channels, with its `channel_found` flag. */
  method Upsert(cs: seq<Channel>, c: Channel) returns (channels: seq<Channel>, found: bool)
    ensures found <==> FirstMatch(cs, Key(c.id)).Some?
    ensures channels == Upserted(cs, c)
  {
    channels := cs;
    found := false;
    for i := 0 to |cs|
      invariant !found && channels == cs
      invariant forall j :: 0 <= j < i ==> Key(cs[j].id) != Key(c.id)
    {
      if Key(cs[i].id) == Key(c.id) {
        MatchAt(cs, Key(c.id), i);
        channels := channels[i := c];
        found := true;
        break;
      }
    }
    if !found {
      channels := channels + [c];
    }
  }

  /** After the upsert, looking the id up finds `c`, where the old entry was or at the end. */
  lemma UpsertFinds(cs: seq<Channel>, c: Channel)
    ensures FirstMatch(Upserted(cs, c), Key(c.id)).Some?
    ensures Upserted(cs, c)[FirstMatch(Upserted(cs, c), Key(c.id)).value] == c
    ensures FirstMatch(Upserted(cs, c), Key(c.id)).value
         == if FirstMatch(cs, Key(c.id)).Some? then FirstMatch(cs, Key(c.id)).value else |cs|
  {
    var r := Upserted(cs, c);
    var f := FirstMatch(cs, Key(c.id));
    var i := if f.Some? then f.value else |cs|;
    MatchAt(r, Key(c.id), i);
  }

  /** Lookups of every other id see the same channel at the same place as before. */
  lemma UpsertKeepsOthers(cs: seq<Channel>, c: Channel, key: string)
    requires key != Key(c.id)
    ensures FirstMatch(Upserted(cs, c), key).Some? <==> FirstMatch(cs, key).Some?
    ensures FirstMatch(cs, key).Some? ==>
              FirstMatch(Upserted(cs, c), key) == FirstMatch(cs, key)
              && Upserted(cs, c)[FirstMatch(cs, key).value] == cs[FirstMatch(cs, key).value]
  {
    var r := Upserted(cs, c);
    var f := FirstMatch(cs, key);
    if f.Some? {
      MatchAt(r, key, f.value);
    } else {
      assert forall j :: 0 <= j < |r| ==> Key(r[j].id) != key by {
        forall j | 0 <= j < |r| ensures Key(r[j].id) != key {
          if j < |cs| && r[j] != c {
            assert r[j] == cs[j];
          }
        }
      }
    }
  }

  /** Upserting the same channel twice is upserting it once. */
  lemma UpsertIdempotent(cs: seq<Channel>, c: Channel)
    ensures Upserted(Upserted(cs, c), c) == Upserted(cs, c)
  {
    var r := Upserted(cs, c);
    UpsertFinds(cs, c);
    var i := FirstMatch(r, Key(c.id)).value;
    assert r[i := c] == r;
  }

  /** No two channels share an id. */
  predicate UniqueKeys(cs: seq<Channel>)
  {
    forall i, j :: 0 <= i < j < |cs| ==> Key(cs[i].id) != Key(cs[j].id)
  }

  /** A list without duplicate ids keeps that property through the upsert. */
  lemma UpsertKeepsKeysUnique(cs: seq<Channel>, c: Channel)
    requires UniqueKeys(cs)
    ensures UniqueKeys(Upserted(cs, c))
  {
    var r := Upserted(cs, c);
    var f := FirstMatch(cs, Key(c.id));
    forall i, j | 0 <= i < j < |r| ensures Key(r[i].id) != Key(r[j].id) {
      if f.Some? {
        var m := f.value;
        if i == m {
          assert Key(r[j].id) == Key(cs[j].id) != Key(cs[m].id);
        } else if j == m {
          assert Key(r[i].id) == Key(cs[i].id) != Key(cs[m].id);
        } else {
          assert r[i] == cs[i] && r[j] == cs[j];
        }
      } else if j == |cs| {
        assert r[i] == cs[i];
      } else {
        assert r[i] == cs[i] && r[j] == cs[j];
      }
    }
  }

  // ---------------------------------------------------------------- /updateChannels

  /** The outcome of one command: the reply, and the channel list it tries to write to the file, if any. */
  datatype Outcome = Outcome(reply: string, written: Option<seq<Channel>>)

  /** The reply of `handle_update_channels` when it rejects its arguments, or None when it accepts them. */
  function Rejection(args: seq<string>, decode: string -> Payload): Option<string>
  {
    if |args| != 3 then Some(UsageText)
    else
      match decode(Strip(args[2]))
      case Malformed(e) => Some(ParseErrorPrefix + e)
      case NotAList => Some(NotAListText)
      case Array(items) => if AllHaveKeys(items) then None else Some(MissingKeysText)
  }

  /** The arguments pass the checks of `handle_update_channels`. */
  predicate Accepted(args: seq<string>, decode: string -> Payload)
  {
    Rejection(args, decode).None?
  }

  /** The channel record built from accepted arguments. */
  function NewChannel(args: seq<string>, chatId: Id, decode: string -> Payload): (c: Channel)
    requires Accepted(args, decode)
    ensures c.id == chatId && Duty.AllTimed(c.timings) && AllHaveKeys(c.timings)
  {
    Channel(chatId, Strip(args[0]), Strip(args[1]), decode(Strip(args[2])).items)
  }

  /** The write and the reply once the arguments are accepted: `c` upserted into `cs`. */
  function Committed(cs: seq<Channel>, c: Channel, writeFailure: Option<string>): Outcome
    requires AllHaveKeys(c.timings)
  {
    var reply :=
      if writeFailure.Some? then WriteErrorPrefix + writeFailure.value
      else SuccessReply(FirstMatch(cs, Key(c.id)).Some?, c.name, c.subject, c.timings);
    Outcome(reply, Some(Upserted(cs, c)))
  }

  /** What `handle_update_channels` replies and writes. */
  function UpdateOutcome(args: seq<string>, chatId: Id, decode: string -> Payload, stored: Option<Snapshot>,
                         writeFailure: Option<string>): Outcome
  {
    match Rejection(args, decode)
    case Some(reply) => Outcome(reply, None)
    case None => Committed(Loaded(stored), NewChannel(args, chatId, decode), writeFailure)
  }

  /** The key check of `handle_update_channels`: stops at the first record missing a key. */
  method CheckTimings(timings: seq<Record>) returns (ok: bool)
    ensures ok <==> AllHaveKeys(timings)
  {
    for i := 0 to |timings|
      invariant AllHaveKeys(timings[..i])
    {
      if !HasKeys(timings[i]) {
        return false;
      }
      assert timings[..i + 1] == timings[..i] + [timings[i]];
    }
    assert timings[..|timings|] == timings;
    return true;
  }

  /** The timings listing of the reply, built line by line. */
  method FormatTimings(timings: seq<Record>) returns (text: string)
    requires AllHaveKeys(timings)
    ensures text == TimingsHeader + Lines(timings)
  {
    text := TimingsHeader;
    for i := 0 to |timings|
      invariant text == TimingsHeader + Lines(timings[..i])
    {
      assert timings[..i + 1][..i] == timings[..i];
      text := text + Line(timings[i]);
    }
    assert timings[..|timings|] == timings;
  }

  /** The second half of `handle_update_channels`: the upsert loop, the write and the reply. */
  method Commit(cs: seq<Channel>, channel: Channel, writeFailure: Option<string>)
    returns (reply: string, written: Option<seq<Channel>>)
    requires AllHaveKeys(channel.timings)
    ensures Outcome(reply, written) == Committed(cs, channel, writeFailure)
  {
    var channels, found := Upsert(cs, channel);
    written := Some(channels);
    if writeFailure.Some? {
      return WriteErrorPrefix + writeFailure.value, written;
    }
    var status := if found then UpdatedText else AddedText;
    var timingsText := FormatTimings(channel.timings);
    reply := status + "\nChannel Name: " + channel.name + "\nSubject: " + channel.subject + "\n" + timingsText;
    assert reply == SuccessReply(found, channel.name, channel.subject, channel.timings);
  }

  /** The first half of `handle_update_channels`: the argument count, the payload and the key checks. */
  method CheckArguments(args: seq<string>, decode: string -> Payload) returns (rejection: Option<string>)
    ensures rejection == Rejection(args, decode)
  {
    if |args| != 3 {
      return Some(UsageText);
    }
    var payload := decode(Strip(args[2]));
    if payload.Malformed? {
      return Some(ParseErrorPrefix + payload.error);
    }
    if payload.NotAList? {
      return Some(NotAListText);
    }
    var ok := CheckTimings(payload.items);
    if !ok {
      return Some(MissingKeysText);
    }
    return None;
  }

  /** `handle_update_channels`: the argument checks, then `Commit`. */
  method HandleUpdateChannels(args: seq<string>, chatId: Id, decode: string -> Payload, stored: Option<Snapshot>,
                              writeFailure: Option<string>)
    returns (reply: string, written: Option<seq<Channel>>)
    ensures Outcome(reply, written) == UpdateOutcome(args, chatId, decode, stored, writeFailure)
  {
    var rejection := CheckArguments(args, decode);
    if rejection.Some? {
      return rejection.value, None;
    }
    var channel := Channel(chatId, Strip(args[0]), Strip(args[1]), decode(Strip(args[2])).items);
    reply, written := Commit(Loaded(stored), channel, writeFailure);
  }

  /** Rejected arguments attempt no write, and each rejection has its own reply. */
  lemma RejectionsWriteNothing(args: seq<string>, chatId: Id, decode: string -> Payload, stored: Option<Snapshot>,
                               writeFailure: Option<string>)
    ensures UpdateOutcome(args, chatId, decode, stored, writeFailure).written.Some?
        <==> |args| == 3 && decode(Strip(args[2])).Array? && AllHaveKeys(decode(Strip(args[2])).items)
    ensures |args| != 3 ==> UpdateOutcome(args, chatId, decode, stored, writeFailure).reply == UsageText
    ensures |args| == 3 && decode(Strip(args[2])).NotAList? ==>
              UpdateOutcome(args, chatId, decode, stored, writeFailure).reply == NotAListText
    ensures |args| == 3 && decode(Strip(args[2])).Malformed? ==>
              UpdateOutcome(args, chatId, decode, stored, writeFailure).reply
                == ParseErrorPrefix + decode(Strip(args[2])).error
    ensures |args| == 3 && decode(Strip(args[2])).Array? && !AllHaveKeys(decode(Strip(args[2])).items) ==>
              UpdateOutcome(args, chatId, decode, stored, writeFailure).reply == MissingKeysText
  {
  }

  /** Accepted arguments lead to the upsert, the write and the reply of `Committed`. */
  lemma AcceptedOutcome(args: seq<string>, chatId: Id, decode: string -> Payload, stored: Option<Snapshot>,
                        writeFailure: Option<string>)
    requires Accepted(args, decode)
    ensures UpdateOutcome(args, chatId, decode, stored, writeFailure)
         == Committed(Loaded(stored), NewChannel(args, chatId, decode), writeFailure)
  {
  }

  /**
   * After a successful write the reply's first line is "updated" exactly when a channel
   * with the chat id was already stored, and "added" otherwise.
   */
  lemma UpdatedIffStored(args: seq<string>, chatId: Id, decode: string -> Payload, stored: Option<Snapshot>)
    requires Accepted(args, decode)
    ensures StartsWith(UpdateOutcome(args, chatId, decode, stored, None).reply, UpdatedText)
        <==> FirstMatch(Loaded(stored), Key(chatId)).Some?
    ensures StartsWith(UpdateOutcome(args, chatId, decode, stored, None).reply, AddedText)
        <==> FirstMatch(Loaded(stored), Key(chatId)).None?
  {
    AcceptedOutcome(args, chatId, decode, stored, None);
    var c := NewChannel(args, chatId, decode);
    StatusLine(FirstMatch(Loaded(stored), Key(chatId)).Some?, c.name, c.subject, c.timings);
  }

  /**
   * The written list holds the new channel where a lookup by the chat id finds it, and its
   * timings all carry a "time", as the duty lookups require.
   */
  lemma WrittenChannelFound(args: seq<string>, chatId: Id, decode: string -> Payload, stored: Option<Snapshot>,
                            writeFailure: Option<string>)
    requires Accepted(args, decode)
    ensures UpdateOutcome(args, chatId, decode, stored, writeFailure).written.Some?
    ensures var w := UpdateOutcome(args, chatId, decode, stored, writeFailure).written.value;
            FirstMatch(w, Key(chatId)).Some? && w[FirstMatch(w, Key(chatId)).value] == NewChannel(args, chatId, decode)
    ensures Duty.AllTimed(NewChannel(args, chatId, decode).timings)
  {
    AcceptedOutcome(args, chatId, decode, stored, writeFailure);
    UpsertFinds(Loaded(stored), NewChannel(args, chatId, decode));
  }

  /** A document without a "channels" key, or one that cannot be read, acts as an empty channel list. */
  lemma MissingChannelsKey(args: seq<string>, chatId: Id, decode: string -> Payload, writeFailure: Option<string>)
    ensures UpdateOutcome(args, chatId, decode, Some(Snapshot(None)), writeFailure)
         == UpdateOutcome(args, chatId, decode, Some(Snapshot(Some([]))), writeFailure)
    ensures UpdateOutcome(args, chatId, decode, None, writeFailure)
         == UpdateOutcome(args, chatId, decode, Some(Snapshot(Some([]))), writeFailure)
  {
    assert Loaded(Some(Snapshot(None))) == Loaded(None) == Loaded(Some(Snapshot(Some([])))) == [];
  }

  /** Sending the same update again, against what was written, writes the same list and reports an update. */
  lemma RepeatedUpdate(args: seq<string>, chatId: Id, decode: string -> Payload, stored: Option<Snapshot>,
                       writeFailure: Option<string>)
    requires Accepted(args, decode)
    ensures var w := UpdateOutcome(args, chatId, decode, stored, writeFailure).written.value;
            UpdateOutcome(args, chatId, decode, Some(Snapshot(Some(w))), None).written == Some(w)
            && StartsWith(UpdateOutcome(args, chatId, decode, Some(Snapshot(Some(w))), None).reply, UpdatedText)
  {
    var c := NewChannel(args, chatId, decode);
    var w := Upserted(Loaded(stored), c);
    AcceptedOutcome(args, chatId, decode, stored, writeFailure);
    AcceptedOutcome(args, chatId, decode, Some(Snapshot(Some(w))), None);
    UpsertIdempotent(Loaded(stored), c);
    UpsertFinds(Loaded(stored), c);
    UpdatedIffStored(args, chatId, decode, Some(Snapshot(Some(w))));
  }

  // ---------------------------------------------------------------- routing

  /** `handle_unknown_command`: the same reply whatever the message. */
  function HandleUnknownCommand(message: string): (r: string)
    ensures r == UnknownText
  {
    UnknownText
  }

  /** What `handle_commands` replies and writes. */
  function CommandOutcome(message: string, chatId: Id, decode: string -> Payload, stored: Option<Snapshot>,
                          writeFailure: Option<string>): Outcome
  {
    if StartsWith(message, UpdateCommand) then UpdateOutcome(SplitArgs(message), chatId, decode, stored, writeFailure)
    else Outcome(HandleUnknownCommand(message), None)
  }

  /** `handle_commands`. */
  method HandleCommands(message: string, chatId: Id, decode: string -> Payload, stored: Option<Snapshot>,
                        writeFailure: Option<string>)
    returns (reply: string, written: Option<seq<Channel>>)
    ensures Outcome(reply, written) == CommandOutcome(message, chatId, decode, stored, writeFailure)
  {
    if StartsWith(message, UpdateCommand) {
      var args := SplitArgs(message);
      reply, written := HandleUpdateChannels(args, chatId, decode, stored, writeFailure);
    } else {
      reply := HandleUnknownCommand(message);
      written := None;
    }
  }

  /** Only an `/updateChannels` message with three arguments leads to a write; any other message gets the unknown-command reply. */
  lemma OnlyUpdatesWrite(message: string, chatId: Id, decode: string -> Payload, stored: Option<Snapshot>,
                         writeFailure: Option<string>)
    ensures CommandOutcome(message, chatId, decode, stored, writeFailure).written.Some? ==>
              StartsWith(message, UpdateCommand) && |SplitArgs(message)| == 3
    ensures !StartsWith(message, UpdateCommand) ==>
              CommandOutcome(message, chatId, decode, stored, writeFailure) == Outcome(UnknownText, None)
  {
    RejectionsWriteNothing(SplitArgs(message), chatId, decode, stored, writeFailure);
  }

  /** A message written as the usage text shows is handled as an update with exactly its three arguments. */
  lemma DocumentedCommand(n: string, s: string, t: string, chatId: Id, decode: string -> Payload,
                          stored: Option<Snapshot>, writeFailure: Option<string>)
    requires n != [] && s != [] && t != [] && Unpadded(n) && Unpadded(s) && Unpadded(t)
    requires forall i :: 0 <= i < |n| ==> n[i] != '$'
    requires forall i :: 0 <= i < |s| ==> s[i] != '$'
    requires forall i :: 0 <= i < |t| ==> t[i] != '$'
    ensures CommandOutcome(UpdateCommand + " " + Delimiter + n + Delimiter + " " + Delimiter + s + Delimiter + " "
                           + Delimiter + t + Delimiter, chatId, decode, stored, writeFailure)
         == UpdateOutcome([n, s, t], chatId, decode, stored, writeFailure)
  {
    DocumentedMessage(n, s, t);
    DocumentedStartsWith(n, s, t);
    RoutedUpdate(UpdateCommand + " " + Delimiter + n + Delimiter + " " + Delimiter + s + Delimiter + " "
                 + Delimiter + t + Delimiter, [n, s, t], chatId, decode, stored, writeFailure);
  }

  /** The documented message begins with the command token. */
  lemma DocumentedStartsWith(n: string, s: string, t: string)
    ensures StartsWith(UpdateCommand + " " + Delimiter + n + Delimiter + " " + Delimiter + s + Delimiter + " "
                       + Delimiter + t + Delimiter, UpdateCommand)
  {
    var message := UpdateCommand + " " + Delimiter + n + Delimiter + " " + Delimiter + s + Delimiter + " "
                   + Delimiter + t + Delimiter;
    forall i | 0 <= i < |UpdateCommand| ensures message[i] == UpdateCommand[i] {
    }
    assert message[..|UpdateCommand|] == UpdateCommand;
  }

  /** A message that begins with the command token is handled as an update with the arguments it splits into. */
  lemma RoutedUpdate(message: string, args: seq<string>, chatId: Id, decode: string -> Payload,
                     stored: Option<Snapshot>, writeFailure: Option<string>)
    requires StartsWith(message, UpdateCommand) && SplitArgs(message) == args
    ensures CommandOutcome(message, chatId, decode, stored, writeFailure) == UpdateOutcome(args, chatId, decode, stored, writeFailure)
  {
  }
}
