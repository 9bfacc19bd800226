/**
 * The chat-command side of the monitor: how an incoming message's text is
 * normalised and matched, which updates are answered, what each answer holds
 * (window counts for /check, uptime for /status), and where the next request
 * for updates resumes.
 */
module Commands {
  import opened Wrappers
  import opened Ledger

  // ---------------------------------------------------------------------------
  // Text normalisation

  /** The characters the runtime's string trim removes: white space and line terminators. */
  predicate IsWhitespace(c: char)
  {
    || c == '\t' || c == '\n' || c == '\U{000B}' || c == '\U{000C}' || c == '\r' || c == ' '
    || c == '\U{00A0}' || c == '\U{1680}' || ('\U{2000}' <= c <= '\U{200A}')
    || c == '\U{2028}' || c == '\U{2029}' || c == '\U{202F}' || c == '\U{205F}'
    || c == '\U{3000}' || c == '\U{FEFF}'
  }

  predicate AllWhitespace(s: string)
  {
    forall i :: 0 <= i < |s| ==> IsWhitespace(s[i])
  }

  /** Drops leading white space. */
  function TrimStart(s: string): string
    decreases |s|
  {
    if s != [] && IsWhitespace(s[0]) then TrimStart(s[1..]) else s
  }

  /** Drops trailing white space. */
  function TrimEnd(s: string): string
    decreases |s|
  {
    if s != [] && IsWhitespace(s[|s| - 1]) then TrimEnd(s[..|s| - 1]) else s
  }

  /** What TrimStart leaves is the suffix that starts at the first character that is not white space. */
  lemma {:induction false} TrimStartIsSuffix(s: string)
    ensures var r := TrimStart(s);
      && |r| <= |s| && r == s[|s| - |r|..]
      && AllWhitespace(s[..|s| - |r|])
      && (r != [] ==> !IsWhitespace(r[0]))
    decreases |s|
  {
    if s != [] && IsWhitespace(s[0]) {
      TrimStartIsSuffix(s[1..]);
      var r := TrimStart(s);
      forall i | 0 <= i < |s| - |r| ensures IsWhitespace(s[i]) {
        if i > 0 {
          assert s[i] == s[1..][..|s| - 1 - |r|][i - 1];
        }
      }
    }
  }

  /** What TrimEnd leaves is the prefix that ends at the last character that is not white space. */
  lemma {:induction false} TrimEndIsPrefix(s: string)
    ensures var r := TrimEnd(s);
      && |r| <= |s| && r == s[..|r|]
      && AllWhitespace(s[|r|..])
      && (r != [] ==> !IsWhitespace(r[|r| - 1]))
    decreases |s|
  {
    if s != [] && IsWhitespace(s[|s| - 1]) {
      var init := s[..|s| - 1];
      TrimEndIsPrefix(init);
      var r := TrimEnd(s);
      assert r == TrimEnd(init);
      forall i | |r| <= i < |s| ensures IsWhitespace(s[i]) {
        if i < |s| - 1 {
          assert s[i] == init[|r|..][i - |r|];
        }
      }
    }
  }

  function Trim(s: string): string
  {
    TrimEnd(TrimStart(s))
  }

  /**
   * Lower-casing of one character as far as it can produce an ASCII letter: A-Z,
   * and the Kelvin sign, whose lower case is the Latin small k.
   */
  function LowerChar(c: char): char
  {
    if 'A' <= c <= 'Z' then (c as int + 32) as char
    else if c == '\U{212A}' then 'k'
    else c
  }

  function ToLower(s: string): string
  {
    seq(|s|, i requires 0 <= i < |s| => LowerChar(s[i]))
  }

  // ---------------------------------------------------------------------------
  // Commands

  datatype Command = Check | Status | Help

  function CommandText(c: Command): string
  {
    match c
    case Check => "/check"
    case Status => "/status"
    case Help => "/help"
  }

  /** The command whose text is exactly `t`, if any. */
  function CommandNamed(t: string): (r: Option<Command>)
    ensures r.Some? ==> t == CommandText(r.value)
    ensures r.None? ==> forall c :: t != CommandText(c)
  {
    if t == "/check" then Some(Check)
    else if t == "/status" then Some(Status)
    else if t == "/help" then Some(Help)
    else None
  }

  /** The command a message's text names: its trimmed, lower-cased text equals the command exactly. */
  function ParseCommand(text: string): Option<Command>
  {
    CommandNamed(ToLower(Trim(text)))
  }

  /** Lower-casing never turns white space into anything else, nor anything else into white space. */
  lemma LowerCharKeepsWhitespace(c: char)
    ensures IsWhitespace(LowerChar(c)) <==> IsWhitespace(c)
  {
  }

  lemma {:induction false} TrimStartPadded(w: string, s: string)
    requires AllWhitespace(w)
    ensures TrimStart(w + s) == TrimStart(s)
    decreases |w|
  {
    if w != [] {
      var ws := w + s;
      assert ws[0] == w[0];
      assert ws[1..] == w[1..] + s;
      TrimStartPadded(w[1..], s);
    } else {
      assert w + s == s;
    }
  }

  lemma {:induction false} TrimEndPadded(s: string, w: string)
    requires AllWhitespace(w)
    ensures TrimEnd(s + w) == TrimEnd(s)
    decreases |w|
  {
    if w != [] {
      var sw := s + w;
      assert sw[|sw| - 1] == w[|w| - 1];
      assert sw[..|sw| - 1] == s + w[..|w| - 1];
      TrimEndPadded(s, w[..|w| - 1]);
    } else {
      assert s + w == s;
    }
  }

  /**
   * Surrounding white space and letter case do not matter: any spelling that
   * lower-cases to a command, padded with white space, is that command.
   */
  lemma ParseCommandTolerant(c: Command, s: string, before: string, after: string)
    requires AllWhitespace(before) && AllWhitespace(after)
    requires ToLower(s) == CommandText(c)
    ensures ParseCommand(before + s + after) == Some(c)
  {
    var name := CommandText(c);
    assert |s| == |name| && name[0] == '/' && name[|name| - 1] != ' ';
    assert ToLower(s)[0] == LowerChar(s[0]);
    assert ToLower(s)[|s| - 1] == LowerChar(s[|s| - 1]);
    LowerCharKeepsWhitespace(s[0]);
    LowerCharKeepsWhitespace(s[|s| - 1]);
    assert before + s + after == before + (s + after);
    TrimStartPadded(before, s + after);
    assert (s + after)[0] == s[0];
    assert TrimStart(s + after) == s + after;
    TrimEndPadded(s, after);
    assert TrimEnd(s) == s;
  }

  /** Trimming the end never removes a character that is not white space, nor anything before it. */
  lemma TrimEndKeeps(s: string, k: nat)
    requires k < |s| && !IsWhitespace(s[k])
    ensures k < |TrimEnd(s)| && TrimEnd(s)[..k + 1] == s[..k + 1]
  {
    TrimEndIsPrefix(s);
  }

  /** Matching is exact: a command followed by a space and an argument is not recognised. */
  lemma ParseCommandRejectsArgument(c: Command, arg: string, k: nat)
    requires k < |arg| && !IsWhitespace(arg[k])
    ensures ParseCommand(CommandText(c) + " " + arg) == None
  {
    var name := CommandText(c);
    var text := name + " " + arg;
    var n := |name|;
    assert text[0] == '/';
    assert TrimStart(text) == text;
    assert text[n + 1 + k] == arg[k];
    TrimEndKeeps(text, n + 1 + k);
    TrimEndIsPrefix(text);
    var normalized := ToLower(TrimEnd(text));
    assert TrimEnd(text)[n] == text[n] == ' ';
    assert normalized[n] == ' ';
    forall d ensures normalized != CommandText(d) {
      if |normalized| == |CommandText(d)| {
        assert CommandText(d)[n] != ' ';
      }
    }
  }

  /**
   * Only those spellings are recognised: a text that names a command is white space,
   * then something that lower-cases to the command exactly, then white space.
   */
  lemma ParseCommandExact(text: string, c: Command) returns (i: nat, j: nat)
    requires ParseCommand(text) == Some(c)
    ensures i <= j <= |text|
    ensures AllWhitespace(text[..i]) && AllWhitespace(text[j..])
    ensures ToLower(text[i..j]) == CommandText(c)
  {
    var started := TrimStart(text);
    TrimStartIsSuffix(text);
    TrimEndIsPrefix(started);
    i := |text| - |started|;
    j := i + |TrimEnd(started)|;
    assert text[i..j] == TrimEnd(started);
    assert text[j..] == started[|TrimEnd(started)|..];
  }

  // ---------------------------------------------------------------------------
  // Updates and the answers they get

  /** A chat message; `text` is None for messages without text (photos, stickers, ...). */
  datatype Message = Message(chatId: int, text: Option<string>)

  /** One update from the messaging service; `message` is None for updates of other kinds. */
  datatype Update = Update(updateId: int, message: Option<Message>)

  /** What a poll of the messaging service returned. */
  datatype UpdatesReply = UpdatesOk(updates: seq<Update>) | UpdatesNotOk(description: string) | UpdatesFailed(error: string)

  /** An answer, which the monitor sends to every recipient. */
  datatype Notice =
    | CheckReport(lastHour: nat, lastDay: nat, lastWeek: nat)
    | StatusReport(totalTxs: nat, hours: nat, minutes: nat)
    | HelpText

  /**
   * The command an update is answered with: it carries a message with non-empty
   * text, the message comes from one of the recipients, and the text names a command.
   */
  function Handled(recipients: seq<int>, u: Update): (r: Option<Command>)
    ensures r.Some? <==>
      && u.message.Some? && u.message.value.text.Some? && u.message.value.text.value != ""
      && u.message.value.chatId in recipients
      && ParseCommand(u.message.value.text.value).Some?
    ensures r.Some? ==> r == ParseCommand(u.message.value.text.value)
  {
    if u.message.None? || u.message.value.text.None? || u.message.value.text.value == "" then None
    else if u.message.value.chatId !in recipients then None
    else ParseCommand(u.message.value.text.value)
  }

  /** The /check counts: entries strictly newer than one hour, one day and seven days before `now`. */
  function CheckCounts(history: seq<Tx>, now: int): Notice
  {
    CheckReport(|After(history, now - HourMs)|, |After(history, now - DayMs)|, |After(history, now - WeekMs)|)
  }

  /** Whole hours and the remaining whole minutes of the process uptime, given in (fractional) seconds. */
  function SplitUptime(uptimeSeconds: real): (hm: (nat, nat))
    requires uptimeSeconds >= 0.0
    ensures hm.1 < 60
    ensures (hm.0 * 3600 + hm.1 * 60) as real <= uptimeSeconds < (hm.0 * 3600 + hm.1 * 60 + 60) as real
  {
    var uptime := uptimeSeconds.Floor;
    var hours := uptime / 3600;
    var minutes := (uptime % 3600) / 60;
    assert uptime == hours * 3600 + minutes * 60 + (uptime % 3600) % 60;
    (hours, minutes)
  }

  function Answer(c: Command, history: seq<Tx>, now: int, uptimeSeconds: real): Notice
    requires uptimeSeconds >= 0.0
  {
    match c
    case Check => CheckCounts(history, now)
    case Status =>
      var hm := SplitUptime(uptimeSeconds);
      StatusReport(|history|, hm.0, hm.1)
    case Help => HelpText
  }

  /** The answers a batch of updates gets, in update order, one per handled update. */
  function Answers(recipients: seq<int>, history: seq<Tx>, updates: seq<Update>, now: int, uptimeSeconds: real): (r: seq<Notice>)
    requires uptimeSeconds >= 0.0
    ensures |r| <= |updates|
    decreases |updates|
  {
    if updates == [] then []
    else
      var earlier := Answers(recipients, history, updates[..|updates| - 1], now, uptimeSeconds);
      match Handled(recipients, updates[|updates| - 1])
      case None => earlier
      case Some(c) => earlier + [Answer(c, history, now, uptimeSeconds)]
  }

  /** The last update id seen after a batch: the id of its last update, or the previous one for an empty batch. */
  function LastUpdateId(previous: Option<int>, updates: seq<Update>): Option<int>
  {
    if updates == [] then previous else Some(updates[|updates| - 1].updateId)
  }

  /** The offset of the next request for updates: only a present, non-zero last id gives one. */
  function Offset(lastUpdateId: Option<int>): Option<int>
  {
    match lastUpdateId
    case None => None
    case Some(id) => if id == 0 then None else Some(id + 1)
  }

  // ---------------------------------------------------------------------------
  // Properties of the answers

  /** The /check counts grow with the window and never exceed the history. */
  lemma CheckCountsOrdered(history: seq<Tx>, now: int)
    ensures var r := CheckCounts(history, now);
      r.lastHour <= r.lastDay <= r.lastWeek <= |history|
  {
    AfterWidens(history, now - HourMs, now - DayMs);
    AfterWidens(history, now - DayMs, now - WeekMs);
  }

  /**
   * Entries half an hour, two hours and `age` old count as 1, 2 and 3 in the three
   * windows when `age` is six days, but as 1, 2 and 2 when it is ten days.
   */
  lemma CheckCountsExample(now: int, a: Tx, b: Tx, c: Tx)
    requires a.time == now - HourMs / 2 && b.time == now - 2 * HourMs
    requires c.time == now - 6 * DayMs || c.time == now - 10 * DayMs
    ensures CheckCounts([a, b, c], now) == if c.time == now - 6 * DayMs then CheckReport(1, 2, 3) else CheckReport(1, 2, 2)
  {
    var h := [a, b, c];
    assert h[..2] == [a, b] && [a, b][..1] == [a] && [a][..0] == [];
    assert HourMs == 3600000 && DayMs == 86400000 && WeekMs == 604800000;
    WindowOfThree(a, b, c, now - HourMs);
    WindowOfThree(a, b, c, now - DayMs);
    WindowOfThree(a, b, c, now - WeekMs);
  }

  lemma WindowOfThree(a: Tx, b: Tx, c: Tx, since: int)
    ensures After([a, b, c], since)
         == (if a.time > since then [a] else []) + (if b.time > since then [b] else []) + (if c.time > since then [c] else [])
  {
    var h := [a, b, c];
    assert h[..2] == [a, b] && [a, b][..1] == [a] && [a][..0] == [];
    assert After([a], since) == (if a.time > since then [a] else []);
    assert After([a, b], since) == After([a], since) + (if b.time > since then [b] else []);
  }

  /** Splitting a batch in two gives the same answers as handling it at once. */
  lemma {:induction false} AnswersAppend(recipients: seq<int>, history: seq<Tx>, first: seq<Update>, second: seq<Update>, now: int, uptimeSeconds: real)
    requires uptimeSeconds >= 0.0
    ensures Answers(recipients, history, first + second, now, uptimeSeconds)
         == Answers(recipients, history, first, now, uptimeSeconds) + Answers(recipients, history, second, now, uptimeSeconds)
    decreases |second|
  {
    if second == [] {
      assert first + second == first;
    } else {
      var init := second[..|second| - 1];
      assert (first + second)[..|first + second| - 1] == first + init;
      assert (first + second)[|first + second| - 1] == second[|second| - 1];
      AnswersAppend(recipients, history, first, init, now, uptimeSeconds);
    }
  }

  /** Updates from chats outside the recipient list get no answer. */
  lemma {:induction false} AnswersIgnoreStrangers(recipients: seq<int>, history: seq<Tx>, updates: seq<Update>, now: int, uptimeSeconds: real)
    requires uptimeSeconds >= 0.0
    requires forall i :: 0 <= i < |updates| && updates[i].message.Some? ==> updates[i].message.value.chatId !in recipients
    ensures Answers(recipients, history, updates, now, uptimeSeconds) == []
    decreases |updates|
  {
    if updates != [] {
      AnswersIgnoreStrangers(recipients, history, updates[..|updates| - 1], now, uptimeSeconds);
    }
  }

  /**
   * With ascending update ids and a last id other than 0, the next request starts
   * after every update of the batch, so none of them is fetched again.
   */
  lemma OffsetPassesBatch(previous: Option<int>, updates: seq<Update>)
    requires updates != [] && updates[|updates| - 1].updateId != 0
    requires forall i, j :: 0 <= i < j < |updates| ==> updates[i].updateId < updates[j].updateId
    ensures var next := Offset(LastUpdateId(previous, updates));
      next.Some? && forall i :: 0 <= i < |updates| ==> updates[i].updateId < next.value
  {
  }

  /** A last id of 0 gives no offset, so the request is the same as before any update was seen. */
  lemma OffsetIgnoresZero()
    ensures Offset(Some(0)) == Offset(None) == None
  {
  }
}
