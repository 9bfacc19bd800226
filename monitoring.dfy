/**
 * The monitor's state and its two periodic jobs: fetching the watched
 * address's transactions from the ledger API, and answering chat commands.
 * Outgoing messages are returned as events; every one of them goes to all
 * recipients.
 */
module Monitoring {
  import opened Wrappers
  import opened Ledger
  import opened Commands

  /** Transport error codes on which a failed ledger request warns the recipients. */
  const WarnedCodes: set<string> := {"ECONNABORTED", "ENOTFOUND"}

  /** The `result` field of a ledger API reply. */
  datatype Payload = TxList(txs: seq<RawTx>) | NotAList

  /** A ledger API reply, or the error the request failed with. */
  datatype LedgerReply = LedgerReply(status: string, result: Payload) | TransportError(code: string, message: string)

  /** A reply the monitor absorbs: status "1" and a list result. */
  predicate Usable(reply: LedgerReply)
  {
    reply.LedgerReply? && reply.status == "1" && reply.result.TxList?
  }

  /** A message the fetch job sends. */
  datatype Event = Alert(txs: seq<Tx>) | HourlyReport(txs: seq<Tx>, at: int) | NetworkWarning(message: string)

  /**
   * Whether a fetch sends the hourly report: when forced, or when it is not silent
   * and at least an hour has passed since the last one.
   */
  predicate HourlyReportDue(now: int, lastHourlyReport: int, silent: bool, forceHourlyReport: bool)
  {
    forceHourlyReport || (!silent && now - lastHourlyReport >= HourMs)
  }

  /**
   * The monitor measures the elapsed time in hours, by dividing the milliseconds
   * by an hour's worth of them; for whole milliseconds, "at least one hour" by
   * division is the same as at least an hour's worth of milliseconds.
   */
  lemma HourlyReportDueByDivision(now: int, lastHourlyReport: int, silent: bool, forceHourlyReport: bool)
    ensures var hoursSinceLastReport := (now - lastHourlyReport) as real / (1000 * 60 * 60) as real;
      (HourlyReportDue(now, lastHourlyReport, silent, forceHourlyReport)
       <==> (hoursSinceLastReport >= 1.0 && !silent) || forceHourlyReport)
  {
  }

  /**
   * What a fetch with a usable reply sends, in order: the alert, when there are new
   * records and the monitor was already initialised, then the hourly report when due.
   */
  function FetchEvents(newTxs: seq<Tx>, wasInitialized: bool, reportDue: bool, now: int): (events: seq<Event>)
    ensures Alert(newTxs) in events <==> newTxs != [] && wasInitialized
    ensures HourlyReport(newTxs, now) in events <==> reportDue
    ensures forall e :: e in events ==> e == Alert(newTxs) || e == HourlyReport(newTxs, now)
    ensures forall i, j :: 0 <= i < j < |events| ==> events[i].Alert? && events[j].HourlyReport?
  {
    (if newTxs != [] && wasInitialized then [Alert(newTxs)] else [])
      + (if reportDue then [HourlyReport(newTxs, now)] else [])
  }

  /** The state the monitor keeps between jobs. */
  class Bot {
    /** The chats that receive every message and may issue commands. */
    const recipients: seq<int>
    /** Every 2025 transaction seen so far, newest first. */
    var historyTxs: seq<Tx>
    /** Set by the first usable ledger reply; alerts are sent only afterwards. */
    var isInitialized: bool
    /** When the hourly report was last sent (ms). */
    var lastHourlyReport: int
    /** The id of the last update handled from the messaging service; None before the first. */
    var lastUpdateId: Option<int>

    /** The history holds each hash once, only 2025 records, newest first. */
    ghost predicate Valid()
      reads this
    {
      UniqueHashes(historyTxs) && AllIn2025(historyTxs) && NewestFirst(historyTxs)
    }

    /** The state at process start; `startTime` is the clock reading then. */
    constructor (recipients: seq<int>, startTime: int)
      ensures Valid()
      ensures this.recipients == recipients
      ensures historyTxs == [] && !isInitialized && lastHourlyReport == startTime && lastUpdateId == None
    {
      this.recipients := recipients;
      historyTxs := [];
      isInitialized := false;
      lastHourlyReport := startTime;
      lastUpdateId := None;
    }

    /**
     * One run of the fetch job on the ledger's `reply`, the clock reading `now`
     * taken after the reply arrived, and the caller's two flags.
     */
    method FetchTransactions(reply: LedgerReply, now: int, silent: bool, forceHourlyReport: bool) returns (events: seq<Event>)
      requires Valid()
      modifies this
      ensures Valid()
      ensures lastUpdateId == old(lastUpdateId)
      ensures old(isInitialized) ==> isInitialized
      // a reply that is not usable changes nothing; only some transport errors are reported
      ensures !Usable(reply) ==>
        && historyTxs == old(historyTxs)
        && isInitialized == old(isInitialized)
        && lastHourlyReport == old(lastHourlyReport)
      ensures reply.LedgerReply? && !Usable(reply) ==> events == []
      ensures reply.TransportError? ==>
        events == if reply.code in WarnedCodes then [NetworkWarning(reply.message)] else []
      // a usable reply is absorbed, the history re-sorted, and the events decided
      ensures Usable(reply) ==> historyTxs == SortNewestFirst(Absorb(old(historyTxs), reply.result.txs, now - HourMs).history)
      ensures Usable(reply) ==> isInitialized
      ensures Usable(reply) ==>
        lastHourlyReport == if HourlyReportDue(now, old(lastHourlyReport), silent, forceHourlyReport) then now else old(lastHourlyReport)
      ensures Usable(reply) ==>
        events == FetchEvents(Absorb(old(historyTxs), reply.result.txs, now - HourMs).recent, old(isInitialized),
                              HourlyReportDue(now, old(lastHourlyReport), silent, forceHourlyReport), now)
      // what that means for the history
      ensures Usable(reply) ==> multiset(old(historyTxs)) <= multiset(historyTxs)
      ensures Usable(reply) ==>
        |historyTxs| == |old(historyTxs)| + |QualifyingHashes(reply.result.txs) - Hashes(old(historyTxs))|
      ensures Usable(reply) ==> Hashes(historyTxs) == Hashes(old(historyTxs)) + QualifyingHashes(reply.result.txs)
    {
      if reply.TransportError? {
        events := if reply.code in WarnedCodes then [NetworkWarning(reply.message)] else [];
        return;
      }
      if reply.status != "1" {
        events := [];
        return;
      }
      if !reply.result.TxList? {
        events := [];
        return;
      }
      AbsorbThenSortGrowth(historyTxs, reply.result.txs, now - HourMs);
      events := AbsorbReply(reply.result.txs, now, silent, forceHourlyReport);
    }

    /**
     * The fetch job past the reply checks: absorb the records, re-sort the history,
     * alert on new records once initialised, send the hourly report when due, and
     * mark the monitor initialised.
     */
    method AbsorbReply(raws: seq<RawTx>, now: int, silent: bool, forceHourlyReport: bool) returns (events: seq<Event>)
      requires Valid()
      modifies this
      ensures Valid()
      ensures lastUpdateId == old(lastUpdateId)
      ensures historyTxs == SortNewestFirst(Absorb(old(historyTxs), raws, now - HourMs).history)
      ensures isInitialized
      ensures lastHourlyReport
           == if HourlyReportDue(now, old(lastHourlyReport), silent, forceHourlyReport) then now else old(lastHourlyReport)
      ensures events == FetchEvents(Absorb(old(historyTxs), raws, now - HourMs).recent, old(isInitialized),
                                    HourlyReportDue(now, old(lastHourlyReport), silent, forceHourlyReport), now)
    {
      var oneHourAgo := now - HourMs;
      ghost var absorbed := Absorb(historyTxs, raws, oneHourAgo);
      AbsorbThenSortKeepsValid(historyTxs, raws, oneHourAgo);
      var newTxs := AbsorbResponse(raws, oneHourAgo);
      assert historyTxs == absorbed.history && newTxs == absorbed.recent;
      historyTxs := SortNewestFirst(historyTxs);

      var reportDue := HourlyReportDue(now, lastHourlyReport, silent, forceHourlyReport);
      events := FetchEvents(newTxs, isInitialized, reportDue, now);
      if reportDue {
        lastHourlyReport := now;
      }
      if !isInitialized {
        isInitialized := true;
      }
    }

    /**
     * The loop of the fetch job over a usable reply's records: records outside 2025
     * and hashes already held are skipped, the others appended to the history, and
     * those newer than `oneHourAgo` are also returned as new, in reply order.
     */
    method AbsorbResponse(raws: seq<RawTx>, oneHourAgo: int) returns (newTxs: seq<Tx>)
      modifies this`historyTxs
      ensures Intake(historyTxs, newTxs) == Absorb(old(historyTxs), raws, oneHourAgo)
    {
      newTxs := [];
      ghost var before := historyTxs;
      for i := 0 to |raws|
        invariant Absorb(before, raws[..i], oneHourAgo) == Intake(historyTxs, newTxs)
      {
        var raw := raws[i];
        assert raws[..i + 1] == raws[..i] + [raw];
        var txTime := TxTime(raw);
        if !(txTime.Some? && IsYear2025(txTime.value)) {
          continue;
        }
        var alreadySeen := raw.hash in Hashes(historyTxs);
        if !alreadySeen {
          var tx := ToTx(raw);
          historyTxs := historyTxs + [tx];
          if tx.time > oneHourAgo {
            newTxs := newTxs + [tx];
          }
        }
      }
      assert raws[..|raws|] == raws;
    }

    /**
     * One run of the command job: the offset it asks from, then, on an ok reply,
     * each update in turn moves `lastUpdateId` on, and the handled ones are answered.
     * `now` and `uptimeSeconds` are the clock and process uptime while answering.
     */
    method ListenToCommands(reply: UpdatesReply, now: int, uptimeSeconds: real) returns (offset: Option<int>, sent: seq<Notice>)
      requires uptimeSeconds >= 0.0
      modifies this`lastUpdateId
      ensures offset == Offset(old(lastUpdateId))
      ensures reply.UpdatesOk? ==>
        && lastUpdateId == LastUpdateId(old(lastUpdateId), reply.updates)
        && sent == Answers(recipients, historyTxs, reply.updates, now, uptimeSeconds)
      ensures !reply.UpdatesOk? ==> lastUpdateId == old(lastUpdateId) && sent == []
    {
      offset := if lastUpdateId.Some? && lastUpdateId.value != 0 then Some(lastUpdateId.value + 1) else None;
      sent := [];
      if !reply.UpdatesOk? {
        return;
      }
      var updates := reply.updates;
      ghost var first := lastUpdateId;
      for i := 0 to |updates|
        invariant lastUpdateId == LastUpdateId(first, updates[..i])
        invariant sent == Answers(recipients, historyTxs, updates[..i], now, uptimeSeconds)
      {
        var update := updates[i];
        assert updates[..i + 1] == updates[..i] + [update];
        lastUpdateId := Some(update.updateId);
        if update.message.None? || update.message.value.text.None? || update.message.value.text.value == "" {
          continue;
        }
        var text := ToLower(Trim(update.message.value.text.value));
        var chatId := update.message.value.chatId;
        if chatId !in recipients {
          continue;
        }
        if text == "/check" {
          sent := sent + [CheckCounts(historyTxs, now)];
        } else if text == "/status" {
          var uptime := SplitUptime(uptimeSeconds);
          sent := sent + [StatusReport(|historyTxs|, uptime.0, uptime.1)];
        } else if text == "/help" {
          sent := sent + [HelpText];
        }
      }
      assert updates[..|updates|] == updates;
    }
  }

  /**
   * No flood at start-up: the silent first fetch after the process starts sends
   * neither an alert nor the hourly report. A usable reply is stored whole, each
   * distinct 2025 hash once; any other leaves the monitor empty and uninitialised.
   */
  method StartUp(recipients: seq<int>, startTime: int, reply: LedgerReply, now: int) returns (bot: Bot, events: seq<Event>)
    ensures bot.Valid()
    ensures forall e :: e in events ==> e.NetworkWarning?
    ensures Usable(reply) ==> bot.isInitialized && |bot.historyTxs| == |QualifyingHashes(reply.result.txs)|
    ensures !Usable(reply) ==> !bot.isInitialized && bot.historyTxs == []
  {
    bot := new Bot(recipients, startTime);
    assert Hashes(bot.historyTxs) == {};
    events := bot.FetchTransactions(reply, now, true, false);
  }

  /**
   * Fetching the same reply a second time leaves the history as the first fetch
   * made it and sends no alert; at most the hourly report, with no records.
   */
  method FetchTwice(bot: Bot, reply: LedgerReply, now: int, later: int, silent: bool, forceHourlyReport: bool)
    returns (first: seq<Event>, second: seq<Event>)
    requires bot.Valid() && Usable(reply)
    modifies bot
    ensures bot.Valid()
    ensures bot.historyTxs == SortNewestFirst(Absorb(old(bot.historyTxs), reply.result.txs, now - HourMs).history)
    ensures second == [] || second == [HourlyReport([], later)]
  {
    first := bot.FetchTransactions(reply, now, silent, forceHourlyReport);
    ghost var once := bot.historyTxs;
    AbsorbSeenIsNoop(once, reply.result.txs, later - HourMs);
    SortNewestFirstKeepsSorted(once);
    second := bot.FetchTransactions(reply, later, silent, forceHourlyReport);
  }
}
