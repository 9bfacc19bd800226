/**
 * Transaction records as the monitor keeps them: the 2025 filter, absorbing one
 * ledger response into the history (dedup by hash, append, collect the recent
 * ones), the newest-first ordering of the history, and the time-window filter
 * that the /check command counts with.
 */
module Ledger {
  import opened Wrappers

  const SecondMs: int := 1000
  const HourMs: int := 60 * 60 * 1000
  const DayMs: int := 24 * HourMs
  const WeekMs: int := 7 * DayMs

  /** 2025-01-01T00:00:00Z and 2026-01-01T00:00:00Z, in milliseconds since the epoch. */
  const Year2025StartMs: int := 1735689600000
  const Year2026StartMs: int := 1767225600000

  /** One entry of the ledger API's `result` list. `timeStamp` is None when it does not parse as a number. */
  datatype RawTx = RawTx(hash: string, timeStamp: Option<int>, blockNumber: int, value: string, from: string, to: string)

  /** A stored transaction; `time` is in milliseconds since the epoch. */
  datatype Tx = Tx(hash: string, time: int, block: int, value: string, from: string, to: string)

  /** The monitor's year filter, read in UTC. */
  predicate IsYear2025(timeMs: int)
  {
    Year2025StartMs <= timeMs < Year2026StartMs
  }

  /** Days in year `y` of the Gregorian calendar. */
  function DaysInYear(y: int): int
  {
    if (y % 4 == 0 && y % 100 != 0) || y % 400 == 0 then 366 else 365
  }

  /** The day on which year `y` starts (UTC), counted from the epoch year by year. */
  function YearStartDay(y: int): int
    requires y >= 1970
    decreases y
  {
    if y == 1970 then 0 else YearStartDay(y - 1) + DaysInYear(y - 1)
  }

  /** The filter's range is exactly calendar year 2025 in UTC, from its first millisecond to the start of 2026. */
  lemma Year2025IsCalendarYear(timeMs: int)
    ensures IsYear2025(timeMs) <==> YearStartDay(2025) * DayMs <= timeMs < YearStartDay(2026) * DayMs
  {
    YearStartCounted(2025);
    YearStartCounted(2026);
  }

  /** Up to 2100 every fourth year from 1972 is a leap year, 2000 included. */
  lemma {:induction false} YearStartCounted(y: int)
    requires 1970 <= y <= 2100
    ensures YearStartDay(y) == (y - 1970) * 365 + (y - 1969) / 4
    decreases y
  {
    if y > 1970 {
      YearStartCounted(y - 1);
      assert DaysInYear(y - 1) == if (y - 1) % 4 == 0 then 366 else 365;
    }
  }

  /** The record's time in ms; None is the invalid date an unparsable time stamp gives. */
  function TxTime(raw: RawTx): Option<int>
  {
    match raw.timeStamp
    case None => None
    case Some(seconds) => Some(seconds * SecondMs)
  }

  /** A record the monitor keeps: its time stamp parses and lies in 2025. */
  predicate Qualifies(raw: RawTx)
  {
    TxTime(raw).Some? && IsYear2025(TxTime(raw).value)
  }

  /** The stored form of a record: its time stamp in milliseconds, every other field carried over. */
  function ToTx(raw: RawTx): (tx: Tx)
    requires Qualifies(raw)
    ensures tx.hash == raw.hash && IsYear2025(tx.time)
    ensures tx.time == raw.timeStamp.value * SecondMs
    ensures tx.block == raw.blockNumber && tx.value == raw.value && tx.from == raw.from && tx.to == raw.to
  {
    Tx(raw.hash, TxTime(raw).value, raw.blockNumber, raw.value, raw.from, raw.to)
  }

  function Hashes(txs: seq<Tx>): set<string>
  {
    set t | t in txs :: t.hash
  }

  ghost predicate UniqueHashes(txs: seq<Tx>)
  {
    forall i, j :: 0 <= i < j < |txs| ==> txs[i].hash != txs[j].hash
  }

  ghost predicate AllIn2025(txs: seq<Tx>)
  {
    forall i :: 0 <= i < |txs| ==> IsYear2025(txs[i].time)
  }

  ghost predicate NewestFirst(txs: seq<Tx>)
  {
    forall i, j :: 0 <= i < j < |txs| ==> txs[i].time >= txs[j].time
  }

  // ---------------------------------------------------------------------------
  // The time-window filter

  /** The entries strictly newer than `since`, in their original order. */
  function After(txs: seq<Tx>, since: int): (r: seq<Tx>)
    ensures |r| <= |txs|
    decreases |txs|
  {
    if txs == [] then []
    else
      var last := txs[|txs| - 1];
      After(txs[..|txs| - 1], since) + (if last.time > since then [last] else [])
  }

  /** The window holds exactly the entries newer than `since`. */
  lemma {:induction false} AfterMembers(txs: seq<Tx>, since: int)
    ensures forall t :: t in After(txs, since) <==> t in txs && t.time > since
    decreases |txs|
  {
    if txs != [] {
      AfterMembers(txs[..|txs| - 1], since);
      assert txs == txs[..|txs| - 1] + [txs[|txs| - 1]];
    }
  }

  /** A wider window never holds fewer entries. */
  lemma {:induction false} AfterWidens(txs: seq<Tx>, since: int, earlier: int)
    requires earlier <= since
    ensures |After(txs, since)| <= |After(txs, earlier)|
    decreases |txs|
  {
    if txs != [] {
      AfterWidens(txs[..|txs| - 1], since, earlier);
    }
  }

  /** When every entry is newer than `since`, the filter keeps them all. */
  lemma {:induction false} AfterKeepsAll(txs: seq<Tx>, since: int)
    requires forall i :: 0 <= i < |txs| ==> txs[i].time > since
    ensures After(txs, since) == txs
    decreases |txs|
  {
    if txs != [] {
      AfterKeepsAll(txs[..|txs| - 1], since);
      assert txs == txs[..|txs| - 1] + [txs[|txs| - 1]];
    }
  }

  /** On a newest-first history the window is a prefix: the entries before the first one at or before `since`. */
  lemma {:induction false} AfterNewestFirstIsPrefix(txs: seq<Tx>, since: int)
    requires NewestFirst(txs)
    ensures After(txs, since) == txs[..|After(txs, since)|]
    ensures forall i :: |After(txs, since)| <= i < |txs| ==> txs[i].time <= since
    decreases |txs|
  {
    if txs != [] {
      var init, last := txs[..|txs| - 1], txs[|txs| - 1];
      NewestFirstInit(txs);
      AfterNewestFirstIsPrefix(init, since);
      var k := |After(init, since)|;
      if last.time > since {
        AfterKeepsAll(init, since);
        assert txs == init + [last];
      } else {
        assert After(txs, since) == After(init, since) + [];
        assert init[..k] == txs[..k];
        forall i | k <= i < |txs| ensures txs[i].time <= since {
          if i < |init| {
            assert txs[i] == init[i];
          }
        }
      }
    }
  }

  // ---------------------------------------------------------------------------
  // Absorbing one ledger response

  /** What absorbing has built so far: the history and the records collected as new. */
  datatype Intake = Intake(history: seq<Tx>, recent: seq<Tx>)

  /** One iteration of the absorb loop: skip records outside 2025 and hashes already held, else append. */
  function AbsorbOne(acc: Intake, raw: RawTx, cutoff: int): Intake
  {
    if !Qualifies(raw) || raw.hash in Hashes(acc.history) then acc
    else
      var tx := ToTx(raw);
      Intake(acc.history + [tx], acc.recent + (if tx.time > cutoff then [tx] else []))
  }

  /**
   * The whole absorb loop over a response, in response order. The old history is
   * kept as a prefix; every appended record is from 2025 and has a hash the old
   * history did not hold; the records collected as new are exactly the appended
   * ones newer than `cutoff`, in the order they were appended.
   */
  function Absorb(history: seq<Tx>, raws: seq<RawTx>, cutoff: int): (r: Intake)
    ensures |history| <= |r.history| && r.history[..|history|] == history
    ensures AllIn2025(r.history[|history|..])
    ensures forall i :: |history| <= i < |r.history| ==> r.history[i].hash !in Hashes(history)
    ensures r.recent == After(r.history[|history|..], cutoff)
    decreases |raws|
  {
    if raws == [] then Intake(history, [])
    else
      var acc := Absorb(history, raws[..|raws| - 1], cutoff);
      var r := AbsorbOne(acc, raws[|raws| - 1], cutoff);
      assert r != acc ==> r.history[|history|..] == acc.history[|history|..] + [r.history[|r.history| - 1]];
      r
  }

  /** The hashes of the records a response contributes: those whose time stamp is in 2025. */
  function QualifyingHashes(raws: seq<RawTx>): set<string>
  {
    set raw | raw in raws && Qualifies(raw) :: raw.hash
  }

  lemma QualifyingHashesSnoc(raws: seq<RawTx>, raw: RawTx)
    ensures QualifyingHashes(raws + [raw]) == QualifyingHashes(raws) + (if Qualifies(raw) then {raw.hash} else {})
  {
    var both := raws + [raw];
    forall x | x in raws ensures x in both { assert x == both[IndexOf(raws, x)]; }
  }

  lemma HashesSnoc(txs: seq<Tx>, tx: Tx)
    ensures Hashes(txs + [tx]) == Hashes(txs) + {tx.hash}
  {
    var both := txs + [tx];
    assert tx == both[|txs|];
    forall t | t in txs ensures t in both { assert t == both[IndexOf(txs, t)]; }
  }
  /**
   * Entry `k` of a response is the one absorbing stores for its hash: it qualifies,
   * its hash is not held yet, and no earlier qualifying entry has that hash.
   */
  ghost predicate FirstNew(history: seq<Tx>, raws: seq<RawTx>, k: int)
  {
    && 0 <= k < |raws| && Qualifies(raws[k])
    && raws[k].hash !in Hashes(history) && raws[k].hash !in QualifyingHashes(raws[..k])
  }

  /** Dropping the last entry of a response leaves the status of the earlier entries as it was. */
  lemma FirstNewEarlier(history: seq<Tx>, raws: seq<RawTx>, k: int)
    requires 0 <= k < |raws| - 1
    ensures FirstNew(history, raws, k) <==> FirstNew(history, raws[..|raws| - 1], k)
  {
    assert raws[..|raws| - 1][..k] == raws[..k];
  }

  /** The last entry of a response is first new exactly when it qualifies and absorbing the rest left its hash unheld. */
  lemma FirstNewLast(history: seq<Tx>, raws: seq<RawTx>, cutoff: int)
    requires raws != []
    ensures var last := raws[|raws| - 1];
      (FirstNew(history, raws, |raws| - 1)
       <==> Qualifies(last) && last.hash !in Hashes(Absorb(history, raws[..|raws| - 1], cutoff).history))
  {
    AbsorbHashes(history, raws[..|raws| - 1], cutoff);
  }

  /**
   * `added` is made of response entries in response order: its `m`-th record is the
   * stored form of entry `ks[m]`, which qualifies, and `ks` is strictly increasing.
   */
  ghost predicate SourcedFrom(added: seq<Tx>, raws: seq<RawTx>, ks: seq<nat>)
  {
    && |ks| == |added|
    && (forall m, n :: 0 <= m < n < |ks| ==> ks[m] < ks[n])
    && (forall m :: 0 <= m < |ks| ==> ks[m] < |raws| && Qualifies(raws[ks[m]]) && added[m] == ToTx(raws[ks[m]]))
  }

  /** Taking the last entry of a response or not keeps the records sourced from the response. */
  lemma SourcedFromSnoc(added: seq<Tx>, raws: seq<RawTx>, ks: seq<nat>, taken: bool)
    requires raws != [] && SourcedFrom(added, raws[..|raws| - 1], ks)
    requires taken ==> Qualifies(raws[|raws| - 1])
    ensures taken ==> SourcedFrom(added + [ToTx(raws[|raws| - 1])], raws, ks + [|raws| - 1])
    ensures !taken ==> SourcedFrom(added, raws, ks)
  {
  }

  /** The first new entries of a response are those of all but its last entry, plus the last when it is first new. */
  lemma FirstNewSnoc(history: seq<Tx>, raws: seq<RawTx>, ks: seq<nat>)
    requires raws != [] && forall k :: FirstNew(history, raws[..|raws| - 1], k) <==> k in ks
    ensures var n := |raws| - 1;
      forall k :: FirstNew(history, raws, k) <==> k in (if FirstNew(history, raws, n) then ks + [n] else ks)
  {
    var n := |raws| - 1;
    forall k ensures FirstNew(history, raws, k) <==> k in (if FirstNew(history, raws, n) then ks + [n] else ks) {
      if 0 <= k < n {
        FirstNewEarlier(history, raws, k);
      }
    }
  }

  /**
   * Where the appended records come from: the `m`-th appended record is the stored
   * form of response entry `ks[m]`, with `ks` strictly increasing (response order),
   * and the entries used are exactly the first new ones.
   */
  lemma {:induction false} AbsorbSources(history: seq<Tx>, raws: seq<RawTx>, cutoff: int) returns (ks: seq<nat>)
    ensures SourcedFrom(Absorb(history, raws, cutoff).history[|history|..], raws, ks)
    ensures forall k :: FirstNew(history, raws, k) <==> k in ks
    decreases |raws|
  {
    if raws == [] {
      ks := [];
      return;
    }
    var n := |raws| - 1;
    var init, raw := raws[..n], raws[n];
    var acc := Absorb(history, init, cutoff);
    var ks0 := AbsorbSources(history, init, cutoff);
    FirstNewLast(history, raws, cutoff);
    var appended := Qualifies(raw) && raw.hash !in Hashes(acc.history);
    assert appended == FirstNew(history, raws, n);
    FirstNewSnoc(history, raws, ks0);
    SourcedFromSnoc(acc.history[|history|..], raws, ks0, appended);
    ks := if appended then ks0 + [n] else ks0;
    assert Absorb(history, raws, cutoff).history[|history|..]
        == if appended then acc.history[|history|..] + [ToTx(raw)] else acc.history[|history|..];
  }

  /** Position of an element, for proofs that need a witness index. */
  ghost function IndexOf<T>(s: seq<T>, x: T): (i: nat)
    requires x in s
    ensures i < |s| && s[i] == x
  {
    if s[0] == x then 0 else 1 + IndexOf(s[1..], x)
  }

  /** Unique hashes before absorbing stay unique, even when a response repeats a hash. */
  lemma {:induction false} AbsorbKeepsHashesUnique(history: seq<Tx>, raws: seq<RawTx>, cutoff: int)
    requires UniqueHashes(history)
    ensures UniqueHashes(Absorb(history, raws, cutoff).history)
    decreases |raws|
  {
    if raws != [] {
      var acc := Absorb(history, raws[..|raws| - 1], cutoff);
      AbsorbKeepsHashesUnique(history, raws[..|raws| - 1], cutoff);
      var raw := raws[|raws| - 1];
      if Qualifies(raw) && raw.hash !in Hashes(acc.history) {
        var h := acc.history + [ToTx(raw)];
        forall i, j | 0 <= i < j < |h| ensures h[i].hash != h[j].hash {
          if j == |acc.history| {
            assert h[i] in acc.history;
          } else {
            assert h[i] == acc.history[i] && h[j] == acc.history[j];
          }
        }
      }
    }
  }

  /** After absorbing, the history's hashes are the old ones plus every qualifying hash of the response. */
  lemma {:induction false} AbsorbHashes(history: seq<Tx>, raws: seq<RawTx>, cutoff: int)
    ensures Hashes(Absorb(history, raws, cutoff).history) == Hashes(history) + QualifyingHashes(raws)
    decreases |raws|
  {
    if raws == [] {
      assert QualifyingHashes(raws) == {};
    } else {
      var init, raw := raws[..|raws| - 1], raws[|raws| - 1];
      var acc := Absorb(history, init, cutoff);
      AbsorbHashes(history, init, cutoff);
      assert raws == init + [raw];
      QualifyingHashesSnoc(init, raw);
      if Qualifies(raw) && raw.hash !in Hashes(acc.history) {
        HashesSnoc(acc.history, ToTx(raw));
      }
    }
  }

  /** Appending an entry keeps hashes unique exactly when its hash is not held yet. */
  lemma UniqueHashesSnoc(init: seq<Tx>, last: Tx)
    ensures UniqueHashes(init + [last]) <==> UniqueHashes(init) && last.hash !in Hashes(init)
  {
    var txs := init + [last];
    if UniqueHashes(txs) {
      forall i, j | 0 <= i < j < |init| ensures init[i].hash != init[j].hash {
        assert init[i] == txs[i] && init[j] == txs[j];
      }
      forall t | t in init ensures t.hash != last.hash {
        var i := IndexOf(init, t);
        assert txs[i] == t && txs[|init|] == last;
      }
    }
    if UniqueHashes(init) && last.hash !in Hashes(init) {
      forall i, j | 0 <= i < j < |txs| ensures txs[i].hash != txs[j].hash {
        assert txs[i] == init[i];
        if j == |init| {
          assert init[i] in init;
        } else {
          assert txs[j] == init[j];
        }
      }
    }
  }

  /** A sequence has no more distinct hashes than entries, and exactly as many when they are unique. */
  lemma {:induction false} HashesCount(txs: seq<Tx>)
    ensures |Hashes(txs)| <= |txs|
    ensures UniqueHashes(txs) <==> |Hashes(txs)| == |txs|
    decreases |txs|
  {
    if txs == [] {
      assert Hashes(txs) == {};
    } else {
      var init, last := txs[..|txs| - 1], txs[|txs| - 1];
      assert txs == init + [last];
      HashesCount(init);
      HashesSnoc(init, last);
      UniqueHashesSnoc(init, last);
      if last.hash in Hashes(init) {
        assert Hashes(txs) == Hashes(init);
      } else {
        assert |Hashes(txs)| == |Hashes(init)| + 1;
      }
    }
  }

  /** The history grows by exactly the number of distinct qualifying hashes it did not hold. */
  lemma AbsorbGrowth(history: seq<Tx>, raws: seq<RawTx>, cutoff: int)
    requires UniqueHashes(history)
    ensures |Absorb(history, raws, cutoff).history| == |history| + |QualifyingHashes(raws) - Hashes(history)|
  {
    var r := Absorb(history, raws, cutoff);
    AbsorbKeepsHashesUnique(history, raws, cutoff);
    AbsorbHashes(history, raws, cutoff);
    HashesCount(history);
    HashesCount(r.history);
    assert Hashes(r.history) == Hashes(history) + (QualifyingHashes(raws) - Hashes(history));
  }

  /** A response whose qualifying hashes are all held already changes nothing and yields nothing new. */
  lemma {:induction false} AbsorbSeenIsNoop(history: seq<Tx>, raws: seq<RawTx>, cutoff: int)
    requires QualifyingHashes(raws) <= Hashes(history)
    ensures Absorb(history, raws, cutoff) == Intake(history, [])
    decreases |raws|
  {
    if raws != [] {
      var init, raw := raws[..|raws| - 1], raws[|raws| - 1];
      assert raws == init + [raw];
      QualifyingHashesSnoc(init, raw);
      AbsorbSeenIsNoop(history, init, cutoff);
    }
  }

  /** Absorbing the same response a second time adds nothing and yields no new records. */
  lemma AbsorbTwiceAddsNothing(history: seq<Tx>, raws: seq<RawTx>, cutoff: int, laterCutoff: int)
    ensures var once := Absorb(history, raws, cutoff).history;
      Absorb(once, raws, laterCutoff) == Intake(once, [])
  {
    AbsorbHashes(history, raws, cutoff);
    AbsorbSeenIsNoop(Absorb(history, raws, cutoff).history, raws, laterCutoff);
  }

  // ---------------------------------------------------------------------------
  // Newest-first ordering of the history

  /**
   * Inserts `tx` after every entry at least as new as it. Inserting the elements
   * of a sequence one by one this way is a stable sort, as the runtime's sort is.
   */
  function Insert(sorted: seq<Tx>, tx: Tx): (r: seq<Tx>)
    ensures multiset(r) == multiset(sorted) + multiset{tx}
    decreases |sorted|
  {
    if sorted == [] then [tx]
    else if sorted[0].time >= tx.time then
      assert sorted == [sorted[0]] + sorted[1..];
      [sorted[0]] + Insert(sorted[1..], tx)
    else [tx] + sorted
  }

  /** The tail of a newest-first sequence is newest-first. */
  lemma NewestFirstTail(txs: seq<Tx>)
    requires txs != [] && NewestFirst(txs)
    ensures NewestFirst(txs[1..])
    ensures forall i :: 1 <= i < |txs| ==> txs[0].time >= txs[i].time
  {
    forall i, j | 0 <= i < j < |txs| - 1 ensures txs[1..][i].time >= txs[1..][j].time {
      assert txs[1..][i] == txs[i + 1] && txs[1..][j] == txs[j + 1];
    }
  }

  /** Everything but the last entry of a newest-first sequence is newest-first, and no older than that entry. */
  lemma NewestFirstInit(txs: seq<Tx>)
    requires txs != [] && NewestFirst(txs)
    ensures NewestFirst(txs[..|txs| - 1])
    ensures forall i :: 0 <= i < |txs| - 1 ==> txs[i].time >= txs[|txs| - 1].time
  {
    var init := txs[..|txs| - 1];
    forall i, j | 0 <= i < j < |init| ensures init[i].time >= init[j].time {
      assert init[i] == txs[i] && init[j] == txs[j];
    }
  }

  /** Putting an entry no older than any other in front keeps a sequence newest-first. */
  lemma PrependNewest(tx: Tx, txs: seq<Tx>)
    requires NewestFirst(txs)
    requires forall k :: 0 <= k < |txs| ==> tx.time >= txs[k].time
    ensures NewestFirst([tx] + txs)
  {
    var r := [tx] + txs;
    forall i, j | 0 <= i < j < |r| ensures r[i].time >= r[j].time {
      assert r[j] == txs[j - 1];
      if i > 0 {
        assert r[i] == txs[i - 1];
      }
    }
  }

  /** Inserting into a newest-first sequence keeps it newest-first. */
  lemma {:induction false} InsertKeepsNewestFirst(sorted: seq<Tx>, tx: Tx)
    requires NewestFirst(sorted)
    ensures NewestFirst(Insert(sorted, tx))
    decreases |sorted|
  {
    if sorted == [] {
    } else if sorted[0].time >= tx.time {
      var head, tail := sorted[0], sorted[1..];
      NewestFirstTail(sorted);
      InsertKeepsNewestFirst(tail, tx);
      var rest := Insert(tail, tx);
      forall k | 0 <= k < |rest| ensures head.time >= rest[k].time {
        var t := rest[k];
        assert t in multiset(rest);
        if t != tx {
          assert t in multiset(tail);
          var i := IndexOf(tail, t);
          assert sorted[i + 1] == t;
        }
      }
      PrependNewest(head, rest);
    } else {
      NewestFirstTail(sorted);
      PrependNewest(tx, sorted);
    }
  }

  /** The history ordered newest first, entries with equal times keeping their relative order. */
  function SortNewestFirst(txs: seq<Tx>): (r: seq<Tx>)
    ensures multiset(r) == multiset(txs)
    ensures NewestFirst(r)
    decreases |txs|
  {
    if txs == [] then []
    else
      var init, last := txs[..|txs| - 1], txs[|txs| - 1];
      assert txs == init + [last];
      var sortedInit := SortNewestFirst(init);
      InsertKeepsNewestFirst(sortedInit, last);
      Insert(sortedInit, last)
  }

  /** Inserting an entry no newer than any other appends it. */
  lemma {:induction false} InsertOldestAppends(sorted: seq<Tx>, tx: Tx)
    requires forall i :: 0 <= i < |sorted| ==> sorted[i].time >= tx.time
    ensures Insert(sorted, tx) == sorted + [tx]
    decreases |sorted|
  {
    if sorted != [] {
      InsertOldestAppends(sorted[1..], tx);
    }
  }

  /** Sorting a history that is already newest-first leaves it as it is. */
  lemma {:induction false} SortNewestFirstKeepsSorted(txs: seq<Tx>)
    requires NewestFirst(txs)
    ensures SortNewestFirst(txs) == txs
    decreases |txs|
  {
    if txs != [] {
      var init, last := txs[..|txs| - 1], txs[|txs| - 1];
      assert SortNewestFirst(txs) == Insert(SortNewestFirst(init), last);
      NewestFirstInit(txs);
      SortNewestFirstKeepsSorted(init);
      InsertOldestAppends(init, last);
      assert txs == init + [last];
    }
  }

  /** Reordering keeps the set of hashes, the length, uniqueness of hashes and the year filter. */
  lemma PermutationKeeps(a: seq<Tx>, b: seq<Tx>)
    requires multiset(a) == multiset(b)
    ensures |a| == |b| && Hashes(a) == Hashes(b)
    ensures UniqueHashes(a) <==> UniqueHashes(b)
    ensures AllIn2025(a) <==> AllIn2025(b)
  {
    assert |a| == |multiset(a)| == |multiset(b)| == |b|;
    forall t ensures t in a <==> t in b {
      assert t in a <==> t in multiset(a);
      assert t in b <==> t in multiset(b);
    }
    assert Hashes(a) == Hashes(b);
    HashesCount(a);
    HashesCount(b);
    if AllIn2025(a) {
      forall i | 0 <= i < |b| ensures IsYear2025(b[i].time) {
        assert b[i] in a;
        assert a[IndexOf(a, b[i])] == b[i];
      }
    }
    if AllIn2025(b) {
      forall i | 0 <= i < |a| ensures IsYear2025(a[i].time) {
        assert a[i] in b;
        assert b[IndexOf(b, a[i])] == a[i];
      }
    }
  }

  /**
   * A valid history stays valid when a response is absorbed and the result sorted:
   * hashes unique, only 2025 records, newest first.
   */
  lemma AbsorbThenSortKeepsValid(history: seq<Tx>, raws: seq<RawTx>, cutoff: int)
    requires UniqueHashes(history) && AllIn2025(history)
    ensures var sorted := SortNewestFirst(Absorb(history, raws, cutoff).history);
      UniqueHashes(sorted) && AllIn2025(sorted) && NewestFirst(sorted)
  {
    var appended := Absorb(history, raws, cutoff).history;
    AbsorbKeepsHashesUnique(history, raws, cutoff);
    assert AllIn2025(appended) by {
      forall i | 0 <= i < |appended| ensures IsYear2025(appended[i].time) {
        if i >= |history| {
          assert appended[i] == appended[|history|..][i - |history|];
        }
      }
    }
    PermutationKeeps(appended, SortNewestFirst(appended));
  }

  /**
   * Absorbing and sorting loses nothing: the old entries are all still there, and
   * the history grows by exactly the qualifying hashes it did not hold.
   */
  lemma AbsorbThenSortGrowth(history: seq<Tx>, raws: seq<RawTx>, cutoff: int)
    requires UniqueHashes(history)
    ensures var sorted := SortNewestFirst(Absorb(history, raws, cutoff).history);
      && multiset(history) <= multiset(sorted)
      && |sorted| == |history| + |QualifyingHashes(raws) - Hashes(history)|
      && Hashes(sorted) == Hashes(history) + QualifyingHashes(raws)
  {
    var appended := Absorb(history, raws, cutoff).history;
    assert appended == history + appended[|history|..];
    AbsorbGrowth(history, raws, cutoff);
    AbsorbHashes(history, raws, cutoff);
    PermutationKeeps(appended, SortNewestFirst(appended));
    assert multiset(appended) == multiset(history) + multiset(appended[|history|..]);
  }
}
