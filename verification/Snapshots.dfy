/** Vote snapshots: the per-round history of an account, and how it is extended. */
module Snapshots {
  import opened Words

  datatype PollData = PollData(addr: Address, poll: Word)

  type Votes = map<Address, Word>

  /** The value of a `VoteSnapshot`. */
  datatype History = History(
    votes: map<Word, Votes>,
    polls: map<Word, Word>,
    summaries: map<Word, Word>,
    numberOfRounds: Word,
    latest: Word)

  function Empty(): (h: History)
  {
    History(map[], map[], map[], 0, 0)
  }

  // ---- The object ----

  class VoteSnapshot {
    var voteDataHistory: map<Word, Votes>
    var pollNumHistory: map<Word, Word>
    var blockSummaryHistory: map<Word, Word>
    var numberOfRounds: Word
    var latestRound: Word

    ghost function Abs(): (h: History)
      reads this
    {
      History(voteDataHistory, pollNumHistory, blockSummaryHistory, numberOfRounds, latestRound)
    }

    constructor ()
      ensures Abs() == Empty()
    {
      voteDataHistory, pollNumHistory, blockSummaryHistory := map[], map[], map[];
      numberOfRounds, latestRound := 0, 0;
    }

    /** The implicit copy constructor. */
    constructor CopyOf(other: VoteSnapshot)
      ensures Abs() == other.Abs()
    {
      voteDataHistory, pollNumHistory, blockSummaryHistory :=
        other.voteDataHistory, other.pollNumHistory, other.blockSummaryHistory;
      numberOfRounds, latestRound := other.numberOfRounds, other.latestRound;
    }

    method Clear()
      modifies this
      ensures Abs() == Empty()
    {
      voteDataHistory, pollNumHistory, blockSummaryHistory := map[], map[], map[];
      numberOfRounds, latestRound := 0, 0;
    }

    /** `operator=`: clears the target first, so that assigning an object to itself empties it. */
    method Assign(other: VoteSnapshot)
      modifies this
      ensures Abs() == if other == this then Empty() else old(other.Abs())
    {
      Clear();
      CopyVotes(other.voteDataHistory);
      pollNumHistory := pollNumHistory + other.pollNumHistory;
      blockSummaryHistory := blockSummaryHistory + other.blockSummaryHistory;
      numberOfRounds := other.numberOfRounds;
      latestRound := other.latestRound;
    }

    /** The loop over the entries of the other history, in any order. */
    method CopyVotes(source: map<Word, Votes>)
      requires voteDataHistory == map[]
      modifies this`voteDataHistory
      ensures voteDataHistory == source
    {
      var left := source.Keys;
      while left != {}
        invariant left <= source.Keys && voteDataHistory.Keys == source.Keys - left
        invariant forall k :: k in voteDataHistory ==> voteDataHistory[k] == source[k]
        decreases |left|
      {
        var k :| k in left;
        voteDataHistory := voteDataHistory[k := source[k]];
        left := left - {k};
      }
    }
  }

  // ---- Extending the history ----

  /** The vote data as a map: a later entry for the same address wins. */
  function VotesOf(data: seq<PollData>): (m: Votes)
  {
    if data == [] then map[] else VotesOf(data[..|data| - 1])[data[|data| - 1].addr := data[|data| - 1].poll]
  }

  const LAST_WORD: nat := TWO_256 - 1

  function Increment(j: Word): (r: Word)
    ensures j < LAST_WORD ==> r == (j as nat) + 1
  {
    var n: nat := j;
    Wrap256(n + 1)
  }

  /** What an account contributes to a new round. */
  datatype Source = Source(votes: Votes, poll: Word)

  /** The loop of `try_new_snapshot` from round `j` on; `income` goes to the first round that has no
      summary yet. */
  function Fill(h: History, j: nat, rounds: Word, income: Word, src: Source): (r: History)
    decreases rounds + 1 - j
  {
    if j > rounds then h
    else
      var blank := j !in h.summaries;
      var votes := if blank then h.votes[j := src.votes] else h.votes;
      var polls := if j !in h.polls then h.polls[j := src.poll] else h.polls;
      var summaries := if blank then h.summaries[j := income] else h.summaries;
      Fill(h.(votes := votes, polls := polls, summaries := summaries), j + 1, rounds, if blank then 0 else income, src)
  }

  /** The counter of that loop is a 256-bit word: where it starts, and after `n` increments. */
  function Counter(latest: Word, n: nat): (j: Word)
  {
    var start: nat := latest;
    Wrap256(start + 1 + n)
  }

  function TryNew(h: History, rounds: Word, income: Word, src: Source): (r: History)
  {
    Fill(h, Counter(h.latest, 0), rounds, income, src).(latest := rounds)
  }

  /** `get_no_record_snapshot`: the last finished round, if it is not recorded yet. */
  function NoRecord(latest: Word, rounds: Word): (r: (bool, Word))
    ensures r.0 ==> latest < r.1 == rounds - 1
    ensures !r.0 <==> rounds <= 1 || rounds - 1 <= latest
  {
    if rounds == 0 then (false, 0)
    else
      var last: Word := rounds - 1;
      if last <= 0 || last <= latest then (false, 0) else (true, last)
  }

  class Account {
    var voteData: seq<PollData>
    var poll: Word
    var cookieIncome: Word
    const snapshot: VoteSnapshot
    var isUnchanged: bool

    constructor ()
      ensures fresh(snapshot) && snapshot.Abs() == Empty() && voteData == [] && poll == 0 && cookieIncome == 0
    {
      snapshot := new VoteSnapshot();
      voteData, poll, cookieIncome, isUnchanged := [], 0, 0, true;
    }

    ghost function Contribution(): (s: Source)
      reads this
    {
      Source(VotesOf(voteData), poll)
    }

    /** `try_new_snapshot`, for the rounds for which its loop ends (`CounterExact`). */
    method TryNewSnapshot(rounds: Word)
      requires rounds < LAST_WORD
      modifies snapshot, this`isUnchanged
      ensures snapshot.Abs() == TryNew(old(snapshot.Abs()), rounds, cookieIncome, Contribution())
      ensures !isUnchanged
    {
      var summary := cookieIncome;
      var j: Word := Counter(snapshot.latestRound, 0);
      while j <= rounds
        invariant snapshot.latestRound == old(snapshot.latestRound)
        invariant Fill(snapshot.Abs(), j, rounds, summary, Contribution())
               == Fill(old(snapshot.Abs()), Counter(old(snapshot.latestRound), 0), rounds, cookieIncome, Contribution())
        decreases LAST_WORD - j
      {
        summary := RecordRound(j, summary);
        j := Increment(j);
      }
      snapshot.latestRound := rounds;
      isUnchanged := false;
    }

    /** The body of the loop. */
    method RecordRound(j: Word, income: Word) returns (left: Word)
      modifies snapshot
      ensures snapshot.latestRound == old(snapshot.latestRound)
      ensures forall rounds: Word :: rounds >= j ==>
        Fill(snapshot.Abs(), (j as nat) + 1, rounds, left, Contribution()) == Fill(old(snapshot.Abs()), j, rounds, income, Contribution())
    {
      left := income;
      if j !in snapshot.blockSummaryHistory {
        var votes := CollectVotes();
        snapshot.voteDataHistory := snapshot.voteDataHistory[j := votes];
      }
      if j !in snapshot.pollNumHistory {
        snapshot.pollNumHistory := snapshot.pollNumHistory[j := poll];
      }
      if j !in snapshot.blockSummaryHistory {
        snapshot.blockSummaryHistory := snapshot.blockSummaryHistory[j := income];
        left := 0;
      }
    }

    method CollectVotes() returns (m: Votes)
      ensures m == VotesOf(voteData)
    {
      m := map[];
      var i := 0;
      while i < |voteData|
        invariant 0 <= i <= |voteData| && m == VotesOf(voteData[..i])
      {
        assert voteData[..i + 1][..i] == voteData[..i];
        m := m[voteData[i].addr := voteData[i].poll];
        i := i + 1;
      }
      assert voteData[..i] == voteData;
    }

    /** `try_new_temp_snapshot` returns what the real call would write and writes nothing. */
    method TryNewTempSnapshot(rounds: Word) returns (temp: VoteSnapshot)
      requires rounds < LAST_WORD
      modifies snapshot, this`isUnchanged
      ensures fresh(temp) && temp.Abs() == TryNew(old(snapshot.Abs()), rounds, cookieIncome, Contribution())
      ensures snapshot.Abs() == old(snapshot.Abs())
    {
      var saved := new VoteSnapshot.CopyOf(snapshot);
      TryNewSnapshot(rounds);
      temp := new VoteSnapshot.CopyOf(snapshot);
      snapshot.Assign(saved);
    }

    method GetNoRecordSnapshot(rounds: Word) returns (needed: bool, round: Word)
      ensures (needed, round) == NoRecord(snapshot.latestRound, rounds)
    {
      if rounds == 0 { return false, 0; }
      var last: Word := rounds - 1;
      if last <= 0 || last <= snapshot.latestRound { return false, 0; }
      return true, last;
    }

    /** What the state does at each block: record the rounds finished since, if any. */
    method Record(rounds: Word)
      modifies snapshot, this`isUnchanged
      ensures snapshot.Abs() == Recorded(old(snapshot.Abs()), Block(rounds, cookieIncome, Contribution()))
    {
      var needed, round := GetNoRecordSnapshot(rounds);
      if needed { TryNewSnapshot(round); }
    }
  }

  // ---- Whole runs ----

  /** The state of the account when the voting cycle reads `rounds`. */
  datatype Block = Block(rounds: Word, income: Word, src: Source)

  function Recorded(h: History, b: Block): (r: History)
  {
    var (needed, round) := NoRecord(h.latest, b.rounds);
    if needed then TryNew(h, round, b.income, b.src) else h
  }

  function RecordAll(h: History, blocks: seq<Block>): (r: History)
    decreases |blocks|
  {
    if blocks == [] then h else RecordAll(Recorded(h, blocks[0]), blocks[1..])
  }

  /** The three histories hold exactly the rounds `1 .. n`. */
  ghost predicate Rounds(h: History, n: nat)
  {
    forall r: Word ::
      && (r in h.votes <==> 1 <= r <= n) && (r in h.polls <==> 1 <= r <= n) && (r in h.summaries <==> 1 <= r <= n)
  }

  ghost predicate Contiguous(h: History)
  {
    Rounds(h, h.latest)
  }

  /** What is recorded for a round. */
  ghost predicate SameRound(a: History, b: History, r: Word)
    requires r in a.votes && r in a.polls && r in a.summaries && r in b.votes && r in b.polls && r in b.summaries
  {
    a.votes[r] == b.votes[r] && a.polls[r] == b.polls[r] && a.summaries[r] == b.summaries[r]
  }

  /** Rounds of `a` are recorded in `b` as they were. */
  ghost predicate Extends(a: History, b: History)
  {
    forall r: Word :: r in a.votes && r in a.polls && r in a.summaries ==>
      r in b.votes && r in b.polls && r in b.summaries && SameRound(a, b, r)
  }

  /** What a batch writes: the votes and polls of the moment, and the income for the first round. */
  ghost predicate Batch(h: History, lo: nat, hi: Word, income: Word, src: Source)
  {
    forall r: Word :: lo <= r <= hi ==>
      && r in h.votes && r in h.polls && r in h.summaries
      && h.votes[r] == src.votes && h.polls[r] == src.poll && h.summaries[r] == if r == lo then income else 0
  }

  lemma {:induction false} FillRounds(h: History, j: nat, rounds: Word, income: Word, src: Source)
    requires 1 <= j <= rounds + 1 && Rounds(h, j - 1)
    ensures var r := Fill(h, j, rounds, income, src);
      Rounds(r, rounds) && Extends(h, r) && Batch(r, j, rounds, income, src) && r.numberOfRounds == h.numberOfRounds
    decreases rounds + 1 - j
  {
    if j <= rounds {
      var w: Word := j;
      var next := h.(votes := h.votes[w := src.votes], polls := h.polls[w := src.poll], summaries := h.summaries[w := income]);
      assert w !in h.summaries && w !in h.polls;
      FillRounds(next, j + 1, rounds, 0, src);
      var r := Fill(h, j, rounds, income, src);
      assert r == Fill(next, j + 1, rounds, 0, src);
      assert SameRound(next, r, w);
      forall x: Word | x in h.votes && x in h.polls && x in h.summaries
        ensures x in r.votes && x in r.polls && x in r.summaries && SameRound(h, r, x)
      {
        assert x != w && SameRound(next, r, x);
      }
    }
  }

  /** A snapshot that `get_no_record_snapshot` asks for keeps the rounds contiguous, changes none of
      those already written, and writes the batch of the rounds after them. */
  lemma SnapshotExtends(h: History, b: Block)
    requires Contiguous(h)
    ensures var r := Recorded(h, b);
      && Contiguous(r) && Extends(h, r) && h.latest <= r.latest
      && Batch(r, h.latest + 1, r.latest, b.income, b.src)
  {
    var (needed, round) := NoRecord(h.latest, b.rounds);
    if needed { FillRounds(h, h.latest + 1, round, b.income, b.src); }
  }

  /** The guard is needed: where its loop ends, a snapshot keeps the rounds contiguous exactly when it
      does not go back. */
  lemma ContiguousExactly(h: History, rounds: Word, income: Word, src: Source)
    requires Contiguous(h) && rounds < LAST_WORD
    ensures Contiguous(TryNew(h, rounds, income, src)) <==> rounds >= h.latest
  {
    if rounds >= h.latest {
      FillRounds(h, h.latest + 1, rounds, income, src);
    } else {
      FillKeeps(h, Counter(h.latest, 0), rounds, income, src);
      assert h.latest in TryNew(h, rounds, income, src).votes;
    }
  }

  lemma {:induction false} FillKeeps(h: History, j: nat, rounds: Word, income: Word, src: Source)
    ensures var r := Fill(h, j, rounds, income, src); h.votes.Keys <= r.votes.Keys && h.summaries.Keys <= r.summaries.Keys
    decreases rounds + 1 - j
  {
    if j <= rounds {
      var w: Word := j;
      var blank := w !in h.summaries;
      var next := h.(votes := if blank then h.votes[w := src.votes] else h.votes,
                     polls := if w !in h.polls then h.polls[w := src.poll] else h.polls,
                     summaries := if blank then h.summaries[w := income] else h.summaries);
      FillKeeps(next, j + 1, rounds, if blank then 0 else income, src);
    }
  }

  // ---- The counter ----

  /** The loop condition fails at some time. */
  ghost predicate Stops(latest: Word, rounds: Word)
  {
    exists n: nat :: Counter(latest, n) > rounds
  }

  /** The loop body runs for this round. */
  ghost predicate Visits(latest: Word, rounds: Word, r: Word)
  {
    exists n: nat :: Counter(latest, n) == r && forall m: nat :: m <= n ==> Counter(latest, m) <= rounds
  }

  lemma CounterValue(latest: Word, n: nat)
    ensures latest < LAST_WORD && latest + 1 + n < TWO_256 ==> Counter(latest, n) == latest + 1 + n
    ensures latest == LAST_WORD && n < TWO_256 ==> Counter(latest, n) == n
  {
  }

  lemma CounterStops(latest: Word, rounds: Word)
    ensures Stops(latest, rounds) <==> rounds < LAST_WORD
  {
    if rounds < LAST_WORD {
      var n: nat := if latest < LAST_WORD then LAST_WORD - latest - 1 else LAST_WORD;
      CounterValue(latest, n);
      assert Counter(latest, n) > rounds;
    }
  }

  lemma VisitsAll(latest: Word, rounds: Word, r: Word)
    requires latest < r <= rounds
    ensures Visits(latest, rounds, r)
  {
    var n: nat := r - latest - 1;
    CounterValue(latest, n);
    forall m: nat | m <= n ensures Counter(latest, m) <= rounds { CounterValue(latest, m); }
  }

  lemma VisitsOnly(latest: Word, rounds: Word, r: Word)
    requires latest < LAST_WORD && rounds < LAST_WORD && Visits(latest, rounds, r)
    ensures latest < r <= rounds
  {
    var n: nat :| Counter(latest, n) == r && forall m: nat :: m <= n ==> Counter(latest, m) <= rounds;
    var top: nat := LAST_WORD - latest - 1;
    CounterValue(latest, top);
    assert n < top;
    CounterValue(latest, n);
  }

  /** The loop ends and runs for exactly the rounds after the latest up to the given one if and only
      if neither of the two is the largest word: at the given round it would never end, and from the
      latest round it would start again with round 0. */
  lemma CounterExact(latest: Word, rounds: Word)
    ensures Stops(latest, rounds) && (forall r: Word :: Visits(latest, rounds, r) <==> latest < r <= rounds)
       <==> latest < LAST_WORD && rounds < LAST_WORD
  {
    CounterStops(latest, rounds);
    if rounds < LAST_WORD && latest < LAST_WORD {
      forall r: Word ensures Visits(latest, rounds, r) <==> latest < r <= rounds
      {
        if latest < r <= rounds { VisitsAll(latest, rounds, r); }
        if Visits(latest, rounds, r) { VisitsOnly(latest, rounds, r); }
      }
    } else if rounds < LAST_WORD {
      StartsAtZero(latest, rounds);
    }
  }

  lemma StartsAtZero(latest: Word, rounds: Word)
    requires latest == LAST_WORD
    ensures Visits(latest, rounds, 0)
  {
    var n := 0;
    CounterValue(latest, n);
    assert Counter(latest, n) == 0 && forall m: nat :: m <= n ==> Counter(latest, m) <= rounds;
  }

  /** There a snapshot records round 0. */
  lemma WrapRecordsZero(h: History, rounds: Word, income: Word, src: Source)
    requires h.latest == LAST_WORD
    ensures 0 in TryNew(h, rounds, income, src).summaries
  {
    CounterValue(h.latest, 0);
    var zero: Word := 0;
    var blank := zero !in h.summaries;
    var next := h.(votes := if blank then h.votes[zero := src.votes] else h.votes,
                   polls := if zero !in h.polls then h.polls[zero := src.poll] else h.polls,
                   summaries := if blank then h.summaries[zero := income] else h.summaries);
    FillKeeps(next, zero + 1, rounds, if blank then 0 else income, src);
  }

  /** Over every run the rounds stay contiguous and what is written stays written. */
  lemma {:induction false} HistoryStands(h: History, blocks: seq<Block>)
    requires Contiguous(h)
    ensures var r := RecordAll(h, blocks); Contiguous(r) && Extends(h, r) && h.latest <= r.latest
    decreases |blocks|
  {
    if blocks != [] {
      var next := Recorded(h, blocks[0]);
      SnapshotExtends(h, blocks[0]);
      HistoryStands(next, blocks[1..]);
      var r := RecordAll(next, blocks[1..]);
      forall x: Word | x in h.votes && x in h.polls && x in h.summaries
        ensures x in r.votes && x in r.polls && x in r.summaries && SameRound(h, r, x)
      {
        assert SameRound(h, next, x) && SameRound(next, r, x);
      }
    }
  }

  // ---- Income ----

  /** The block summaries of the rounds `from .. to`. */
  ghost function Total(h: History, lo: nat, hi: nat): (n: nat)
    decreases hi + 1 - lo
  {
    if lo > hi then 0
    else (if lo < TWO_256 && lo in h.summaries then h.summaries[lo] else 0) + Total(h, lo + 1, hi)
  }

  lemma {:induction false} TotalZero(h: History, lo: nat, hi: Word)
    requires forall r: Word :: lo <= r <= hi ==> r in h.summaries && h.summaries[r] == 0
    ensures Total(h, lo, hi) == 0
    decreases hi + 1 - lo
  {
    if lo <= hi {
      var w: Word := lo;
      assert h.summaries[w] == 0;
      TotalZero(h, lo + 1, hi);
    }
  }

  lemma {:induction false} TotalSplit(h: History, lo: nat, mid: nat, hi: nat)
    requires lo <= mid + 1 && mid <= hi
    ensures Total(h, lo, hi) == Total(h, lo, mid) + Total(h, mid + 1, hi)
    decreases mid + 1 - lo
  {
    if lo <= mid { TotalSplit(h, lo + 1, mid, hi); }
  }

  lemma {:induction false} TotalSame(a: History, b: History, lo: nat, hi: Word)
    requires Rounds(a, hi) && Extends(a, b) && 1 <= lo
    ensures Total(a, lo, hi) == Total(b, lo, hi)
    decreases hi + 1 - lo
  {
    if lo <= hi {
      var w: Word := lo;
      assert SameRound(a, b, w);
      TotalSame(a, b, lo + 1, hi);
    }
  }

  /** The summaries of a batch add up to the income at its time. */
  lemma BatchTotal(h: History, lo: nat, hi: Word, income: Word, src: Source)
    requires Batch(h, lo, hi, income, src) && lo <= hi
    ensures Total(h, lo, hi) == income
  {
    var w: Word := lo;
    assert w in h.summaries && h.summaries[w] == income;
    forall r: Word | lo + 1 <= r <= hi ensures r in h.summaries && h.summaries[r] == 0 {
    }
    TotalZero(h, lo + 1, hi);
  }

  /** The incomes of the blocks that recorded something. */
  ghost function Incomes(h: History, blocks: seq<Block>): (n: nat)
    decreases |blocks|
  {
    if blocks == [] then 0
    else (if NoRecord(h.latest, blocks[0].rounds).0 then blocks[0].income else 0)
         + Incomes(Recorded(h, blocks[0]), blocks[1..])
  }

  /** Over every run the block summaries grow by exactly the incomes recorded. */
  lemma {:induction false} IncomeConserved(h: History, blocks: seq<Block>)
    requires Contiguous(h)
    ensures var r := RecordAll(h, blocks); Total(r, 1, r.latest) == Total(h, 1, h.latest) + Incomes(h, blocks)
    decreases |blocks|
  {
    if blocks != [] {
      var b, next := blocks[0], Recorded(h, blocks[0]);
      SnapshotExtends(h, b);
      IncomeConserved(next, blocks[1..]);
      if NoRecord(h.latest, b.rounds).0 {
        BatchTotal(next, h.latest + 1, next.latest, b.income, b.src);
        TotalSplit(next, 1, h.latest, next.latest);
        TotalSame(h, next, 1, h.latest);
      }
    }
  }
}
