/** The backward scan of src/analysis/getKeyGenStates.ts over one epoch's key generation rounds. */
module KeyGen {
  import opened Common

  const MAX_SAFE_INTEGER := 9007199254740991

  /** A transaction: who sent it, and whether its input begins with the selector of writeAcks. */
  datatype Tx = Tx(sender: Address, writesAcks: bool)

  /** What the contracts and blocks say: round number, pending validators, their modes, a block's transactions. */
  datatype Chain = Chain(
    round: int -> int,
    pending: int -> seq<Address>,
    mode: (Address, int) -> int,
    txs: int -> seq<Tx>)
  {
    /** The validator's ACK is in the block itself, too late to count. */
    predicate SentAcks(v: Address, b: int) {
      exists tx | tx in txs(b) :: tx.sender == v && tx.writesAcks
    }
  }

  const NOT_A_PENDING_VALIDATOR := 0
  const WRITE_PART := 1
  const WAIT_FOR_OTHER_PARTS := 2
  const WRITE_ACK := 3
  const WAIT_FOR_OTHER_ACKS := 4
  const ALL_KEYS_DONE := 5

  datatype Round = Round(
    keyGenRound: int,
    startBlock: int,
    endBlock: int,
    partsWritten: seq<Address>,
    partsMissedOut: seq<Address>,
    acksWritten: seq<Address>,
    acksMissedOut: seq<Address>,
    foundAcks: seq<Address>)
  {
    predicate Success() {
      |acksMissedOut| == 0 && |partsMissedOut| == 0
    }
  }

  /** The lists a round keeps. */
  datatype Kind = WroteParts | MissedParts | WroteAcks | MissedAcks | LateAcks

  /** What the validator's mode at the round's end block says. */
  predicate Is(c: Chain, b: int, kind: Kind, v: Address) {
    var mode := c.mode(v, b);
    match kind
    case WroteParts => WAIT_FOR_OTHER_PARTS <= mode <= ALL_KEYS_DONE
    case MissedParts => mode == WRITE_PART
    case WroteAcks => WAIT_FOR_OTHER_ACKS <= mode <= ALL_KEYS_DONE || (mode == WRITE_ACK && c.SentAcks(v, b))
    case MissedAcks => mode == WRITE_PART || (mode == WRITE_ACK && !c.SentAcks(v, b))
    case LateAcks => mode == WRITE_ACK && c.SentAcks(v, b)
  }

  function Where(c: Chain, b: int, kind: Kind, vs: seq<Address>): seq<Address> {
    if vs == [] then []
    else
      var before, v := Where(c, b, kind, vs[..|vs| - 1]), vs[|vs| - 1];
      if Is(c, b, kind, v) then before + [v] else before
  }

  lemma {:induction false} WhereMembers(c: Chain, b: int, kind: Kind, vs: seq<Address>)
    ensures forall v :: v in Where(c, b, kind, vs) <==> v in vs && Is(c, b, kind, v)
  {
    if vs != [] {
      WhereMembers(c, b, kind, vs[..|vs| - 1]);
      assert vs == vs[..|vs| - 1] + [vs[|vs| - 1]];
    }
  }

  lemma {:induction false} WhereCounts(c: Chain, b: int, kind: Kind, vs: seq<Address>, v: Address)
    ensures multiset(Where(c, b, kind, vs))[v] == if Is(c, b, kind, v) then multiset(vs)[v] else 0
  {
    hide Is;
    if vs != [] {
      WhereCounts(c, b, kind, vs[..|vs| - 1], v);
      assert vs == vs[..|vs| - 1] + [vs[|vs| - 1]];
    }
  }

  /** Every two entries stand in `vs` in the same order. */
  ghost predicate InOrderOf(list: seq<Address>, vs: seq<Address>) {
    forall i, j | 0 <= i < j < |list| :: Stands(list[i], list[j], vs)
  }

  ghost predicate Stands(u: Address, v: Address, vs: seq<Address>) {
    exists x, y :: 0 <= x < y < |vs| && vs[x] == u && vs[y] == v
  }

  lemma {:induction false} WhereInOrder(c: Chain, b: int, kind: Kind, vs: seq<Address>)
    ensures InOrderOf(Where(c, b, kind, vs), vs)
  {
    hide Is;
    if vs != [] {
      var before, n, list := vs[..|vs| - 1], |vs| - 1, Where(c, b, kind, vs);
      WhereInOrder(c, b, kind, before);
      WhereMembers(c, b, kind, before);
      var early := Where(c, b, kind, before);
      hide Where;
      assert list == early || list == early + [vs[n]];
      forall i, j | 0 <= i < j < |list|
        ensures Stands(list[i], list[j], vs)
      {
        if j < |early| {
          assert list[i] == early[i] && list[j] == early[j] && Stands(early[i], early[j], before);
          var x, y :| 0 <= x < y < |before| && before[x] == early[i] && before[y] == early[j];
          assert vs[x] == list[i] && vs[y] == list[j];
        } else {
          assert list[i] == early[i] && early[i] in early;
          var x :| 0 <= x < n && vs[x] == list[i];
          assert vs[n] == list[j];
        }
      }
    }
  }

  predicate KnownModes(c: Chain, vs: seq<Address>, b: int) {
    forall v | v in vs :: NOT_A_PENDING_VALIDATOR <= c.mode(v, b) <= ALL_KEYS_DONE
  }

  /** The lists of a round are the pending validators at its end block, sorted by mode. */
  ghost predicate Classified(c: Chain, r: Round) {
    var vs, b := c.pending(r.endBlock), r.endBlock;
    && KnownModes(c, vs, b)
    && r.partsWritten == Where(c, b, WroteParts, vs)
    && r.partsMissedOut == Where(c, b, MissedParts, vs)
    && r.acksWritten == Where(c, b, WroteAcks, vs)
    && r.acksMissedOut == Where(c, b, MissedAcks, vs)
    && r.foundAcks == Where(c, b, LateAcks, vs)
  }

  /** How often each list names a validator, by the number of its mode and whether the block holds its ACK. */
  lemma ListsByMode(c: Chain, r: Round, v: Address)
    requires Classified(c, r)
    ensures var mode, times := c.mode(v, r.endBlock), multiset(c.pending(r.endBlock))[v];
      var sent := exists tx | tx in c.txs(r.endBlock) :: tx.sender == v && tx.writesAcks;
      && multiset(r.partsMissedOut)[v] == (if mode == 1 then times else 0)
      && multiset(r.partsWritten)[v] == (if 2 <= mode <= 5 then times else 0)
      && multiset(r.acksMissedOut)[v] == (if mode == 1 || (mode == 3 && !sent) then times else 0)
      && multiset(r.acksWritten)[v] == (if 4 <= mode <= 5 || (mode == 3 && sent) then times else 0)
      && multiset(r.foundAcks)[v] == (if mode == 3 && sent then times else 0)
  {
    var vs, b := c.pending(r.endBlock), r.endBlock;
    WhereCounts(c, b, MissedParts, vs, v);
    WhereCounts(c, b, WroteParts, vs, v);
    WhereCounts(c, b, MissedAcks, vs, v);
    WhereCounts(c, b, WroteAcks, vs, v);
    WhereCounts(c, b, LateAcks, vs, v);
  }

  /** Each list keeps the order of the pending validators. */
  lemma ListsInOrder(c: Chain, r: Round)
    requires Classified(c, r)
    ensures var vs := c.pending(r.endBlock);
      && InOrderOf(r.partsMissedOut, vs) && InOrderOf(r.partsWritten, vs) && InOrderOf(r.foundAcks, vs)
      && InOrderOf(r.acksMissedOut, vs) && InOrderOf(r.acksWritten, vs)
  {
    var vs, b := c.pending(r.endBlock), r.endBlock;
    WhereInOrder(c, b, MissedParts, vs);
    WhereInOrder(c, b, WroteParts, vs);
    WhereInOrder(c, b, MissedAcks, vs);
    WhereInOrder(c, b, WroteAcks, vs);
    WhereInOrder(c, b, LateAcks, vs);
  }

  /** Every pending validator in a key generation mode wrote its parts or missed them, never both. */
  lemma PartsPartition(c: Chain, r: Round, v: Address)
    requires Classified(c, r)
    ensures v in c.pending(r.endBlock) && c.mode(v, r.endBlock) != NOT_A_PENDING_VALIDATOR <==>
      v in r.partsWritten || v in r.partsMissedOut
    ensures !(v in r.partsWritten && v in r.partsMissedOut)
    ensures !(v in r.acksWritten && v in r.acksMissedOut)
    ensures v in r.acksWritten || v in r.acksMissedOut <==>
      v in c.pending(r.endBlock) && c.mode(v, r.endBlock) !in {NOT_A_PENDING_VALIDATOR, WAIT_FOR_OTHER_PARTS}
  {
    var vs, b := c.pending(r.endBlock), r.endBlock;
    WhereMembers(c, b, WroteParts, vs);
    WhereMembers(c, b, MissedParts, vs);
    WhereMembers(c, b, WroteAcks, vs);
    WhereMembers(c, b, MissedAcks, vs);
  }

  /** A round succeeds exactly when no pending validator still has to write a part or an unsent ACK. */
  lemma SuccessMeans(c: Chain, r: Round)
    requires Classified(c, r)
    ensures r.Success() <==> forall v | v in c.pending(r.endBlock) ::
      c.mode(v, r.endBlock) != WRITE_PART && (c.mode(v, r.endBlock) == WRITE_ACK ==> c.SentAcks(v, r.endBlock))
  {
    var vs, b := c.pending(r.endBlock), r.endBlock;
    WhereMembers(c, b, MissedParts, vs);
    WhereMembers(c, b, MissedAcks, vs);
    if r.partsMissedOut != [] {
      var v := r.partsMissedOut[0];
      assert v in r.partsMissedOut && v in vs;
    } else if r.acksMissedOut != [] {
      var v := r.acksMissedOut[0];
      assert v in r.acksMissedOut && v in vs;
    } else {
      assert forall v | v in vs :: !Is(c, b, MissedParts, v) && !Is(c, b, MissedAcks, v);
    }
  }

  /** The round number at `b` lies strictly below that of every later block up to `end`. */
  ghost predicate IsRecord(c: Chain, end: int, b: int) {
    b <= end && c.round(b) < MAX_SAFE_INTEGER && forall x | b < x <= end :: c.round(b) < c.round(x)
  }

  ghost predicate Recorded(rounds: seq<Round>, b: int) {
    exists i :: 0 <= i < |rounds| && rounds[i].endBlock == b
  }

  /** Every round is a classified record. */
  ghost predicate AllRecords(c: Chain, rounds: seq<Round>, b: int, end: int) {
    forall i | 0 <= i < |rounds| ::
      && b <= rounds[i].endBlock && IsRecord(c, end, rounds[i].endBlock)
      && rounds[i].keyGenRound == c.round(rounds[i].endBlock)
      && Classified(c, rounds[i])
  }

  ghost predicate AllRecorded(c: Chain, rounds: seq<Round>, b: int, end: int) {
    forall x | b <= x <= end && IsRecord(c, end, x) :: Recorded(rounds, x)
  }

  /** Consecutive rounds meet. */
  ghost predicate Chained(rounds: seq<Round>) {
    forall i | 0 < i < |rounds| ::
      rounds[i].endBlock < rounds[i - 1].endBlock && rounds[i - 1].startBlock == rounds[i].endBlock
  }

  /** The rounds are the records among the blocks from `b` to `end`, latest first, each starting where the next ends. */
  ghost predicate Scanned(c: Chain, rounds: seq<Round>, b: int, end: int) {
    AllRecords(c, rounds, b, end) && AllRecorded(c, rounds, b, end) && Chained(rounds)
  }

  /** The smallest round number from `b` on, as far as below the starting value. */
  ghost predicate IsLowest(c: Chain, lowest: int, b: int, end: int) {
    && (forall x | b <= x <= end :: lowest <= c.round(x))
    && lowest <= MAX_SAFE_INTEGER
    && (lowest == MAX_SAFE_INTEGER || exists x :: b <= x <= end && c.round(x) == lowest)
  }

  /** What one more validator adds to the lists of a round. */
  lemma WhereNext(c: Chain, b: int, vs: seq<Address>, i: nat)
    requires i < |vs|
    ensures forall kind ::
      Where(c, b, kind, vs[..i + 1]) == Where(c, b, kind, vs[..i]) + (if Is(c, b, kind, vs[i]) then [vs[i]] else [])
  {
    hide Is;
    assert vs[..i + 1][..i] == vs[..i];
  }

  method FindAck(txs: seq<Tx>, validator: Address) returns (found: bool)
    ensures found <==> exists tx | tx in txs :: tx.sender == validator && tx.writesAcks
  {
    var i := 0;
    while i < |txs|
      invariant 0 <= i <= |txs|
      invariant forall j | 0 <= j < i :: !(txs[j].sender == validator && txs[j].writesAcks)
    {
      if txs[i].sender == validator && txs[i].writesAcks {
        assert txs[i] in txs;
        return true;
      }
      i := i + 1;
    }
    return false;
  }

  method Classify(c: Chain, b: int) returns (r: Option<Round>)
    ensures r.Some? <==> forall v | v in c.pending(b) :: 0 <= c.mode(v, b) <= 5
    ensures r.Some? ==> Classified(c, r.value)
    ensures r.Some? ==> r.value.endBlock == b && r.value.startBlock == 0 && r.value.keyGenRound == c.round(b)
  {
    var vs := c.pending(b);
    var partsWritten, partsMissedOut, acksWritten, acksMissedOut, foundAcks := [], [], [], [], [];
    var i := 0;
    while i < |vs|
      invariant 0 <= i <= |vs|
      invariant forall j | 0 <= j < i :: NOT_A_PENDING_VALIDATOR <= c.mode(vs[j], b) <= ALL_KEYS_DONE
      invariant partsWritten == Where(c, b, WroteParts, vs[..i])
      invariant partsMissedOut == Where(c, b, MissedParts, vs[..i])
      invariant acksWritten == Where(c, b, WroteAcks, vs[..i])
      invariant acksMissedOut == Where(c, b, MissedAcks, vs[..i])
      invariant foundAcks == Where(c, b, LateAcks, vs[..i])
    {
      hide Where;
      var validator := vs[i];
      var mode := c.mode(validator, b);
      WhereNext(c, b, vs, i);
      if mode == NOT_A_PENDING_VALIDATOR {
      } else if mode == ALL_KEYS_DONE || mode == WAIT_FOR_OTHER_ACKS {
        partsWritten := partsWritten + [validator];
        acksWritten := acksWritten + [validator];
      } else if mode == WAIT_FOR_OTHER_PARTS {
        partsWritten := partsWritten + [validator];
      } else if mode == WRITE_PART {
        partsMissedOut := partsMissedOut + [validator];
        acksMissedOut := acksMissedOut + [validator];
      } else if mode == WRITE_ACK {
        partsWritten := partsWritten + [validator];
        var found := FindAck(c.txs(b), validator);
        if found {
          acksWritten := acksWritten + [validator];
          foundAcks := foundAcks + [validator];
        } else {
          acksMissedOut := acksMissedOut + [validator];
        }
      } else {
        assert validator in vs;
        return None;
      }
      i := i + 1;
    }
    assert vs[..i] == vs;
    hide Where;
    return Some(Round(c.round(b), 0, b, partsWritten, partsMissedOut, acksWritten, acksMissedOut, foundAcks));
  }

  /** Results as the loop leaves them: the start of the current round is set when the next one is found. */
  function Starting(rounds: seq<Round>, block: int): seq<Round> {
    if rounds == [] then rounds else rounds[|rounds| - 1 := rounds[|rounds| - 1].(startBlock := block)]
  }

  /** The first block without pending validators, going back from `end`. */
  ghost predicate IsStop(c: Chain, end: int, stop: int) {
    stop <= end && c.pending(stop) == [] && forall b | stop < b <= end :: c.pending(b) != []
  }

  /** The scan has a block to stop at as soon as any block up to `end` has no pending validators. */
  lemma {:induction false} StopExists(c: Chain, end: int, floor: int)
    requires floor <= end && c.pending(floor) == []
    ensures exists stop :: floor <= stop && IsStop(c, end, stop)
    decreases end - floor
  {
    if c.pending(end) == [] {
      assert IsStop(c, end, end);
    } else {
      StopExists(c, end - 1, floor);
      var stop :| floor <= stop && IsStop(c, end - 1, stop);
      assert IsStop(c, end, stop);
    }
  }

  /**
   * processEpoch, where `stop` is the first block going back that has no pending validators. It fails,
   * as the exception for an unknown mode does, exactly when a record in between shows such a mode.
   */
  method ProcessEpoch(c: Chain, epochEndBlock: int, ghost stop: int) returns (rounds: Option<seq<Round>>)
    requires IsStop(c, epochEndBlock, stop)
    ensures rounds.Some? <==> forall b, v |
      stop <= b <= epochEndBlock && IsRecord(c, epochEndBlock, b) && v in c.pending(b) :: 0 <= c.mode(v, b) <= 5
    ensures rounds.Some? ==> Scanned(c, rounds.value, stop, epochEndBlock)
    ensures rounds.Some? && rounds.value != [] ==>
      var last := rounds.value[|rounds.value| - 1];
      last.startBlock == if last.endBlock == stop then 0 else stop + 1
  {
    hide Scanned, IsLowest, Classified, IsRecord, KnownModes, Starting;
    var b := epochEndBlock;
    var results: seq<Round> := [];
    var lowest := MAX_SAFE_INTEGER;
    NothingScanned(c, epochEndBlock);
    while true
      invariant stop <= b <= epochEndBlock
      invariant Scanned(c, results, b + 1, epochEndBlock) && IsLowest(c, lowest, b + 1, epochEndBlock)
      decreases b - stop
    {
      var keyGenRound, pendingValidators := c.round(b), c.pending(b);
      NextIsRecord(c, lowest, b, epochEndBlock);
      if keyGenRound < lowest {
        var r := Classify(c, b);
        if r.None? {
          var v :| v in pendingValidators && !(0 <= c.mode(v, b) <= 5);
          return None;
        }
        ScannedRecord(c, results, lowest, r.value, b, epochEndBlock);
        results := Starting(results, b) + [r.value];
        lowest := keyGenRound;
      } else {
        LastEnd(c, results, b, epochEndBlock);
        ScannedSkip(c, results, lowest, b, epochEndBlock);
        if |pendingValidators| == 0 {
          ScannedStart(c, results, b, epochEndBlock);
          StartingLast(results, b + 1);
          results := Starting(results, b + 1);
        }
      }
      if |pendingValidators| == 0 {
        ScannedKnown(c, results, b, epochEndBlock);
        return Some(results);
      }
      b := b - 1;
    }
  }

  lemma ScannedKnown(c: Chain, rounds: seq<Round>, b: int, end: int)
    requires Scanned(c, rounds, b, end)
    ensures forall x, v | b <= x <= end && IsRecord(c, end, x) && v in c.pending(x) :: 0 <= c.mode(v, x) <= 5
  {
    hide IsRecord, Chained, Where;
    forall x, v | b <= x <= end && IsRecord(c, end, x) && v in c.pending(x) ensures 0 <= c.mode(v, x) <= 5 {
      assert Recorded(rounds, x);
      var i :| 0 <= i < |rounds| && rounds[i].endBlock == x;
      assert Classified(c, rounds[i]);
    }
  }

  lemma NothingScanned(c: Chain, end: int)
    ensures Scanned(c, [], end + 1, end) && IsLowest(c, MAX_SAFE_INTEGER, end + 1, end)
  {
  }

  lemma NextIsRecord(c: Chain, lowest: int, b: int, end: int)
    requires IsLowest(c, lowest, b + 1, end) && b <= end
    ensures IsRecord(c, end, b) <==> c.round(b) < lowest
  {
  }

  lemma RestartedRecords(c: Chain, rounds: seq<Round>, b: int, end: int, block: int)
    requires AllRecords(c, rounds, b, end)
    ensures AllRecords(c, Starting(rounds, block), b, end)
  {
    forall i | 0 <= i < |rounds| ensures Classified(c, Starting(rounds, block)[i]) {
      assert Classified(c, rounds[i]);
    }
  }

  lemma RestartedRecorded(c: Chain, rounds: seq<Round>, b: int, end: int, block: int)
    requires AllRecorded(c, rounds, b, end)
    ensures AllRecorded(c, Starting(rounds, block), b, end)
  {
    forall x | b <= x <= end && IsRecord(c, end, x) ensures Recorded(Starting(rounds, block), x) {
      assert Recorded(rounds, x);
      var i :| 0 <= i < |rounds| && rounds[i].endBlock == x;
      assert Starting(rounds, block)[i].endBlock == x;
    }
  }

  lemma StartingLast(rounds: seq<Round>, block: int)
    ensures |Starting(rounds, block)| == |rounds|
    ensures forall i | 0 <= i < |rounds| :: Starting(rounds, block)[i].endBlock == rounds[i].endBlock
    ensures forall i | 0 <= i < |rounds| - 1 :: Starting(rounds, block)[i] == rounds[i]
    ensures rounds != [] ==> Starting(rounds, block)[|rounds| - 1].startBlock == block
  {
  }

  lemma LastEnd(c: Chain, rounds: seq<Round>, b: int, end: int)
    requires Scanned(c, rounds, b + 1, end)
    ensures rounds != [] ==> rounds[|rounds| - 1].endBlock > b
  {
    hide AllRecorded, Chained, Classified, IsRecord;
  }

  lemma StartingChained(rounds: seq<Round>, block: int)
    requires Chained(rounds)
    ensures Chained(Starting(rounds, block))
  {
    StartingLast(rounds, block);
    hide Starting;
    var after := Starting(rounds, block);
    forall i | 0 < i < |after|
      ensures after[i].endBlock < after[i - 1].endBlock && after[i - 1].startBlock == after[i].endBlock
    {
      assert after[i - 1] == rounds[i - 1];
    }
  }

  lemma AppendedChained(rounds: seq<Round>, r: Round, b: int)
    requires Chained(rounds) && r.endBlock == b && forall i | 0 <= i < |rounds| :: rounds[i].endBlock > b
    ensures Chained(Starting(rounds, b) + [r])
  {
    StartingChained(rounds, b);
    StartingLast(rounds, b);
    hide Starting;
    var after := Starting(rounds, b) + [r];
    forall i | 0 < i < |after|
      ensures after[i].endBlock < after[i - 1].endBlock && after[i - 1].startBlock == after[i].endBlock
    {
      if i < |rounds| { assert after[i] == Starting(rounds, b)[i]; }
    }
  }

  lemma AppendedRecorded(c: Chain, rounds: seq<Round>, r: Round, b: int, end: int)
    requires AllRecorded(c, rounds, b + 1, end) && r.endBlock == b
    ensures AllRecorded(c, rounds + [r], b, end)
  {
    hide IsRecord;
    forall x | b <= x <= end && IsRecord(c, end, x) ensures Recorded(rounds + [r], x) {
      if x == b {
        assert (rounds + [r])[|rounds|].endBlock == b;
      } else {
        assert Recorded(rounds, x);
        var i :| 0 <= i < |rounds| && rounds[i].endBlock == x;
        assert (rounds + [r])[i].endBlock == x;
      }
    }
  }

  lemma AppendedRecords(c: Chain, rounds: seq<Round>, r: Round, b: int, end: int)
    requires AllRecords(c, rounds, b + 1, end)
    requires r.endBlock == b && r.keyGenRound == c.round(b) && Classified(c, r) && IsRecord(c, end, b)
    ensures AllRecords(c, rounds + [r], b, end)
  {
    hide IsRecord, Classified;
  }

  lemma ScannedRecord(c: Chain, rounds: seq<Round>, lowest: int, r: Round, b: int, end: int)
    requires Scanned(c, rounds, b + 1, end) && IsLowest(c, lowest, b + 1, end) && b <= end && c.round(b) < lowest
    requires r.endBlock == b && r.keyGenRound == c.round(b) && Classified(c, r)
    ensures Scanned(c, Starting(rounds, b) + [r], b, end) && IsLowest(c, c.round(b), b, end)
  {
    NextIsRecord(c, lowest, b, end);
    hide Classified, IsRecord, Starting;
    RestartedRecords(c, rounds, b + 1, end, b);
    RestartedRecorded(c, rounds, b + 1, end, b);
    assert forall i | 0 <= i < |rounds| :: rounds[i].endBlock > b;
    hide AllRecords, AllRecorded, Chained;
    AppendedChained(rounds, r, b);
    AppendedRecords(c, Starting(rounds, b), r, b, end);
    AppendedRecorded(c, Starting(rounds, b), r, b, end);
  }

  lemma ScannedSkip(c: Chain, rounds: seq<Round>, lowest: int, b: int, end: int)
    requires Scanned(c, rounds, b + 1, end) && IsLowest(c, lowest, b + 1, end) && b <= end
    requires c.round(b) >= lowest
    ensures Scanned(c, rounds, b, end) && IsLowest(c, lowest, b, end)
  {
    NextIsRecord(c, lowest, b, end);
    hide Classified;
  }

  lemma ScannedStart(c: Chain, rounds: seq<Round>, b: int, end: int)
    requires Scanned(c, rounds, b, end)
    ensures Scanned(c, Starting(rounds, b + 1), b, end)
  {
    RestartedRecords(c, rounds, b, end, b + 1);
    RestartedRecorded(c, rounds, b, end, b + 1);
    StartingChained(rounds, b + 1);
    hide Classified, AllRecords, AllRecorded, IsRecord, Chained, Starting;
  }
}
