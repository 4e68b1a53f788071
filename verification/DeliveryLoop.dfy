/** The delivery loop of process_claim: units are handed out in order, each artifact is taken from its slot,
    and the loop stops at the first unit that is not confirmed. */
module DeliveryLoop {
  import opened Prelude
  import opened DeliveryPlan
  import MediaCache

  type Artifact = MediaCache.Upload

  datatype Receipt = Receipt(messageId: int, fileId: Option<string>)

  /** A storage answer: go on, leave the loop, or return from the whole claim. */
  datatype Gate = Pass | Break | Abort

  /** Everything the environment decides while one unit is handled. `receipts` is None for every failed,
      refused, late or unknown delivery; `closed` says the heartbeat channel was seen closed. */
  datatype Turn = Turn(
    stopBefore: bool,
    allowed: Gate,
    begun: Gate,
    receipts: Option<seq<Receipt>>,
    heartbeatFailed: bool,
    cancelled: bool,
    closed: bool,
    journal: Gate,
    stopAfter: bool)

  datatype Exit = Finished | Left | Returned

  /** The receipts the loop accepts as a delivery of `n` media: one each, positive distinct message IDs. */
  predicate GoodReceipts(receipts: seq<Receipt>, n: nat) {
    && |receipts| == n
    && (forall i :: 0 <= i < n ==> receipts[i].messageId > 0)
    && (forall i, j :: 0 <= i < j < n ==> receipts[i].messageId != receipts[j].messageId)
  }

  /** The unit was begun, delivered with good receipts, and journalled as complete. */
  predicate Confirms(unit: seq<nat>, turn: Turn) {
    && !turn.stopBefore && turn.allowed.Pass? && turn.begun.Pass?
    && turn.receipts.Some? && GoodReceipts(turn.receipts.value, |unit|)
    && !turn.heartbeatFailed && turn.journal.Pass?
  }

  function FileIds(receipts: seq<Receipt>): (ids: seq<Option<string>>)
    ensures |ids| == |receipts| && forall i :: 0 <= i < |ids| ==> ids[i] == receipts[i].fileId
  {
    seq(|receipts|, i requires 0 <= i < |receipts| => receipts[i].fileId)
  }

  function Pick(original: seq<Artifact>, unit: seq<nat>): (media: seq<Artifact>)
    requires forall i :: 0 <= i < |unit| ==> unit[i] < |original|
    ensures |media| == |unit| && forall i :: 0 <= i < |unit| ==> media[i] == original[unit[i]]
  {
    seq(|unit|, i requires 0 <= i < |unit| => original[unit[i]])
  }

  /** What a run left behind: `handed` units went to the sender, the first `done` of them were confirmed, and
      `confirmed` holds their file IDs in artifact order. */
  ghost predicate Record(original: seq<Artifact>, units: seq<seq<nat>>, turns: seq<Turn>, handed: seq<seq<Artifact>>,
                         done: nat, confirmed: seq<Option<string>>)
  {
    && |turns| == |units| && Flatten(units) == Range(0, |original|)
    && done <= |handed| <= done + 1 && |handed| <= |units|
    && (forall k :: 0 <= k < |units| ==> forall i :: 0 <= i < |units[k]| ==> units[k][i] < |original|)
    && (forall k :: 0 <= k < |handed| ==> handed[k] == Pick(original, units[k]))
    && (forall k :: 0 <= k < done ==> Confirms(units[k], turns[k]))
    && |confirmed| == |Flatten(units[..done])|
    && (forall k, i :: 0 <= k < done && 0 <= i < |units[k]| ==>
          units[k][i] < |confirmed| && confirmed[units[k][i]] == turns[k].receipts.value[i].fileId)
  }

  /** The slots while units that begin below `low` are handed out. */
  function Emptied(original: seq<Artifact>, low: nat): (slots: seq<Option<Artifact>>)
    ensures |slots| == |original|
    ensures forall i :: 0 <= i < |original| ==> slots[i] == if i < low then None else Some(original[i])
  {
    seq(|original|, i requires 0 <= i < |original| => if i < low then None else Some(original[i]))
  }

  /** Take one unit's artifacts out of their slots; a slot already empty would be skipped. */
  method TakeUnit(artifacts: array<Option<Artifact>>, ghost original: seq<Artifact>, unit: seq<nat>, ghost low: nat)
    returns (media: seq<Artifact>)
    requires low + |unit| <= |original| && unit == Range(low, low + |unit|)
    requires artifacts[..] == Emptied(original, low)
    modifies artifacts
    ensures media == Pick(original, unit)
    ensures artifacts[..] == Emptied(original, low + |unit|)
  {
    media := [];
    assert |artifacts[..]| == |original|;
    for j := 0 to |unit|
      invariant media == Pick(original, unit)[..j]
      invariant forall i :: 0 <= i < |original| ==> artifacts[i] == if i < low + j then None else Some(original[i])
    {
      var slot := artifacts[unit[j]];
      artifacts[unit[j]] := None;
      if slot.Some? {
        media := media + [slot.value];
      }
    }
  }

  predicate Begins(turn: Turn) {
    !turn.stopBefore && turn.allowed.Pass? && turn.begun.Pass?
  }

  predicate Halts(turn: Turn) {
    turn.stopAfter || turn.cancelled
  }

  /** Why a run stopped where it did: behind its last confirmed unit it was told to stop, or the next unit was
      not confirmed, or none was left; and exactly a unit that was begun was handed out. */
  predicate Stopped(units: seq<seq<nat>>, turns: seq<Turn>, handed: nat, done: nat) {
    && |turns| == |units| && done <= handed <= |units|
    && (forall k :: 0 <= k < done - 1 ==> !Halts(turns[k]))
    && if done > 0 && Halts(turns[done - 1]) then handed == done
       else done < |units| ==> !Confirms(units[done], turns[done]) && (handed == done + 1 <==> Begins(turns[done]))
  }

  /** The first gate that does not let the unit pass ends the whole claim. */
  predicate Aborts(turn: Turn) {
    && !turn.stopBefore
    && (|| turn.allowed.Abort? || (turn.allowed.Pass? && turn.begun.Abort?)
        || (turn.allowed.Pass? && turn.begun.Pass? && turn.journal.Abort?))
  }

  /** One unit: the checks before it, the hand-out, and what came back. */
  method DeliverUnit(artifacts: array<Option<Artifact>>, ghost original: seq<Artifact>, unit: seq<nat>, turn: Turn,
                     ghost low: nat)
    returns (media: Option<seq<Artifact>>, receipts: Option<seq<Receipt>>, exit: Exit)
    requires low + |unit| <= |original| && unit == Range(low, low + |unit|)
    requires artifacts[..] == Emptied(original, low)
    modifies artifacts
    ensures media == if Begins(turn) then Some(Pick(original, unit)) else None
    ensures media.Some? <==> !turn.stopBefore && turn.allowed.Pass? && turn.begun.Pass?
    ensures artifacts[..] == Emptied(original, if Begins(turn) then low + |unit| else low)
    ensures receipts == if Confirms(unit, turn) then turn.receipts else None
    ensures receipts.None? ==> exit == if Aborts(turn) then Returned else Left
  {
    hide Emptied, Pick;
    media, receipts, exit := None, None, Left;
    if turn.stopBefore {
      return;
    }
    if !turn.allowed.Pass? {
      exit := if turn.allowed.Break? then Left else Returned;
      return;
    }
    if !turn.begun.Pass? {
      exit := if turn.begun.Break? then Left else Returned;
      return;
    }
    var taken := TakeUnit(artifacts, original, unit, low);
    media := Some(taken);
    if turn.receipts.None? || !GoodReceipts(turn.receipts.value, |unit|) || turn.heartbeatFailed
      || !turn.journal.Pass? {
      exit := if turn.journal.Abort? then Returned else Left;
      return;
    }
    receipts := turn.receipts;
  }

  /** A run that goes on: k units are confirmed, and none of them told it to stop. */
  ghost predicate Running(original: seq<Artifact>, units: seq<seq<nat>>, turns: seq<Turn>, slots: seq<Option<Artifact>>,
                          handed: seq<seq<Artifact>>, k: nat, confirmed: seq<Option<string>>, closed: bool)
  {
    && Record(original, units, turns, handed, k, confirmed) && |handed| == k
    && slots == Emptied(original, |Flatten(units[..k])|)
    && (forall u :: 0 <= u < k ==> !Halts(turns[u]))
    && (closed <==> exists u :: 0 <= u < k && turns[u].closed)
  }

  /** A run that is over: its record, exactly the slots of the handed units empty, a reason to stop, and the
      cancellations and closings that were seen while units were out. */
  ghost predicate Over(original: seq<Artifact>, units: seq<seq<nat>>, turns: seq<Turn>, slots: seq<Option<Artifact>>,
                       handed: seq<seq<Artifact>>, done: nat, confirmed: seq<Option<string>>, cancelled: bool,
                       closed: bool)
  {
    && Record(original, units, turns, handed, done, confirmed)
    && slots == Emptied(original, |Flatten(units[..|handed|])|)
    && Stopped(units, turns, |handed|, done)
    && (cancelled <==> |handed| > 0 && turns[|handed| - 1].cancelled)
    && (closed <==> exists k :: 0 <= k < |handed| && turns[k].closed)
  }

  lemma RunBegins(original: seq<Artifact>, units: seq<seq<nat>>, turns: seq<Turn>)
    requires |turns| == |units| && Flatten(units) == Range(0, |original|)
    ensures Running(original, units, turns, Emptied(original, 0), [], 0, [], false)
  {
    UnitsInRange(units, |original|);
    assert units[..0] == [];
  }

  lemma RunEnds(original: seq<Artifact>, units: seq<seq<nat>>, turns: seq<Turn>, slots: seq<Option<Artifact>>,
                handed: seq<seq<Artifact>>, confirmed: seq<Option<string>>, closed: bool)
    requires Running(original, units, turns, slots, handed, |units|, confirmed, closed)
    ensures Over(original, units, turns, slots, handed, |units|, confirmed, false, closed)
  {
  }

  lemma NextUnit(original: seq<Artifact>, units: seq<seq<nat>>, turns: seq<Turn>, slots: seq<Option<Artifact>>,
                 handed: seq<seq<Artifact>>, k: nat, confirmed: seq<Option<string>>, closed: bool)
    requires k < |units| && Running(original, units, turns, slots, handed, k, confirmed, closed)
    ensures k < |turns| && |Flatten(units[..k])| + |units[k]| <= |original|
    ensures units[k] == Range(|Flatten(units[..k])|, |Flatten(units[..k])| + |units[k]|)
    ensures |Flatten(units[..k + 1])| == |Flatten(units[..k])| + |units[k]|
    ensures slots == Emptied(original, |Flatten(units[..k])|)
  {
    UnitsAreConsecutive(units, |original|, k);
  }

  /** A unit that was not confirmed ends the run. */
  lemma UnitFails(original: seq<Artifact>, units: seq<seq<nat>>, turns: seq<Turn>, slots: seq<Option<Artifact>>,
                  handed: seq<seq<Artifact>>, k: nat, confirmed: seq<Option<string>>, closed: bool)
    requires k < |units| && Running(original, units, turns, slots, handed, k, confirmed, closed)
    requires !Confirms(units[k], turns[k])
    ensures !Begins(turns[k]) ==> Over(original, units, turns, slots, handed, k, confirmed, false, closed)
    ensures Begins(turns[k]) ==>
      && (forall i :: 0 <= i < |units[k]| ==> units[k][i] < |original|)
      && Over(original, units, turns, Emptied(original, |Flatten(units[..k + 1])|),
              handed + [Pick(original, units[k])], k, confirmed, turns[k].cancelled, closed || turns[k].closed)
  {
    hide Flatten, Emptied;
    HandedOver(original, units, turns, handed, k, confirmed);
    ClosedSoFar(turns, k, closed);
    hide Record;
  }

  lemma ClosedSoFar(turns: seq<Turn>, k: nat, closed: bool)
    requires k < |turns| && (closed <==> exists u :: 0 <= u < k && turns[u].closed)
    ensures closed || turns[k].closed <==> exists u :: 0 <= u < k + 1 && turns[u].closed
  {
  }

  /** A confirmed unit either ends the run, when it is told to stop, or carries it on. */
  lemma UnitSucceeds(original: seq<Artifact>, units: seq<seq<nat>>, turns: seq<Turn>, slots: seq<Option<Artifact>>,
                     handed: seq<seq<Artifact>>, k: nat, confirmed: seq<Option<string>>, closed: bool)
    requires k < |units| && Running(original, units, turns, slots, handed, k, confirmed, closed)
    requires Confirms(units[k], turns[k])
    ensures forall i :: 0 <= i < |units[k]| ==> units[k][i] < |original|
    ensures var after := Emptied(original, |Flatten(units[..k + 1])|);
      var more, ids := handed + [Pick(original, units[k])], confirmed + FileIds(turns[k].receipts.value);
      if Halts(turns[k])
      then Over(original, units, turns, after, more, k + 1, ids, turns[k].cancelled, closed || turns[k].closed)
      else Running(original, units, turns, after, more, k + 1, ids, closed || turns[k].closed)
  {
    hide Flatten, Emptied;
    HandedOver(original, units, turns, handed, k, confirmed);
    Confirmed(original, units, turns, handed + [Pick(original, units[k])], k, confirmed);
    ClosedSoFar(turns, k, closed);
    hide Record;
  }

  /** The loop. Slots of `artifacts` are emptied as units are handed out. */
  method DeliverUnits(artifacts: array<Option<Artifact>>, ghost original: seq<Artifact>, units: seq<seq<nat>>,
                      turns: seq<Turn>)
    returns (handed: seq<seq<Artifact>>, done: nat, confirmed: seq<Option<string>>, cancelled: bool, closed: bool,
             exit: Exit)
    requires artifacts[..] == Emptied(original, 0)
    requires |turns| == |units| && Flatten(units) == Range(0, |original|)
    modifies artifacts
    ensures Over(original, units, turns, artifacts[..], handed, done, confirmed, cancelled, closed)
    ensures exit.Finished? <==> done == |units| && (done > 0 ==> !Halts(turns[done - 1]))
    ensures exit.Returned? <==> done < |units| && (done > 0 ==> !Halts(turns[done - 1])) && Aborts(turns[done])
  {
    hide Running, Over, Record, Confirms, Begins, Flatten, Pick, Emptied;
    handed, done, confirmed, cancelled, closed := [], 0, [], false, false;
    RunBegins(original, units, turns);
    while done < |units|
      invariant done <= |units| && !cancelled && (done > 0 ==> !Halts(turns[done - 1]))
      invariant Running(original, units, turns, artifacts[..], handed, done, confirmed, closed)
    {
      var unit, turn := units[done], turns[done];
      ghost var low := |Flatten(units[..done])|;
      NextUnit(original, units, turns, artifacts[..], handed, done, confirmed, closed);
      ConfirmsMeans(unit, turn);
      if Confirms(unit, turn) {
        UnitSucceeds(original, units, turns, artifacts[..], handed, done, confirmed, closed);
      } else {
        UnitFails(original, units, turns, artifacts[..], handed, done, confirmed, closed);
      }
      var media, receipts, out := DeliverUnit(artifacts, original, unit, turn, low);
      if media.Some? {
        handed := handed + [media.value];
        cancelled := turn.cancelled;
        closed := closed || turn.closed;
      }
      if receipts.None? {
        exit := out;
        return;
      }
      confirmed := confirmed + FileIds(receipts.value);
      done := done + 1;
      if turn.stopAfter || cancelled {
        exit := Left;
        return;
      }
    }
    RunEnds(original, units, turns, artifacts[..], handed, confirmed, closed);
    exit := Finished;
  }

  lemma UnitsInRange(units: seq<seq<nat>>, n: nat)
    requires Flatten(units) == Range(0, n)
    ensures forall k :: 0 <= k < |units| ==> forall i :: 0 <= i < |units[k]| ==> units[k][i] < n
  {
    forall k | 0 <= k < |units|
      ensures forall i :: 0 <= i < |units[k]| ==> units[k][i] < n
    {
      UnitsAreConsecutive(units, n, k);
    }
  }

  /** A unit that was handed out extends the record, whatever comes of it. */
  lemma HandedOver(original: seq<Artifact>, units: seq<seq<nat>>, turns: seq<Turn>, handed: seq<seq<Artifact>>, k: nat,
                   confirmed: seq<Option<string>>)
    requires k < |units| && |handed| == k && Record(original, units, turns, handed, k, confirmed)
    ensures forall i :: 0 <= i < |units[k]| ==> units[k][i] < |original|
    ensures Record(original, units, turns, handed + [Pick(original, units[k])], k, confirmed)
  {
  }

  lemma ConfirmsMeans(unit: seq<nat>, turn: Turn)
    ensures Confirms(unit, turn) ==> Begins(turn) && turn.receipts.Some?
  {
  }

  /** One more confirmed unit keeps the receipts in artifact order. */
  lemma Confirmed(original: seq<Artifact>, units: seq<seq<nat>>, turns: seq<Turn>, handed: seq<seq<Artifact>>, k: nat,
                  confirmed: seq<Option<string>>)
    requires k < |units| && |handed| == k + 1
    requires Record(original, units, turns, handed, k, confirmed)
    requires Confirms(units[k], turns[k])
    ensures Record(original, units, turns, handed, k + 1, confirmed + FileIds(turns[k].receipts.value))
  {
    var n := |original|;
    UnitsAreConsecutive(units, n, k);
    var more := confirmed + FileIds(turns[k].receipts.value);
    forall u, i | 0 <= u < k + 1 && 0 <= i < |units[u]|
      ensures units[u][i] < |more| && more[units[u][i]] == turns[u].receipts.value[i].fileId
    {
      if u == k {
        assert units[k][i] == |confirmed| + i;
      }
    }
  }

  /** Each artifact is in at most one handed-out unit, at one place. */
  lemma HandedOnce(original: seq<Artifact>, units: seq<seq<nat>>, turns: seq<Turn>, handed: seq<seq<Artifact>>,
                   done: nat,
                   confirmed: seq<Option<string>>, k: nat, i: nat, l: nat, j: nat)
    requires Record(original, units, turns, handed, done, confirmed)
    requires k < |handed| && i < |units[k]| && l < |handed| && j < |units[l]|
    requires units[k][i] == units[l][j]
    ensures k == l && i == j
  {
    hide Confirms, Pick;
    UnitsAreConsecutive(units, |original|, k);
    UnitsAreConsecutive(units, |original|, l);
    if k < l {
      EndsGrow(units, k + 1, l);
    } else if l < k {
      EndsGrow(units, l + 1, k);
    }
  }

  lemma {:induction false} EndsGrow(units: seq<seq<nat>>, a: nat, b: nat)
    requires a <= b <= |units|
    ensures |Flatten(units[..a])| <= |Flatten(units[..b])|
  {
    if a < b {
      EndsGrow(units, a, b - 1);
      assert units[..b] == units[..b - 1] + [units[b - 1]];
      FlattenSnoc(units[..b - 1], units[b - 1]);
    }
  }

  // ----- publication -----

  datatype Heartbeat = Quiet | Cancelled | Lost

  /** The checks after the loop: what is left of the confirmed file IDs, and whether they may be cached. A
      channel that was seen closed stays closed. */
  function Published(uploads: seq<Artifact>, confirmed: seq<Option<string>>, exit: Exit, cancelled: bool, closed: bool,
                     last: Heartbeat, shutdown: bool, cacheable: bool, sendAsFile: bool): Option<seq<MediaCache.Cached>>
  {
    var lost := closed || last.Lost?;
    var kept := if lost then [] else confirmed;
    if exit.Returned? || !cacheable || shutdown || cancelled || last.Cancelled? || |kept| != |uploads| then None
    else MediaCache.BuildCached(uploads, kept, sendAsFile)
  }

  /** The shutdown token stays cancelled once it is: a run that was told to stop by it ends with it cancelled. */
  predicate Latched(turns: seq<Turn>, done: nat, shutdown: bool)
    requires done <= |turns|
  {
    forall k :: 0 <= k < done && turns[k].stopAfter && !turns[k].cancelled ==> shutdown
  }

  /** The cache is published only when every unit was confirmed, no unit saw a cancellation, a shutdown or a
      heartbeat loss, and none is seen afterwards; and then the cached item of artifact i carries the file ID
      of artifact i's own receipt. */
  lemma PublicationIsAligned(original: seq<Artifact>, units: seq<seq<nat>>, turns: seq<Turn>,
                             slots: seq<Option<Artifact>>,
                             handed: seq<seq<Artifact>>, done: nat, confirmed: seq<Option<string>>, exit: Exit,
                             cancelled: bool, closed: bool, last: Heartbeat, shutdown: bool, cacheable: bool,
                             sendAsFile: bool)
    requires Over(original, units, turns, slots, handed, done, confirmed, cancelled, closed)
    requires Latched(turns, done, shutdown)
    requires forall k :: 0 <= k < |units| ==> |units[k]| >= 1
    requires Published(original, confirmed, exit, cancelled, closed, last, shutdown, cacheable, sendAsFile).Some?
    ensures done == |units| == |handed| && last.Quiet? && !shutdown
    ensures forall k :: 0 <= k < |units| ==>
      && Confirms(units[k], turns[k]) && !turns[k].heartbeatFailed
      && !turns[k].cancelled && !turns[k].closed && !turns[k].stopBefore && !turns[k].stopAfter
    ensures var media :=
      Published(original, confirmed, exit, cancelled, closed, last, shutdown, cacheable, sendAsFile).value;
      && |media| == |original|
      && forall k, i :: 0 <= k < |units| && 0 <= i < |units[k]| ==>
           && turns[k].receipts.value[i].fileId == Some(media[units[k][i]].fileId)
           && handed[k][i] == original[units[k][i]]
           && media[units[k][i]].size == original[units[k][i]].size
           && media[units[k][i]].metadata == original[units[k][i]].metadata
  {
    MediaCache.BuildItemsAll(original, confirmed, sendAsFile);
    if done < |units| {
      UnitsAreConsecutive(units, |original|, done);
    }
    assert done == |units|;
    forall k | 0 <= k < |units|
      ensures !turns[k].cancelled && !turns[k].stopAfter
    {
      assert k < done - 1 ==> !Halts(turns[k]);
    }
  }

  /** What the environment must grant unit k for the run to count: it is begun, its receipts are one positive ID for
      each artifact, all different, it is journalled, and nothing ends, cancels or cuts the run while it is out. */
  predicate Undisturbed(unit: seq<nat>, turn: Turn) {
    && !turn.stopBefore && turn.allowed.Pass? && turn.begun.Pass?
    && turn.receipts.Some? && |turn.receipts.value| == |unit|
    && (forall r :: r in turn.receipts.value ==> r.messageId >= 1)
    && (forall i, j :: 0 <= i < j < |unit| ==> turn.receipts.value[i].messageId != turn.receipts.value[j].messageId)
    && turn.journal.Pass? && !turn.heartbeatFailed && !turn.stopAfter && !turn.cancelled && !turn.closed
  }

  /** An artifact that can be cached under the file ID of its receipt. */
  predicate Cacheable(artifact: Artifact, receipt: Receipt) {
    && receipt.fileId.Some? && 1 <= |receipt.fileId.value| <= 4096
    && (forall c :: c in receipt.fileId.value ==>
          'a' <= c <= 'z' || 'A' <= c <= 'Z' || '0' <= c <= '9' || c == '_' || c == '-' || c == '=')
    && artifact.size != 0 && artifact.size <= 2147483648
    && artifact.metadata.Some? && artifact.metadata.value.valid
  }

  lemma UndisturbedMeans(unit: seq<nat>, turn: Turn)
    ensures Undisturbed(unit, turn) <==>
      Confirms(unit, turn) && !turn.stopBefore && !turn.stopAfter && !turn.cancelled && !turn.closed
  {
  }

  lemma CacheableMeans(artifact: Artifact, receipt: Receipt)
    ensures Cacheable(artifact, receipt) <==> MediaCache.Publishable(artifact, receipt.fileId)
  {
  }

  /** Each artifact is in some unit. */
  lemma {:induction false} UnitOf(units: seq<seq<nat>>, x: nat) returns (k: nat, i: nat)
    requires x in Flatten(units)
    ensures k < |units| && i < |units[k]| && units[k][i] == x
  {
    var last := |units| - 1;
    if x in units[last] {
      k := last;
      i :| 0 <= i < |units[last]| && units[last][i] == x;
    } else {
      k, i := UnitOf(units[..last], x);
    }
  }

  ghost predicate AllUndisturbed(units: seq<seq<nat>>, turns: seq<Turn>) {
    |turns| == |units| && forall k :: 0 <= k < |units| ==> Undisturbed(units[k], turns[k])
  }

  ghost predicate AllCacheable(original: seq<Artifact>, units: seq<seq<nat>>, turns: seq<Turn>) {
    && AllUndisturbed(units, turns)
    && (forall k, i :: 0 <= k < |units| && 0 <= i < |units[k]| ==>
          units[k][i] < |original| && Cacheable(original[units[k][i]], turns[k].receipts.value[i]))
  }

  lemma PublishedWasUndisturbed(original: seq<Artifact>, units: seq<seq<nat>>, turns: seq<Turn>,
                                handed: seq<seq<Artifact>>, confirmed: seq<Option<string>>, sendAsFile: bool)
    requires Record(original, units, turns, handed, |units|, confirmed)
    requires |confirmed| == |original| && MediaCache.BuildItems(original, confirmed, sendAsFile).Some?
    requires forall k :: 0 <= k < |units| ==>
      && Confirms(units[k], turns[k])
      && !turns[k].cancelled && !turns[k].closed && !turns[k].stopBefore && !turns[k].stopAfter
    ensures AllCacheable(original, units, turns)
  {
    MediaCache.BuildItemsAll(original, confirmed, sendAsFile);
    forall k | 0 <= k < |units|
      ensures Undisturbed(units[k], turns[k])
    {
      UndisturbedMeans(units[k], turns[k]);
    }
    forall k, i | 0 <= k < |units| && 0 <= i < |units[k]|
      ensures units[k][i] < |original| && Cacheable(original[units[k][i]], turns[k].receipts.value[i])
    {
      CacheableMeans(original[units[k][i]], turns[k].receipts.value[i]);
    }
  }

  lemma CacheableIsBuilt(original: seq<Artifact>, units: seq<seq<nat>>, turns: seq<Turn>, handed: seq<seq<Artifact>>,
                         confirmed: seq<Option<string>>, sendAsFile: bool)
    requires Record(original, units, turns, handed, |units|, confirmed) && AllCacheable(original, units, turns)
    ensures |confirmed| == |original| && MediaCache.BuildItems(original, confirmed, sendAsFile).Some?
  {
    assert units[..|units|] == units;
    forall x | 0 <= x < |original|
      ensures MediaCache.Publishable(original[x], confirmed[x])
    {
      assert Range(0, |original|)[x] == x;
      var k, i := UnitOf(units, x);
      CacheableMeans(original[x], turns[k].receipts.value[i]);
    }
    MediaCache.BuildItemsAll(original, confirmed, sendAsFile);
  }

  lemma UndisturbedRunEnds(original: seq<Artifact>, units: seq<seq<nat>>, turns: seq<Turn>,
                           slots: seq<Option<Artifact>>, handed: seq<seq<Artifact>>, done: nat,
                           confirmed: seq<Option<string>>, cancelled: bool, closed: bool)
    requires Over(original, units, turns, slots, handed, done, confirmed, cancelled, closed)
    requires AllUndisturbed(units, turns)
    ensures done == |units| == |handed| && !cancelled && !closed && (done > 0 ==> !Halts(turns[done - 1]))
  {
    hide Record, Undisturbed, Emptied, Confirms, Flatten;
    assert Record(original, units, turns, handed, done, confirmed);
    forall k | 0 <= k < |units|
      ensures Confirms(units[k], turns[k]) && !turns[k].stopAfter && !turns[k].cancelled && !turns[k].closed
    {
      UndisturbedMeans(units[k], turns[k]);
    }
  }

  /** The cache is published exactly when caching is wanted, something was to be sent, the run went through
      undisturbed from the first unit to the last and nothing was cut off or cancelled after it, and every artifact
      can be cached under the file ID of its own receipt. */
  lemma PublishedIff(original: seq<Artifact>, units: seq<seq<nat>>, turns: seq<Turn>, slots: seq<Option<Artifact>>,
                     handed: seq<seq<Artifact>>, done: nat, confirmed: seq<Option<string>>, exit: Exit,
                     cancelled: bool, closed: bool, last: Heartbeat, shutdown: bool, cacheable: bool, sendAsFile: bool)
    requires Over(original, units, turns, slots, handed, done, confirmed, cancelled, closed)
    requires exit.Finished? <==> done == |units| && (done > 0 ==> !Halts(turns[done - 1]))
    requires Latched(turns, done, shutdown) && forall k :: 0 <= k < |units| ==> |units[k]| >= 1
    ensures Published(original, confirmed, exit, cancelled, closed, last, shutdown, cacheable, sendAsFile).Some? <==>
      && cacheable && original != [] && last.Quiet? && !shutdown
      && (forall k :: 0 <= k < |units| ==> Undisturbed(units[k], turns[k]))
      && (forall k, i :: 0 <= k < |units| && 0 <= i < |units[k]| ==>
            Cacheable(original[units[k][i]], turns[k].receipts.value[i]))
  {
    hide Undisturbed, Cacheable, Confirms, Flatten, Stopped, MediaCache.BuildItems;
    if Published(original, confirmed, exit, cancelled, closed, last, shutdown, cacheable, sendAsFile).Some? {
      PublicationIsAligned(original, units, turns, slots, handed, done, confirmed, exit, cancelled, closed, last,
                           shutdown, cacheable, sendAsFile);
      PublishedWasUndisturbed(original, units, turns, handed, confirmed, sendAsFile);
    } else if AllCacheable(original, units, turns) {
      UndisturbedRunEnds(original, units, turns, slots, handed, done, confirmed, cancelled, closed);
      CacheableIsBuilt(original, units, turns, handed, confirmed, sendAsFile);
    }
  }
}
