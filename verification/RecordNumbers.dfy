/** Sealing DTLS records: the per-epoch sequence counters, their byte-wise increment and the number
    each record carries (section 4.1 of RFC 6347). */
module RecordNumbers {
  import opened BigEndian

  const RT_HEADER_LENGTH := 13
  const COUNTER_SPAN := 0x1_0000_0000_0000
  const EPOCH_SPAN := 0x1_0000

  /** The write epoch, the next number in it, and the next number in the epoch before. */
  datatype Numbers = Numbers(epoch: nat, next: nat, lastNext: nat)

  const START := Numbers(0, 0, 0)

  /** How sealing went: encryption may fail, and its result may be too long for the header. */
  datatype Crypto = Fails | NoRoom | Overflows | Fits

  datatype Event =
    | Seal(previous: bool, crypto: Crypto)
    | ChangeCipher

  /** The epoch and sequence number the next record of the chosen epoch carries. */
  function NumberOf(n: Numbers, previous: bool): (nat, nat)
    requires previous ==> n.epoch >= 1
  {
    if previous then (n.epoch - 1, n.lastNext) else (n.epoch, n.next)
  }

  function Bumped(n: Numbers, previous: bool): Numbers {
    if previous then n.(lastNext := (n.lastNext + 1) % COUNTER_SPAN)
    else n.(next := (n.next + 1) % COUNTER_SPAN)
  }

  /** The counter was at its last value, so incrementing it fails. */
  predicate Exhausted(n: Numbers, previous: bool) {
    (if previous then n.lastNext else n.next) + 1 == COUNTER_SPAN
  }

  predicate Seals(n: Numbers, previous: bool, crypto: Crypto) {
    crypto.Fits? && !Exhausted(n, previous)
  }

  function AfterSeal(n: Numbers, previous: bool, crypto: Crypto): Numbers {
    if crypto in {Fails, NoRoom} then n else Bumped(n, previous)
  }

  function AfterChange(n: Numbers): Numbers {
    Numbers((n.epoch + 1) % EPOCH_SPAN, 0, n.next)
  }

  /** The counters, the numbers of the records sealed so far in order, whether a counter ever ran
      out, and how many cipher changes there were. */
  datatype Log = Log(numbers: Numbers, sealed: seq<(nat, nat)>, ranOut: bool, changes: nat)

  function Step(log: Log, event: Event): Log {
    match event
    case ChangeCipher => log.(numbers := AfterChange(log.numbers), changes := log.changes + 1)
    case Seal(previous, crypto) =>
      var n := log.numbers;
      if previous && n.epoch == 0 then log
      else
        Log(AfterSeal(n, previous, crypto),
            if Seals(n, previous, crypto) then log.sealed + [NumberOf(n, previous)] else log.sealed,
            log.ranOut || (crypto !in {Fails, NoRoom} && Exhausted(n, previous)),
            log.changes)
  }

  function Run(events: seq<Event>): Log {
    if events == [] then Log(START, [], false, 0)
    else Step(Run(events[..|events| - 1]), events[|events| - 1])
  }

  /** How many attempts to seal a record failed, other than for want of room. */
  function FailedSeals(events: seq<Event>): nat {
    if events == [] then 0
    else
      var earlier := events[..|events| - 1];
      FailedSeals(earlier) + if Failed(events[|events| - 1], Run(earlier), Run(events)) then 1 else 0
  }

  predicate Failed(event: Event, before: Log, after: Log) {
    event.Seal? && event.crypto != NoRoom && after.sealed == before.sealed
  }

  /** Every number sealed lies behind its epoch's counter. */
  ghost predicate Behind(number: (nat, nat), n: Numbers) {
    && number.0 <= n.epoch
    && (number.0 == n.epoch ==> number.1 < n.next)
    && (number.0 + 1 == n.epoch ==> number.1 < n.lastNext)
  }

  ghost predicate Distinct(sealed: seq<(nat, nat)>) {
    forall i, j | 0 <= i < j < |sealed| :: sealed[i] != sealed[j]
  }

  /** In every epoch the numbers go up. */
  ghost predicate Increasing(sealed: seq<(nat, nat)>) {
    forall i, j | 0 <= i < j < |sealed| && sealed[i].0 == sealed[j].0 :: sealed[i].1 < sealed[j].1
  }

  lemma StillDistinct(sealed: seq<(nat, nat)>, number: (nat, nat))
    requires Distinct(sealed)
    ensures Distinct(sealed + [number]) <==> number !in sealed
  {
    var longer := sealed + [number];
    assert longer[|sealed|] == number;
    if number in sealed {
      var i :| 0 <= i < |sealed| && sealed[i] == number;
      assert longer[i] == longer[|sealed|];
    }
  }

  lemma {:induction false} RunInvariant(events: seq<Event>)
    requires !Run(events).ranOut && Run(events).changes < EPOCH_SPAN
    ensures var log := Run(events);
            && log.numbers.epoch == log.changes
            && log.numbers.next < COUNTER_SPAN && log.numbers.lastNext < COUNTER_SPAN
            && (forall number <- log.sealed :: Behind(number, log.numbers))
            && Distinct(log.sealed)
  {
    hide Distinct;
    if events == [] {
      NothingRepeats();
    } else {
      var prefix, last := events[..|events| - 1], events[|events| - 1];
      RunInvariant(prefix);
      var log := Run(prefix);
      if last.Seal? && !(last.previous && log.numbers.epoch == 0) && Seals(log.numbers, last.previous, last.crypto) {
        var number := NumberOf(log.numbers, last.previous);
        assert !Behind(number, log.numbers);
        StillDistinct(log.sealed, number);
      }
    }
  }

  lemma NothingRepeats()
    ensures Distinct([])
  {
  }

  /** In a run where no counter ran out and the epoch did not wrap, every sealed record has its own
      epoch and sequence number. */
  lemma SealedNumbersDistinct(events: seq<Event>)
    requires !Run(events).ranOut && Run(events).changes < EPOCH_SPAN
    ensures Distinct(Run(events).sealed)
  {
    RunInvariant(events);
  }

  /** Epochs have sixteen bits and the numbers in them forty-eight. */
  lemma {:induction false} NumbersFit(events: seq<Event>)
    ensures var log := Run(events);
            && log.numbers.epoch < EPOCH_SPAN && log.numbers.next < COUNTER_SPAN && log.numbers.lastNext < COUNTER_SPAN
            && forall number <- log.sealed :: number.0 < EPOCH_SPAN && number.1 < COUNTER_SPAN
  {
    if events != [] {
      NumbersFit(events[..|events| - 1]);
    }
  }

  lemma StillIncreasing(n: Numbers, sealed: seq<(nat, nat)>, previous: bool)
    requires Increasing(sealed) && (previous ==> n.epoch >= 1)
    requires forall number <- sealed :: Behind(number, n)
    ensures Increasing(sealed + [NumberOf(n, previous)])
  {
    var number := NumberOf(n, previous);
    forall i | 0 <= i < |sealed| && sealed[i].0 == number.0 ensures sealed[i].1 < number.1 {
      assert Behind(sealed[i], n);
    }
  }

  /** The numbers sealed in an epoch go up, whatever is sealed in the other one in between. */
  lemma {:induction false} SealedNumbersIncrease(events: seq<Event>)
    requires !Run(events).ranOut && Run(events).changes < EPOCH_SPAN
    ensures Increasing(Run(events).sealed)
  {
    hide Behind, Increasing;
    if events == [] {
      assert Increasing([]) by { NothingIncreases(); }
    } else {
      var prefix, last := events[..|events| - 1], events[|events| - 1];
      SealedNumbersIncrease(prefix);
      RunInvariant(prefix);
      var log := Run(prefix);
      if last.Seal? && !(last.previous && log.numbers.epoch == 0) && Seals(log.numbers, last.previous, last.crypto) {
        StillIncreasing(log.numbers, log.sealed, last.previous);
      }
    }
  }

  lemma NothingIncreases()
    ensures Increasing([])
  {
  }

  /** From `before` to `after` records were sealed, with these numbers, and no cipher changed. */
  ghost predicate Sealing(before: seq<Event>, after: seq<Event>, numbers: seq<(nat, nat)>) {
    before <= after && Run(after).sealed == Run(before).sealed + numbers && Run(after).changes == Run(before).changes
  }

  lemma SealingNothing(events: seq<Event>)
    ensures Sealing(events, events, [])
  {
  }

  lemma SealingOn(a: seq<Event>, b: seq<Event>, c: seq<Event>, first: seq<(nat, nat)>, second: seq<(nat, nat)>)
    requires Sealing(a, b, first) && Sealing(b, c, second)
    ensures Sealing(a, c, first + second)
  {
    hide Run;
    assert Run(a).sealed + first + second == Run(a).sealed + (first + second);
  }

  /** A counter cannot run out without a failed seal. */
  lemma {:induction false} NoFailureNoRunOut(before: seq<Event>, after: seq<Event>)
    requires before <= after && FailedSeals(after) <= FailedSeals(before) && !Run(before).ranOut
    ensures !Run(after).ranOut && FailedSeals(after) == FailedSeals(before)
    decreases |after|
  {
    if |before| < |after| {
      var earlier := after[..|after| - 1];
      FailuresGrow(before, earlier);
      NoFailureNoRunOut(before, earlier);
    } else {
      assert after == before;
    }
  }

  lemma {:induction false} FailuresGrow(before: seq<Event>, after: seq<Event>)
    requires before <= after
    ensures FailedSeals(before) <= FailedSeals(after)
    decreases |after|
  {
    hide Run;
    if |before| < |after| {
      FailuresGrow(before, after[..|after| - 1]);
    } else {
      assert after == before;
    }
  }

  // ----- running out -----

  /** `n` seals in the current epoch that succeed as long as the counter lasts. */
  function SealTimes(n: nat): seq<Event> {
    seq(n, _ => Seal(false, Fits))
  }

  /** A run of `n` seals is possible for any `n` the counter can hold, and uses the numbers up to `n`. */
  lemma {:induction false} SealingUpTo(n: nat)
    requires n < COUNTER_SPAN
    ensures var log := Run(SealTimes(n));
            && log.numbers == Numbers(0, n, 0) && !log.ranOut && log.changes == 0
            && |log.sealed| == n && forall i | 0 <= i < n :: log.sealed[i] == (0, i)
  {
    if n > 0 {
      SealingUpTo(n - 1);
      assert SealTimes(n)[..n - 1] == SealTimes(n - 1);
    }
  }

  /** The epoch in which the next record of the chosen epoch is sealed has a record numbered zero. */
  ghost predicate ZeroUsed(log: Log, previous: bool)
    requires previous ==> log.numbers.epoch >= 1
  {
    (NumberOf(log.numbers, previous).0, 0) in log.sealed
  }

  /** Exactly when a run in which no counter ran out yet goes on to repeat a number: the counter is at
      its last value, so that the next seal fails and leaves zero behind, and zero was used before. */
  lemma RepeatsIffUsedUp(events: seq<Event>, previous: bool)
    requires !Run(events).ranOut && Run(events).changes < EPOCH_SPAN
    requires previous ==> Run(events).numbers.epoch >= 1
    ensures var log := Run(events);
            Distinct(Run(events + [Seal(previous, Fits), Seal(previous, Fits)]).sealed)
            <==> !(Exhausted(log.numbers, previous) && ZeroUsed(log, previous))
  {
    hide Distinct, Run;
    var log, event := Run(events), Seal(previous, Fits);
    RunInvariant(events);
    var once := Step(log, event);
    var twice := Step(once, event);
    RunSnoc(events, event);
    RunSnoc(events + [event], event);
    assert events + [event] + [event] == events + [event, event];
    StillDistinct(log.sealed, NumberOf(log.numbers, previous));
    assert !Behind(NumberOf(log.numbers, previous), log.numbers);
    if Exhausted(log.numbers, previous) {
      StillDistinct(log.sealed, NumberOf(once.numbers, previous));
    } else {
      assert !Behind(NumberOf(once.numbers, previous), log.numbers);
      StillDistinct(once.sealed, NumberOf(once.numbers, previous));
    }
  }

  /** The run that does it: as many records as the counter can number, a seal that fails, and one more,
      which carries number zero again. One seal earlier all numbers are still different. */
  lemma RunningOutRepeatsZero()
    ensures var full := SealTimes(COUNTER_SPAN - 1);
            && Exhausted(Run(full).numbers, false)
            && Distinct(Run(full + [Seal(false, Fits)]).sealed) && Run(full + [Seal(false, Fits)]).ranOut
            && !Distinct(Run(full + [Seal(false, Fits), Seal(false, Fits)]).sealed)
  {
    hide Run, Distinct, SealTimes;
    var full := SealTimes(COUNTER_SPAN - 1);
    SealingUpTo(COUNTER_SPAN - 1);
    assert Run(full).sealed[0] == (0, 0);
    RunInvariant(full);
    RunSnoc(full, Seal(false, Fits));
    RepeatsIffUsedUp(full, false);
  }

  // ----- the program's operations -----

  /** Lengths of an AEAD: the explicit nonce it prepends and the most it appends. */
  datatype Aead = Aead(nonceLen: nat, maxSuffix: nat) {
    function MaxOverhead(): nat {
      nonceLen + maxSuffix
    }
  }

  /** Encrypts `inLen` bytes into `maxOut`; whether the cipher succeeds, and how much it appends within
      its bound, is up to the cipher. */
  method AeadSeal(aead: Aead, inLen: nat, maxOut: nat) returns (ok: bool, outLen: nat)
    ensures ok ==> aead.nonceLen + inLen <= outLen <= inLen + aead.MaxOverhead() && outLen <= maxOut
  {
    var suffix: nat :| suffix <= aead.maxSuffix;
    outLen := aead.nonceLen + inLen + suffix;
    ok := *;
    ok := ok && outLen <= maxOut;
  }

  /** Increments the big-endian integer in `a[start..]`; false on wrap-around. */
  method SequenceUpdate(a: array<byte>, start: nat) returns (ok: bool)
    requires start <= a.Length
    modifies a
    ensures a[..start] == old(a[..start])
    ensures ok <==> old(Value(a[start..])) + 1 < Power256(a.Length - start)
    ensures Value(a[start..]) == if ok then old(Value(a[start..])) + 1 else 0
  {
    ghost var before := a[start..];
    ValueBound(before);
    var i := a.Length;
    while i > start
      invariant start <= i <= a.Length
      invariant a[..i] == old(a[..i])
      invariant forall k | i <= k < a.Length :: a[k] == 0
      invariant forall k | i - start <= k < |before| :: before[k] == 255
    {
      i := i - 1;
      assert a[i] == old(a[..])[i] == before[i - start];
      if a[i] < 255 {
        a[i] := a[i] + 1;
        CarryStops(before, a[start..], i - start);
        ValueBound(a[start..]);
        return true;
      }
      a[i] := 0;
    }
    AllOnes(before);
    AllZeros(a[start..]);
    ok := false;
  }

  lemma {:induction false} AllOnes(s: seq<byte>)
    requires forall k | 0 <= k < |s| :: s[k] == 255
    ensures Value(s) + 1 == Power256(|s|)
  {
    if s != [] {
      AllOnes(s[..|s| - 1]);
    }
  }

  lemma {:induction false} AllZeros(s: seq<byte>)
    requires forall k | 0 <= k < |s| :: s[k] == 0
    ensures Value(s) == 0
  {
    if s != [] {
      AllZeros(s[..|s| - 1]);
    }
  }

  /** Adding one at position `i`, behind which all digits were full. */
  lemma {:induction false} CarryStops(before: seq<byte>, after: seq<byte>, i: nat)
    requires |after| == |before| && i < |before|
    requires after[..i] == before[..i] && after[i] == (before[i] as int) + 1
    requires forall k | i < k < |before| :: before[k] == 255 && after[k] == 0
    ensures Value(after) == Value(before) + 1
  {
    var n := |before| - 1;
    if i < n {
      assert before[..n][..i] == after[..n][..i];
      CarryStops(before[..n], after[..n], i);
    }
  }

  lemma SixBytes()
    ensures Power256(6) == COUNTER_SPAN
  {
  }

  lemma NextModulo(v: nat)
    requires v < COUNTER_SPAN
    ensures (v + 1) % COUNTER_SPAN == if v + 1 < COUNTER_SPAN then v + 1 else 0
  {
  }

  class RecordWriter {
    var epoch: nat
    var aead: Aead
    var lastAead: Aead
    const writeSequence: array<byte>
    const lastWriteSequence: array<byte>
    ghost var events: seq<Event>

    ghost function Repr(): set<object>
      reads this
    {
      {this, writeSequence, lastWriteSequence}
    }

    ghost predicate Valid()
      reads Repr()
    {
      && writeSequence != lastWriteSequence && writeSequence.Length == lastWriteSequence.Length == 8
      && View() == Run(events).numbers
    }

    ghost function View(): Numbers
      reads Repr()
      requires writeSequence.Length == lastWriteSequence.Length == 8
    {
      Numbers(epoch, Value(writeSequence[2..]), Value(lastWriteSequence[2..]))
    }

    constructor (initial: Aead)
      ensures Valid() && fresh(Repr()) && events == []
    {
      epoch, aead, lastAead, events := 0, initial, initial, [];
      writeSequence := new byte[8](_ => 0);
      lastWriteSequence := new byte[8](_ => 0);
      new;
      AllZeros(writeSequence[2..]);
      AllZeros(lastWriteSequence[2..]);
    }

    function WriteAead(previous: bool): Aead
      reads `aead, `lastAead
    {
      if previous then lastAead else aead
    }

    function MaxSealOverhead(previous: bool): nat
      reads `aead, `lastAead
    {
      RT_HEADER_LENGTH + WriteAead(previous).MaxOverhead()
    }

    function SealPrefixLen(previous: bool): nat
      reads `aead, `lastAead
    {
      RT_HEADER_LENGTH + WriteAead(previous).nonceLen
    }

    method Bump(previous: bool) returns (ok: bool)
      requires Valid()
      modifies writeSequence, lastWriteSequence
      ensures View() == Bumped(old(View()), previous)
      ensures ok <==> !Exhausted(old(View()), previous)
    {
      hide Power256, Value;
      SixBytes();
      ValueBound(writeSequence[2..]);
      ValueBound(lastWriteSequence[2..]);
      NextModulo(View().next);
      NextModulo(View().lastNext);
      ghost var current, last := writeSequence[2..], lastWriteSequence[2..];
      if previous {
        ok := SequenceUpdate(lastWriteSequence, 2);
        assert writeSequence[2..] == current;
      } else {
        ok := SequenceUpdate(writeSequence, 2);
        assert lastWriteSequence[2..] == last;
      }
    }

    /** Adds an event to the run. */
    ghost method Note(event: Event)
      modifies this`events
      ensures events == old(events) + [event]
      ensures Run(events) == Step(Run(old(events)), event)
      ensures event.Seal? ==> forall numbers :: Run(events).sealed == Run(old(events)).sealed + numbers ==>
                Sealing(old(events), events, numbers)
      ensures FailedSeals(events) ==
              FailedSeals(old(events)) + if Failed(event, Run(old(events)), Run(events)) then 1 else 0
    {
      RunSnoc(events, event);
      FailedSnoc(events, event);
      events := events + [event];
    }

    /** Seals `inLen` bytes into at most `maxOut`, returning the record's length and the number in its
        header. */
    method SealRecord(inLen: nat, maxOut: nat, previous: bool)
      returns (ok: bool, outLen: nat, number: (nat, nat))
      requires Valid() && (previous ==> epoch >= 1)
      modifies this`events, writeSequence, lastWriteSequence
      ensures Valid()
      ensures events == old(events) || exists crypto :: events == old(events) + [Seal(previous, crypto)]
      ensures ok ==> events == old(events) + [Seal(previous, Fits)]
      ensures maxOut >= inLen + MaxSealOverhead(previous) ==>
                FailedSeals(events) == FailedSeals(old(events)) + if ok then 0 else 1
      ensures number == old(NumberOf(View(), previous))
      ensures Sealing(old(events), events, if ok then [number] else [])
      ensures ok ==> outLen <= maxOut
      ensures ok ==>
                13 + WriteAead(previous).nonceLen + inLen <= outLen <= 13 + inLen + WriteAead(previous).MaxOverhead()
    {
      hide Run, FailedSeals, Value;
      outLen := 0;
      number := (if previous then epoch - 1 else epoch,
                 Value(if previous then lastWriteSequence[2..] else writeSequence[2..]));
      if maxOut < RT_HEADER_LENGTH {
        return false, 0, number;
      }
      var sealOk, ciphertextLen := AeadSeal(WriteAead(previous), inLen, maxOut - RT_HEADER_LENGTH);
      if !sealOk {
        Note(Seal(previous, if maxOut < inLen + MaxSealOverhead(previous) then NoRoom else Fails));
        return false, 0, number;
      }
      var crypto := if ciphertextLen >= 0x1_0000 then Overflows else Fits;
      var counterOk := Bump(previous);
      Note(Seal(previous, crypto));
      if !counterOk || ciphertextLen >= 0x1_0000 {
        return false, 0, number;
      }
      ok, outLen := true, RT_HEADER_LENGTH + ciphertextLen;
    }

    method SetWriteState(next: Aead)
      requires Valid()
      modifies this`epoch, this`aead, this`lastAead, this`events, writeSequence, lastWriteSequence
      ensures Valid() && events == old(events) + [ChangeCipher]
      ensures View() == AfterChange(old(View())) && aead == next && lastAead == old(aead)
    {
      epoch := (epoch + 1) % EPOCH_SPAN;
      forall i | 0 <= i < 8 {
        lastWriteSequence[i] := writeSequence[i];
      }
      assert lastWriteSequence[2..] == old(writeSequence[2..]);
      forall i | 0 <= i < 8 {
        writeSequence[i] := 0;
      }
      AllZeros(writeSequence[2..]);
      assert lastWriteSequence[2..] == old(writeSequence[2..]);
      lastAead, aead := aead, next;
      Note(ChangeCipher);
    }
  }

  lemma RunSnoc(events: seq<Event>, event: Event)
    ensures Run(events + [event]) == Step(Run(events), event)
  {
    assert (events + [event])[..|events|] == events;
  }

  lemma FailedSnoc(events: seq<Event>, event: Event)
    ensures FailedSeals(events + [event]) ==
            FailedSeals(events) + if Failed(event, Run(events), Run(events + [event])) then 1 else 0
  {
    assert (events + [event])[..|events|] == events;
  }
}
